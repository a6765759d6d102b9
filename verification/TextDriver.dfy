/**
  The text driver (text_driver.c): the four statement branches as they read and rewrite
  files, proved against a description in terms of file texts.
 */
module TextDriver {
  import opened CStrings
  import opened TextLexer
  import opened TextStatements
  import opened TextConstraint
  import opened TextHeader
  import opened TextStream
  import opened TextTable

  const TEMP := "fichier_temporaire.perso"

  datatype Outcome = Outcome(code: int, out: seq<Row>, files: map<string, string>)

  // ---- What a statement does to the files ----

  function RowsRead(seen: seq<string>, sep: char, n: nat): (r: seq<Row>)
    ensures |r| == |seen| && Rectangular(r, n) && forall i | 0 <= i < |r| :: r[i] == Fields(seen[i], sep, n)
  {
    seq(|seen|, i requires 0 <= i < |seen| => Fields(seen[i], sep, n))
  }

  function HeaderWord(text: string): string {
    ReadWord(text, "").0
  }

  function AfterHeader(text: string): string {
    ReadWord(text, "").1
  }

  /** The files that have a header word, on which reading it stays inside the text and does not call exit. */
  predicate Readable(text: string) {
    NulFree(text) && HeaderWord(text) != "" && HeaderDefined(HeaderWord(text))
    && match ParseHeader(HeaderWord(text))
       case Header(sep, names, count) => count == |names|
       case BadHeader => true
       case HeaderExit => false
  }

  predicate HasTable(files: map<string, string>, path: string)
    requires path in files ==> Readable(files[path])
  {
    path in files && ParseHeader(HeaderWord(files[path])).Header?
  }

  predicate CondDefined(cond: string) {
    NulFree(cond) && (cond == "*" || HasOp(cond))
  }

  /** The files and statements for which no branch leaves the bounds of an array or a string. */
  predicate ExecDefined(files: map<string, string>, path: string, s: Statement) {
    path != TEMP && (path in files ==> Readable(files[path]))
    && (HasTable(files, path) ==>
      match s
      case Select(cols, _, cond) =>
        CondDefined(cond) && (cols != ["*"] ==>
          forall c | c in cols :: c in ParseHeader(HeaderWord(files[path])).names)
      case Update(_, names, values, cond) => CondDefined(cond) && |names| == |values|
      case Insert(_, quoted) => forall v | v in quoted :: NulFree(v) && Unquote(v).Some?
      case Delete(_, cond) => CondDefined(cond))
  }

  function Unquoted(quoted: seq<string>): (r: Row)
    requires forall v | v in quoted :: Unquote(v).Some?
    ensures |r| == |quoted| && forall i | 0 <= i < |r| :: (assert quoted[i] in quoted; r[i] == Unquote(quoted[i]).value)
  {
    seq(|quoted|, i requires 0 <= i < |quoted| => assert quoted[i] in quoted; Unquote(quoted[i]).value)
  }

  function Wanted(cols: seq<string>, names: seq<string>): seq<string> {
    if cols == ["*"] then names else cols
  }

  /** The buffers that the row loop of UPDATE and DELETE sees after the header word. */
  function Seen(text: string): seq<string> {
    if AfterHeader(text) == "" then [] else Reads(AfterHeader(text), HeaderWord(text))
  }

  function SeenCleared(text: string): seq<string> {
    if AfterHeader(text) == "" then [] else ReadsCleared(AfterHeader(text))
  }

  /** The table file after the temporary file has been copied back behind a fresh header. */
  function Rewritten(names: seq<string>, sep: char, temp: string, stale: string): string {
    HeaderLine(names, sep) + Prefixed(Reads(temp, stale))
  }

  /** DELETE writes a newline after each kept row unless it was the last one read. */
  function KeptText(cols: seq<string>, rows: seq<Row>, cond: string, sep: char): string
    requires Rectangular(rows, |cols|)
  {
    var kept := Lines(Filter(cols, rows, cond, false), sep);
    if rows != [] && !Matches(cols, rows[|rows| - 1], cond) then Joined(kept) else Terminated(kept)
  }

  function RunTable(files: map<string, string>, path: string, s: Statement): Outcome
    requires ExecDefined(files, path, s) && HasTable(files, path)
  {
    var text := files[path];
    var Header(sep, names, _) := ParseHeader(HeaderWord(text));
    match s
    case Select(cols, _, cond) =>
      var hits := Filter(names, RowsRead(SeenCleared(text), sep, |names|), cond, true);
      Outcome(|hits|, ProjectAll(names, hits, Wanted(cols, names)), files)
    case Update(_, targets, values, cond) =>
      var rows := RowsRead(Seen(text), sep, |names|);
      var temp := Joined(Lines(AssignAll(names, rows, targets, values, cond), sep));
      var final := Rewritten(names, sep, temp, LastOr(Seen(text), HeaderWord(text)));
      Outcome(|Filter(names, rows, cond, true)|, [], files[path := final] - {TEMP})
    case Insert(_, quoted) =>
      Outcome(0, [], files[path := text + "\n" + RowLine(Unquoted(quoted), sep)])
    case Delete(_, cond) =>
      var rows := RowsRead(Seen(text), sep, |names|);
      var temp := KeptText(names, rows, cond, sep);
      var final := Rewritten(names, sep, temp, LastOr(Seen(text), HeaderWord(text)));
      Outcome(|Filter(names, rows, cond, true)|, [], files[path := final] - {TEMP})
  }

  /** A missing file or a bad header gives -1; UPDATE and DELETE then leave an empty temporary file behind. */
  function RunStatement(files: map<string, string>, path: string, s: Statement): Outcome
    requires ExecDefined(files, path, s)
  {
    if HasTable(files, path) then RunTable(files, path, s)
    else Outcome(-1, [], if s.Update? || s.Delete? then files[TEMP := ""] else files)
  }

  predicate RunDefined(files: map<string, string>, d: string, q: string) {
    ParseDefined(q)
    && match Parse(q)
       case None => true
       case Some(s) => ExecDefined(files, d + s.table, s)
  }

  function Run(files: map<string, string>, d: string, q: string): Outcome
    requires RunDefined(files, d, q)
  {
    match Parse(q)
    case None => Outcome(-1, [], files)
    case Some(s) => RunStatement(files, d + s.table, s)
  }

  // ---- The loops of the driver ----

  method NumChamps(big: seq<string>, small: seq<string>) returns (res: seq<int>)
    ensures |res| == |small| && forall i | 0 <= i < |small| :: res[i] == LastIndex(big, small[i])
  {
    res := [];
    var i := 0;
    while i < |small|
      invariant |res| == i <= |small|
      invariant forall k | 0 <= k < i :: res[k] == LastIndex(big, small[k])
    {
      var r := -1;
      var j := 0;
      while j < |big|
        invariant j <= |big| && r == LastIndex(big[..j], small[i])
      {
        assert big[..j + 1][..j] == big[..j];
        if big[j] == small[i] { r := j; }
        j := j + 1;
      }
      assert big[..j] == big;
      res := res + [r];
      i := i + 1;
    }
  }

  method GetResult(big: Row, num: seq<int>, ghost cols: seq<string>, ghost wanted: seq<string>) returns (result: Row)
    requires |big| == |cols| && |num| == |wanted| && forall w | w in wanted :: w in cols
    requires forall i | 0 <= i < |num| :: num[i] == LastIndex(cols, wanted[i])
    ensures result == Project(cols, big, wanted)
  {
    result := [];
    var i := 0;
    while i < |num|
      invariant i <= |num| && result == Project(cols, big, wanted)[..i]
    {
      assert wanted[i] in wanted;
      result := result + [big[num[i]]];
      i := i + 1;
    }
  }

  method Concerne(champs: seq<string>, result: Row, contrainte: string) returns (b: bool)
    requires |result| == |champs| && CondDefined(contrainte)
    ensures b == Matches(champs, result, contrainte)
  {
    if contrainte == "*" { return true; }
    var v := VerifContrainte(champs, result, |champs|, contrainte);
    return v > 0;
  }

  /** The nested loops of UPDATE that pick, for each column, the last assignment to it. */
  method Modifie(champs: seq<string>, result: Row, names: seq<string>, values: seq<string>) returns (resultat: Row)
    requires |result| == |champs| && |names| == |values|
    ensures resultat == Assign(champs, result, names, values)
  {
    hide LastIndex;
    var numCh := NumChamps(champs, names);
    resultat := [];
    var i := 0;
    while i < |champs|
      invariant i <= |champs| && resultat == Assign(champs, result, names, values)[..i]
    {
      var modifie := -1;
      var j := 0;
      while j < |names|
        invariant j <= |names| && modifie == LastAssignment(champs, names[..j], i)
      {
        assert names[..j + 1][..j] == names[..j];
        if numCh[j] == i { modifie := j; }
        j := j + 1;
      }
      assert names[..j] == names;
      if modifie == -1 {
        resultat := resultat + [result[i]];
      } else {
        resultat := resultat + [values[modifie]];
      }
      i := i + 1;
    }
  }

  method PrintRow(disk: Disk, name: string, row: Row, sep: char)
    requires name in disk.files
    modifies disk
    ensures disk.files == old(disk.files)[name := old(disk.files)[name] + RowLine(row, sep)]
  {
    var i := 0;
    ghost var before := disk.files[name];
    assert before + "" == before;
    while i < |row|
      invariant i <= |row| && disk.files == old(disk.files)[name := before + RowLine(row[..i], sep)]
    {
      assert row[..i + 1][..i] == row[..i];
      assert before + RowLine(row[..i], sep) + (row[i] + [sep]) == before + (RowLine(row[..i], sep) + row[i] + [sep]);
      disk.Fprintf(name, row[i] + [sep]);
      i := i + 1;
    }
    assert row[..i] == row;
  }

  /** A row of the temporary file: a newline follows unless the row was read at the end of the table file. */
  method PrintLine(disk: Disk, row: Row, sep: char, eof: bool)
    requires TEMP in disk.files
    modifies disk
    ensures disk.files ==
      old(disk.files)[TEMP := old(disk.files)[TEMP] + RowLine(row, sep) + if eof then "" else "\n"]
  {
    hide RowLine;
    PrintRow(disk, TEMP, row, sep);
    if !eof {
      disk.Fprintf(TEMP, "\n");
    } else {
      assert disk.files[TEMP] + "" == disk.files[TEMP];
    }
  }

  lemma {:induction false} HeaderLineAppend(names: seq<string>, name: string, sep: char)
    ensures HeaderLine(names + [name], sep) == HeaderLine(names, sep) + Group(name, sep)
  {
    hide Group;
    if names == [] {
      assert [name][1..] == [];
      assert Group(name, sep) + "" == "" + Group(name, sep);
    } else {
      assert (names + [name])[1..] == names[1..] + [name];
      HeaderLineAppend(names[1..], name, sep);
    }
  }

  method PrintHeader(disk: Disk, name: string, champs: seq<string>, sep: char)
    requires name in disk.files
    modifies disk
    ensures disk.files == old(disk.files)[name := old(disk.files)[name] + HeaderLine(champs, sep)]
  {
    hide Group;
    var i := 0;
    ghost var before := disk.files[name];
    assert before + "" == before;
    while i < |champs|
      invariant i <= |champs| && disk.files == old(disk.files)[name := before + HeaderLine(champs[..i], sep)]
    {
      assert champs[..i + 1] == champs[..i] + [champs[i]];
      HeaderLineAppend(champs[..i], champs[i], sep);
      assert before + HeaderLine(champs[..i], sep) + Group(champs[i], sep)
        == before + (HeaderLine(champs[..i], sep) + Group(champs[i], sep));
      disk.Fprintf(name, Group(champs[i], sep));
      i := i + 1;
    }
    assert champs[..i] == champs;
  }

  /** The copy-back loop: every buffer seen in the temporary file, stale ones included. */
  method CopyBack(disk: Disk, path: string, stale: string)
    requires path in disk.files && TEMP in disk.files && path != TEMP
    modifies disk
    ensures disk.files == old(disk.files)[path := old(disk.files)[path] + Prefixed(Reads(old(disk.files)[TEMP], stale))]
  {
    hide Reads, Prefixed, ReadWord, Remaining;
    var ftemp := new Stream(disk.files[TEMP]);
    var buffer := stale;
    ghost var base := disk.files;
    ghost var all := Reads(base[TEMP], stale);
    ghost var seen: seq<string> := [];
    ghost var cur := base[path];
    PrefixedNothing(cur);
    RemainingStart(base[TEMP], stale);
    while !ftemp.eof
      invariant ftemp.Valid() && fresh(ftemp)
      invariant all == seen + Remaining(ftemp.eof, ftemp.Rest(), buffer)
      invariant cur == base[path] + Prefixed(seen)
      invariant disk.files == base[path := cur]
      invariant ftemp.eof ==> ftemp.Rest() == ""
      decreases |ftemp.Rest()| + if ftemp.eof then 0 else 1
    {
      RemainingStep(seen, ftemp.Rest(), buffer);
      buffer := ftemp.Fscanf(buffer);
      var line := "\n" + buffer;
      PrefixedStep(base[path], seen, buffer);
      MapOverwrite(base, path, cur, cur + line);
      disk.Fprintf(path, line);
      cur := cur + line;
      seen := seen + [buffer];
    }
    NothingRemainsAfter(ftemp.Rest(), buffer);
    assert seen == all;
  }

  /** What a read loop is still going to see. */
  function Remaining(eof: bool, rest: string, buffer: string): seq<string> {
    if eof then [] else Reads(rest, buffer)
  }

  lemma RemainingStart(s: string, buffer: string)
    ensures [] + Remaining(false, s, buffer) == Reads(s, buffer)
  {
  }

  lemma RemainingStep(seen: seq<string>, rest: string, buffer: string)
    ensures var (b, rest') := ReadWord(rest, buffer);
      seen + Remaining(false, rest, buffer) == seen + [b] + Remaining(rest' == "", rest', b)
      && |rest'| <= |rest| && (rest != "" ==> |rest'| < |rest|)
  {
    ReadsStep(rest, buffer);
    ReadWordShrinks(rest, buffer);
    hide Reads, ReadWord;
    var (b, rest') := ReadWord(rest, buffer);
    AppendAssoc(seen, b, Remaining(rest' == "", rest', b));
  }

  lemma AppendAssoc(seen: seq<string>, b: string, tail: seq<string>)
    ensures seen + ([b] + tail) == seen + [b] + tail
  {
  }

  lemma PrefixedStep(before: string, seen: seq<string>, line: string)
    ensures before + Prefixed(seen) + ("\n" + line) == before + Prefixed(seen + [line])
  {
    hide Prefixed;
    PrefixedAppend(seen, line);
    assert before + Prefixed(seen) + ("\n" + line) == before + (Prefixed(seen) + "\n" + line);
  }

  lemma MapOverwrite(m: map<string, string>, k: string, a: string, b: string)
    ensures m[k := a][k := b] == m[k := b]
  {
  }

  lemma PrefixedNothing(before: string)
    ensures before + Prefixed([]) == before
  {
  }

  lemma ReadWordShrinks(s: string, buffer: string)
    ensures |ReadWord(s, buffer).1| <= |s|
    ensures s != "" ==> |ReadWord(s, buffer).1| < |s|
  {
  }

  lemma RowsReadAppend(seen: seq<string>, b: string, sep: char, n: nat)
    ensures RowsRead(seen + [b], sep, n) == RowsRead(seen, sep, n) + [Fields(b, sep, n)]
  {
  }

  // ---- SELECT ----

  /** The rows handed to the callback after the buffers in `seen`. */
  function Answer(names: seq<string>, seen: seq<string>, sep: char, cond: string, wanted: seq<string>): seq<Row>
    requires forall w | w in wanted :: w in names
  {
    ProjectAll(names, Filter(names, RowsRead(seen, sep, |names|), cond, true), wanted)
  }

  lemma AnswerStep(names: seq<string>, seen: seq<string>, sep: char, cond: string, wanted: seq<string>, b: string)
    requires forall w | w in wanted :: w in names
    ensures Answer(names, [], sep, cond, wanted) == []
    ensures var row := Fields(b, sep, |names|);
      Answer(names, seen + [b], sep, cond, wanted) == Answer(names, seen, sep, cond, wanted)
        + if Matches(names, row, cond) then [Project(names, row, wanted)] else []
  {
    hide Matches, Fields;
    RowsReadAppend(seen, b, sep, |names|);
    FilterAppend(names, RowsRead(seen, sep, |names|), Fields(b, sep, |names|), cond, true);
  }

  function RemainingCleared(eof: bool, rest: string): seq<string> {
    if eof then [] else ReadsCleared(rest)
  }

  lemma RemainingClearedStep(seen: seq<string>, rest: string)
    ensures var (b, rest') := ReadWord(rest, "");
      seen + RemainingCleared(false, rest) == seen + [b] + RemainingCleared(rest' == "", rest')
      && |rest'| <= |rest| && (rest != "" ==> |rest'| < |rest|)
  {
    ReadsStep(rest, "");
    ReadWordShrinks(rest, "");
    hide ReadsCleared, ReadWord;
    var (b, rest') := ReadWord(rest, "");
    AppendAssoc(seen, b, RemainingCleared(rest' == "", rest'));
  }

  method ExecSelect(disk: Disk, path: string, s: Statement) returns (code: int, out: seq<Row>)
    requires s.Select? && ExecDefined(disk.files, path, s)
    ensures Outcome(code, out, disk.files) == RunStatement(disk.files, path, s)
  {
    hide Filter, Fields, ReadsCleared, Matches, ReadWord, HeaderDefined, ParseHeader, CondDefined;
    if path !in disk.files { return -1, []; }
    var f := new Stream(disk.files[path]);
    var buffer := f.Fscanf("");
    var entete := TraitEntete(buffer);
    if !entete.Header? { return -1, []; }
    var Header(sep, champs, nbreCh) := entete;
    code, out := SelectRows(f, champs, sep, s.cond, Wanted(s.cols, champs));
  }

  method SelectRows(f: Stream, champs: seq<string>, sep: char, cond: string, wanted: seq<string>)
    returns (nbreTotal: int, out: seq<Row>)
    requires f.Valid() && (f.eof <==> f.Rest() == "") && NulFree(f.text)
    requires sep != '\0' && CondDefined(cond) && forall w | w in wanted :: w in champs
    modifies f
    ensures out == Answer(champs, RemainingCleared(old(f.eof), old(f.Rest())), sep, cond, wanted) && nbreTotal == |out|
  {
    hide Answer, Fields, RemainingCleared, Matches, ReadWord, CondDefined;
    ghost var all := RemainingCleared(f.eof, f.Rest());
    ghost var seen: seq<string> := [];
    out := [];
    nbreTotal := 0;
    AnswerStep(champs, [], sep, cond, wanted, "");
    while !f.eof
      invariant f.Valid() && (f.eof <==> f.Rest() == "")
      invariant all == seen + RemainingCleared(f.eof, f.Rest())
      invariant out == Answer(champs, seen, sep, cond, wanted) && nbreTotal == |out|
      decreases |f.Rest()|
    {
      RemainingClearedStep(seen, f.Rest());
      var buffer := f.Fscanf("");
      AnswerStep(champs, seen, sep, cond, wanted, buffer);
      var result := GetValeurs(buffer, sep, |champs|);
      var concerne := Concerne(champs, result, cond);
      if concerne {
        var numCh := NumChamps(champs, wanted);
        var resultat := GetResult(result, numCh, champs, wanted);
        out := out + [resultat];
        nbreTotal := nbreTotal + 1;
      }
      seen := seen + [buffer];
    }
    assert RemainingCleared(f.eof, f.Rest()) == [] by { NothingRemains(f.Rest()); }
    assert seen == all;
  }

  lemma NothingRemains(rest: string)
    ensures RemainingCleared(true, rest) == [] && Remaining(true, rest, "") == []
  {
  }

  // ---- UPDATE ----

  /** The lines that UPDATE prints after the buffers in `seen`. */
  function UpdatedLines(names: seq<string>, seen: seq<string>, sep: char,
                        targets: seq<string>, values: seq<string>, cond: string): seq<string>
    requires |targets| == |values|
  {
    Lines(AssignAll(names, RowsRead(seen, sep, |names|), targets, values, cond), sep)
  }

  function Hits(names: seq<string>, seen: seq<string>, sep: char, cond: string): nat {
    |Filter(names, RowsRead(seen, sep, |names|), cond, true)|
  }

  /** Printed lines, the last without its newline when it was read at the end of the file. */
  function TempText(lines: seq<string>, eof: bool): string {
    if eof then Joined(lines) else Terminated(lines)
  }

  lemma HitsStep(names: seq<string>, seen: seq<string>, sep: char, cond: string, b: string)
    ensures Hits(names, [], sep, cond) == 0
    ensures Hits(names, seen + [b], sep, cond)
      == Hits(names, seen, sep, cond) + if Matches(names, Fields(b, sep, |names|), cond) then 1 else 0
  {
    hide Matches, Fields;
    RowsReadAppend(seen, b, sep, |names|);
    FilterAppend(names, RowsRead(seen, sep, |names|), Fields(b, sep, |names|), cond, true);
  }

  lemma UpdatedStep(names: seq<string>, seen: seq<string>, sep: char,
                    targets: seq<string>, values: seq<string>, cond: string, b: string)
    requires |targets| == |values|
    ensures UpdatedLines(names, seen + [b], sep, targets, values, cond)
      == UpdatedLines(names, seen, sep, targets, values, cond)
         + [RowLine(AssignIf(names, Fields(b, sep, |names|), targets, values, cond), sep)]
  {
    hide AssignIf, Fields, RowLine;
    RowsReadAppend(seen, b, sep, |names|);
  }

  lemma TempTextStep(lines: seq<string>, line: string, eof: bool)
    ensures TempText(lines + [line], eof) == Terminated(lines) + line + (if eof then "" else "\n")
    ensures TempText([], eof) == ""
  {
    TerminatedAppend(lines, line);
    assert Terminated(lines) + line + "" == Terminated(lines) + line;
  }

  method UpdateRows(disk: Disk, f: Stream, champs: seq<string>, sep: char, names: seq<string>, values: seq<string>,
                    cond: string, stale: string) returns (nbreTotal: int, buffer: string)
    requires f.Valid() && (f.eof <==> f.Rest() == "") && NulFree(f.text) && NulFree(stale)
    requires sep != '\0' && CondDefined(cond) && |names| == |values|
    requires TEMP in disk.files && disk.files[TEMP] == ""
    modifies f, disk
    ensures var all := Remaining(old(f.eof), old(f.Rest()), stale);
      && nbreTotal == Hits(champs, all, sep, cond) && buffer == LastOr(all, stale)
      && disk.files == old(disk.files)[TEMP := Joined(UpdatedLines(champs, all, sep, names, values, cond))]
  {
    hide UpdatedLines, Hits, TempText, Joined, Terminated, Fields, Remaining, Matches, ReadWord, CondDefined,
         RowLine, Assign;
    ghost var all := Remaining(f.eof, f.Rest(), stale);
    ghost var seen: seq<string> := [];
    ghost var base := disk.files;
    ghost var lines: seq<string> := [];
    ghost var cur := "";
    nbreTotal := 0;
    buffer := stale;
    UpdateStart(champs, sep, names, values, cond, f.eof);
    while !f.eof
      invariant f.Valid() && (f.eof <==> f.Rest() == "") && NulFree(buffer)
      invariant all == seen + Remaining(f.eof, f.Rest(), buffer)
      invariant buffer == LastOr(seen, stale) && nbreTotal == Hits(champs, seen, sep, cond)
      invariant lines == UpdatedLines(champs, seen, sep, names, values, cond) && cur == TempText(lines, f.eof)
      invariant disk.files == base[TEMP := cur]
      decreases |f.Rest()|
    {
      RemainingStep(seen, f.Rest(), buffer);
      buffer := f.Fscanf(buffer);
      HitsStep(champs, seen, sep, cond, buffer);
      UpdatedStep(champs, seen, sep, names, values, cond, buffer);
      var row := GetValeurs(buffer, sep, |champs|);
      var concerne := Concerne(champs, row, cond);
      if concerne {
        row := Modifie(champs, row, names, values);
        nbreTotal := nbreTotal + 1;
      }
      TempTextStep(lines, RowLine(row, sep), f.eof);
      assert TempText(lines, false) == Terminated(lines) by { TempTextIs(lines); }
      PrintLine(disk, row, sep, f.eof);
      cur := cur + RowLine(row, sep) + if f.eof then "" else "\n";
      lines := lines + [RowLine(row, sep)];
      seen := seen + [buffer];
    }
    NothingRemainsAfter(f.Rest(), buffer);
    assert seen == all;
    TempTextIs(lines);
  }

  lemma UpdateStart(names: seq<string>, sep: char, targets: seq<string>, values: seq<string>, cond: string, eof: bool)
    requires |targets| == |values|
    ensures UpdatedLines(names, [], sep, targets, values, cond) == [] && Hits(names, [], sep, cond) == 0
    ensures TempText([], eof) == ""
  {
  }

  lemma TempTextIs(lines: seq<string>)
    ensures TempText(lines, false) == Terminated(lines) && TempText(lines, true) == Joined(lines)
  {
  }

  lemma NothingRemainsAfter(rest: string, buffer: string)
    ensures Remaining(true, rest, buffer) == []
  {
  }

  method ExecUpdate(disk: Disk, path: string, s: Statement) returns (code: int, out: seq<Row>)
    requires s.Update? && ExecDefined(disk.files, path, s)
    modifies disk
    ensures Outcome(code, out, disk.files) == RunStatement(old(disk.files), path, s)
  {
    hide Filter, Fields, Reads, Matches, ReadWord, HeaderDefined, ParseHeader, CondDefined, RowLine, Assign,
         Joined, AssignAll, HeaderLine, Prefixed;
    ghost var base := disk.files;
    out := [];
    if path !in disk.files {
      disk.Create(TEMP);
      return -1, [];
    }
    var f := new Stream(disk.files[path]);
    disk.Create(TEMP);
    var buffer := f.Fscanf("");
    var entete := TraitEntete(buffer);
    if !entete.Header? { return -1, []; }
    var Header(sep, champs, nbreCh) := entete;
    code, buffer := UpdateRows(disk, f, champs, sep, s.names, s.values, s.cond, buffer);
    disk.Create(path);
    PrintHeader(disk, path, champs, sep);
    ghost var temp := disk.files[TEMP];
    CopyBack(disk, path, buffer);
    disk.Unlink(TEMP);
    RewrittenMap(base, path, temp, HeaderLine(champs, sep), Prefixed(Reads(temp, buffer)));
  }

  lemma RewrittenMap(base: map<string, string>, path: string, temp: string, header: string, body: string)
    requires path != TEMP
    ensures base[TEMP := ""][TEMP := temp][path := ""][path := "" + header][path := header + body] - {TEMP}
      == base[path := header + body] - {TEMP}
    ensures "" + header == header
  {
  }

  // ---- INSERT ----

  method ExecInsert(disk: Disk, path: string, s: Statement) returns (code: int, out: seq<Row>)
    requires s.Insert? && ExecDefined(disk.files, path, s)
    modifies disk
    ensures Outcome(code, out, disk.files) == RunStatement(old(disk.files), path, s)
  {
    hide ReadWord, HeaderDefined, ParseHeader, Unquote, RowLine;
    out := [];
    if path !in disk.files { return -1, []; }
    var f := new Stream(disk.files[path]);
    var buffer := f.Fscanf("");
    var entete := TraitEntete(buffer);
    if !entete.Header? { return -1, []; }
    disk.Fprintf(path, "\n");
    ghost var before := disk.files[path];
    ghost var row := Unquoted(s.quoted);
    ghost var base := disk.files;
    var i := 0;
    RowLineNothing(before, row, entete.sep);
    while i < |s.quoted|
      invariant i <= |s.quoted| && disk.files == base[path := before + RowLine(row[..i], entete.sep)]
    {
      assert s.quoted[i] in s.quoted;
      var v := Enleve(s.quoted[i]);
      RowLineStep(before, row, i, entete.sep);
      MapOverwrite(base, path, before + RowLine(row[..i], entete.sep), before + RowLine(row[..i + 1], entete.sep));
      disk.Fprintf(path, v.value + [entete.sep]);
      i := i + 1;
    }
    assert row[..i] == row;
    return 0, [];
  }

  lemma RowLineNothing(before: string, row: Row, sep: char)
    ensures before + RowLine(row[..0], sep) == before
  {
  }

  lemma RowLineStep(before: string, row: Row, i: nat, sep: char)
    requires i < |row|
    ensures before + RowLine(row[..i], sep) + (row[i] + [sep]) == before + RowLine(row[..i + 1], sep)
  {
    assert row[..i + 1][..i] == row[..i];
    assert before + RowLine(row[..i], sep) + (row[i] + [sep]) == before + (RowLine(row[..i], sep) + row[i] + [sep]);
  }

  // ---- DELETE ----

  function KeptLines(names: seq<string>, seen: seq<string>, sep: char, cond: string): seq<string> {
    Lines(Filter(names, RowsRead(seen, sep, |names|), cond, false), sep)
  }

  /** What DELETE has printed after the buffers in `seen`, the last one read at the end of the file or not. */
  function KeptSoFar(names: seq<string>, seen: seq<string>, sep: char, cond: string, eof: bool): string {
    var kept := KeptLines(names, seen, sep, cond);
    if eof && seen != [] && !Matches(names, Fields(seen[|seen| - 1], sep, |names|), cond) then Joined(kept)
    else Terminated(kept)
  }

  lemma KeptStep(names: seq<string>, seen: seq<string>, sep: char, cond: string, b: string, eof: bool)
    ensures var row := Fields(b, sep, |names|);
      KeptSoFar(names, seen + [b], sep, cond, eof) ==
        if Matches(names, row, cond) then KeptSoFar(names, seen, sep, cond, false)
        else KeptSoFar(names, seen, sep, cond, false) + RowLine(row, sep) + (if eof then "" else "\n")
    ensures KeptSoFar(names, [], sep, cond, eof) == ""
  {
    hide Matches, Fields, RowLine, Joined, Terminated;
    var row := Fields(b, sep, |names|);
    RowsReadAppend(seen, b, sep, |names|);
    FilterAppend(names, RowsRead(seen, sep, |names|), row, cond, false);
    var kept := KeptLines(names, seen, sep, cond);
    KeptEmpty(names, sep, cond, eof);
    if !Matches(names, row, cond) {
      assert KeptLines(names, seen + [b], sep, cond) == kept + [RowLine(row, sep)];
      TerminatedAppend(kept, RowLine(row, sep));
    } else {
      assert KeptLines(names, seen + [b], sep, cond) == kept;
    }
  }

  lemma KeptEmpty(names: seq<string>, sep: char, cond: string, eof: bool)
    ensures KeptSoFar(names, [], sep, cond, eof) == ""
  {
  }

  lemma KeptAtEnd(names: seq<string>, seen: seq<string>, sep: char, cond: string)
    ensures KeptSoFar(names, seen, sep, cond, true) == KeptText(names, RowsRead(seen, sep, |names|), cond, sep)
  {
    hide Matches, Fields, Joined, Terminated, Filter;
  }

  method DeleteRows(disk: Disk, f: Stream, champs: seq<string>, sep: char, cond: string, stale: string)
    returns (nbreTotal: int, buffer: string)
    requires f.Valid() && (f.eof <==> f.Rest() == "") && NulFree(f.text) && NulFree(stale)
    requires sep != '\0' && CondDefined(cond)
    requires TEMP in disk.files && disk.files[TEMP] == ""
    modifies f, disk
    ensures var all := Remaining(old(f.eof), old(f.Rest()), stale);
      && nbreTotal == Hits(champs, all, sep, cond) && buffer == LastOr(all, stale)
      && disk.files == old(disk.files)[TEMP := KeptText(champs, RowsRead(all, sep, |champs|), cond, sep)]
  {
    hide KeptSoFar, KeptText, Hits, Fields, Remaining, Matches, ReadWord, CondDefined, RowLine;
    ghost var all := Remaining(f.eof, f.Rest(), stale);
    ghost var seen: seq<string> := [];
    ghost var base := disk.files;
    ghost var cur := "";
    nbreTotal := 0;
    buffer := stale;
    HitsStep(champs, [], sep, cond, "");
    KeptStep(champs, [], sep, cond, "", f.eof);
    while !f.eof
      invariant f.Valid() && (f.eof <==> f.Rest() == "") && NulFree(buffer)
      invariant all == seen + Remaining(f.eof, f.Rest(), buffer)
      invariant buffer == LastOr(seen, stale) && nbreTotal == Hits(champs, seen, sep, cond)
      invariant cur == KeptSoFar(champs, seen, sep, cond, f.eof)
      invariant disk.files == base[TEMP := cur]
      decreases |f.Rest()|
    {
      RemainingStep(seen, f.Rest(), buffer);
      buffer := f.Fscanf(buffer);
      HitsStep(champs, seen, sep, cond, buffer);
      KeptStep(champs, seen, sep, cond, buffer, f.eof);
      var row := GetValeurs(buffer, sep, |champs|);
      var concerne := Concerne(champs, row, cond);
      if concerne {
        nbreTotal := nbreTotal + 1;
      } else {
        PrintLine(disk, row, sep, f.eof);
        cur := cur + RowLine(row, sep) + if f.eof then "" else "\n";
      }
      seen := seen + [buffer];
    }
    NothingRemainsAfter(f.Rest(), buffer);
    assert seen == all;
    KeptAtEnd(champs, seen, sep, cond);
  }

  method ExecDelete(disk: Disk, path: string, s: Statement) returns (code: int, out: seq<Row>)
    requires s.Delete? && ExecDefined(disk.files, path, s)
    modifies disk
    ensures Outcome(code, out, disk.files) == RunStatement(old(disk.files), path, s)
  {
    hide Filter, Fields, Reads, Matches, ReadWord, HeaderDefined, ParseHeader, CondDefined, KeptText, HeaderLine,
         Prefixed;
    ghost var base := disk.files;
    out := [];
    if path !in disk.files {
      disk.Create(TEMP);
      return -1, [];
    }
    var f := new Stream(disk.files[path]);
    disk.Create(TEMP);
    var buffer := f.Fscanf("");
    var entete := TraitEntete(buffer);
    if !entete.Header? { return -1, []; }
    var Header(sep, champs, nbreCh) := entete;
    code, buffer := DeleteRows(disk, f, champs, sep, s.cond, buffer);
    disk.Create(path);
    PrintHeader(disk, path, champs, sep);
    ghost var temp := disk.files[TEMP];
    CopyBack(disk, path, buffer);
    disk.Unlink(TEMP);
    RewrittenMap(base, path, temp, HeaderLine(champs, sep), Prefixed(Reads(temp, buffer)));
  }

  /** text_driver: a keyword anywhere in the query picks the branch. */
  method Execute(disk: Disk, d: string, q: string) returns (code: int, out: seq<Row>)
    requires RunDefined(disk.files, d, q)
    modifies disk
    ensures Outcome(code, out, disk.files) == Run(old(disk.files), d, q)
  {
    hide Find, Contains, ParseSelect, ParseUpdate, ParseInsert, ParseDelete, SkipBlanks, InsertDefined, DeleteDefined,
         ExecDefined, RunStatement;
    ParsedKinds(q);
    if Contains(q, "select") {
      var query := TraitSelect(q);
      if query.None? { return -1, []; }
      code, out := ExecSelect(disk, d + query.value.table, query.value);
    } else if Contains(q, "update") {
      var uquery := TraitUpdate(q);
      if uquery.None? { return -1, []; }
      code, out := ExecUpdate(disk, d + uquery.value.table, uquery.value);
    } else if Contains(q, "insert") {
      var iquery := TraitInsert(q);
      if iquery.None? { return -1, []; }
      code, out := ExecInsert(disk, d + iquery.value.table, iquery.value);
    } else if Contains(q, "delete") {
      var dquery := TraitDelete(q);
      if dquery.None? { return -1, []; }
      code, out := ExecDelete(disk, d + dquery.value.table, dquery.value);
    } else {
      return -1, [];
    }
  }

  lemma ParsedKinds(q: string)
    ensures ParseSelect(q).Some? ==> ParseSelect(q).value.Select?
    ensures ParseUpdate(q).Some? ==> ParseUpdate(q).value.Update?
    ensures InsertDefined(q) && ParseInsert(q).Some? ==> ParseInsert(q).value.Insert?
    ensures ParseDelete(q).Some? ==> ParseDelete(q).value.Delete?
  {
    hide Find, AfterKeyword, Split, NoBlanks, Cut, TableAndCond, Assignments, InParentheses;
  }
}
