/**
  The text driver refines statements on tables.  `Apply` is the exact effect of one statement
  on a table, the doubled or resurrected row of the copy-back loop included; `Intended` is
  what the statement is meant to do.
 */
module TextRefinement {
  import opened CStrings
  import opened TextLexer
  import opened TextStatements
  import opened TextHeader
  import opened TextStream
  import opened TextTable
  import opened TextDriver

  datatype Effect = Effect(code: int, out: seq<Row>, table: Table)

  /** What the statement needs from the columns and the separator of its table. */
  predicate Fits(cols: seq<string>, sep: char, s: Statement) {
    match s
    case Select(wanted, _, cond) => CondDefined(cond) && (wanted != ["*"] ==> forall c | c in wanted :: c in cols)
    case Update(_, names, values, cond) =>
      CondDefined(cond) && |names| == |values| && forall v | v in values :: ValidField(v, sep)
    case Insert(_, quoted) =>
      quoted != [] && forall v | v in quoted :: NulFree(v) && Unquote(v).Some? && ValidField(Unquote(v).value, sep)
    case Delete(_, cond) => CondDefined(cond)
  }

  /** The header line, taken for a row. */
  function HeaderRow(cols: seq<string>): (r: Row)
    ensures |r| == |cols| && forall i | 0 <= i < |r| :: r[i] == "{" + cols[i] + "}"
  {
    seq(|cols|, i requires 0 <= i < |cols| => "{" + cols[i] + "}")
  }

  predicate LastMatches(t: Table, cond: string) {
    t.rows != [] && Matches(t.cols, Fit(t.rows[|t.rows| - 1], |t.cols|), cond)
  }

  /**
    The exact effect.  When the temporary file is empty or ends in a newline, the copy-back
    loop writes the stale buffer once more: the last kept row, else the last row of the old
    file, else the header.
   */
  function Apply(t: Table, s: Statement): (e: Effect)
    requires Fits(t.cols, t.sep, s)
    ensures e.table.cols == t.cols && e.table.sep == t.sep
  {
    var rows := Fitted(t.rows, |t.cols|);
    match s
    case Select(wanted, _, cond) =>
      var hits := Filter(t.cols, rows, cond, true);
      Effect(|hits|, ProjectAll(t.cols, hits, Wanted(wanted, t.cols)), t)
    case Update(_, names, values, cond) =>
      var after := if rows == [] then [HeaderRow(t.cols)] else AssignAll(t.cols, rows, names, values, cond);
      Effect(|Filter(t.cols, rows, cond, true)|, [], t.(rows := after))
    case Insert(_, quoted) => Effect(0, [], t.(rows := t.rows + [Unquoted(quoted)]))
    case Delete(_, cond) =>
      var kept := Filter(t.cols, rows, cond, false);
      var stale := LastOr(kept, LastOr(t.rows, HeaderRow(t.cols)));
      var after := if t.rows != [] && !LastMatches(t, cond) then kept else kept + [stale];
      Effect(|Filter(t.cols, rows, cond, true)|, [], t.(rows := after))
  }

  // ---- Printed rows are read back ----

  lemma {:induction false} RowLineFront(row: Row, sep: char)
    requires row != []
    ensures RowLine(row, sep) == row[0] + [sep] + RowLine(row[1..], sep)
    decreases |row|
  {
    var k := |row| - 1;
    if k > 0 {
      RowLineFront(row[..k], sep);
      RowLineLast(row, sep);
      RowLineLast(row[1..], sep);
      hide RowLine;
      assert row[..k][1..] == row[1..][..k - 1];
      FrontAssoc(row[0] + [sep], RowLine(row[1..][..k - 1], sep), row[k], [sep]);
    } else {
      assert "" + row[0] + [sep] == row[0] + [sep] + "";
    }
  }

  lemma FrontAssoc(a: string, b: string, c: string, d: string)
    ensures a + b + c + d == a + (b + c + d)
  {
  }

  lemma RowLineLast(row: Row, sep: char)
    requires row != []
    ensures RowLine(row, sep) == RowLine(row[..|row| - 1], sep) + row[|row| - 1] + [sep]
  {
  }

  lemma {:induction false} RowLineSplit(row: Row, sep: char)
    requires forall f | f in row :: ValidField(f, sep)
    requires !IsWhite(sep) && sep != '\0'
    ensures Split(RowLine(row, sep), sep) == row + [""]
    ensures NulFree(RowLine(row, sep)) && forall c | c in RowLine(row, sep) :: !IsWhite(c)
  {
    hide IsWhite;
    if row != [] {
      RowLineFront(row, sep);
      RowLineSplit(row[1..], sep);
      assert row[0] in row;
      SplitPiece(row[0], sep, RowLine(row[1..], sep));
    }
  }

  /** A printed row is one word, and reading it gives the row cut or padded to the column count. */
  lemma RowRoundTrip(row: Row, sep: char, n: nat)
    requires ValidRow(row, sep) && !IsWhite(sep) && sep != '\0'
    ensures IsWord(RowLine(row, sep)) && Fields(RowLine(row, sep), sep, n) == Fit(row, n)
  {
    RowLineSplit(row, sep);
    RowLineFront(row, sep);
    assert ' ' !in RowLine(row, sep);
    NoBlanksSame(RowLine(row, sep));
  }

  lemma LinesReadBack(t: Table)
    requires ValidTable(t)
    ensures AreWords(Lines(t.rows, t.sep))
    ensures RowsRead(Lines(t.rows, t.sep), t.sep, |t.cols|) == Fitted(t.rows, |t.cols|)
  {
    hide RowLine, Fields, ValidRow, IsWord;
    var lines := Lines(t.rows, t.sep);
    forall i | 0 <= i < |lines|
      ensures IsWord(lines[i]) && Fields(lines[i], t.sep, |t.cols|) == Fit(t.rows[i], |t.cols|)
    {
      RowRoundTrip(t.rows[i], t.sep, |t.cols|);
    }
  }

  lemma {:induction false} HeaderLineWord(cols: seq<string>, sep: char)
    requires ValidNames(cols, sep) && !IsWhite(sep) && forall n | n in cols :: forall c | c in n :: !IsWhite(c)
    ensures IsWord(HeaderLine(cols, sep)) && HeaderLine(cols, sep) == RowLine(HeaderRow(cols), sep)
    ensures ValidRow(HeaderRow(cols), sep)
  {
    var row := HeaderRow(cols);
    forall f | f in row ensures ValidField(f, sep) {
      var i :| 0 <= i < |row| && row[i] == f;
      assert cols[i] in cols;
    }
    RowRoundTrip(row, sep, 0);
    HeaderLineIsRow(cols, sep);
  }

  lemma {:induction false} HeaderLineIsRow(cols: seq<string>, sep: char)
    ensures HeaderLine(cols, sep) == RowLine(HeaderRow(cols), sep)
  {
    if cols != [] {
      HeaderLineIsRow(cols[1..], sep);
      RowLineFront(HeaderRow(cols), sep);
      assert HeaderRow(cols)[1..] == HeaderRow(cols[1..]);
    }
  }

  lemma {:induction false} NulFreeCanon(lines: seq<string>)
    requires forall l | l in lines :: NulFree(l)
    ensures NulFree(Prefixed(lines))
  {
    if lines != [] {
      NulFreeCanon(lines[1..]);
      assert NulFree(lines[0]);
    }
  }

  lemma PrefixedStartsWhite(lines: seq<string>)
    ensures Prefixed(lines) != "" ==> IsWhite(Prefixed(lines)[0])
    ensures Prefixed(lines) == "" <==> lines == []
  {
  }

  /** A canonical file is read as its header and its rows, and the parsed header is the table's. */
  lemma CanonRead(t: Table)
    requires ValidTable(t)
    ensures var text := Canon(t);
      && Readable(text) && ParseHeader(HeaderWord(text)) == Header(t.sep, t.cols, |t.cols|)
      && HeaderWord(text) == HeaderLine(t.cols, t.sep) && AfterHeader(text) == Prefixed(Lines(t.rows, t.sep))
      && Seen(text) == Lines(t.rows, t.sep) && SeenCleared(text) == Lines(t.rows, t.sep)
  {
    hide RowLine, HeaderLine, Prefixed, ParseHeader, ReadWord, Reads, ReadsCleared;
    var lines := Lines(t.rows, t.sep);
    HeaderLineWord(t.cols, t.sep);
    HeaderRoundTrip(t.cols, t.sep);
    LinesReadBack(t);
    PrefixedStartsWhite(lines);
    ReadWordFront(HeaderLine(t.cols, t.sep), Prefixed(lines), "");
    if lines != [] { ReadsPrefixed(lines, HeaderLine(t.cols, t.sep)); }
    CanonNulFree(t);
  }

  lemma CanonNulFree(t: Table)
    requires ValidTable(t)
    ensures NulFree(Canon(t))
  {
    hide RowLine, HeaderLine, Prefixed;
    forall l | l in Lines(t.rows, t.sep) ensures NulFree(l) {
      var i :| 0 <= i < |t.rows| && RowLine(t.rows[i], t.sep) == l;
      assert t.rows[i] in t.rows;
      RowLineSplit(t.rows[i], t.sep);
    }
    NulFreeCanon(Lines(t.rows, t.sep));
    ReadGroupsOfLine(t.cols, t.sep);
  }

  // ---- One statement ----

  predicate SameBut(files: map<string, string>, files': map<string, string>, path: string, text: string) {
    files' - {TEMP} == files[path := text] - {TEMP}
  }

  lemma AssignAllValid(t: Table, names: seq<string>, values: seq<string>, cond: string)
    requires ValidTable(t) && t.cols != [] && |names| == |values|
    requires forall v | v in values :: ValidField(v, t.sep)
    ensures forall r | r in AssignAll(t.cols, Fitted(t.rows, |t.cols|), names, values, cond) :: ValidRow(r, t.sep)
  {
    hide Matches, LastAssignment;
    var rows := Fitted(t.rows, |t.cols|);
    FittedValid(t);
    var after := AssignAll(t.cols, rows, names, values, cond);
    forall r | r in after ensures ValidRow(r, t.sep) {
      var i :| 0 <= i < |after| && after[i] == r;
      assert rows[i] in rows;
      AssignIfValid(t.cols, rows[i], names, values, cond, t.sep);
    }
  }

  lemma AssignIfValid(cols: seq<string>, row: Row, names: seq<string>, values: seq<string>, cond: string, sep: char)
    requires |row| == |cols| && |names| == |values| && ValidRow(row, sep)
    requires forall v | v in values :: ValidField(v, sep)
    ensures ValidRow(AssignIf(cols, row, names, values, cond), sep)
  {
    hide ValidField, Matches, LastAssignment;
    var r := Assign(cols, row, names, values);
    forall f | f in r ensures ValidField(f, sep) {
      var i :| 0 <= i < |r| && r[i] == f;
      var j := LastAssignment(cols, names, i);
      assert row[i] in row && (j >= 0 ==> values[j] in values);
    }
  }

  lemma FittedValid(t: Table)
    requires ValidTable(t) && t.cols != []
    ensures forall r | r in Fitted(t.rows, |t.cols|) :: ValidRow(r, t.sep)
  {
    var rows := Fitted(t.rows, |t.cols|);
    forall r | r in rows ensures ValidRow(r, t.sep) {
      var i :| 0 <= i < |rows| && rows[i] == r;
      assert t.rows[i] in t.rows;
      forall f | f in r ensures ValidField(f, t.sep) {
        var k :| 0 <= k < |r| && r[k] == f;
        if k < |t.rows[i]| { assert t.rows[i][k] in t.rows[i]; }
      }
    }
  }

  /** Tables stay printable whatever statement is applied. */
  lemma ApplyValid(t: Table, s: Statement)
    requires ValidTable(t) && Fits(t.cols, t.sep, s)
    ensures ValidTable(Apply(t, s).table)
  {
    hide ValidRow, ValidField, Filter, AssignAll, Matches, IsWhite;
    match s
    case Select(_, _, _) =>
    case Update(_, names, values, cond) =>
      HeaderLineWord(t.cols, t.sep);
      AssignAllValid(t, names, values, cond);
    case Insert(_, quoted) =>
      UnquotedValid(quoted, t.sep);
    case Delete(_, cond) =>
      HeaderLineWord(t.cols, t.sep);
      FittedValid(t);
      if t.rows != [] { assert t.rows[|t.rows| - 1] in t.rows; }
  }

  lemma UnquotedValid(quoted: seq<string>, sep: char)
    requires quoted != [] && forall v | v in quoted :: Unquote(v).Some? && ValidField(Unquote(v).value, sep)
    ensures ValidRow(Unquoted(quoted), sep)
  {
    hide Unquote, ValidField;
    var r := Unquoted(quoted);
    forall f | f in r ensures ValidField(f, sep) {
      var i :| 0 <= i < |r| && r[i] == f;
      assert quoted[i] in quoted;
    }
  }

  lemma DefinedOnCanon(files: map<string, string>, path: string, t: Table, s: Statement)
    requires ValidTable(t) && Fits(t.cols, t.sep, s)
    requires path != TEMP && path in files && files[path] == Canon(t)
    ensures ExecDefined(files, path, s) && HasTable(files, path)
  {
    hide Canon, HeaderWord, Readable, ParseHeader, ValidTable, CondDefined, ValidField, Unquote;
    CanonRead(t);
  }

  /** The buffers that the driver sees in a canonical file are the rows, one field per column. */
  lemma RowsOfCanon(t: Table)
    requires ValidTable(t)
    ensures var n := |t.cols|;
      Readable(Canon(t))
      && RowsRead(Seen(Canon(t)), t.sep, n) == Fitted(t.rows, n)
      && RowsRead(SeenCleared(Canon(t)), t.sep, n) == Fitted(t.rows, n)
      && ParseHeader(HeaderWord(Canon(t))) == Header(t.sep, t.cols, n)
      && LastOr(Seen(Canon(t)), HeaderWord(Canon(t))) == LastOr(Lines(t.rows, t.sep), HeaderLine(t.cols, t.sep))
  {
    hide *;
    CanonRead(t);
    LinesReadBack(t);
  }

  /**
    One statement on a canonical file: the return code, the callback rows and the new file are
    those of the table, and no other file changes but the temporary one.
   */
  lemma StatementRefines(files: map<string, string>, path: string, t: Table, s: Statement)
    requires ValidTable(t) && Fits(t.cols, t.sep, s)
    requires path != TEMP && path in files && files[path] == Canon(t)
    ensures ExecDefined(files, path, s)
    ensures var e := Apply(t, s); var o := RunStatement(files, path, s);
      o.code == e.code && o.out == e.out && SameBut(files, o.files, path, Canon(e.table))
  {
    DefinedOnCanon(files, path, t, s);
    hide *;
    RunIsRunTable(files, path, s);
    match s {
      case Select(_, _, _) => SelectStep(files, path, t, s);
      case Update(_, _, _, _) => UpdateStep(files, path, t, s);
      case Insert(_, _) => InsertStep(files, path, t, s);
      case Delete(_, _) => DeleteStep(files, path, t, s);
    }
  }

  lemma RunIsRunTable(files: map<string, string>, path: string, s: Statement)
    requires ExecDefined(files, path, s) && HasTable(files, path)
    ensures RunStatement(files, path, s) == RunTable(files, path, s)
  {
    hide ExecDefined, HasTable, RunTable;
  }

  lemma SelectStep(files: map<string, string>, path: string, t: Table, s: Statement)
    requires s.Select? && ValidTable(t) && Fits(t.cols, t.sep, s) && ExecDefined(files, path, s)
    requires HasTable(files, path) && path in files && files[path] == Canon(t)
    ensures var e := Apply(t, s); var o := RunTable(files, path, s);
      o.code == e.code && o.out == e.out && SameBut(files, o.files, path, Canon(e.table))
  {
    hide Canon, HeaderWord, Seen, SeenCleared, ParseHeader, ValidTable, RowsRead, Filter, ProjectAll, ExecDefined,
         HasTable, CondDefined, LastOr, Lines, HeaderLine, Fitted;
    RowsOfCanon(t);
    assert files[path := files[path]] == files;
  }

  lemma InsertStep(files: map<string, string>, path: string, t: Table, s: Statement)
    requires s.Insert? && ValidTable(t) && Fits(t.cols, t.sep, s) && ExecDefined(files, path, s)
    requires HasTable(files, path) && path in files && files[path] == Canon(t)
    ensures var e := Apply(t, s); var o := RunTable(files, path, s);
      o.code == e.code && o.out == e.out && SameBut(files, o.files, path, Canon(e.table))
  {
    hide Canon, HeaderWord, Seen, SeenCleared, ParseHeader, ValidTable, RowsRead, ExecDefined, HasTable,
         CondDefined, LastOr, Lines, HeaderLine, Fitted, RowLine, Unquote, ValidField;
    RowsOfCanon(t);
    InsertFile(t, Unquoted(s.quoted));
  }

  lemma UpdateStep(files: map<string, string>, path: string, t: Table, s: Statement)
    requires s.Update? && ValidTable(t) && Fits(t.cols, t.sep, s) && ExecDefined(files, path, s)
    requires HasTable(files, path) && path in files && files[path] == Canon(t) && path != TEMP
    ensures var e := Apply(t, s); var o := RunTable(files, path, s);
      o.code == e.code && o.out == e.out && SameBut(files, o.files, path, Canon(e.table))
  {
    hide Canon, HeaderWord, Seen, SeenCleared, ParseHeader, ValidTable, RowsRead, Filter, ProjectAll, ExecDefined,
         HasTable, Rewritten, CondDefined, AssignAll, Lines, LastOr, RowLine, HeaderLine, Joined, ValidField;
    RowsOfCanon(t);
    UpdateFile(t, s.names, s.values, s.cond);
    assert Fitted(t.rows, |t.cols|) == [] <==> t.rows == [];
  }

  lemma DeleteStep(files: map<string, string>, path: string, t: Table, s: Statement)
    requires s.Delete? && ValidTable(t) && Fits(t.cols, t.sep, s) && ExecDefined(files, path, s)
    requires HasTable(files, path) && path in files && files[path] == Canon(t) && path != TEMP
    ensures var e := Apply(t, s); var o := RunTable(files, path, s);
      o.code == e.code && o.out == e.out && SameBut(files, o.files, path, Canon(e.table))
  {
    hide Canon, HeaderWord, Seen, SeenCleared, ParseHeader, ValidTable, RowsRead, Filter, ProjectAll, ExecDefined,
         HasTable, Rewritten, CondDefined, Lines, LastOr, RowLine, HeaderLine, KeptText, LastMatches, Fitted;
    RowsOfCanon(t);
    DeleteFile(t, s.cond);
  }

  lemma InsertFile(t: Table, row: Row)
    ensures Canon(t) + "\n" + RowLine(row, t.sep) == Canon(t.(rows := t.rows + [row]))
  {
    hide RowLine, HeaderLine, Prefixed;
    var lines := Lines(t.rows, t.sep);
    assert Lines(t.rows + [row], t.sep) == lines + [RowLine(row, t.sep)];
    PrefixedAppend(lines, RowLine(row, t.sep));
    var h := HeaderLine(t.cols, t.sep);
    assert h + Prefixed(lines) + "\n" + RowLine(row, t.sep) == h + (Prefixed(lines) + "\n" + RowLine(row, t.sep));
  }

  /** The stale buffer at the start of the copy-back loop, as a row. */
  lemma StaleRow(t: Table)
    requires ValidTable(t)
    ensures var stale := LastOr(t.rows, HeaderRow(t.cols));
      ValidRow(stale, t.sep)
      && LastOr(Lines(t.rows, t.sep), HeaderLine(t.cols, t.sep)) == RowLine(stale, t.sep)
  {
    HeaderLineWord(t.cols, t.sep);
    if t.rows != [] { assert t.rows[|t.rows| - 1] in t.rows; }
  }

  lemma LinesAreWords(rows: seq<Row>, sep: char)
    requires !IsWhite(sep) && sep != '\0' && forall r | r in rows :: ValidRow(r, sep)
    ensures AreWords(Lines(rows, sep))
  {
    hide RowLine, ValidRow, IsWord;
    forall l | l in Lines(rows, sep) ensures IsWord(l) {
      var i :| 0 <= i < |rows| && RowLine(rows[i], sep) == l;
      RowRoundTrip(rows[i], sep, 0);
    }
  }

  lemma UpdateFile(t: Table, names: seq<string>, values: seq<string>, cond: string)
    requires ValidTable(t) && |names| == |values| && forall v | v in values :: ValidField(v, t.sep)
    ensures var rows := AssignAll(t.cols, Fitted(t.rows, |t.cols|), names, values, cond);
      var after := if t.rows == [] then [HeaderRow(t.cols)] else rows;
      Rewritten(t.cols, t.sep, Joined(Lines(rows, t.sep)), LastOr(Lines(t.rows, t.sep), HeaderLine(t.cols, t.sep)))
        == Canon(t.(rows := after))
  {
    hide RowLine, HeaderLine, Prefixed, AssignAll, ValidRow, ValidField, AreWords, Joined, Reads;
    var rows := AssignAll(t.cols, Fitted(t.rows, |t.cols|), names, values, cond);
    AssignAllValid(t, names, values, cond);
    LinesAreWords(rows, t.sep);
    StaleRow(t);
    ReadsTemporary(Lines(rows, t.sep), LastOr(Lines(t.rows, t.sep), HeaderLine(t.cols, t.sep)));
    assert t.rows == [] ==> [HeaderLine(t.cols, t.sep)] == Lines([HeaderRow(t.cols)], t.sep);
  }

  lemma DeleteFile(t: Table, cond: string)
    requires ValidTable(t) && CondDefined(cond)
    ensures var rows := Fitted(t.rows, |t.cols|);
      Rewritten(t.cols, t.sep, KeptText(t.cols, rows, cond, t.sep),
                LastOr(Lines(t.rows, t.sep), HeaderLine(t.cols, t.sep)))
        == Canon(Apply(t, Delete("", cond)).table)
  {
    hide RowLine, HeaderLine, Prefixed, ValidRow, AreWords, Joined, Terminated, Reads, Filter, Matches;
    var rows := Fitted(t.rows, |t.cols|);
    var kept := Filter(t.cols, rows, cond, false);
    var lines := Lines(kept, t.sep);
    var stale := LastOr(Lines(t.rows, t.sep), HeaderLine(t.cols, t.sep));
    FittedValid(t);
    LinesAreWords(kept, t.sep);
    StaleRow(t);
    ReadsTemporary(lines, stale);
    if t.rows != [] && !LastMatches(t, cond) { KeptLast(t.cols, rows, cond); }
    var row := LastOr(kept, LastOr(t.rows, HeaderRow(t.cols)));
    assert LastOr(lines, stale) == RowLine(row, t.sep);
    assert lines + [RowLine(row, t.sep)] == Lines(kept + [row], t.sep);
  }

  /** A last row that is kept makes the list of kept rows non-empty. */
  lemma KeptLast(cols: seq<string>, rows: seq<Row>, cond: string)
    requires Rectangular(rows, |cols|) && rows != [] && !Matches(cols, rows[|rows| - 1], cond)
    ensures Filter(cols, rows, cond, false) != []
  {
  }

  // ---- Files that end in a newline ----

  lemma {:induction false} DanglingRead(lines: seq<string>)
    requires AreWords(lines)
    ensures Words(Prefixed(lines) + "\n") == lines && Dangling(Prefixed(lines) + "\n")
  {
    hide IsWord, Words, Dangling;
    NothingRead();
    if lines == [] {
      assert Prefixed(lines) + "\n" == "\n" + "";
      ReadWordAfterNewline("", "");
      NewlineDangling("");
    } else {
      var rest := Prefixed(lines[1..]) + "\n";
      DanglingRead(lines[1..]);
      assert Prefixed(lines) + "\n" == "\n" + (lines[0] + rest);
      ReadWordAfterNewline(lines[0] + rest, "");
      assert lines[0] in lines;
      PrefixedStartsWhite(lines[1..]);
      WordsFront(lines[0], rest);
      EndOfConcat("\n" + lines[0], rest, lines[0]);
      assert "\n" + (lines[0] + rest) == "\n" + lines[0] + rest;
    }
  }

  /**
    A newline at the end of the file makes the row loops run once more than there are rows:
    SELECT sees an empty row, UPDATE and DELETE see the last line (or the header) again.
   */
  lemma TrailingNewlineIsSeen(t: Table)
    requires ValidTable(t)
    ensures var text := Canon(t) + "\n"; var lines := Lines(t.rows, t.sep);
      SeenCleared(text) == lines + [""] && Seen(text) == lines + [LastOr(lines, HeaderLine(t.cols, t.sep))]
      && Readable(text) && ParseHeader(HeaderWord(text)) == Header(t.sep, t.cols, |t.cols|)
      && RowsRead(SeenCleared(text), t.sep, |t.cols|) == Fitted(t.rows + [[""]], |t.cols|)
  {
    hide RowLine, HeaderLine, Prefixed, ParseHeader, ReadWord, IsWord, Words;
    var lines := Lines(t.rows, t.sep);
    var n := |t.cols|;
    HeaderLineWord(t.cols, t.sep);
    HeaderRoundTrip(t.cols, t.sep);
    LinesReadBack(t);
    PrefixedStartsWhite(lines);
    assert Canon(t) + "\n" == HeaderLine(t.cols, t.sep) + (Prefixed(lines) + "\n");
    ReadWordFront(HeaderLine(t.cols, t.sep), Prefixed(lines) + "\n", "");
    DanglingRead(lines);
    CanonNulFree(t);
    RowsReadAppend(lines, "", t.sep, n);
    assert Fitted(t.rows + [[""]], n) == Fitted(t.rows, n) + [Fields("", t.sep, n)];
  }
}
