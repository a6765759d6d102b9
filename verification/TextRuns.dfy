/**
  Whole runs of the text driver against a database of tables, and what the statements mean:
  when the driver does what was intended, and what follows when it does.
 */
module TextRuns {
  import opened CStrings
  import opened TextLexer
  import opened TextStatements
  import opened TextConstraint
  import opened TextHeader
  import opened TextStream
  import opened TextTable
  import opened TextDriver
  import opened TextRefinement

  // ---- Intended effects ----

  /** What the statement is meant to do to the table. */
  function Intended(t: Table, s: Statement): Effect
    requires Fits(t.cols, t.sep, s)
  {
    var rows := Fitted(t.rows, |t.cols|);
    match s
    case Select(wanted, _, cond) =>
      var hits := Filter(t.cols, rows, cond, true);
      Effect(|hits|, ProjectAll(t.cols, hits, if wanted == ["*"] then t.cols else wanted), t)
    case Update(_, names, values, cond) =>
      Effect(|Filter(t.cols, rows, cond, true)|, [], t.(rows := AssignAll(t.cols, rows, names, values, cond)))
    case Insert(_, quoted) => Effect(0, [], t.(rows := t.rows + [Unquoted(quoted)]))
    case Delete(_, cond) =>
      Effect(|Filter(t.cols, rows, cond, true)|, [], t.(rows := Filter(t.cols, rows, cond, false)))
  }

  /** UPDATE needs a row; DELETE needs a last row that stays. */
  predicate Guard(t: Table, s: Statement) {
    match s
    case Select(_, _, _) => true
    case Update(_, _, _, _) => t.rows != []
    case Insert(_, _) => true
    case Delete(_, cond) => t.rows != [] && !LastMatches(t, cond)
  }

  /** The driver does what was intended exactly under the guard; the return code is right in any case. */
  lemma GuardIsExact(t: Table, s: Statement)
    requires Fits(t.cols, t.sep, s)
    ensures Apply(t, s) == Intended(t, s) <==> Guard(t, s)
    ensures Apply(t, s).code == Intended(t, s).code && Apply(t, s).out == Intended(t, s).out
    ensures !Guard(t, s) ==> exists stale :: Apply(t, s).table.rows == Intended(t, s).table.rows + [stale]
  {
    hide Filter, AssignAll, ProjectAll, Matches, LastMatches, CondDefined, ValidField, Unquote;
    match s
    case Select(_, _, _) =>
    case Insert(_, _) =>
    case Update(_, names, values, cond) =>
      var rows := AssignAll(t.cols, Fitted(t.rows, |t.cols|), names, values, cond);
      if t.rows == [] { assert [HeaderRow(t.cols)] == rows + [HeaderRow(t.cols)]; }
    case Delete(_, cond) =>
      var kept := Filter(t.cols, Fitted(t.rows, |t.cols|), cond, false);
      assert kept + [LastOr(kept, LastOr(t.rows, HeaderRow(t.cols)))] != kept;
  }

  lemma CanonGrows(t: Table, row: Row)
    ensures Canon(t.(rows := t.rows + [row])) != Canon(t)
  {
    hide RowLine, HeaderLine, Prefixed;
    var lines := Lines(t.rows, t.sep);
    assert Lines(t.rows + [row], t.sep) == lines + [RowLine(row, t.sep)];
    PrefixedAppend(lines, RowLine(row, t.sep));
    assert |Prefixed(lines + [RowLine(row, t.sep)])| > |Prefixed(lines)|;
  }

  /** On the disk: the file after the statement is that of the intended table exactly under the guard. */
  lemma FileIsIntendedUnderGuard(files: map<string, string>, path: string, t: Table, s: Statement)
    requires ValidTable(t) && Fits(t.cols, t.sep, s)
    requires path != TEMP && path in files && files[path] == Canon(t)
    ensures ExecDefined(files, path, s)
    ensures var after := RunStatement(files, path, s).files;
      path in after && (after[path] == Canon(Intended(t, s).table) <==> Guard(t, s))
  {
    hide Canon, Apply, Intended, Guard, RunStatement, ExecDefined, Fits, ValidTable;
    StatementRefines(files, path, t, s);
    GuardIsExact(t, s);
    var after := RunStatement(files, path, s).files;
    FileOf(files, after, path, Canon(Apply(t, s).table));
    IntendedKeepsSchema(t, s);
    if !Guard(t, s) {
      var stale :| Apply(t, s).table.rows == Intended(t, s).table.rows + [stale];
      CanonGrows(Intended(t, s).table, stale);
    }
  }

  lemma IntendedKeepsSchema(t: Table, s: Statement)
    requires Fits(t.cols, t.sep, s)
    ensures Intended(t, s).table.cols == t.cols && Intended(t, s).table.sep == t.sep
  {
  }

  lemma FileOf(files: map<string, string>, files': map<string, string>, path: string, text: string)
    requires path != TEMP && SameBut(files, files', path, text)
    ensures path in files' && files'[path] == text
  {
    assert path in files[path := text] - {TEMP};
    assert (files' - {TEMP})[path] == text;
  }

  /** No row disappears unaccounted for: deleted plus remaining is what there was, plus the stale row if any. */
  lemma DeleteConserves(t: Table, s: Statement)
    requires s.Delete? && Fits(t.cols, t.sep, s)
    ensures Apply(t, s).code + |Apply(t, s).table.rows| == |t.rows| + if Guard(t, s) then 0 else 1
  {
    hide Fits, Matches, LastMatches;
    FilterConserves(t.cols, Fitted(t.rows, |t.cols|), s.cond);
  }

  lemma FittedAlready(rows: seq<Row>, n: nat)
    requires Rectangular(rows, n)
    ensures Fitted(rows, n) == rows
  {
    forall i | 0 <= i < |rows| ensures Fitted(rows, n)[i] == rows[i] {
      assert rows[i] in rows;
    }
  }

  /** After a proper DELETE no row satisfies the constraint, and deleting again changes nothing. */
  lemma DeleteIsFinal(t: Table, s: Statement, wanted: seq<string>)
    requires s.Delete? && Fits(t.cols, t.sep, s) && Guard(t, s)
    requires Fits(t.cols, t.sep, Select(wanted, s.table, s.cond))
    ensures var after := Apply(t, s).table;
      Apply(after, Select(wanted, s.table, s.cond)).code == 0
      && Guard(after, s) && Apply(after, s) == Effect(0, [], after)
  {
    hide Filter, Matches;
    var rows := Fitted(t.rows, |t.cols|);
    var kept := Filter(t.cols, rows, s.cond, false);
    FittedAlready(kept, |t.cols|);
    FilterAll(t.cols, kept, s.cond, false);
    KeptLast(t.cols, rows, s.cond);
    assert kept[|kept| - 1] in kept;
  }

  /** An UPDATE whose constraint names no assigned column has the same count and table when repeated. */
  lemma UpdateIsIdempotent(t: Table, s: Statement)
    requires s.Update? && Fits(t.cols, t.sep, s) && t.rows != [] && Independent(s.names, s.cond)
    ensures var once := Apply(t, s); Apply(once.table, s) == once
  {
    hide Filter, Independent, AssignAll;
    var rows := Fitted(t.rows, |t.cols|);
    var after := AssignAll(t.cols, rows, s.names, s.values, s.cond);
    FittedAlready(after, |t.cols|);
    AssignAllIdempotent(t.cols, rows, s.names, s.values, s.cond);
  }

  /** What UPDATE does to one cell of a non-empty table: row `i`, column `k`. */
  lemma UpdatedCell(t: Table, s: Statement, i: nat, k: nat)
    requires s.Update? && Fits(t.cols, t.sep, s) && i < |t.rows| && k < |t.cols|
    ensures var after := Apply(t, s).table.rows; var row := Fit(t.rows[i], |t.cols|);
      var j := LastAssignment(t.cols, s.names, k);
      && |after| == |t.rows| && |after[i]| == |t.cols|
      && (!Matches(t.cols, row, s.cond) ==> after[i] == row)
      && (Matches(t.cols, row, s.cond) && j < 0 ==> after[i][k] == row[k])
      && (Matches(t.cols, row, s.cond) && j >= 0 ==> after[i][k] == s.values[j] && s.names[j] == t.cols[k])
  {
    hide Filter, Matches;
    assert Apply(t, s).table.rows[i] == AssignIf(t.cols, Fitted(t.rows, |t.cols|)[i], s.names, s.values, s.cond);
  }

  /** "select *" on a canonical file gives every row; a column that shares its name shows the last of them. */
  lemma SelectStar(files: map<string, string>, path: string, t: Table, table: string)
    requires ValidTable(t) && path != TEMP && path in files && files[path] == Canon(t)
    ensures var all := Select(["*"], table, "*");
      ExecDefined(files, path, all)
      && (var o := RunStatement(files, path, all);
          var rows := Fitted(t.rows, |t.cols|);
          && o.code == |t.rows| && |o.out| == |t.rows| && o.files == files
          && (forall i | 0 <= i < |t.rows| :: |o.out[i]| == |t.cols|)
          && forall i, k | 0 <= i < |t.rows| && 0 <= k < |t.cols| ::
               o.out[i][k] == rows[i][LastIndex(t.cols, t.cols[k])])
  {
    hide Canon, RunTable, ExecDefined, Filter, Fits, ValidTable, HasTable, Readable;
    var all := Select(["*"], table, "*");
    var rows := Fitted(t.rows, |t.cols|);
    assert Fits(t.cols, t.sep, all) by { StarFits(t, table); }
    StatementRefines(files, path, t, all);
    FilterAll(t.cols, rows, "*", true);
    SelectLeavesFiles(files, path, all);
    forall k | 0 <= k < |t.cols| ensures LastIndex(t.cols, t.cols[k]) >= 0 {
      assert t.cols[k] in t.cols;
    }
  }

  lemma StarFits(t: Table, table: string)
    ensures Fits(t.cols, t.sep, Select(["*"], table, "*"))
  {
  }

  lemma SelectLeavesFiles(files: map<string, string>, path: string, s: Statement)
    requires s.Select? && ExecDefined(files, path, s)
    ensures RunStatement(files, path, s).files == files
  {
    hide ExecDefined, HasTable;
  }

  /**
    UPDATE on the file of a non-empty table, seen through the file and through a following
    "select *": the return code is the number of matching rows; rows stay in number and
    order, rows that do not match stay as they were read, and in matching rows exactly the
    assigned columns change, the last assignment to a column winning.
   */
  lemma UpdateEffect(files: map<string, string>, path: string, t: Table, s: Statement, i: nat, k: nat)
    requires ValidTable(t) && path != TEMP && path in files && files[path] == Canon(t)
    requires s.Update? && Fits(t.cols, t.sep, s) && i < |t.rows| && k < |t.cols|
    ensures var all := Select(["*"], s.table, "*"); var row := Fit(t.rows[i], |t.cols|);
      var j := LastAssignment(t.cols, s.names, k);
      ExecDefined(files, path, s)
      && (var o := RunStatement(files, path, s);
          && o.code == |Filter(t.cols, Fitted(t.rows, |t.cols|), s.cond, true)|
          && ExecDefined(o.files, path, all)
          && (var r := RunStatement(o.files, path, all);
              && |r.out| == r.code == |t.rows| && |r.out[i]| == |t.cols|
              && (LastIndex(t.cols, t.cols[k]) == k ==>
                    r.out[i][k] == if Matches(t.cols, row, s.cond) && j >= 0 then s.values[j] else row[k])
              && (j >= 0 ==> s.names[j] == t.cols[k])))
  {
    hide *;
    StatementRefines(files, path, t, s);
    ApplyValid(t, s);
    UpdatedCell(t, s, i, k);
    var t' := Apply(t, s).table;
    var after := RunStatement(files, path, s).files;
    FileOf(files, after, path, Canon(t'));
    SelectStar(after, path, t', s.table);
    ApplyUpdateCode(t, s);
    assert Fitted(t'.rows, |t.cols|)[i] == t'.rows[i];
    var o := RunStatement(files, path, s);
    var r := RunStatement(o.files, path, Select(["*"], s.table, "*"));
    assert r.out[i][k] == t'.rows[i][LastIndex(t.cols, t.cols[k])];
  }

  lemma ApplyUpdateCode(t: Table, s: Statement)
    requires s.Update? && Fits(t.cols, t.sep, s)
    ensures Apply(t, s).code == |Filter(t.cols, Fitted(t.rows, |t.cols|), s.cond, true)|
    ensures t.rows != [] ==> Rectangular(Apply(t, s).table.rows, |t.cols|)
  {
    hide Filter;
  }

  predicate WantedKnown(cols: seq<string>, wanted: seq<string>) {
    wanted == ["*"] || forall c | c in wanted :: c in cols
  }

  /** A SELECT on a table: the return code and the rows handed to the callback. */
  function SelectEffect(t: Table, wanted: seq<string>, cond: string): Effect
    requires WantedKnown(t.cols, wanted) && CondDefined(cond)
  {
    Apply(t, Select(wanted, "", cond))
  }

  /**
    For a known column and a quoted literal or second column, the SELECT counts for "<", "="
    and ">" add up to the number of rows, and "<=" and ">=" return exactly the
    order-preserving merges of the rows that the right pairs return.
   */
  lemma SelectPartition(t: Table, wanted: seq<string>, left: string, right: string)
    requires WantedKnown(t.cols, wanted)
    requires ComparisonSides(left, right) && left in t.cols && RightKnown(t.cols, right)
    ensures forall op | op in {"<", "=", ">", "<=", ">="} :: CondDefined(Comparison(left, op, right))
    ensures var lt := SelectEffect(t, wanted, Comparison(left, "<", right));
      var eq := SelectEffect(t, wanted, Comparison(left, "=", right));
      var gt := SelectEffect(t, wanted, Comparison(left, ">", right));
      var le := SelectEffect(t, wanted, Comparison(left, "<=", right));
      var ge := SelectEffect(t, wanted, Comparison(left, ">=", right));
      && lt.code + eq.code + gt.code == |t.rows|
      && le.code == lt.code + eq.code && ge.code == gt.code + eq.code
      && Merges(lt.out, eq.out, le.out) && Merges(gt.out, eq.out, ge.out)
  {
    hide Filter, HasOp, Comparison, ComparisonSides, RightKnown, Merges, ProjectAll;
    forall op | op in {"<", "=", ">", "<=", ">="} ensures CondDefined(Comparison(left, op, right)) {
      ComparisonParsed(left, op, right);
    }
    var rows := Fitted(t.rows, |t.cols|);
    CountsPartition(t.cols, rows, left, right);
    var columns := Wanted(wanted, t.cols);
    var eq := Filter(t.cols, rows, Comparison(left, "=", right), true);
    MergesProject(t.cols, columns, Filter(t.cols, rows, Comparison(left, "<", right), true), eq,
                  Filter(t.cols, rows, Comparison(left, "<=", right), true));
    MergesProject(t.cols, columns, Filter(t.cols, rows, Comparison(left, ">", right), true), eq,
                  Filter(t.cols, rows, Comparison(left, ">=", right), true));
  }

  /**
    INSERT on a canonical file, seen through a following "select *": the code is 0, the rows
    there were come back in order, and behind them one row with the values between the quotes,
    cut or padded with empty fields to the columns.
   */
  lemma InsertEffect(files: map<string, string>, path: string, t: Table, s: Statement, values: Row, i: nat, k: nat)
    requires ValidTable(t) && path != TEMP && path in files && files[path] == Canon(t)
    requires s.Insert? && Fits(t.cols, t.sep, s) && i <= |t.rows| && k < |t.cols|
    requires |values| == |s.quoted| && forall j | 0 <= j < |values| :: IsQuoted(s.quoted[j], values[j])
    ensures var all := Select(["*"], s.table, "*"); var row := if i < |t.rows| then t.rows[i] else values;
      ExecDefined(files, path, s)
      && (var o := RunStatement(files, path, s);
          && o.code == 0 && ExecDefined(o.files, path, all)
          && (var r := RunStatement(o.files, path, all);
              && |r.out| == r.code == |t.rows| + 1 && |r.out[i]| == |t.cols|
              && (LastIndex(t.cols, t.cols[k]) == k ==> r.out[i][k] == if k < |row| then row[k] else "")))
  {
    hide *;
    StatementRefines(files, path, t, s);
    ApplyValid(t, s);
    ApplyInsert(t, s, values);
    var t' := Apply(t, s).table;
    var o := RunStatement(files, path, s);
    FileOf(files, o.files, path, Canon(t'));
    SelectStar(o.files, path, t', s.table);
    var r := RunStatement(o.files, path, Select(["*"], s.table, "*"));
    assert |r.out[i]| == |t.cols|;
    assert r.out[i][k] == Fitted(t'.rows, |t.cols|)[i][LastIndex(t.cols, t.cols[k])];
    assert t'.rows[i] == if i < |t.rows| then t.rows[i] else values;
  }

  lemma ApplyInsert(t: Table, s: Statement, values: Row)
    requires s.Insert? && Fits(t.cols, t.sep, s)
    requires |values| == |s.quoted| && forall j | 0 <= j < |values| :: IsQuoted(s.quoted[j], values[j])
    ensures Apply(t, s).code == 0 && Apply(t, s).table.rows == t.rows + [values]
  {
    hide Unquote, IsQuoted, ValidField;
    forall j | 0 <= j < |values| ensures Unquoted(s.quoted)[j] == values[j] { UnquoteMeans(s.quoted[j], values[j]); }
    assert Unquoted(s.quoted) == values;
  }

  /**
    A statement on no file at all, or on a file that does not start with a header, gives -1 and
    no rows; it changes no file but the temporary one, which UPDATE and DELETE leave empty.
   */
  lemma NoTableFails(files: map<string, string>, path: string, s: Statement, word: string, rest: string)
    requires path != TEMP
    requires path !in files || (files[path] == word + rest && NulFree(files[path]))
    requires IsWord(word) && (rest != "" ==> IsWhite(rest[0])) && (word[0] != '{' || '}' !in word)
    ensures ExecDefined(files, path, s)
    ensures var o := RunStatement(files, path, s);
      && o.code == -1 && o.out == [] && o.files - {TEMP} == files - {TEMP}
      && o.files == if s.Update? || s.Delete? then files[TEMP := ""] else files
  {
    ReadWordFront(word, rest, "");
    hide ReadWord, ReadGroups;
    assert path in files ==> forall c | c in word :: c in word + rest;
    if '}' !in word { ClosingIs(word, |word| - 1); }
  }

  // ---- Databases and whole runs ----

  type Database = map<string, Table>

  /** Every table lies in its own canonical file; there may be any other files. */
  predicate Stores(files: map<string, string>, d: string, db: Database) {
    forall n | n in db :: ValidTable(db[n]) && d + n != TEMP && d + n in files && files[d + n] == Canon(db[n])
  }

  /** The files that are neither the temporary file nor the file of one of the named tables. */
  function Others(files: map<string, string>, d: string, names: set<string>): map<string, string> {
    map p | p in files && p != TEMP && !(d <= p && p[|d|..] in names) :: files[p]
  }

  /** The statement names a table of the database or no file at all. */
  predicate Known(files: map<string, string>, d: string, db: Database, s: Statement) {
    s.table in db || d + s.table !in files
  }

  /** A statement that can be sent to the database: printable, and fitting its table if there is one. */
  predicate Sendable(d: string, db: Database, s: Statement) {
    Printable(s) && NulFree(Print(s)) && d + s.table != TEMP
    && (s.table in db ==> Fits(db[s.table].cols, db[s.table].sep, s))
  }

  datatype Reply = Reply(code: int, out: seq<Row>)

  function DbStep(d: string, db: Database, s: Statement): (Reply, Database)
    requires Sendable(d, db, s)
  {
    if Routed(s) && s.table in db then
      var e := Apply(db[s.table], s);
      (Reply(e.code, e.out), db[s.table := e.table])
    else (Reply(-1, []), db)
  }

  /** One printed query: reply and files are those of the database, and all other files stay. */
  lemma QueryRefines(files: map<string, string>, d: string, db: Database, s: Statement)
    requires Stores(files, d, db) && Sendable(d, db, s) && Known(files, d, db, s)
    ensures RunDefined(files, d, Print(s))
    ensures var o := Run(files, d, Print(s)); var (reply, db') := DbStep(d, db, s);
      Reply(o.code, o.out) == reply && Stores(o.files, d, db')
      && db'.Keys == db.Keys && Others(o.files, d, db.Keys) == Others(files, d, db.Keys)
  {
    hide Canon, ValidTable, Fits, Apply, Printable, Routed, Print, Parse, ParseDefined, Readable, Stores, Others;
    PrintThenParse(s);
    var path := d + s.table;
    if Routed(s) {
      if s.table in db {
        var t := db[s.table];
        assert files[path] == Canon(t) && ValidTable(t) by { StoredTable(files, d, db, s.table); }
        StatementRefines(files, path, t, s);
        ApplyValid(t, s);
        StoresAfter(files, RunStatement(files, path, s).files, d, db, s.table, Apply(t, s).table);
        assert db[s.table := Apply(t, s).table].Keys == db.Keys;
      } else {
        StoresTemp(files, d, db);
      }
    }
  }

  lemma StoredTable(files: map<string, string>, d: string, db: Database, n: string)
    requires Stores(files, d, db) && n in db
    ensures ValidTable(db[n]) && d + n != TEMP && d + n in files && files[d + n] == Canon(db[n])
  {
  }

  lemma StoresTemp(files: map<string, string>, d: string, db: Database)
    requires Stores(files, d, db)
    ensures Stores(files[TEMP := ""], d, db) && Others(files[TEMP := ""], d, db.Keys) == Others(files, d, db.Keys)
  {
    hide Canon, ValidTable;
  }

  lemma SameButAt(files: map<string, string>, files': map<string, string>, path: string, text: string, p: string)
    requires SameBut(files, files', path, text) && p != TEMP
    ensures p in files' <==> p in files || p == path
    ensures p in files' ==> files'[p] == if p == path then text else files[p]
  {
    var files1 := files[path := text];
    assert p in files' <==> p in files' - {TEMP};
    assert p in files1 <==> p in files1 - {TEMP};
    assert p in files' ==> (files' - {TEMP})[p] == files'[p];
    assert p in files1 ==> (files1 - {TEMP})[p] == files1[p];
  }

  lemma StoresAfter(files: map<string, string>, files': map<string, string>, d: string, db: Database,
                    n: string, t: Table)
    requires Stores(files, d, db) && n in db && ValidTable(t) && SameBut(files, files', d + n, Canon(t))
    ensures Stores(files', d, db[n := t]) && Others(files', d, db.Keys) == Others(files, d, db.Keys)
  {
    hide Canon, ValidTable, SameBut;
    var db' := db[n := t];
    forall m | m in db'
      ensures ValidTable(db'[m]) && d + m != TEMP && d + m in files' && files'[d + m] == Canon(db'[m])
    {
      assert (d + m)[|d|..] == m && (d + n)[|d|..] == n;
      assert m in db;
      SameButAt(files, files', d + n, Canon(t), d + m);
    }
    var a, b := Others(files', d, db.Keys), Others(files, d, db.Keys);
    forall p ensures p in a <==> p in b
      ensures p in a ==> a[p] == b[p]
    {
      assert (d + n)[|d|..] == n;
      if p != TEMP { SameButAt(files, files', d + n, Canon(t), p); }
    }
  }

  predicate RunsDefined(files: map<string, string>, d: string, qs: seq<string>)
    decreases |qs|
  {
    qs != [] ==> RunDefined(files, d, qs[0]) && RunsDefined(Run(files, d, qs[0]).files, d, qs[1..])
  }

  /** A whole sequence of queries sent to the driver. */
  function RunAll(files: map<string, string>, d: string, qs: seq<string>): (seq<Reply>, map<string, string>)
    requires RunsDefined(files, d, qs)
    decreases |qs|
  {
    if qs == [] then ([], files) else
    var o := Run(files, d, qs[0]);
    var (replies, last) := RunAll(o.files, d, qs[1..]);
    ([Reply(o.code, o.out)] + replies, last)
  }

  predicate KnownAll(files: map<string, string>, d: string, db: Database, ss: seq<Statement>) {
    forall s | s in ss :: Known(files, d, db, s)
  }

  lemma KnownStays(files: map<string, string>, files': map<string, string>, d: string, db: Database, db': Database,
                   ss: seq<Statement>)
    requires KnownAll(files, d, db, ss) && SendableAll(d, db, ss)
    requires db'.Keys == db.Keys && Others(files', d, db.Keys) == Others(files, d, db.Keys)
    ensures KnownAll(files', d, db', ss)
  {
    hide Printable, Print, Fits;
    forall s | s in ss ensures Known(files', d, db', s) {
      var p := d + s.table;
      assert Known(files, d, db, s) && Sendable(d, db, s) && p[|d|..] == s.table;
      if s.table !in db {
        assert p !in Others(files, d, db.Keys);
        assert p in files' ==> p in Others(files', d, db.Keys);
      }
    }
  }

  predicate SendableAll(d: string, db: Database, ss: seq<Statement>) {
    forall s | s in ss :: Sendable(d, db, s)
  }

  /** Columns and separators never change, so what can be sent does not depend on the state. */
  lemma SendableStays(d: string, db: Database, s: Statement, ss: seq<Statement>)
    requires Sendable(d, db, s) && SendableAll(d, db, ss)
    ensures SendableAll(d, DbStep(d, db, s).1, ss)
  {
    hide Fits, Apply, Printable, Routed, Print;
  }

  function DbRun(d: string, db: Database, ss: seq<Statement>): (seq<Reply>, Database)
    requires SendableAll(d, db, ss)
    decreases |ss|
  {
    if ss == [] then ([], db) else
    var (reply, db1) := DbStep(d, db, ss[0]);
    SendableStays(d, db, ss[0], ss[1..]);
    var (replies, last) := DbRun(d, db1, ss[1..]);
    ([reply] + replies, last)
  }

  function Queries(ss: seq<Statement>): (r: seq<string>)
    requires forall s | s in ss :: Printable(s)
    ensures |r| == |ss| && forall i | 0 <= i < |ss| :: (assert Printable(ss[i]); r[i] == Print(ss[i]))
  {
    seq(|ss|, i requires 0 <= i < |ss| => assert Printable(ss[i]); Print(ss[i]))
  }

  /**
    Whole-run refinement: from files that store a database, any sequence of statements gives
    the replies of the database, the files at the end store the database at the end, and no
    file changes but those of the tables and the temporary one.
   */
  lemma {:induction false} RunRefines(files: map<string, string>, d: string, db: Database, ss: seq<Statement>)
    requires Stores(files, d, db) && SendableAll(d, db, ss) && KnownAll(files, d, db, ss)
    ensures RunsDefined(files, d, Queries(ss))
    ensures var (replies, last) := RunAll(files, d, Queries(ss));
      replies == DbRun(d, db, ss).0 && Stores(last, d, DbRun(d, db, ss).1)
      && Others(last, d, db.Keys) == Others(files, d, db.Keys)
    decreases |ss|
  {
    hide Stores, RunDefined, Run, DbStep, Print, Fits, Others, Known;
    if ss != [] {
      assert Sendable(d, db, ss[0]) && Known(files, d, db, ss[0]);
      QueryRefines(files, d, db, ss[0]);
      SendableStays(d, db, ss[0], ss[1..]);
      assert Queries(ss)[1..] == Queries(ss[1..]);
      var files1 := Run(files, d, Print(ss[0])).files;
      var db1 := DbStep(d, db, ss[0]).1;
      KnownStays(files, files1, d, db, db1, ss[1..]);
      RunRefines(files1, d, db1, ss[1..]);
    }
  }

  /** Every statement of the run finds its table ready for it. */
  predicate GuardedRun(d: string, db: Database, ss: seq<Statement>)
    requires SendableAll(d, db, ss)
    decreases |ss|
  {
    ss == [] ||
    var s := ss[0];
    SendableStays(d, db, s, ss[1..]);
    (s.table in db ==> Routed(s) && Guard(db[s.table], s)) && GuardedRun(d, DbStep(d, db, s).1, ss[1..])
  }

  /** The same run with intended effects only. */
  function IntendedRun(db: Database, ss: seq<Statement>): (seq<Reply>, Database)
    decreases |ss|
  {
    if ss == [] then ([], db)
    else if ss[0].table !in db || !Fits(db[ss[0].table].cols, db[ss[0].table].sep, ss[0]) then
      var (replies, last) := IntendedRun(db, ss[1..]);
      ([Reply(-1, [])] + replies, last)
    else
      var e := Intended(db[ss[0].table], ss[0]);
      var (replies, last) := IntendedRun(db[ss[0].table := e.table], ss[1..]);
      ([Reply(e.code, e.out)] + replies, last)
  }

  /** A guarded run of the driver does what was intended from beginning to end. */
  lemma {:induction false} GuardedRunIsIntended(files: map<string, string>, d: string, db: Database,
                                                ss: seq<Statement>)
    requires Stores(files, d, db) && SendableAll(d, db, ss) && KnownAll(files, d, db, ss) && GuardedRun(d, db, ss)
    ensures RunsDefined(files, d, Queries(ss))
    ensures var (replies, last) := RunAll(files, d, Queries(ss));
      replies == IntendedRun(db, ss).0 && Stores(last, d, IntendedRun(db, ss).1)
      && Others(last, d, db.Keys) == Others(files, d, db.Keys)
  {
    hide Stores, RunsDefined, RunAll, Others, Known;
    RunRefines(files, d, db, ss);
    GuardedDbRun(d, db, ss);
  }

  lemma {:induction false} GuardedDbRun(d: string, db: Database, ss: seq<Statement>)
    requires SendableAll(d, db, ss) && GuardedRun(d, db, ss)
    ensures DbRun(d, db, ss) == IntendedRun(db, ss)
    decreases |ss|
  {
    hide Fits, Apply, Intended, Guard, Printable, Routed, Print;
    if ss != [] {
      assert Sendable(d, db, ss[0]);
      SendableStays(d, db, ss[0], ss[1..]);
      if ss[0].table in db { GuardIsExact(db[ss[0].table], ss[0]); }
      GuardedDbRun(d, DbStep(d, db, ss[0]).1, ss[1..]);
    }
  }
}
