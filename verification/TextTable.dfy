/**
  Tables as values: what the four statements of the text driver do to a list of rows, and
  the properties that follow.  `rows` may hold rows of any length; the driver pads or cuts
  each row to the number of columns whenever it reads it.
 */
module TextTable {
  import opened CStrings
  import opened TextLexer
  import opened TextConstraint
  import opened TextHeader
  import opened TextStream

  type Row = seq<string>

  datatype Table = Table(cols: seq<string>, sep: char, rows: seq<Row>)

  function RowLine(row: Row, sep: char): string {
    if row == [] then "" else RowLine(row[..|row| - 1], sep) + row[|row| - 1] + [sep]
  }

  function Lines(rows: seq<Row>, sep: char): (r: seq<string>)
    ensures |r| == |rows| && forall i | 0 <= i < |rows| :: r[i] == RowLine(rows[i], sep)
  {
    seq(|rows|, i requires 0 <= i < |rows| => RowLine(rows[i], sep))
  }

  function Fitted(rows: seq<Row>, n: nat): (r: seq<Row>)
    ensures |r| == |rows| && forall i | 0 <= i < |rows| :: r[i] == Fit(rows[i], n)
    ensures Rectangular(r, n)
  {
    seq(|rows|, i requires 0 <= i < |rows| => Fit(rows[i], n))
  }

  predicate Rectangular(rows: seq<Row>, n: nat) {
    forall r | r in rows :: |r| == n
  }

  /** The file of a table: the header, then every row on a line of its own, with no last newline. */
  function Canon(t: Table): string {
    HeaderLine(t.cols, t.sep) + Prefixed(Lines(t.rows, t.sep))
  }

  /** A field that survives being printed, read as part of a word and split again. */
  predicate ValidField(f: string, sep: char) {
    sep !in f && NulFree(f) && forall c | c in f :: !IsWhite(c)
  }

  predicate ValidRow(row: Row, sep: char) {
    row != [] && forall f | f in row :: ValidField(f, sep)
  }

  predicate ValidTable(t: Table) {
    && ValidNames(t.cols, t.sep) && !IsWhite(t.sep)
    && (forall n | n in t.cols :: forall c | c in n :: !IsWhite(c))
    && forall r | r in t.rows :: ValidRow(r, t.sep)
  }

  // ---- Statements on rows that have one field per column ----

  predicate Matches(cols: seq<string>, row: Row, cond: string)
    requires |row| == |cols|
  {
    cond == "*" || Eval(cols, row, ParseCond(cond)) > 0
  }

  function Project(cols: seq<string>, row: Row, wanted: seq<string>): (r: Row)
    requires |row| == |cols| && forall w | w in wanted :: w in cols
    ensures |r| == |wanted| && forall i | 0 <= i < |wanted| ::
      (assert wanted[i] in wanted; r[i] == row[LastIndex(cols, wanted[i])])
  {
    seq(|wanted|, i requires 0 <= i < |wanted| => assert wanted[i] in wanted; row[LastIndex(cols, wanted[i])])
  }

  /** The rows that satisfy (`keep`) or do not satisfy the constraint, in order. */
  function Filter(cols: seq<string>, rows: seq<Row>, cond: string, keep: bool): (r: seq<Row>)
    requires Rectangular(rows, |cols|)
    ensures Rectangular(r, |cols|) && forall x | x in r :: x in rows && Matches(cols, x, cond) == keep
  {
    if rows == [] then [] else
    var rest := Filter(cols, rows[..|rows| - 1], cond, keep);
    var last := rows[|rows| - 1];
    if Matches(cols, last, cond) == keep then rest + [last] else rest
  }

  function ProjectAll(cols: seq<string>, rows: seq<Row>, wanted: seq<string>): (r: seq<Row>)
    requires Rectangular(rows, |cols|) && forall w | w in wanted :: w in cols
    ensures |r| == |rows| && forall i | 0 <= i < |rows| :: r[i] == Project(cols, rows[i], wanted)
  {
    seq(|rows|, i requires 0 <= i < |rows| => Project(cols, rows[i], wanted))
  }

  /** The position in `names` of the last assignment to column `i`, or -1. */
  function LastAssignment(cols: seq<string>, names: seq<string>, i: nat): (j: int)
    ensures -1 <= j < |names|
    ensures j >= 0 ==> LastIndex(cols, names[j]) == i
    ensures forall k | j < k < |names| :: LastIndex(cols, names[k]) != i
  {
    if names == [] then -1
    else if LastIndex(cols, names[|names| - 1]) == i then |names| - 1
    else LastAssignment(cols, names[..|names| - 1], i)
  }

  function Assign(cols: seq<string>, row: Row, names: seq<string>, values: seq<string>): (r: Row)
    requires |row| == |cols| && |names| == |values|
    ensures |r| == |row|
    ensures forall i | 0 <= i < |row| ::
      var j := LastAssignment(cols, names, i); r[i] == if j < 0 then row[i] else values[j]
  {
    seq(|row|, i requires 0 <= i < |row| =>
      var j := LastAssignment(cols, names, i); if j < 0 then row[i] else values[j])
  }

  function AssignIf(cols: seq<string>, row: Row, names: seq<string>, values: seq<string>, cond: string): (r: Row)
    requires |row| == |cols| && |names| == |values|
    ensures |r| == |cols|
  {
    if Matches(cols, row, cond) then Assign(cols, row, names, values) else row
  }

  function AssignAll(cols: seq<string>, rows: seq<Row>, names: seq<string>, values: seq<string>, cond: string)
    : (r: seq<Row>)
    requires Rectangular(rows, |cols|) && |names| == |values|
    ensures |r| == |rows| && Rectangular(r, |cols|)
    ensures forall i | 0 <= i < |rows| :: r[i] == AssignIf(cols, rows[i], names, values, cond)
  {
    seq(|rows|, i requires 0 <= i < |rows| => AssignIf(cols, rows[i], names, values, cond))
  }

  // ---- Properties ----

  /** `c` is made of the rows of `a` and the rows of `b`, each in their order. */
  predicate Merges(a: seq<Row>, b: seq<Row>, c: seq<Row>)
    decreases |c|
  {
    if c == [] then a == [] && b == [] else
    var k := |c| - 1;
    || (a != [] && a[|a| - 1] == c[k] && Merges(a[..|a| - 1], b, c[..k]))
    || (b != [] && b[|b| - 1] == c[k] && Merges(a, b[..|b| - 1], c[..k]))
  }

  lemma MergesMore(a: seq<Row>, b: seq<Row>, c: seq<Row>, row: Row)
    requires Merges(a, b, c)
    ensures Merges(a + [row], b, c + [row]) && Merges(a, b + [row], c + [row])
  {
    assert (a + [row])[..|a|] == a && (b + [row])[..|b|] == b && (c + [row])[..|c|] == c;
  }

  lemma {:induction false} MergesCount(a: seq<Row>, b: seq<Row>, c: seq<Row>)
    requires Merges(a, b, c)
    ensures |a| + |b| == |c| && multiset(a) + multiset(b) == multiset(c)
    decreases |c|
  {
    if c != [] {
      var k := |c| - 1;
      assert c == c[..k] + [c[k]];
      if a != [] && a[|a| - 1] == c[k] && Merges(a[..|a| - 1], b, c[..k]) {
        MergesCount(a[..|a| - 1], b, c[..k]);
        assert a == a[..|a| - 1] + [c[k]];
      } else {
        MergesCount(a, b[..|b| - 1], c[..k]);
        assert b == b[..|b| - 1] + [c[k]];
      }
    }
  }

  /** The last row of a merge is the last row of one of its parts. */
  lemma MergesEnd(a: seq<Row>, b: seq<Row>, c: seq<Row>)
    requires Merges(a, b, c) && c != []
    ensures var k := |c| - 1;
      || (a != [] && a[|a| - 1] == c[k] && Merges(a[..|a| - 1], b, c[..k]))
      || (b != [] && b[|b| - 1] == c[k] && Merges(a, b[..|b| - 1], c[..k]))
  {
  }

  lemma ProjectAllLast(cols: seq<string>, rows: seq<Row>, wanted: seq<string>)
    requires rows != [] && Rectangular(rows, |cols|) && forall w | w in wanted :: w in cols
    ensures var k := |rows| - 1;
      ProjectAll(cols, rows, wanted) == ProjectAll(cols, rows[..k], wanted) + [Project(cols, rows[k], wanted)]
  {
    hide Project;
  }

  /** Projecting rows keeps a merge a merge. */
  lemma {:induction false} MergesProject(cols: seq<string>, wanted: seq<string>, a: seq<Row>, b: seq<Row>, c: seq<Row>)
    requires Rectangular(a, |cols|) && Rectangular(b, |cols|) && Rectangular(c, |cols|) && Merges(a, b, c)
    requires forall w | w in wanted :: w in cols
    ensures Merges(ProjectAll(cols, a, wanted), ProjectAll(cols, b, wanted), ProjectAll(cols, c, wanted))
    decreases |c|
  {
    if c == [] {
      assert ProjectAll(cols, [], wanted) == [];
    } else {
      hide Merges, Project, ProjectAll;
      var k := |c| - 1;
      MergesEnd(a, b, c);
      ProjectAllLast(cols, c, wanted);
      var row := Project(cols, c[k], wanted);
      if a != [] && a[|a| - 1] == c[k] && Merges(a[..|a| - 1], b, c[..k]) {
        var a' := a[..|a| - 1];
        ProjectAllLast(cols, a, wanted);
        MergesProject(cols, wanted, a', b, c[..k]);
        MergesMore(ProjectAll(cols, a', wanted), ProjectAll(cols, b, wanted), ProjectAll(cols, c[..k], wanted), row);
      } else {
        var b' := b[..|b| - 1];
        ProjectAllLast(cols, b, wanted);
        MergesProject(cols, wanted, a, b', c[..k]);
        MergesMore(ProjectAll(cols, a, wanted), ProjectAll(cols, b', wanted), ProjectAll(cols, c[..k], wanted), row);
      }
    }
  }

  /** Every row either satisfies the constraint or does not: the rows are the merge of both kinds. */
  lemma {:induction false} FilterConserves(cols: seq<string>, rows: seq<Row>, cond: string)
    requires Rectangular(rows, |cols|)
    ensures Merges(Filter(cols, rows, cond, true), Filter(cols, rows, cond, false), rows)
    ensures |Filter(cols, rows, cond, true)| + |Filter(cols, rows, cond, false)| == |rows|
  {
    hide Matches, Merges;
    MergesNothing();
    if rows != [] {
      var k := |rows| - 1;
      FilterConserves(cols, rows[..k], cond);
      assert rows == rows[..k] + [rows[k]];
      MergesMore(Filter(cols, rows[..k], cond, true), Filter(cols, rows[..k], cond, false), rows[..k], rows[k]);
    }
    MergesCount(Filter(cols, rows, cond, true), Filter(cols, rows, cond, false), rows);
  }

  lemma MergesNothing()
    ensures Merges([], [], [])
  {
  }

  lemma {:induction false} FilterAppend(cols: seq<string>, rows: seq<Row>, row: Row, cond: string, keep: bool)
    requires Rectangular(rows, |cols|) && |row| == |cols|
    ensures Filter(cols, rows + [row], cond, keep) ==
      Filter(cols, rows, cond, keep) + if Matches(cols, row, cond) == keep then [row] else []
  {
    assert (rows + [row])[..|rows|] == rows;
  }

  /** A list in which every row has the wanted status is its own filter; otherwise nothing is left. */
  lemma {:induction false} FilterAll(cols: seq<string>, rows: seq<Row>, cond: string, keep: bool)
    requires Rectangular(rows, |cols|)
    requires forall r | r in rows :: Matches(cols, r, cond) == keep
    ensures Filter(cols, rows, cond, keep) == rows && Filter(cols, rows, cond, !keep) == []
  {
    hide Matches;
    if rows != [] {
      var k := |rows| - 1;
      assert rows == rows[..k] + [rows[k]];
      FilterAll(cols, rows[..k], cond, keep);
    }
  }

  /** The SELECT counts for "<", "=" and ">" add up to the number of rows; "<=" and ">=" give the merges. */
  lemma {:induction false} CountsPartition(cols: seq<string>, rows: seq<Row>, left: string, right: string)
    requires Rectangular(rows, |cols|) && left in cols && RightKnown(cols, right) && ComparisonSides(left, right)
    ensures var lt := Filter(cols, rows, Comparison(left, "<", right), true);
      var eq := Filter(cols, rows, Comparison(left, "=", right), true);
      var gt := Filter(cols, rows, Comparison(left, ">", right), true);
      var le := Filter(cols, rows, Comparison(left, "<=", right), true);
      var ge := Filter(cols, rows, Comparison(left, ">=", right), true);
      && |lt| + |eq| + |gt| == |rows| && |le| == |lt| + |eq| && |ge| == |gt| + |eq|
      && Merges(lt, eq, le) && Merges(gt, eq, ge)
      && le == Filter(cols, rows, Comparison(left, ">", right), false)
      && ge == Filter(cols, rows, Comparison(left, "<", right), false)
  {
    hide Matches, Comparison, ComparisonSides, RightKnown, Merges;
    MergesNothing();
    if rows != [] {
      var before, row := rows[..|rows| - 1], rows[|rows| - 1];
      CountsPartition(cols, before, left, right);
      MatchesPartition(cols, row, left, right);
      var eq := Filter(cols, before, Comparison(left, "=", right), true);
      MergesMore(Filter(cols, before, Comparison(left, "<", right), true), eq,
                 Filter(cols, before, Comparison(left, "<=", right), true), row);
      MergesMore(Filter(cols, before, Comparison(left, ">", right), true), eq,
                 Filter(cols, before, Comparison(left, ">=", right), true), row);
    }
  }

  lemma MatchesPartition(cols: seq<string>, row: Row, left: string, right: string)
    requires |row| == |cols| && left in cols && RightKnown(cols, right) && ComparisonSides(left, right)
    ensures var lt := Matches(cols, row, Comparison(left, "<", right));
      var eq := Matches(cols, row, Comparison(left, "=", right));
      var gt := Matches(cols, row, Comparison(left, ">", right));
      && (lt || eq || gt) && !(lt && eq) && !(lt && gt) && !(eq && gt)
      && (Matches(cols, row, Comparison(left, "<=", right)) <==> lt || eq)
      && (Matches(cols, row, Comparison(left, ">=", right)) <==> gt || eq)
  {
    hide ParseCond, Eval, Comparison, ComparisonSides, HasOp, NulFree, LastIndex, Unquote;
    ComparisonParsed(left, "<", right);
    ComparisonParsed(left, "=", right);
    ComparisonParsed(left, ">", right);
    ComparisonParsed(left, "<=", right);
    ComparisonParsed(left, ">=", right);
    OperatorsPartition(cols, row, left, right);
  }

  // ---- What a constraint means ----

  /** The row's value in the last column of that name. */
  predicate HasValue(cols: seq<string>, row: Row, name: string, x: string)
    requires |row| == |cols|
  {
    exists l :: 0 <= l < |cols| && cols[l] == name && name !in cols[l + 1..] && row[l] == x
  }

  lemma ValueIsLast(cols: seq<string>, row: Row, name: string, x: string)
    requires |row| == |cols| && HasValue(cols, row, name, x)
    ensures LastIndex(cols, name) >= 0 && row[LastIndex(cols, name)] == x && name in cols
  {
    var l :| 0 <= l < |cols| && cols[l] == name && name !in cols[l + 1..] && row[l] == x;
    assert forall k | l < k < |cols| :: cols[k] == cols[l + 1..][k - l - 1];
  }

  /** The three parts of a constraint, none of which runs into the next. */
  predicate Parts(left: string, op: string, right: string) {
    && (forall c | c in left :: c !in " =<>\0") && (forall c | c in right :: c !in " \0")
    && op != "" && (forall c | c in op :: c in "=<>") && (right != "" ==> right[0] !in "=<>")
  }

  lemma PartsFound(left: string, op: string, right: string, b1: string, b2: string, b3: string)
    requires Parts(left, op, right) && forall c | c in b1 + b2 + b3 :: c == ' '
    ensures var s := b1 + left + b2 + op + b3 + right;
      s != "*" && NulFree(s) && HasOp(s) && ParseCond(s) == Constraint(left, op, right)
  {
    hide ParseCond;
    var s := b1 + left + b2 + op + b3 + right;
    assert forall c | c in b1 || c in b2 || c in b3 :: c in b1 + b2 + b3;
    assert s == b1 + (left + (b2 + (op + (b3 + (right + "")))));
    ConstraintRoundTrip(Constraint(left, op, right), b1, b2, b3, "");
  }

  /**
    A constraint between a column and a second column or, if there is none of that name, a
    quoted literal selects the rows that compare in the order of a dictionary as the operator
    says; an operator other than the five selects none.
   */
  lemma ConstraintMeans(cols: seq<string>, row: Row, left: string, op: string, right: string,
                        b1: string, b2: string, b3: string, x: string, v: string)
    requires Parts(left, op, right) && forall c | c in b1 + b2 + b3 :: c == ' '
    requires |row| == |cols| && HasValue(cols, row, left, x)
    requires HasValue(cols, row, right, v) || (right !in cols && IsQuoted(right, v))
    ensures Matches(cols, row, b1 + left + b2 + op + b3 + right) <==>
      || (op == "=" && x == v) || (op == "<" && LexLess(x, v)) || (op == ">" && LexLess(v, x))
      || (op == "<=" && (LexLess(x, v) || x == v)) || (op == ">=" && (LexLess(v, x) || x == v))
  {
    hide ParseCond, HasValue, IsQuoted, LexLess, Compare, Unquote, Parts;
    PartsFound(left, op, right, b1, b2, b3);
    ValueIsLast(cols, row, left, x);
    if HasValue(cols, row, right, v) { ValueIsLast(cols, row, right, v); } else { UnquoteMeans(right, v); }
    CompareIsLex(x, v);
  }

  /** An unknown left column, or a right side that is neither column nor quoted, selects no row. */
  lemma BadConstraintSelectsNothing(cols: seq<string>, row: Row, left: string, op: string, right: string,
                                    b1: string, b2: string, b3: string)
    requires Parts(left, op, right) && forall c | c in b1 + b2 + b3 :: c == ' '
    requires |row| == |cols|
    requires left !in cols || (right !in cols && forall v :: !IsQuoted(right, v))
    ensures !Matches(cols, row, b1 + left + b2 + op + b3 + right)
  {
    hide ParseCond, IsQuoted, Unquote, Parts;
    PartsFound(left, op, right, b1, b2, b3);
    if left in cols && Unquote(right).Some? { UnquoteMeans(right, Unquote(right).value); }
  }

  /** The columns that the constraint names are not assigned. */
  predicate Independent(names: seq<string>, cond: string) {
    cond == "*" || (ParseCond(cond).left !in names && ParseCond(cond).right !in names)
  }

  lemma AssignKeepsMatch(cols: seq<string>, row: Row, names: seq<string>, values: seq<string>, cond: string)
    requires |row| == |cols| && |names| == |values| && Independent(names, cond)
    ensures Matches(cols, Assign(cols, row, names, values), cond) == Matches(cols, row, cond)
  {
    hide ParseCond, Eval;
    if cond != "*" {
      EvalLocal(cols, row, Assign(cols, row, names, values), ParseCond(cond));
    }
  }

  lemma AssignTwice(cols: seq<string>, row: Row, names: seq<string>, values: seq<string>)
    requires |row| == |cols| && |names| == |values|
    ensures Assign(cols, Assign(cols, row, names, values), names, values) == Assign(cols, row, names, values)
  {
    hide LastAssignment;
  }

  /** An update whose constraint names no assigned column does nothing more the second time. */
  lemma {:induction false} AssignAllIdempotent(cols: seq<string>, rows: seq<Row>, names: seq<string>,
                                               values: seq<string>, cond: string)
    requires Rectangular(rows, |cols|) && |names| == |values| && Independent(names, cond)
    ensures var once := AssignAll(cols, rows, names, values, cond);
      AssignAll(cols, once, names, values, cond) == once
      && |Filter(cols, once, cond, true)| == |Filter(cols, rows, cond, true)|
  {
    hide Independent, Matches, Assign, Filter;
    var once := AssignAll(cols, rows, names, values, cond);
    forall i | 0 <= i < |rows|
      ensures AssignIf(cols, once[i], names, values, cond) == once[i]
    {
      AssignKeepsMatch(cols, rows[i], names, values, cond);
      AssignTwice(cols, rows[i], names, values);
    }
    assert AssignAll(cols, once, names, values, cond) == once;
    AssignAllKeepsCount(cols, rows, names, values, cond);
  }

  lemma {:induction false} AssignAllKeepsCount(cols: seq<string>, rows: seq<Row>, names: seq<string>,
                                               values: seq<string>, cond: string)
    requires Rectangular(rows, |cols|) && |names| == |values| && Independent(names, cond)
    ensures |Filter(cols, AssignAll(cols, rows, names, values, cond), cond, true)| == |Filter(cols, rows, cond, true)|
  {
    hide Independent, Matches, Assign;
    if rows != [] {
      var k := |rows| - 1;
      var once := AssignAll(cols, rows, names, values, cond);
      AssignAllKeepsCount(cols, rows[..k], names, values, cond);
      assert AssignAll(cols, rows[..k], names, values, cond) == once[..k];
      AssignKeepsMatch(cols, rows[k], names, values, cond);
    }
  }
}
