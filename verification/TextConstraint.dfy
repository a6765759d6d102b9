/** Where-clause constraints of the text driver (text_driver.c): extraction and evaluation. */
module TextConstraint {
  import opened CStrings
  import opened TextLexer

  datatype Constraint = Constraint(left: string, op: string, right: string)

  /** The character classes that the three extractors scan over. */
  datatype CharClass = Blank | NotOp | Op | OpOrBlank | NotBlank | NameChar

  predicate IsOp(c: char) {
    c == '=' || c == '<' || c == '>'
  }

  predicate In(c: char, cls: CharClass) {
    match cls
    case Blank => c == ' '
    case NotOp => !IsOp(c)
    case Op => IsOp(c)
    case OpOrBlank => IsOp(c) || c == ' '
    case NotBlank => c != ' '
    case NameChar => c != ' ' && !IsOp(c)
  }

  /** The length of the longest prefix made of characters of the class. */
  function Span(s: string, cls: CharClass): (n: nat)
    ensures n <= |s|
  {
    if s != "" && In(s[0], cls) then 1 + Span(s[1..], cls) else 0
  }

  function Take(s: string, cls: CharClass): string {
    s[..Span(s, cls)]
  }

  function Drop(s: string, cls: CharClass): string {
    s[Span(s, cls)..]
  }

  lemma {:induction false} SpanIs(s: string, a: nat, b: nat, cls: CharClass)
    requires a <= b <= |s| && (b < |s| ==> !In(s[b], cls))
    requires forall k | a <= k < b :: In(s[k], cls)
    ensures Span(s[a..], cls) == b - a
    ensures Take(s[a..], cls) == s[a..b] && Drop(s[a..], cls) == s[b..]
    decreases b - a
  {
    if a < b {
      SpanIs(s, a + 1, b, cls);
      assert s[a..][1..] == s[a + 1..];
    }
    SliceOfDrop(s, a, 0, b - a);
    assert s[a..][b - a..] == s[b..];
  }

  lemma SpanConcat(a: string, b: string, cls: CharClass)
    requires (forall c | c in a :: In(c, cls)) && (b != "" ==> !In(b[0], cls))
    ensures Take(a + b, cls) == a && Drop(a + b, cls) == b
  {
    SpanIs(a + b, 0, |a|, cls);
    assert (a + b)[0..] == a + b && (a + b)[0..|a|] == a && (a + b)[|a|..] == b;
  }

  lemma FirstOfConcat(a: string, b: string)
    ensures a == "" ==> a + b == b
    ensures a != "" ==> (a + b)[0] == a[0] && a[0] in a
  {
  }

  predicate HasOp(s: string) {
    exists c | c in s :: IsOp(c)
  }

  function ParseCond(s: string): Constraint {
    var fromOp := Drop(s, NotOp);
    Constraint(Take(Drop(s, Blank), NameChar), Take(fromOp, Op), Take(Drop(fromOp, OpOrBlank), NotBlank))
  }

  // Without an operator the loops below run past the end of the string.

  method Recupere1(contr: string) returns (result: string)
    requires NulFree(contr) && HasOp(contr)
    ensures result == ParseCond(contr).left
  {
    hide Take, Drop, Span;
    var i := 0;
    result := "";
    ghost var p :| 0 <= p < |contr| && IsOp(contr[p]);
    while At(contr, i) == ' '
      invariant i <= p && forall k | 0 <= k < i :: contr[k] == ' '
      decreases |contr| - i
    {
      i := i + 1;
    }
    ghost var start := i;
    while At(contr, i) != ' ' && !IsOp(At(contr, i))
      invariant start <= i <= p && result == contr[start..i]
      invariant forall k | start <= k < i :: In(contr[k], NameChar)
      decreases |contr| - i
    {
      result := result + [contr[i]];
      i := i + 1;
    }
    assert contr[0..] == contr;
    SpanIs(contr, 0, start, Blank);
    SpanIs(contr, start, i, NameChar);
  }

  method Recupere2(contr: string) returns (result: string)
    requires NulFree(contr) && HasOp(contr)
    ensures result == ParseCond(contr).op
  {
    hide Take, Drop, Span;
    var i := 0;
    result := "";
    ghost var p :| 0 <= p < |contr| && IsOp(contr[p]);
    while !IsOp(At(contr, i))
      invariant i <= p && forall k | 0 <= k < i :: !IsOp(contr[k])
      decreases |contr| - i
    {
      i := i + 1;
    }
    ghost var start := i;
    while IsOp(At(contr, i))
      invariant start <= i <= |contr| && result == contr[start..i]
      invariant forall k | start <= k < i :: IsOp(contr[k])
      decreases |contr| - i
    {
      result := result + [contr[i]];
      i := i + 1;
    }
    assert contr[0..] == contr;
    SpanIs(contr, 0, start, NotOp);
    SpanIs(contr, start, i, Op);
  }

  method Recupere3(contr: string) returns (result: string)
    requires NulFree(contr) && HasOp(contr)
    ensures result == ParseCond(contr).right && NulFree(result)
  {
    hide Take, Drop, Span;
    var i := 0;
    result := "";
    ghost var p :| 0 <= p < |contr| && IsOp(contr[p]);
    while !IsOp(At(contr, i))
      invariant i <= p && forall k | 0 <= k < i :: !IsOp(contr[k])
      decreases |contr| - i
    {
      i := i + 1;
    }
    ghost var op := i;
    while IsOp(At(contr, i)) || At(contr, i) == ' '
      invariant op <= i <= |contr|
      invariant forall k | op <= k < i :: In(contr[k], OpOrBlank)
      decreases |contr| - i
    {
      i := i + 1;
    }
    ghost var start := i;
    while At(contr, i) != ' ' && At(contr, i) != '\0'
      invariant start <= i <= |contr| && result == contr[start..i]
      invariant forall k | start <= k < i :: contr[k] != ' '
      decreases |contr| - i
    {
      result := result + [contr[i]];
      i := i + 1;
    }
    assert contr[0..] == contr;
    SpanIs(contr, 0, op, NotOp);
    SpanIs(contr, op, start, OpOrBlank);
    SpanIs(contr, start, i, NotBlank);
  }

  /**
    The three extractors agree on where the operator lies: whatever blanks surround the
    parts, and whatever follows a blank after the right side, the three parts come back.
   */
  lemma ConstraintRoundTrip(c: Constraint, p1: string, p2: string, p3: string, rest: string)
    requires Blanks(p1) && Blanks(p2) && Blanks(p3)
    requires (forall x | x in c.left :: In(x, NameChar)) && c.op != "" && (forall x | x in c.op :: IsOp(x))
    requires ' ' !in c.right && (c.right != "" ==> !IsOp(c.right[0]))
    requires if c.right == "" then rest == "" else rest != "" ==> rest[0] == ' '
    ensures var s := p1 + (c.left + (p2 + (c.op + (p3 + (c.right + rest)))));
      HasOp(s) && ParseCond(s) == c
  {
    hide ParseCond, HasOp, Take, Drop, Span;
    var value := c.right + rest;
    var fromOp := c.op + (p3 + value);
    LeftPart(c.left, p1, p2, fromOp);
    FirstOfConcat(p3, value);
    FirstOfConcat(c.right, rest);
    SpanConcat(c.op, p3 + value, Op);
    assert c.op + p3 + value == fromOp;
    SpanConcat(c.op + p3, value, OpOrBlank);
    SpanConcat(c.right, rest, NotBlank);
    PartsAssembled(p1 + (c.left + (p2 + fromOp)), c, fromOp, value);
  }

  predicate Blanks(s: string) {
    forall b | b in s :: b == ' '
  }

  lemma PartsAssembled(s: string, c: Constraint, fromOp: string, value: string)
    requires Take(Drop(s, Blank), NameChar) == c.left
    requires Drop(s, NotOp) == fromOp && Take(fromOp, Op) == c.op
    requires Drop(fromOp, OpOrBlank) == value && Take(value, NotBlank) == c.right
    ensures ParseCond(s) == c
  {
    hide Take, Drop;
  }

  lemma LeftPart(left: string, p1: string, p2: string, fromOp: string)
    requires Blanks(p1) && Blanks(p2) && (forall x | x in left :: In(x, NameChar))
    requires fromOp != "" && IsOp(fromOp[0])
    ensures var s := p1 + (left + (p2 + fromOp));
      HasOp(s) && Take(Drop(s, Blank), NameChar) == left && Drop(s, NotOp) == fromOp
  {
    hide Take, Drop, Span;
    var body := left + (p2 + fromOp);
    assert p1 + body == p1 + left + p2 + fromOp;
    SpanConcat(p1 + left + p2, fromOp, NotOp);
    assert (p1 + left + p2 + fromOp)[|p1 + left + p2|] == fromOp[0];
    if left == "" {
      assert p1 + body == p1 + p2 + fromOp;
      SpanConcat(p1 + p2, fromOp, Blank);
      SpanConcat("", fromOp, NameChar);
      assert "" + fromOp == fromOp;
    } else {
      FirstOfConcat(left, p2 + fromOp);
      FirstOfConcat(p2, fromOp);
      SpanConcat(p1, body, Blank);
      SpanConcat(left, p2 + fromOp, NameChar);
    }
  }

  function CompareHolds(op: string, c: int): bool {
    (op == "=" && c == 0) || (op == "<" && c < 0) || (op == ">" && c > 0)
    || (op == "<=" && c <= 0) || (op == ">=" && c >= 0)
  }

  /** The right-hand value: the column of that name, or else a quoted literal. */
  function RightValue(names: seq<string>, row: seq<string>, right: string): Option<string>
    requires |names| <= |row|
  {
    var r := LastIndex(names, right);
    if r >= 0 then Some(row[r]) else Unquote(right)
  }

  /** 1 when the row satisfies the constraint, 0 when not, -1 for an unknown column or a bad literal. */
  function Eval(names: seq<string>, row: seq<string>, c: Constraint): (r: int)
    requires |names| <= |row|
    ensures -1 <= r <= 1
  {
    var l := LastIndex(names, c.left);
    if l < 0 then -1 else
    match RightValue(names, row, c.right)
    case None => -1
    case Some(v) => if CompareHolds(c.op, Compare(row[l], v)) then 1 else 0
  }

  method VerifContrainte(nomChamps: seq<string>, champs: seq<string>, nbre: nat, contr: string) returns (r: int)
    requires NulFree(contr) && HasOp(contr)
    requires nbre == |nomChamps| <= |champs|
    ensures r == Eval(nomChamps, champs, ParseCond(contr))
  {
    hide ParseCond, Compare, Unquote;
    var arg1 := Recupere1(contr);
    var comp := Recupere2(contr);
    var arg2 := Recupere3(contr);
    var compare0, compare1 := -1, -1;
    var i := 0;
    while i < nbre
      invariant i <= nbre
      invariant compare0 == LastIndex(nomChamps[..i], arg1) && compare1 == LastIndex(nomChamps[..i], arg2)
    {
      assert nomChamps[..i + 1][..i] == nomChamps[..i];
      if nomChamps[i] == arg1 { compare0 := i; }
      if nomChamps[i] == arg2 { compare1 := i; }
      i := i + 1;
    }
    assert nomChamps[..i] == nomChamps;
    if compare0 == -1 { return -1; }
    if compare1 == -1 {
      var lit := Enleve(arg2);
      if lit.None? { return -1; }
      if comp == "=" && Compare(champs[compare0], lit.value) == 0 { return 1; }
      if comp == "<" && Compare(champs[compare0], lit.value) < 0 { return 1; }
      if comp == ">" && Compare(champs[compare0], lit.value) > 0 { return 1; }
      if comp == "<=" && Compare(champs[compare0], lit.value) <= 0 { return 1; }
      if comp == ">=" && Compare(champs[compare0], lit.value) >= 0 { return 1; }
    } else {
      if comp == "=" && Compare(champs[compare0], champs[compare1]) == 0 { return 1; }
      if comp == "<" && Compare(champs[compare0], champs[compare1]) < 0 { return 1; }
      if comp == ">" && Compare(champs[compare0], champs[compare1]) > 0 { return 1; }
      if comp == "<=" && Compare(champs[compare0], champs[compare1]) <= 0 { return 1; }
      if comp == ">=" && Compare(champs[compare0], champs[compare1]) >= 0 { return 1; }
    }
    return 0;
  }

  /** Evaluation looks at no column but the ones the constraint names. */
  lemma EvalLocal(names: seq<string>, row1: seq<string>, row2: seq<string>, c: Constraint)
    requires |names| <= |row1| && |names| <= |row2|
    requires forall i | 0 <= i < |names| && names[i] in {c.left, c.right} :: row1[i] == row2[i]
    ensures Eval(names, row1, c) == Eval(names, row2, c)
  {
    hide Compare, Unquote;
  }

  /** For a known left column and a usable right side, exactly one of "<", "=", ">" holds. */
  lemma OperatorsPartition(names: seq<string>, row: seq<string>, left: string, right: string)
    requires |names| <= |row| && left in names && RightValue(names, row, right).Some?
    ensures var lt := Eval(names, row, Constraint(left, "<", right));
      var eq := Eval(names, row, Constraint(left, "=", right));
      var gt := Eval(names, row, Constraint(left, ">", right));
      && lt >= 0 && eq >= 0 && gt >= 0 && lt + eq + gt == 1
      && Eval(names, row, Constraint(left, "<=", right)) == lt + eq
      && Eval(names, row, Constraint(left, ">=", right)) == gt + eq
  {
    hide Compare, RightValue;
  }

  /** Swapping the sides of a comparison of two columns swaps "<" and ">". */
  lemma OperatorsMirror(names: seq<string>, row: seq<string>, a: string, b: string)
    requires |names| <= |row| && a in names && b in names
    ensures Eval(names, row, Constraint(a, "<", b)) == Eval(names, row, Constraint(b, ">", a))
    ensures Eval(names, row, Constraint(a, "=", b)) == Eval(names, row, Constraint(b, "=", a))
    ensures Eval(names, row, Constraint(a, "=", b)) == 1 <==> row[LastIndex(names, a)] == row[LastIndex(names, b)]
  {
    CompareTotal(row[LastIndex(names, a)], row[LastIndex(names, b)]);
  }

  /** Comparing columns is transitive: from a <= b and b <= c follows a <= c, and a < c if either was strict. */
  lemma OperatorsChain(names: seq<string>, row: seq<string>, a: string, b: string, c: string)
    requires |names| <= |row| && a in names && b in names && c in names
    requires Eval(names, row, Constraint(a, "<=", b)) == 1 && Eval(names, row, Constraint(b, "<=", c)) == 1
    ensures Eval(names, row, Constraint(a, "<=", c)) == 1
    ensures Eval(names, row, Constraint(a, "<", b)) == 1 || Eval(names, row, Constraint(b, "<", c)) == 1
      ==> Eval(names, row, Constraint(a, "<", c)) == 1
  {
    hide Compare;
    var x, y, z := row[LastIndex(names, a)], row[LastIndex(names, b)], row[LastIndex(names, c)];
    CompareTransitive(x, y, z);
    if Compare(x, z) == 0 {
      CompareTotal(x, z);
      CompareTotal(x, y);
    }
  }

  // ---- Comparisons as texts ----

  function Comparison(left: string, op: string, right: string): string {
    left + (op + right)
  }

  /** Sides that the constraint extractors take out of the text unchanged. */
  predicate ComparisonSides(left: string, right: string) {
    NulFree(left) && NulFree(right) && (forall c | c in left :: In(c, NameChar))
    && ' ' !in right && (right != "" ==> !IsOp(right[0]))
  }

  /** The right side is a column or a quoted literal. */
  predicate RightKnown(names: seq<string>, right: string) {
    right in names || Unquote(right).Some?
  }

  lemma ComparisonParsed(left: string, op: string, right: string)
    requires ComparisonSides(left, right) && op in {"<", "=", ">", "<=", ">="}
    ensures var s := Comparison(left, op, right);
      NulFree(s) && HasOp(s) && s != "*" && ParseCond(s) == Constraint(left, op, right)
  {
    hide ParseCond, HasOp;
    var s := Comparison(left, op, right);
    assert s == "" + (left + ("" + (op + ("" + (right + "")))));
    ConstraintRoundTrip(Constraint(left, op, right), "", "", "", "");
    assert s[|left|] == op[0];
  }
}
