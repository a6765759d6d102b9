/**
  C strings and the few library string functions that the programs use.  A C string is
  modelled by the characters in front of its terminating NUL, so `At(s, |s|)` is the NUL
  itself and anything beyond it is out of bounds.
 */
module CStrings {

  datatype Option<+T> = None | Some(value: T)

  predicate NulFree(s: string) {
    '\0' !in s
  }

  function At(s: string, i: nat): char
    requires i <= |s|
  {
    if i < |s| then s[i] else '\0'
  }

  lemma SliceOfDrop(s: string, a: nat, b: nat, c: nat)
    requires b <= c && a + c <= |s|
    ensures s[a..][b..c] == s[a + b..a + c]
  {
  }

  lemma TakeOfTake(s: string, a: nat, b: nat)
    requires b <= a <= |s|
    ensures s[..a][..b] == s[..b]
  {
  }

  lemma CutOut(s: string, k: nat)
    requires k < |s|
    ensures s == s[..k] + [s[k]] + s[k + 1..]
  {
  }

  /** The number of characters in front of the first `c`, or |s| when there is none. */
  function IndexOf(s: string, c: char): (i: nat)
    ensures i <= |s|
  {
    if s == "" || s[0] == c then 0 else 1 + IndexOf(s[1..], c)
  }

  lemma IndexOfFirst(s: string, c: char)
    ensures var i := IndexOf(s, c);
      (i < |s| ==> s[i] == c) && forall k | 0 <= k < i :: s[k] != c
  {
    if s != "" && s[0] != c {
      IndexOfFirst(s[1..], c);
      assert forall k | 1 <= k < |s| :: s[k] == s[1..][k - 1];
    }
  }

  /** The number of characters before `c` pins the position down. */
  lemma IndexOfIs(s: string, c: char, i: nat)
    requires i <= |s| && (i < |s| ==> s[i] == c) && forall k | 0 <= k < i :: s[k] != c
    ensures IndexOf(s, c) == i
  {
    IndexOfFirst(s, c);
  }

  lemma IndexOfSplit(a: string, c: char, b: string)
    requires c !in a
    ensures IndexOf(a + [c] + b, c) == |a|
  {
    var s := a + [c] + b;
    assert s[|a|] == c;
    assert forall k | 0 <= k < |a| :: s[k] == a[k] != c;
    IndexOfIs(s, c, |a|);
  }

  /** `t` occurs in `s` at position `i`. */
  predicate OccursAt(s: string, t: string, i: nat) {
    i + |t| <= |s| && s[i..i + |t|] == t
  }

  lemma OccursInTail(s: string, t: string, k: nat)
    requires s != "" && k > 0
    ensures OccursAt(s, t, k) <==> OccursAt(s[1..], t, k - 1)
  {
    if k + |t| <= |s| {
      var a, b := s[k..k + |t|], s[1..][k - 1..k - 1 + |t|];
      assert forall i | 0 <= i < |t| :: a[i] == s[k + i] == b[i];
      assert a == b;
    }
  }

  /** strstr: the first position at which `t` occurs in `s`. */
  function Find(s: string, t: string): (r: Option<nat>)
    ensures r.Some? ==> OccursAt(s, t, r.value) && forall k | 0 <= k < r.value :: !OccursAt(s, t, k)
    ensures r.None? ==> forall k: nat :: !OccursAt(s, t, k)
  {
    if OccursAt(s, t, 0) then Some(0)
    else if s == "" then None
    else
      assert forall k: nat | k > 0 :: OccursAt(s, t, k) <==> OccursAt(s[1..], t, k - 1) by {
        forall k: nat | k > 0 ensures OccursAt(s, t, k) <==> OccursAt(s[1..], t, k - 1) {
          OccursInTail(s, t, k);
        }
      }
      match Find(s[1..], t)
      case None => None
      case Some(k) => Some(k + 1)
  }

  predicate Contains(s: string, t: string) {
    Find(s, t).Some?
  }

  /** A pattern that starts with `c` is not found inside text free of `c`. */
  lemma FindSkips(a: string, t: string, b: string)
    requires t != "" && t[0] !in a
    ensures Find(a + t + b, t) == Some(|a|)
  {
    var s := a + t + b;
    assert OccursAt(s, t, |a|);
    forall k | 0 <= k < |a| ensures !OccursAt(s, t, k) {
      assert s[k] == a[k] != t[0];
      assert k + |t| <= |s| ==> s[k..k + |t|][0] == s[k];
    }
  }

  lemma FindNothing(a: string, t: string)
    requires t != "" && t[0] !in a
    ensures Find(a, t) == None
  {
    forall k: nat ensures !OccursAt(a, t, k) {
      assert k + |t| <= |a| ==> a[k..k + |t|][0] == a[k];
    }
  }

  /** The text without its blanks. */
  function NoBlanks(s: string): (r: string)
    ensures ' ' !in r && forall c | c in r :: c in s
  {
    if s == "" then "" else
    if s[0] == ' ' then NoBlanks(s[1..]) else [s[0]] + NoBlanks(s[1..])
  }

  lemma NoBlanksSame(s: string)
    requires ' ' !in s
    ensures NoBlanks(s) == s
  {
    if s != "" { NoBlanksSame(s[1..]); }
  }

  function SkipBlanks(s: string): string {
    if s != "" && s[0] == ' ' then SkipBlanks(s[1..]) else s
  }

  /** Skipping a stretch of blanks that ends at a non-blank or at the end. */
  lemma {:induction false} SkipBlanksAt(s: string, j: nat)
    requires j <= |s| && (j < |s| ==> s[j] != ' ')
    requires forall k | 0 <= k < j :: s[k] == ' '
    ensures SkipBlanks(s) == s[j..]
  {
    if j > 0 {
      SkipBlanksAt(s[1..], j - 1);
      assert s[1..][j - 1..] == s[j..];
    }
  }

  /** isspace in the C locale. */
  predicate IsWhite(c: char) {
    c == ' ' || ('\t' <= c <= '\r')
  }

  function SkipWhite(s: string): (r: string)
    ensures |r| <= |s| && (r != "" ==> !IsWhite(r[0]))
  {
    if s != "" && IsWhite(s[0]) then SkipWhite(s[1..]) else s
  }

  /** The pieces of `s` between the separators; the empty text has one empty piece. */
  function Split(s: string, sep: char): (r: seq<string>)
    ensures |r| >= 1
    ensures forall p, c | p in r && c in p :: c in s && c != sep
  {
    if s == "" then [""] else
    var r := Split(s[1..], sep);
    if s[0] == sep then [""] + r else [[s[0]] + r[0]] + r[1..]
  }

  lemma {:induction false} SplitNothing(s: string, sep: char)
    requires sep !in s
    ensures Split(s, sep) == [s]
  {
    if s != "" {
      SplitNothing(s[1..], sep);
      assert s == [s[0]] + s[1..];
    }
  }

  lemma {:induction false} SplitPiece(a: string, sep: char, b: string)
    requires sep !in a
    ensures Split(a + [sep] + b, sep) == [a] + Split(b, sep)
  {
    var s := a + [sep] + b;
    if a == "" {
      assert s[1..] == b;
    } else {
      assert s[1..] == a[1..] + [sep] + b;
      SplitPiece(a[1..], sep, b);
      assert a == [a[0]] + a[1..];
    }
  }

  /** The pieces separated by `sep`. */
  function Join(pieces: seq<string>, sep: char): string {
    if pieces == [] then "" else
    if |pieces| == 1 then pieces[0] else pieces[0] + [sep] + Join(pieces[1..], sep)
  }

  lemma {:induction false} SplitJoin(pieces: seq<string>, sep: char)
    requires pieces != [] && forall p | p in pieces :: sep !in p
    ensures Split(Join(pieces, sep), sep) == pieces
  {
    if |pieces| == 1 {
      SplitNothing(pieces[0], sep);
    } else {
      SplitJoin(pieces[1..], sep);
      SplitPiece(pieces[0], sep, Join(pieces[1..], sep));
    }
  }

  lemma {:induction false} JoinKeepsOut(pieces: seq<string>, sep: char, c: char)
    requires c != sep && forall p | p in pieces :: c !in p
    ensures c !in Join(pieces, sep)
  {
    if |pieces| > 1 { JoinKeepsOut(pieces[1..], sep, c); }
  }

  /** The results of `f` on corresponding elements. */
  function Map2<A, B, C>(f: (A, B) -> C, a: seq<A>, b: seq<B>): (r: seq<C>)
    requires |a| == |b|
    ensures |r| == |a| && forall i | 0 <= i < |r| :: r[i] == f(a[i], b[i])
  {
    seq(|a|, i requires 0 <= i < |a| => f(a[i], b[i]))
  }

  /** `row` cut or filled up with empty strings to `n` fields. */
  function Fit(row: seq<string>, n: nat): (r: seq<string>)
    ensures |r| == n
    ensures forall i | 0 <= i < n :: r[i] == if i < |row| then row[i] else ""
  {
    seq(n, i requires 0 <= i < n => if i < |row| then row[i] else "")
  }

  /** The last position of `x` in `s`, or -1. */
  function LastIndex<T(==)>(s: seq<T>, x: T): (i: int)
    ensures -1 <= i < |s|
    ensures i >= 0 ==> s[i] == x
    ensures forall k | i < k < |s| :: s[k] != x
  {
    if s == [] then -1
    else if s[|s| - 1] == x then |s| - 1
    else LastIndex(s[..|s| - 1], x)
  }

  /** strcmp: lexicographic order on character codes; only the sign matters. */
  function Compare(a: string, b: string): (c: int)
    ensures c in {-1, 0, 1}
  {
    if a == "" && b == "" then 0
    else if a == "" then -1
    else if b == "" then 1
    else if a[0] < b[0] then -1
    else if a[0] > b[0] then 1
    else Compare(a[1..], b[1..])
  }

  /** strcmp is a total order: exactly one of less, equal, greater, as seen from both sides. */
  lemma CompareTotal(a: string, b: string)
    ensures Compare(a, b) == 0 <==> a == b
    ensures Compare(a, b) == -Compare(b, a)
  {
    if a != "" && b != "" && a[0] == b[0] {
      CompareTotal(a[1..], b[1..]);
      assert a == [a[0]] + a[1..] && b == [b[0]] + b[1..];
    }
  }

  lemma CompareTransitive(a: string, b: string, c: string)
    requires Compare(a, b) <= 0 && Compare(b, c) <= 0
    ensures Compare(a, c) <= 0
  {
    if a != "" && b != "" && c != "" && a[0] == b[0] == c[0] {
      CompareTransitive(a[1..], b[1..], c[1..]);
    }
  }

  lemma {:induction false} CompareAt(a: string, b: string, i: nat)
    requires i <= |a| && i <= |b| && a[..i] == b[..i]
    ensures i == |a| == |b| ==> Compare(a, b) == 0
    ensures i < |b| && (i == |a| || a[i] < b[i]) ==> Compare(a, b) < 0
    ensures i < |a| && (i == |b| || a[i] > b[i]) ==> Compare(a, b) > 0
    decreases i
  {
    if i > 0 {
      assert a[0] == a[..i][0] == b[..i][0] == b[0];
      assert a[1..][..i - 1] == a[..i][1..] == b[1..][..i - 1];
      CompareAt(a[1..], b[1..], i - 1);
    }
  }

  /** The order of a dictionary: at the first difference `a` has ended or has the lower character. */
  predicate LexLess(a: string, b: string) {
    exists i :: 0 <= i <= |a| && i < |b| && a[..i] == b[..i] && (i == |a| || a[i] < b[i])
  }

  /** strcmp is negative, zero or positive as the dictionary says. */
  lemma CompareIsLex(a: string, b: string)
    ensures Compare(a, b) < 0 <==> LexLess(a, b)
    ensures Compare(a, b) == 0 <==> a == b
    ensures Compare(a, b) > 0 <==> LexLess(b, a)
  {
    hide Compare;
    var i := Agreement(a, b);
    CompareAt(a, b, i);
    CompareTotal(a, b);
    assert LexLess(a, b) ==> Compare(a, b) < 0 by { if LexLess(a, b) { LexLessCompare(a, b); } }
    assert LexLess(b, a) ==> Compare(b, a) < 0 by { if LexLess(b, a) { LexLessCompare(b, a); } }
    assert i < |b| && (i == |a| || a[i] < b[i]) ==> LexLess(a, b);
    assert i < |a| && (i == |b| || b[i] < a[i]) ==> LexLess(b, a);
  }

  lemma LexLessCompare(a: string, b: string)
    requires LexLess(a, b)
    ensures Compare(a, b) < 0
  {
    hide Compare;
    var i :| 0 <= i <= |a| && i < |b| && a[..i] == b[..i] && (i == |a| || a[i] < b[i]);
    CompareAt(a, b, i);
  }

  /** How far two texts agree. */
  function Agreement(a: string, b: string): (i: nat)
    ensures i <= |a| && i <= |b| && a[..i] == b[..i]
    ensures i < |a| && i < |b| ==> a[i] != b[i]
  {
    if a == "" || b == "" || a[0] != b[0] then 0 else
    var i := 1 + Agreement(a[1..], b[1..]);
    assert a[..i] == [a[0]] + a[1..][..i - 1] && b[..i] == [b[0]] + b[1..][..i - 1];
    i
  }
}
