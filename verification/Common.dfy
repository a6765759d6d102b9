/** The comparisons of common.c. */
module Common {
  import opened CStrings

  /** toupper in the C locale. */
  function Upper(c: char): char {
    if 'a' <= c <= 'z' then ((c as int) - 32) as char else c
  }

  function UpperAll(s: string): (r: string)
    ensures |r| == |s| && forall i | 0 <= i < |s| :: r[i] == Upper(s[i])
  {
    seq(|s|, i requires 0 <= i < |s| => Upper(s[i]))
  }

  // ---- What it is to ignore case ----

  /** The lower-case letter `c` has `d` as its capital, which stands 32 places below it. */
  predicate LetterPair(c: char, d: char) {
    'a' <= c <= 'z' && c as int == d as int + 32
  }

  predicate SameLetter(c: char, d: char) {
    c == d || LetterPair(c, d) || LetterPair(d, c)
  }

  predicate SameIgnoringCase(p: string, q: string) {
    |p| == |q| && forall i | 0 <= i < |p| :: SameLetter(p[i], q[i])
  }

  /** The code of a character in the order that puts letters where the capitals are. */
  function Rank(c: char): int {
    if 'a' <= c <= 'z' then c as int - 'a' as int + 'A' as int else c as int
  }

  /** At the first place where the texts differ up to case, `p` has ended or has the lower letter. */
  predicate BeforeIgnoringCase(p: string, q: string) {
    exists i :: 0 <= i <= |p| && i < |q| && SameIgnoringCase(p[..i], q[..i]) && (i == |p| || Rank(p[i]) < Rank(q[i]))
  }

  /** Two characters have the same capital exactly when they are the same letter. */
  lemma UpperSame(c: char, d: char)
    ensures Upper(c) == Upper(d) <==> SameLetter(c, d)
    ensures Upper(c) < Upper(d) <==> Rank(c) < Rank(d)
  {
  }

  lemma UpperAllSame(p: string, q: string)
    ensures UpperAll(p) == UpperAll(q) <==> SameIgnoringCase(p, q)
  {
    hide SameLetter, Upper;
    if |p| == |q| {
      forall i | 0 <= i < |p| ensures UpperAll(p)[i] == UpperAll(q)[i] <==> SameLetter(p[i], q[i]) {
        UpperSame(p[i], q[i]);
      }
    } else {
      assert |UpperAll(p)| != |UpperAll(q)|;
    }
  }

  lemma UpperAllTake(p: string, i: nat)
    requires i <= |p|
    ensures UpperAll(p[..i]) == UpperAll(p)[..i]
  {
  }

  /** The order of the upper-case texts is the order that ignores case. */
  lemma UpperAllBefore(p: string, q: string)
    ensures LexLess(UpperAll(p), UpperAll(q)) <==> BeforeIgnoringCase(p, q)
  {
    hide UpperAll, Upper, SameIgnoringCase, Rank;
    var a, b := UpperAll(p), UpperAll(q);
    forall i | 0 <= i <= |p| && i < |q|
      ensures a[..i] == b[..i] <==> SameIgnoringCase(p[..i], q[..i])
      ensures i < |p| ==> (a[i] < b[i] <==> Rank(p[i]) < Rank(q[i]))
    {
      UpperAllTake(p, i);
      UpperAllTake(q, i);
      UpperAllSame(p[..i], q[..i]);
      if i < |p| { UpperSame(p[i], q[i]); }
    }
    if LexLess(a, b) {
      var i :| 0 <= i <= |a| && i < |b| && a[..i] == b[..i] && (i == |a| || a[i] < b[i]);
      assert SameIgnoringCase(p[..i], q[..i]);
    }
    if BeforeIgnoringCase(p, q) {
      var i :| 0 <= i <= |p| && i < |q| && SameIgnoringCase(p[..i], q[..i]) && (i == |p| || Rank(p[i]) < Rank(q[i]));
      assert a[..i] == b[..i];
    }
  }

  lemma SameIgnoringCaseLike(p: string, q: string, r: string)
    requires SameIgnoringCase(p, q)
    ensures SameIgnoringCase(p, r) <==> SameIgnoringCase(q, r)
    ensures SameIgnoringCase(r, p) <==> SameIgnoringCase(r, q)
  {
    UpperAllSame(p, q);
    UpperAllSame(p, r);
    UpperAllSame(q, r);
    UpperAllSame(r, p);
    UpperAllSame(r, q);
  }

  // ---- The comparisons ----

  /** sdb_strcasecmp: zero means equal up to case, and the sign is that of the order that ignores case. */
  method StrCaseCmp(p: string, q: string) returns (c: int)
    requires NulFree(p) && NulFree(q)
    ensures c == 0 <==> SameIgnoringCase(p, q)
    ensures c < 0 <==> BeforeIgnoringCase(p, q)
    ensures c > 0 <==> BeforeIgnoringCase(q, p)
  {
    hide Compare, SameIgnoringCase, BeforeIgnoringCase;
    var i := 0;
    c := Upper(At(p, i)) as int - Upper(At(q, i)) as int;
    while c == 0 && At(p, i) != '\0'
      invariant i <= |p| && i <= |q| && UpperAll(p)[..i] == UpperAll(q)[..i]
      invariant c == Upper(At(p, i)) as int - Upper(At(q, i)) as int
      decreases |p| - i
    {
      assert UpperAll(p)[..i + 1] == UpperAll(p)[..i] + [Upper(p[i])];
      assert UpperAll(q)[..i + 1] == UpperAll(q)[..i] + [Upper(q[i])];
      i := i + 1;
      c := Upper(At(p, i)) as int - Upper(At(q, i)) as int;
    }
    UpperEnds(p, i);
    UpperEnds(q, i);
    CompareAt(UpperAll(p), UpperAll(q), i);
    UpperAllCompare(p, q);
  }

  lemma UpperAllCompare(p: string, q: string)
    ensures Compare(UpperAll(p), UpperAll(q)) == 0 <==> SameIgnoringCase(p, q)
    ensures Compare(UpperAll(p), UpperAll(q)) < 0 <==> BeforeIgnoringCase(p, q)
    ensures Compare(UpperAll(p), UpperAll(q)) > 0 <==> BeforeIgnoringCase(q, p)
  {
    hide *;
    CompareIsLex(UpperAll(p), UpperAll(q));
    UpperAllSame(p, q);
    UpperAllBefore(p, q);
    UpperAllBefore(q, p);
  }

  /** Only the terminating NUL is the least character, before and after toupper. */
  lemma UpperEnds(s: string, i: nat)
    requires NulFree(s) && i <= |s|
    ensures i < |s| ==> Upper(s[i]) > '\0'
  {
    assert i < |s| ==> s[i] in s;
  }

  function Prefix(s: string, n: nat): string {
    if |s| <= n then s else s[..n]
  }

  /** The two texts agree, up to case, on their first `n` characters. */
  predicate SamePrefix(p: string, q: string, n: nat) {
    SameIgnoringCase(Prefix(p, n), Prefix(q, n))
  }

  /** sdb_strncasecmp is sdb_strcasecmp on the first `n` characters. */
  method StrNCaseCmp(p: string, q: string, n: nat) returns (c: int)
    requires NulFree(p) && NulFree(q)
    ensures c == 0 <==> SamePrefix(p, q, n)
    ensures c < 0 <==> BeforeIgnoringCase(Prefix(p, n), Prefix(q, n))
    ensures c > 0 <==> BeforeIgnoringCase(Prefix(q, n), Prefix(p, n))
  {
    hide Compare, Prefix, SameIgnoringCase, BeforeIgnoringCase;
    var i := 0;
    c := 0;
    while i < n
      invariant i <= n && i <= |p| && i <= |q| && c == 0
      invariant forall k | 0 <= k < i :: Upper(p[k]) == Upper(q[k])
      decreases n - i
    {
      c := Upper(At(p, i)) as int - Upper(At(q, i)) as int;
      if c != 0 || At(p, i) == '\0' { break; }
      i := i + 1;
    }
    if i < n {
      UpperEnds(p, i);
      UpperEnds(q, i);
    }
    PrefixDecided(p, q, n, i, c);
    UpperAllCompare(Prefix(p, n), Prefix(q, n));
  }

  lemma PrefixDecided(p: string, q: string, n: nat, i: nat, c: int)
    requires i <= n && i <= |p| && i <= |q| && forall k | 0 <= k < i :: Upper(p[k]) == Upper(q[k])
    requires i == n ==> c == 0
    requires i < n ==> c == Upper(At(p, i)) as int - Upper(At(q, i)) as int && (c != 0 || i == |p|)
    requires NulFree(p) && NulFree(q)
    ensures var a, b := UpperAll(Prefix(p, n)), UpperAll(Prefix(q, n));
      (c == 0 <==> Compare(a, b) == 0) && (c < 0 <==> Compare(a, b) < 0) && (c > 0 <==> Compare(a, b) > 0)
  {
    hide Compare;
    var a, b := UpperAll(Prefix(p, n)), UpperAll(Prefix(q, n));
    if i < n {
      UpperEnds(p, i);
      UpperEnds(q, i);
    }
    assert a[..i] == b[..i];
    CompareAt(a, b, i);
    CompareTotal(a, b);
  }
}
