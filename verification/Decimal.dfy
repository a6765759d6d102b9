/** Decimal numbers as printf("%d") writes them and as readno and atoi read them. */
module Decimal {
  import opened CStrings

  predicate IsDigit(c: char) {
    '0' <= c <= '9'
  }

  function DigitValue(c: char): (v: nat)
    requires IsDigit(c)
    ensures v < 10
  {
    c as int - '0' as int
  }

  function Digit(v: nat): (c: char)
    requires v < 10
    ensures IsDigit(c) && DigitValue(c) == v
  {
    ('0' as int + v) as char
  }

  predicate AllDigits(s: string) {
    forall c | c in s :: IsDigit(c)
  }

  /** `%d` on a number that is not negative. */
  function Dec(n: nat): (s: string)
    ensures s != "" && AllDigits(s)
  {
    if n < 10 then [Digit(n)] else Dec(n / 10) + [Digit(n % 10)]
  }

  /** The digits as they are written, the last one first taken off. */
  lemma DecIsWritten(n: nat)
    ensures n < 10 ==> Dec(n) == ["0123456789"[n]]
    ensures n >= 10 ==> Dec(n) == Dec(n / 10) + ["0123456789"[n % 10]]
  {
    DigitIsWritten(n % 10);
  }

  lemma DigitIsWritten(v: nat)
    requires v < 10
    ensures Digit(v) == "0123456789"[v]
  {
    var digits := "0123456789";
    assert digits[0] == '0' && digits[1] == '1' && digits[2] == '2' && digits[3] == '3' && digits[4] == '4';
    assert digits[5] == '5' && digits[6] == '6' && digits[7] == '7' && digits[8] == '8' && digits[9] == '9';
  }

  /** The loop `no = 10*no + c-'0'` over all characters. */
  function Value(s: string): nat
    requires AllDigits(s)
  {
    if s == "" then 0 else 10 * Value(s[..|s| - 1]) + DigitValue(s[|s| - 1])
  }

  lemma {:induction false} ValueOfDec(n: nat)
    ensures Value(Dec(n)) == n
  {
    var s := Dec(n);
    if n < 10 {
      assert s[..0] == "" && s[0] == Digit(n);
    } else {
      ValueOfDec(n / 10);
      assert s[..|s| - 1] == Dec(n / 10);
    }
  }

  lemma DecInjective(m: nat, n: nat)
    requires Dec(m) == Dec(n)
    ensures m == n
  {
    ValueOfDec(m);
    ValueOfDec(n);
  }

  function DigitCount(s: string): (k: nat)
    ensures k <= |s| && AllDigits(s[..k]) && (k < |s| ==> !IsDigit(s[k]))
  {
    if s == "" || !IsDigit(s[0]) then 0 else
    var k := 1 + DigitCount(s[1..]);
    assert s[..k] == [s[0]] + s[1..][..k - 1];
    k
  }

  lemma DigitCountIs(s: string, k: nat)
    requires k <= |s| && AllDigits(s[..k]) && (k < |s| ==> !IsDigit(s[k]))
    ensures DigitCount(s) == k
  {
    var m := DigitCount(s);
    assert forall i | 0 <= i < k :: s[..k][i] == s[i] && IsDigit(s[i]);
    assert forall i | 0 <= i < m :: s[..m][i] == s[i] && IsDigit(s[i]);
  }

  /** atoi: leading white space, an optional sign, then digits; anything else ends the number. */
  function Atoi(s: string): int {
    var t := SkipWhite(s);
    if t != "" && (t[0] == '-' || t[0] == '+') then
      var v: int := Value(t[1..][..DigitCount(t[1..])]);
      if t[0] == '-' then -v else v
    else Value(t[..DigitCount(t)])
  }

  /** A printed number is read back, whatever follows its last digit. */
  lemma AtoiOfDecThen(n: nat, junk: string)
    requires junk != "" ==> !IsDigit(junk[0])
    ensures Atoi(Dec(n) + junk) == n
  {
    var s := Dec(n) + junk;
    assert s[0] == Dec(n)[0] && Dec(n)[0] in Dec(n);
    assert SkipWhite(s) == s;
    assert s[..|Dec(n)|] == Dec(n);
    DigitCountIs(s, |Dec(n)|);
    ValueOfDec(n);
  }

  lemma AtoiOfDec(n: nat)
    ensures Atoi(Dec(n)) == n
  {
    AtoiOfDecThen(n, "");
    assert Dec(n) + "" == Dec(n);
  }
}
