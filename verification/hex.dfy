/** Hexadecimal digit strings: reading them as numbers, and printing a
    natural number the way JavaScript's `Number.prototype.toString(16)`
    does (lower-case digits, no leading zero, "0" for zero). */
module Hex {

  predicate IsHexDigit(c: char) {
    ('0' <= c <= '9') || ('a' <= c <= 'f') || ('A' <= c <= 'F')
  }

  predicate IsLowerHexDigit(c: char) {
    ('0' <= c <= '9') || ('a' <= c <= 'f')
  }

  predicate AllHex(s: string) {
    forall i :: 0 <= i < |s| ==> IsHexDigit(s[i])
  }

  /** The digit strings `toString(16)` produces. */
  predicate IsCanonical(s: string) {
    && |s| > 0
    && (forall i :: 0 <= i < |s| ==> IsLowerHexDigit(s[i]))
    && (s[0] == '0' ==> |s| == 1)
  }

  function Pow16(k: nat): (p: nat)
    ensures p >= 1
  {
    if k == 0 then 1 else 16 * Pow16(k - 1)
  }

  function DigitValue(c: char): (v: nat)
    requires IsHexDigit(c)
    ensures v < 16
    ensures v == 0 <==> c == '0'
  {
    if '0' <= c <= '9' then c as int - '0' as int
    else if 'a' <= c <= 'f' then c as int - 'a' as int + 10
    else c as int - 'A' as int + 10
  }

  /** The lower-case digit of a value below 16. */
  function Digit(v: nat): (c: char)
    requires v < 16
    ensures IsLowerHexDigit(c) && IsHexDigit(c)
    ensures DigitValue(c) == v
  {
    if v < 10 then ('0' as int + v) as char else ('a' as int + v - 10) as char
  }

  lemma DigitOfValue(c: char)
    requires IsLowerHexDigit(c)
    ensures Digit(DigitValue(c)) == c
  {
  }

  lemma {:induction false} Pow16Monotone(j: nat, k: nat)
    requires j <= k
    ensures Pow16(j) <= Pow16(k)
    decreases k
  {
    if j < k {
      Pow16Monotone(j, k - 1);
    }
  }

  /** The number a string of hex digits denotes, most significant first. */
  function ValueOf(s: string): (n: nat)
    requires AllHex(s)
    decreases |s|
  {
    if |s| == 0 then 0
    else
      assert AllHex(s[..|s| - 1]);
      16 * ValueOf(s[..|s| - 1]) + DigitValue(s[|s| - 1])
  }

  /** `n.toString(16)` for a non-negative integer `n`. */
  function ToHex(n: nat): (s: string)
    ensures IsCanonical(s) && AllHex(s)
    ensures ValueOf(s) == n
    decreases n
  {
    if n < 16 then [Digit(n)]
    else
      var high := ToHex(n / 16);
      var s := high + [Digit(n % 16)];
      assert s[..|s| - 1] == high;
      s
  }

  /** k digits denote a value below 16^k. */
  lemma {:induction false} ValueOfBound(s: string)
    requires AllHex(s)
    ensures ValueOf(s) < Pow16(|s|)
    decreases |s|
  {
    if |s| > 0 {
      assert AllHex(s[..|s| - 1]);
      ValueOfBound(s[..|s| - 1]);
    }
  }

  /** A value below 16^k prints in at most k digits. */
  lemma {:induction false} ToHexLength(n: nat, k: nat)
    requires 1 <= k && n < Pow16(k)
    ensures |ToHex(n)| <= k
    decreases k
  {
    if n >= 16 {
      assert k >= 2;
      ToHexLength(n / 16, k - 1);
    }
  }

  /** A canonical digit string with a non-zero first digit is not zero. */
  lemma {:induction false} LeadingDigitPositive(s: string)
    requires IsCanonical(s) && s[0] != '0'
    ensures ValueOf(s) >= 1
    decreases |s|
  {
    if |s| > 1 {
      var p := s[..|s| - 1];
      assert p[0] == s[0];
      LeadingDigitPositive(p);
    }
  }

  /** The one canonical string of zero is "0". */
  lemma CanonicalZero(s: string)
    requires IsCanonical(s)
    ensures AllHex(s) && (ValueOf(s) == 0 <==> s == "0")
  {
    assert AllHex(s);
    if s[0] != '0' {
      LeadingDigitPositive(s);
    } else {
      assert s == [s[0]];
      assert s[..0] == [];
    }
  }

  /** Printing is the inverse of reading on canonical strings, so the
      canonical string of a value is unique. */
  lemma {:induction false} ToHexOfValue(s: string)
    requires IsCanonical(s)
    ensures AllHex(s) && ToHex(ValueOf(s)) == s
    decreases |s|
  {
    assert AllHex(s);
    if |s| == 1 {
      DigitOfValue(s[0]);
    } else {
      var p := s[..|s| - 1];
      var c := s[|s| - 1];
      assert p[0] == s[0];
      assert IsCanonical(p);
      LeadingDigitPositive(p);
      ToHexOfValue(p);
      DigitOfValue(c);
      assert ValueOf(s) == 16 * ValueOf(p) + DigitValue(c);
      assert ValueOf(s) / 16 == ValueOf(p);
      assert ValueOf(s) % 16 == DigitValue(c);
      assert s == p + [c];
    }
  }

  /** The value of six digits, digit by digit. */
  lemma SixDigitValue(s: string)
    requires |s| == 6 && AllHex(s)
    ensures ValueOf(s) == DigitValue(s[0]) * 0x10_0000 + DigitValue(s[1]) * 0x1_0000
                          + DigitValue(s[2]) * 0x1000 + DigitValue(s[3]) * 0x100
                          + DigitValue(s[4]) * 0x10 + DigitValue(s[5])
  {
    assert s[..5][..4] == s[..4];
    assert s[..4][..3] == s[..3];
    assert s[..3][..2] == s[..2];
    assert s[..2][..1] == s[..1];
    assert s[..1][..0] == [];
    assert ValueOf(s[..1]) == DigitValue(s[0]);
  }
}
