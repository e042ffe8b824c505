/** The pieces of JavaScript number semantics the colour code relies on:
    `parseInt(s, 16)`, the ToInt32 conversion that the bit operators apply
    to their operands, and framer-motion's `clamp(min, max, v)`. */
module JsNumber {
  import opened Wrappers
  import Hex

  const TwoTo31: int := 0x8000_0000
  const TwoTo32: int := 0x1_0000_0000

  /** StrWhiteSpaceChar of ECMAScript: the white space and line terminator
      characters that `parseInt` skips before the number. */
  predicate IsStrWhiteSpace(c: char) {
    var u := c as int;
    || u == 0x09 || u == 0x0A || u == 0x0B || u == 0x0C || u == 0x0D
    || u == 0x20 || u == 0xA0 || u == 0x1680
    || (0x2000 <= u <= 0x200A)
    || u == 0x2028 || u == 0x2029 || u == 0x202F || u == 0x205F
    || u == 0x3000 || u == 0xFEFF
  }

  /** Drops leading white space: what is dropped is all white space, and
      what is left does not start with any. */
  function TrimStart(s: string): (r: string)
    ensures |r| <= |s| && r == s[|s| - |r|..]
    ensures forall i :: 0 <= i < |s| - |r| ==> IsStrWhiteSpace(s[i])
    ensures |r| > 0 ==> !IsStrWhiteSpace(r[0])
    decreases |s|
  {
    if |s| > 0 && IsStrWhiteSpace(s[0]) then
      var r := TrimStart(s[1..]);
      assert forall i :: 1 <= i < |s| - |r| ==> s[i] == s[1..][i - 1];
      r
    else s
  }

  /** Whether `parseInt` reads a minus sign. */
  predicate IsNegated(s: string) {
    |s| > 0 && s[0] == '-'
  }

  /** The text after the sign: a leading '-' or '+' is consumed. */
  function AfterSign(s: string): (r: string)
    ensures |s| > 0 && (s[0] == '-' || s[0] == '+') ==> r == s[1..]
    ensures !(|s| > 0 && (s[0] == '-' || s[0] == '+')) ==> r == s
  {
    if |s| > 0 && (s[0] == '-' || s[0] == '+') then s[1..] else s
  }

  /** With radix 16, `parseInt` also skips a "0x" or "0X" prefix. */
  function StripRadixPrefix(s: string): (r: string)
    ensures |s| >= 2 && s[0] == '0' && (s[1] == 'x' || s[1] == 'X') ==> r == s[2..]
    ensures !(|s| >= 2 && s[0] == '0' && (s[1] == 'x' || s[1] == 'X')) ==> r == s
  {
    if |s| >= 2 && s[0] == '0' && (s[1] == 'x' || s[1] == 'X') then s[2..] else s
  }

  /** The longest prefix made of hex digits. */
  function HexDigitPrefix(s: string): (p: string)
    ensures |p| <= |s| && p == s[..|p|]
    ensures Hex.AllHex(p)
    ensures |p| < |s| ==> !Hex.IsHexDigit(s[|p|])
    decreases |s|
  {
    if |s| > 0 && Hex.IsHexDigit(s[0]) then
      var rest := HexDigitPrefix(s[1..]);
      assert ([s[0]] + rest)[1..] == rest;
      [s[0]] + rest
    else []
  }

  /** `parseInt(s, 16)`; None stands for NaN, returned when no hex digit
      follows the white space, sign and radix prefix. */
  function ParseIntHex(s: string): (r: Option<int>)
  {
    ParseTrimmed(TrimStart(s))
  }

  /** `parseInt` once the leading white space is gone. */
  function ParseTrimmed(t: string): (r: Option<int>)
  {
    var digits := HexDigitPrefix(StripRadixPrefix(AfterSign(t)));
    if |digits| == 0 then None
    else if IsNegated(t) then Some(-(Hex.ValueOf(digits) as int))
    else Some(Hex.ValueOf(digits))
  }

  /** ECMAScript ToInt32 on an integral number: reduce modulo 2^32 into the
      signed 32-bit range. */
  function ToInt32(x: int): (r: int)
    ensures -TwoTo31 <= r < TwoTo31
    ensures (x - r) % TwoTo32 == 0
    ensures -TwoTo31 <= x < TwoTo31 ==> r == x
  {
    var m := x % TwoTo32;
    if m >= TwoTo31 then m - TwoTo32 else m
  }

  /** ToInt32 of NaN is 0, which is what the shifts and masks see when
      `parseInt` fails. */
  function ToInt32OrZero(o: Option<int>): (r: int)
    ensures -TwoTo31 <= r < TwoTo31
    ensures o.None? ==> r == 0
  {
    match o
    case None => 0
    case Some(x) => ToInt32(x)
  }

  /** framer-motion's `clamp(min, max, v)`, which is `min(max(v, lo), hi)`. */
  function Clamp(lo: int, hi: int, v: int): (r: int)
    requires lo <= hi
    ensures lo <= r <= hi
    ensures lo <= v <= hi ==> r == v
    ensures v < lo ==> r == lo
    ensures v > hi ==> r == hi
  {
    if v < lo then lo else if v > hi then hi else v
  }

  /** The digit prefix of a digit string is all of it. */
  lemma {:induction false} HexDigitPrefixOfDigits(d: string)
    requires Hex.AllHex(d)
    ensures HexDigitPrefix(d) == d
    decreases |d|
  {
    if |d| > 0 {
      assert Hex.AllHex(d[1..]);
      HexDigitPrefixOfDigits(d[1..]);
      assert d == [d[0]] + d[1..];
    }
  }

  /** A string of hex digits alone parses to the number it denotes. */
  lemma ParseAllHex(d: string)
    requires |d| > 0 && Hex.AllHex(d)
    ensures ParseIntHex(d) == Some(Hex.ValueOf(d))
  {
    ParseHexNumber("", "", "", d, "");
    assert "" + "" + "" + d + "" == d;
  }

  /** Once the digits after the sign and prefix are known, the parse is
      their value, negated after '-'. */
  lemma ParseTrimmedDigits(t: string, d: string)
    requires HexDigitPrefix(StripRadixPrefix(AfterSign(t))) == d
    requires |d| > 0
    ensures ParseTrimmed(t) == Some(if IsNegated(t) then -(Hex.ValueOf(d) as int) else Hex.ValueOf(d))
  {
  }

  /** The digit prefix stops at the first character that is not a digit. */
  lemma {:induction false} HexDigitPrefixStops(d: string, rest: string)
    requires Hex.AllHex(d)
    requires |rest| == 0 || !Hex.IsHexDigit(rest[0])
    ensures HexDigitPrefix(d + rest) == d
    decreases |d|
  {
    if |d| > 0 {
      assert Hex.AllHex(d[1..]);
      HexDigitPrefixStops(d[1..], rest);
      assert (d + rest)[1..] == d[1..] + rest;
      assert d == [d[0]] + d[1..];
    }
  }

  // ---------------------------------------------------------------------
  // The general shape of a parse

  predicate AllWhiteSpace(ws: string) {
    forall i :: 0 <= i < |ws| ==> IsStrWhiteSpace(ws[i])
  }

  predicate IsSign(sign: string) {
    sign == "" || sign == "-" || sign == "+"
  }

  predicate IsRadixPrefix(prefix: string) {
    prefix == "" || prefix == "0x" || prefix == "0X"
  }

  /** White space in front of anything that does not start with white space
      is dropped, and nothing more. */
  lemma {:induction false} TrimsWhiteSpace(ws: string, t: string)
    requires AllWhiteSpace(ws)
    requires |t| == 0 || !IsStrWhiteSpace(t[0])
    ensures TrimStart(ws + t) == t
    decreases |ws|
  {
    if |ws| > 0 {
      assert (ws + t)[1..] == ws[1..] + t;
      TrimsWhiteSpace(ws[1..], t);
    } else {
      assert ws + t == t;
    }
  }

  /** The sign is read off and then the radix prefix: what is left starts
      with the digits. */
  lemma SignAndPrefix(sign: string, prefix: string, u: string)
    requires IsSign(sign) && IsRadixPrefix(prefix)
    requires |u| > 0 && u[0] != '-' && u[0] != '+'
    requires prefix == "" ==> !(|u| >= 2 && u[0] == '0' && (u[1] == 'x' || u[1] == 'X'))
    ensures IsNegated(sign + (prefix + u)) <==> sign == "-"
    ensures StripRadixPrefix(AfterSign(sign + (prefix + u))) == u
  {
    var v := prefix + u;
    assert |v| > 0 && v[0] != '-' && v[0] != '+' by {
      if prefix != "" { assert v[0] == '0'; } else { assert v == u; }
    }
    if sign == "" {
      assert sign + v == v;
    } else {
      assert (sign + v)[0] == sign[0] && (sign + v)[1..] == v;
    }
    assert AfterSign(sign + v) == v;
    if prefix == "" {
      assert v == u;
    } else {
      assert v[0] == '0' && (v[1] == 'x' || v[1] == 'X') && v[2..] == u;
    }
  }

  /** Once the white space is gone, the sign and the radix prefix are
      read off and the digits are parsed. */
  lemma ParseTrimmedNumber(sign: string, prefix: string, d: string, rest: string)
    requires IsSign(sign) && IsRadixPrefix(prefix)
    requires |d| > 0 && Hex.AllHex(d)
    requires |rest| == 0 || !Hex.IsHexDigit(rest[0])
    requires prefix == "" && d == "0" && |rest| > 0 ==> rest[0] != 'x' && rest[0] != 'X'
    ensures var t := sign + (prefix + (d + rest));
            && |t| > 0 && !IsStrWhiteSpace(t[0])
            && ParseTrimmed(t) == Some(if sign == "-" then -(Hex.ValueOf(d) as int) else Hex.ValueOf(d))
  {
    DigitsStartRight(prefix, d, rest);
    SignAndPrefix(sign, prefix, d + rest);
    StartsWithoutWhiteSpace(sign, prefix, d + rest);
    ReadsDigits(sign + (prefix + (d + rest)), d, rest);
  }

  /** What follows the radix prefix starts with a digit and, without a
      prefix, is not itself read as one. */
  lemma DigitsStartRight(prefix: string, d: string, rest: string)
    requires |d| > 0 && Hex.AllHex(d)
    requires prefix == "" && d == "0" && |rest| > 0 ==> rest[0] != 'x' && rest[0] != 'X'
    ensures var u := d + rest;
            && |u| > 0 && Hex.IsHexDigit(u[0]) && u[0] != '-' && u[0] != '+'
            && (prefix == "" ==> !(|u| >= 2 && u[0] == '0' && (u[1] == 'x' || u[1] == 'X')))
  {
    var u := d + rest;
    assert u[0] == d[0];
    if |u| >= 2 && u[0] == '0' && prefix == "" {
      if |d| >= 2 { assert u[1] == d[1]; } else { assert d == [d[0]] && u[1] == rest[0]; }
    }
  }

  lemma StartsWithoutWhiteSpace(sign: string, prefix: string, u: string)
    requires IsSign(sign) && IsRadixPrefix(prefix)
    requires |u| > 0 && Hex.IsHexDigit(u[0])
    ensures var t := sign + (prefix + u);
            |t| > 0 && !IsStrWhiteSpace(t[0])
  {
    var t := sign + (prefix + u);
    if sign != "" { assert t[0] == sign[0]; }
    else if prefix != "" { assert t[0] == prefix[0]; }
    else { assert t[0] == u[0]; }
  }

  /** The digits after the sign and the prefix are what is parsed. */
  lemma ReadsDigits(t: string, d: string, rest: string)
    requires StripRadixPrefix(AfterSign(t)) == d + rest
    requires |d| > 0 && Hex.AllHex(d)
    requires |rest| == 0 || !Hex.IsHexDigit(rest[0])
    ensures ParseTrimmed(t) == Some(if IsNegated(t) then -(Hex.ValueOf(d) as int) else Hex.ValueOf(d))
  {
    HexDigitPrefixStops(d, rest);
    ParseTrimmedDigits(t, d);
  }

  /** Leading white space does not change the parse. */
  lemma ParseAfterWhiteSpace(ws: string, t: string)
    requires AllWhiteSpace(ws)
    requires |t| == 0 || !IsStrWhiteSpace(t[0])
    ensures ParseIntHex(ws + t) == ParseTrimmed(t)
  {
    TrimsWhiteSpace(ws, t);
  }

  lemma Regroup(a: string, b: string, c: string, d: string, e: string)
    ensures a + b + c + d + e == a + (b + (c + (d + e)))
  {
  }

  lemma RegroupFour(a: string, b: string, c: string, d: string)
    ensures a + b + c + d == a + (b + (c + d))
  {
  }

  /** `parseInt(s, 16)` on a number: white space, an optional sign, an
      optional "0x", one or more hex digits, then anything that does not
      continue the digits. The result is the value of the digits, negated
      after '-'. A lone "0" directly followed by 'x' is the radix prefix
      instead, so that case is written with `prefix` = "0x". */
  lemma ParseHexNumber(ws: string, sign: string, prefix: string, d: string, rest: string)
    requires AllWhiteSpace(ws) && IsSign(sign) && IsRadixPrefix(prefix)
    requires |d| > 0 && Hex.AllHex(d)
    requires |rest| == 0 || !Hex.IsHexDigit(rest[0])
    requires prefix == "" && d == "0" && |rest| > 0 ==> rest[0] != 'x' && rest[0] != 'X'
    ensures ParseIntHex(ws + sign + prefix + d + rest)
            == Some(if sign == "-" then -(Hex.ValueOf(d) as int) else Hex.ValueOf(d))
  {
    ParseTrimmedNumber(sign, prefix, d, rest);
    ParseAfterWhiteSpace(ws, sign + (prefix + (d + rest)));
    Regroup(ws, sign, prefix, d, rest);
  }

  /** Once the white space is gone, a sign and a radix prefix with no
      digit after them give NaN. */
  lemma ParseTrimmedNaN(sign: string, prefix: string, rest: string)
    requires IsSign(sign) && IsRadixPrefix(prefix)
    requires |rest| == 0 || !Hex.IsHexDigit(rest[0])
    requires sign == "" && prefix == "" && |rest| > 0 ==>
               !IsStrWhiteSpace(rest[0]) && rest[0] != '-' && rest[0] != '+'
    ensures var t := sign + (prefix + rest);
            && (|t| == 0 || !IsStrWhiteSpace(t[0]))
            && ParseTrimmed(t) == None
  {
    var t := sign + (prefix + rest);
    var v := prefix + rest;
    if sign == "" {
      assert t == v;
    } else {
      assert t[0] == sign[0] && t[1..] == v;
    }
    assert AfterSign(t) == v by {
      if sign == "" && prefix == "" { assert t == rest; }
      else if sign == "" { assert t[0] == '0'; }
    }
    assert StripRadixPrefix(v) == rest by {
      if prefix == "" {
        assert v == rest;
        if |v| >= 2 { assert !Hex.IsHexDigit(v[0]) && Hex.IsHexDigit('0'); }
      } else {
        assert v[0] == '0' && (v[1] == 'x' || v[1] == 'X') && v[2..] == rest;
      }
    }
    assert HexDigitPrefix(rest) == [];
    assert |t| == 0 || !IsStrWhiteSpace(t[0]) by {
      if sign != "" { assert t[0] == sign[0]; }
      else if prefix != "" { assert t[0] == prefix[0]; }
      else { assert t == rest; }
    }
  }

  /** `parseInt(s, 16)` is NaN when no hex digit follows the white space,
      the optional sign and the optional "0x". */
  lemma ParseHexNaN(ws: string, sign: string, prefix: string, rest: string)
    requires AllWhiteSpace(ws) && IsSign(sign) && IsRadixPrefix(prefix)
    requires |rest| == 0 || !Hex.IsHexDigit(rest[0])
    requires sign == "" && prefix == "" && |rest| > 0 ==>
               !IsStrWhiteSpace(rest[0]) && rest[0] != '-' && rest[0] != '+'
    ensures ParseIntHex(ws + sign + prefix + rest) == None
  {
    ParseTrimmedNaN(sign, prefix, rest);
    ParseAfterWhiteSpace(ws, sign + (prefix + rest));
    RegroupFour(ws, sign, prefix, rest);
  }

  /** An example of the general shape: white space, sign, prefix, digits
      and trailing text. */
  lemma ParseSkipsSpaceSignAndPrefix()
    ensures ParseIntHex("  -0x1F zz") == Some(-31)
  {
    ExampleParts();
    ParseHexNumber("  ", "-", "0x", "1F", " zz");
  }

  lemma ExampleParts()
    ensures AllWhiteSpace("  ") && IsSign("-") && IsRadixPrefix("0x")
    ensures Hex.AllHex("1F") && Hex.ValueOf("1F") == 31
    ensures !Hex.IsHexDigit(" zz"[0])
    ensures "  " + "-" + "0x" + "1F" + " zz" == "  -0x1F zz"
  {
    assert Hex.ValueOf("1") == 1;
  }
}
