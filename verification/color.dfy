/** `lumenColor(color, amount)`: lighten or darken a hex colour by adding
    `amount` to each of its three bytes, clamping each to 0..255, and print
    the result in hex with the same optional '#' as the input. */
module Color {
  import Hex
  import opened JsNumber

  const MaxColor: int := 0xFF_FFFF

  predicate HasPound(s: string) {
    |s| > 0 && s[0] == '#'
  }

  /** The text after the optional '#'. */
  function Digits(s: string): (d: string)
    ensures HasPound(s) ==> s == "#" + d
    ensures !HasPound(s) ==> d == s
  {
    if HasPound(s) then s[1..] else s
  }

  /** The 32-bit integer the shifts and masks operate on: ToInt32 of
      `parseInt(digits, 16)`, where NaN becomes 0. */
  function NumericValue(color: string): (h: int)
    ensures -TwoTo31 <= h < TwoTo31
  {
    ToInt32OrZero(ParseIntHex(Digits(color)))
  }

  /** `h >> 16`: an arithmetic shift, so floor division. Of a 32-bit value
      it leaves a signed 16-bit one, and of a 24-bit value a byte. */
  function High(h: int): (b: int)
    ensures -TwoTo31 <= h < TwoTo31 ==> -0x8000 <= b < 0x8000
    ensures 0 <= h <= MaxColor ==> 0 <= b < 256
  {
    h / 0x1_0000
  }

  /** `(h >> 8) & 0xff`. */
  function Middle(h: int): (b: int)
    ensures 0 <= b < 256
  {
    (h / 0x100) % 0x100
  }

  /** `h & 0xff`. */
  function Low(h: int): (b: int)
    ensures 0 <= b < 256
  {
    h % 0x100
  }

  predicate IsByte(v: int) {
    0 <= v < 256
  }

  function ClampByte(v: int): (b: int)
    ensures IsByte(b)
  {
    Clamp(0, 255, v)
  }

  /** `low | (mid << 8) | (high << 16)` on bytes: the three operands occupy
      disjoint bits, so the bitwise or is their sum. */
  function Pack(low: int, mid: int, high: int): (v: int)
    requires IsByte(low) && IsByte(mid) && IsByte(high)
    ensures 0 <= v <= MaxColor
    ensures Low(v) == low && Middle(v) == mid && High(v) == high
  {
    low + 0x100 * mid + 0x1_0000 * high
  }

  /** The numeric value of the adjusted colour. */
  function Adjusted(color: string, amount: int): (v: int)
    ensures 0 <= v <= MaxColor
  {
    var h := NumericValue(color);
    var high := ClampByte(High(h) + amount);
    var low := ClampByte(Low(h) + amount);
    var mid := ClampByte(Middle(h) + amount);
    Pack(low, mid, high)
  }

  /** Each byte of the input moves by `amount`, is clamped, and stays in
      its own position. */
  lemma AdjustedBytes(color: string, amount: int)
    ensures var v := Adjusted(color, amount);
            var h := NumericValue(color);
            && Low(v) == ClampByte(Low(h) + amount)
            && Middle(v) == ClampByte(Middle(h) + amount)
            && High(v) == ClampByte(High(h) + amount)
  {
  }

  function LumenColor(color: string, amount: int): (r: string)
    ensures HasPound(r) <==> HasPound(color)
    ensures Hex.IsCanonical(Digits(r)) && Hex.AllHex(Digits(r))
    ensures |Digits(r)| <= 6
    ensures var v := Hex.ValueOf(Digits(r));
            && v <= MaxColor
            && Low(v) == ClampByte(Low(NumericValue(color)) + amount)
            && Middle(v) == ClampByte(Middle(NumericValue(color)) + amount)
            && High(v) == ClampByte(High(NumericValue(color)) + amount)
  {
    var digits := Hex.ToHex(Adjusted(color, amount));
    Hex.ToHexLength(Adjusted(color, amount), 6);
    if HasPound(color) then
      assert ("#" + digits)[1..] == digits;
      "#" + digits
    else
      digits
  }

  /** `r` is `color` with `amount` added to each byte and clamped, printed
      as `lumenColor` prints it: the same optional '#', canonical hex
      digits, and every byte in its own position. */
  predicate IsAdjustedBy(r: string, color: string, amount: int) {
    && (HasPound(r) <==> HasPound(color))
    && Hex.IsCanonical(Digits(r))
    && Hex.AllHex(Digits(r))
    && var v := Hex.ValueOf(Digits(r));
       var h := NumericValue(color);
       && Low(v) == ClampByte(Low(h) + amount)
       && Middle(v) == ClampByte(Middle(h) + amount)
       && High(v) == ClampByte(High(h) + amount)
  }

  lemma LumenColorAdjusts(color: string, amount: int)
    ensures IsAdjustedBy(LumenColor(color, amount), color, amount)
  {
  }

  /** `IsAdjustedBy` leaves no choice: the only string it admits is the one
      `lumenColor` prints. */
  lemma AdjustedIsLumenColor(r: string, color: string, amount: int)
    requires IsAdjustedBy(r, color, amount)
    ensures r == LumenColor(color, amount)
  {
    var l := LumenColor(color, amount);
    LumenColorAdjusts(color, amount);
    SameBytesSameDigits(Digits(r), Digits(l));
    SamePoundSameDigits(r, l);
  }

  /** Canonical digit strings of 24-bit values with the same bytes are the
      same string. */
  lemma SameBytesSameDigits(d: string, e: string)
    requires Hex.IsCanonical(d) && Hex.AllHex(d) && Hex.IsCanonical(e) && Hex.AllHex(e)
    requires Low(Hex.ValueOf(d)) == Low(Hex.ValueOf(e))
    requires Middle(Hex.ValueOf(d)) == Middle(Hex.ValueOf(e))
    requires High(Hex.ValueOf(d)) == High(Hex.ValueOf(e)) && IsByte(High(Hex.ValueOf(d)))
    ensures d == e
  {
    var v := Hex.ValueOf(d);
    var w := Hex.ValueOf(e);
    assert v <= MaxColor && w <= MaxColor;
    SameBytesSameValue(v, w);
    Hex.ToHexOfValue(d);
    Hex.ToHexOfValue(e);
  }

  /** Two colours with the same optional '#' and the same digits are equal. */
  lemma SamePoundSameDigits(r: string, l: string)
    requires HasPound(r) <==> HasPound(l)
    requires Digits(r) == Digits(l)
    ensures r == l
  {
  }

  /** A value that fits in 24 bits is the packing of its own three bytes. */
  lemma Unpack(h: int)
    requires 0 <= h <= MaxColor
    ensures IsByte(High(h))
    ensures Pack(Low(h), Middle(h), High(h)) == h
  {
  }

  /** Two 24-bit values with the same three bytes are equal. */
  lemma SameBytesSameValue(u: int, v: int)
    requires 0 <= u <= MaxColor && 0 <= v <= MaxColor
    requires Low(u) == Low(v) && Middle(u) == Middle(v) && High(u) == High(v)
    ensures u == v
  {
    Unpack(u);
    Unpack(v);
  }

  /** Reading the result back, as `lumenColor` itself would, gives the
      adjusted value: the printed digits are parsed without loss. */
  lemma OutputReadsBack(color: string, amount: int)
    ensures NumericValue(LumenColor(color, amount)) == Hex.ValueOf(Digits(LumenColor(color, amount)))
  {
    LumenColorAdjusts(color, amount);
    ReadsBack(LumenColor(color, amount));
  }

  /** A colour printed with canonical digits of a 24-bit value parses back
      to that value. */
  lemma ReadsBack(r: string)
    requires Hex.IsCanonical(Digits(r)) && Hex.AllHex(Digits(r)) && Hex.ValueOf(Digits(r)) <= MaxColor
    ensures NumericValue(r) == Hex.ValueOf(Digits(r))
  {
    ParseAllHex(Digits(r));
  }

  /** On a colour whose value fits in 24 bits (every `#rrggbb`), a positive
      amount never darkens a byte, a negative one never lightens a byte,
      and amount 0 keeps the value. */
  lemma LumenColorMonotone(color: string, amount: int)
    requires 0 <= NumericValue(color) <= MaxColor
    ensures var h := NumericValue(color);
            var v := Hex.ValueOf(Digits(LumenColor(color, amount)));
            && (amount >= 0 ==> Low(v) >= Low(h) && Middle(v) >= Middle(h) && High(v) >= High(h))
            && (amount <= 0 ==> Low(v) <= Low(h) && Middle(v) <= Middle(h) && High(v) <= High(h))
            && (amount == 0 ==> v == h)
  {
    var h := NumericValue(color);
    var v := Hex.ValueOf(Digits(LumenColor(color, amount)));
    BytesMonotone(h, v, amount);
  }

  lemma BytesMonotone(h: int, v: int, amount: int)
    requires 0 <= h <= MaxColor && 0 <= v <= MaxColor
    requires Low(v) == ClampByte(Low(h) + amount)
    requires Middle(v) == ClampByte(Middle(h) + amount)
    requires High(v) == ClampByte(High(h) + amount)
    ensures amount >= 0 ==> Low(v) >= Low(h) && Middle(v) >= Middle(h) && High(v) >= High(h)
    ensures amount <= 0 ==> Low(v) <= Low(h) && Middle(v) <= Middle(h) && High(v) <= High(h)
    ensures amount == 0 ==> v == h
  {
    Unpack(h);
    if amount == 0 {
      SameBytesSameValue(v, h);
    }
  }

  /** A larger non-negative amount lightens at least as much: each byte
      is ordered from the input through the smaller amount to the larger
      one. */
  lemma LumenColorOrdered(color: string, a1: int, a2: int)
    requires 0 <= NumericValue(color) <= MaxColor
    requires 0 <= a1 <= a2
    ensures var h := NumericValue(color);
            var u := Hex.ValueOf(Digits(LumenColor(color, a1)));
            var w := Hex.ValueOf(Digits(LumenColor(color, a2)));
            && Low(h) <= Low(u) <= Low(w)
            && Middle(h) <= Middle(u) <= Middle(w)
            && High(h) <= High(u) <= High(w)
  {
    var h := NumericValue(color);
    var u := Hex.ValueOf(Digits(LumenColor(color, a1)));
    var w := Hex.ValueOf(Digits(LumenColor(color, a2)));
    BytesOrdered(h, u, w, a1, a2);
  }

  lemma BytesOrdered(h: int, u: int, w: int, a1: int, a2: int)
    requires 0 <= h <= MaxColor && 0 <= a1 <= a2
    requires Low(u) == ClampByte(Low(h) + a1) && Low(w) == ClampByte(Low(h) + a2)
    requires Middle(u) == ClampByte(Middle(h) + a1) && Middle(w) == ClampByte(Middle(h) + a2)
    requires High(u) == ClampByte(High(h) + a1) && High(w) == ClampByte(High(h) + a2)
    ensures Low(h) <= Low(u) <= Low(w)
    ensures Middle(h) <= Middle(u) <= Middle(w)
    ensures High(h) <= High(u) <= High(w)
  {
    Unpack(h);
  }


  /** Six hex digits fit in 24 bits. */
  lemma SixDigitsFit(d: string)
    requires Hex.AllHex(d) && |d| <= 6
    ensures Hex.ValueOf(d) <= MaxColor
  {
    Hex.ValueOfBound(d);
    Hex.Pow16Monotone(|d|, 6);
    assert Hex.Pow16(6) == MaxColor + 1;
  }

  /** The value of a colour of up to six digits, with or without '#', is
      the value of its digits. */
  lemma NumericValueOfDigits(d: string)
    requires Hex.AllHex(d) && 0 < |d| <= 6
    ensures NumericValue(d) == Hex.ValueOf(d)
    ensures NumericValue("#" + d) == Hex.ValueOf(d)
    ensures Hex.ValueOf(d) <= MaxColor
  {
    SixDigitsFit(d);
    ParseAllHex(d);
    PoundDigits(d);
  }

  lemma PoundDigits(d: string)
    requires Hex.AllHex(d) && 0 < |d|
    ensures !HasPound(d) && Digits(d) == d
    ensures HasPound("#" + d) && Digits("#" + d) == d
  {
    assert ("#" + d)[1..] == d;
  }

  /** Amount 0 returns a colour written the way `lumenColor` prints
      unchanged: it is a fixed point of the function. */
  lemma ZeroAmountKeepsCanonical(d: string)
    requires Hex.IsCanonical(d) && |d| <= 6
    ensures LumenColor(d, 0) == d
    ensures LumenColor("#" + d, 0) == "#" + d
  {
    Hex.ToHexOfValue(d);
    NumericValueOfDigits(d);
    var v := Hex.ValueOf(d);
    LumenColorMonotone(d, 0);
    LumenColorMonotone("#" + d, 0);
    Hex.ToHexOfValue(Digits(LumenColor(d, 0)));
    Hex.ToHexOfValue(Digits(LumenColor("#" + d, 0)));
  }

  /** Hence a second application with amount 0 changes nothing. */
  lemma ZeroAmountIdempotent(color: string, amount: int)
    ensures LumenColor(LumenColor(color, amount), 0) == LumenColor(color, amount)
  {
    var r := LumenColor(color, amount);
    ZeroAmountKeepsCanonical(Digits(r));
  }

  /** Printing drops leading zeros: any all-zero digit string (such as
      "#000000") with amount 0 comes back as "#0". */
  lemma BlackPrintsAsZero(d: string)
    requires Hex.AllHex(d) && 0 < |d| <= 6 && Hex.ValueOf(d) == 0
    ensures LumenColor("#" + d, 0) == "#0"
  {
    ZeroDigits("#" + d, d);
    PoundZero(LumenColor("#" + d, 0));
  }

  lemma ZeroDigits(color: string, d: string)
    requires color == "#" + d
    requires Hex.AllHex(d) && 0 < |d| <= 6 && Hex.ValueOf(d) == 0
    ensures HasPound(LumenColor(color, 0)) && Digits(LumenColor(color, 0)) == "0"
  {
    PoundValue(color, d);
    LumenColorMonotone(color, 0);
    Hex.CanonicalZero(Digits(LumenColor(color, 0)));
  }

  lemma PoundZero(r: string)
    requires HasPound(r) && Digits(r) == "0"
    ensures r == "#0"
  {
    assert r == "#" + "0";
  }

  /** The printed result is determined by the adjusted bytes: for a colour
      with a '#' whose value is h, `#` followed by the canonical digits of
      the packed adjusted bytes is what `lumenColor` returns. */
  lemma PrintedAs(color: string, h: int, amount: int, result: string, out: string)
    requires HasPound(color) && NumericValue(color) == h
    requires result == "#" + out
    requires Hex.IsCanonical(out)
    requires Hex.ValueOf(out)
             == Pack(ClampByte(Low(h) + amount), ClampByte(Middle(h) + amount), ClampByte(High(h) + amount))
    ensures LumenColor(color, amount) == result
  {
    var r := LumenColor(color, amount);
    SameValueAsExpected(color, h, amount, out);
    Hex.ToHexOfValue(Digits(r));
    Hex.ToHexOfValue(out);
    assert Digits(r) == out;
  }

  lemma SameValueAsExpected(color: string, h: int, amount: int, out: string)
    requires HasPound(color) && NumericValue(color) == h
    requires Hex.AllHex(out) && Hex.ValueOf(out) <= MaxColor
    requires var v := Hex.ValueOf(out);
             && Low(v) == ClampByte(Low(h) + amount)
             && Middle(v) == ClampByte(Middle(h) + amount)
             && High(v) == ClampByte(High(h) + amount)
    ensures HasPound(LumenColor(color, amount))
    ensures Hex.ValueOf(Digits(LumenColor(color, amount))) == Hex.ValueOf(out)
  {
    AdjustsBytes(color, amount, h);
    var r := LumenColor(color, amount);
    SameBytesSameValue(Hex.ValueOf(Digits(r)), Hex.ValueOf(out));
  }

  lemma PoundValue(color: string, d: string)
    requires color == "#" + d
    requires Hex.AllHex(d) && 0 < |d| <= 6
    ensures HasPound(color) && NumericValue(color) == Hex.ValueOf(d)
  {
    NumericValueOfDigits(d);
    PoundDigits(d);
  }

  lemma AdjustsBytes(color: string, amount: int, h: int)
    requires HasPound(color) && NumericValue(color) == h
    ensures var r := LumenColor(color, amount);
            var v := Hex.ValueOf(Digits(r));
            && HasPound(r)
            && v <= MaxColor
            && Low(v) == ClampByte(Low(h) + amount)
            && Middle(v) == ClampByte(Middle(h) + amount)
            && High(v) == ClampByte(High(h) + amount)
  {
  }
}
