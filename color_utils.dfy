/** Hex colour parsing and formatting and the colour helpers built on them. */
module ColorUtils {
  import opened Util

  // ---------------------------------------------------------------------------------------------
  // Hex digits

  predicate IsHexChar(c: char) {
    ('0' <= c <= '9') || ('a' <= c <= 'f') || ('A' <= c <= 'F')
  }

  function HexValue(c: char): (v: nat)
    requires IsHexChar(c)
    ensures v < 16
  {
    if '0' <= c <= '9' then c as int - '0' as int
    else if 'a' <= c <= 'f' then c as int - 'a' as int + 10
    else c as int - 'A' as int + 10
  }

  /** The lowercase digit `toString(16)` prints for `d`. */
  function HexDigit(d: nat): (c: char)
    requires d < 16
    ensures IsHexChar(c) && HexValue(c) == d && !('A' <= c <= 'F')
  {
    if d < 10 then ('0' as int + d) as char else ('a' as int + d - 10) as char
  }

  function LowerHex(c: char): char {
    if 'A' <= c <= 'F' then (c as int + 32) as char else c
  }

  /** Printing the value of a hex digit gives the digit in lower case. */
  lemma HexDigitOfValue(c: char)
    requires IsHexChar(c)
    ensures HexDigit(HexValue(c)) == LowerHex(c)
  {
  }

  predicate AllHex(s: string) {
    forall i :: 0 <= i < |s| ==> IsHexChar(s[i])
  }

  /** `Number.prototype.toString(16)` on a non-negative integer: no leading zeros. */
  function ToHex(n: nat): (s: string)
    ensures |s| >= 1
    decreases n
  {
    if n < 16 then [HexDigit(n)] else ToHex(n / 16) + [HexDigit(n % 16)]
  }

  /** The last `k` hex digits of `v`, zero-padded. */
  function FixedHex(v: nat, k: nat): (s: string)
    ensures |s| == k
  {
    if k == 0 then [] else FixedHex(v / 16, k - 1) + [HexDigit(v % 16)]
  }

  function Pow16(k: nat): (p: nat)
    ensures p >= 1
  {
    if k == 0 then 1 else 16 * Pow16(k - 1)
  }

  lemma DivMod16(a: nat, lo: nat)
    ensures (16 * a + lo) / 16 == a + lo / 16 && (16 * a + lo) % 16 == lo % 16
  {
  }

  lemma LowDigits(lo: nat, k: nat)
    requires k > 0 && lo < Pow16(k)
    ensures lo / 16 < Pow16(k - 1)
  {
  }

  /** Dividing `hi * 16^k + lo` by 16 drops the last digit of `lo`. */
  lemma SplitStep(hi: nat, lo: nat, k: nat)
    requires k > 0 && lo < Pow16(k)
    ensures hi >= 1 ==> hi * Pow16(k) + lo >= 16
    ensures (hi * Pow16(k) + lo) / 16 == hi * Pow16(k - 1) + lo / 16
    ensures (hi * Pow16(k) + lo) % 16 == lo % 16
    ensures lo / 16 < Pow16(k - 1)
  {
    var a := hi * Pow16(k - 1);
    assert hi * Pow16(k) == 16 * a;
    DivMod16(a, lo);
    LowDigits(lo, k);
  }

  /** Printing `hi * 16^k + lo` prints `hi`, then the `k` digits of `lo`. */
  lemma {:induction false} ToHexSplit(hi: nat, lo: nat, k: nat)
    requires hi >= 1 && lo < Pow16(k)
    ensures ToHex(hi * Pow16(k) + lo) == ToHex(hi) + FixedHex(lo, k)
    decreases k
  {
    if k > 0 {
      var n := hi * Pow16(k) + lo;
      SplitStep(hi, lo, k);
      ToHexSplit(hi, lo / 16, k - 1);
      assert ToHex(n) == ToHex(n / 16) + [HexDigit(n % 16)];
    }
  }

  /** The fixed-width digits of `a * 16^m + b` are those of `a`, then those of `b`. */
  lemma {:induction false} FixedHexSplit(a: nat, b: nat, k: nat, m: nat)
    requires b < Pow16(m)
    ensures FixedHex(a * Pow16(m) + b, k + m) == FixedHex(a, k) + FixedHex(b, m)
    decreases m
  {
    if m > 0 {
      var n := a * Pow16(m) + b;
      SplitStep(a, b, m);
      FixedHexSplit(a, b / 16, k, m - 1);
      assert FixedHex(n, k + m) == FixedHex(n / 16, k + m - 1) + [HexDigit(n % 16)];
    }
  }

  lemma Pow16Values()
    ensures Pow16(2) == 256 && Pow16(4) == 65536 && Pow16(6) == 16777216
  {
  }

  // ---------------------------------------------------------------------------------------------
  // Parsing and formatting

  datatype Rgb = Rgb(r: int, g: int, b: int)

  predicate InByteRange(c: Rgb) {
    0 <= c.r <= 255 && 0 <= c.g <= 255 && 0 <= c.b <= 255
  }

  /** The part after an optional leading `#`. */
  function HexBody(hex: string): string {
    if |hex| > 0 && hex[0] == '#' then hex[1..] else hex
  }

  /** `parseInt` of two hex digits. */
  function ParseByte(hi: char, lo: char): (v: nat)
    requires IsHexChar(hi) && IsHexChar(lo)
    ensures v <= 255
  {
    16 * HexValue(hi) + HexValue(lo)
  }

  /** `hexToRgb`: an optional `#` and exactly six hex digits in either case, as three channels;
      anything else gives nothing. */
  function HexToRgb(hex: string): (r: Option<Rgb>)
    ensures r.Some? <==> |HexBody(hex)| == 6 && AllHex(HexBody(hex))
    ensures r.Some? ==> InByteRange(r.value)
  {
    var body := HexBody(hex);
    if |body| == 6 && AllHex(body) then
      Some(Rgb(ParseByte(body[0], body[1]), ParseByte(body[2], body[3]), ParseByte(body[4], body[5])))
    else None
  }

  /** `rgbToHex`: `#` and the hex form of `2^24 + r*2^16 + g*2^8 + b` without its first digit. */
  function RgbToHex(c: Rgb): string
    requires InByteRange(c)
  {
    "#" + ToHex(0x1000000 + c.r * 0x10000 + c.g * 0x100 + c.b)[1..]
  }

  /** For channels in range the result is `#` and two lowercase digits per channel. */
  lemma RgbToHexDigits(c: Rgb)
    requires InByteRange(c)
    ensures RgbToHex(c) == "#" + FixedHex(c.r, 2) + FixedHex(c.g, 2) + FixedHex(c.b, 2)
  {
    PackedHex(c.r, c.g, c.b, 0x1000000 + c.r * 0x10000 + c.g * 0x100 + c.b);
  }

  /** The packed value with its marker bit prints as `1` and then two digits per channel. */
  lemma PackedHex(r: nat, g: nat, b: nat, m: nat)
    requires r <= 255 && g <= 255 && b <= 255 && m == 0x1000000 + r * 0x10000 + g * 0x100 + b
    ensures "#" + ToHex(m)[1..] == "#" + FixedHex(r, 2) + FixedHex(g, 2) + FixedHex(b, 2)
  {
    LeadingOne(m);
    ChannelDigits(r, g, b, r * 256 + g, m - 0x1000000);
    var low := FixedHex(m - 0x1000000, 6);
    assert ToHex(m)[1..] == low;
    ConcatAssoc("#", FixedHex(r, 2), FixedHex(g, 2));
    ConcatAssoc("#", FixedHex(r, 2) + FixedHex(g, 2), FixedHex(b, 2));
  }

  /** A value with the `2^24` marker bit prints a leading 1 and then its six padded low digits. */
  lemma LeadingOne(m: nat)
    requires 0x1000000 <= m < 0x2000000
    ensures ToHex(m) == "1" + FixedHex(m - 0x1000000, 6)
  {
    Pow16Values();
    ToHexSplit(1, m - 0x1000000, 6);
    assert ToHex(1) == "1";
  }

  /** The digits of `n = a * 256 + b` are those of `a`, then the two of `b`. */
  lemma ByteSplit(a: nat, b: nat, n: nat, k: nat, w: nat)
    requires b <= 255 && n == a * 256 + b && w == k + 2
    ensures FixedHex(n, w) == FixedHex(a, k) + FixedHex(b, 2)
  {
    var p := Pow16(2);
    assert p == 256 by { Pow16Values(); }
    assert a * p + b == n;
    FixedHexSplit(a, b, k, 2);
  }

  /** The six digits of three packed bytes are the two digits of each byte. */
  lemma ChannelDigits(r: nat, g: nat, b: nat, high: nat, n: nat)
    requires r <= 255 && g <= 255 && b <= 255 && high == r * 256 + g && n == high * 256 + b
    ensures FixedHex(n, 6) == FixedHex(r, 2) + FixedHex(g, 2) + FixedHex(b, 2)
  {
    ByteSplit(high, b, n, 4, 6);
    ByteSplit(r, g, high, 2, 4);
  }

  /** The two digits of a byte are its high and its low nibble. */
  lemma FixedHexByte(v: nat)
    requires v <= 255
    ensures FixedHex(v, 2) == [HexDigit(v / 16), HexDigit(v % 16)]
    ensures ParseByte(HexDigit(v / 16), HexDigit(v % 16)) == v
  {
    FixedHexOne(v / 16);
  }

  lemma FixedHexOne(d: nat)
    requires d < 16
    ensures FixedHex(d, 1) == [HexDigit(d)]
  {
    assert d % 16 == d && d / 16 == 0;
  }

  /** Formatting then parsing gives the channels back. */
  lemma RgbRoundTrip(c: Rgb)
    requires InByteRange(c)
    ensures HexToRgb(RgbToHex(c)) == Some(c)
  {
    RgbToHexDigits(c);
    FixedHexByte(c.r);
    FixedHexByte(c.g);
    FixedHexByte(c.b);
    var s := RgbToHex(c);
    assert HexBody(s) == s[1..];
    assert HexBody(s) == FixedHex(c.r, 2) + FixedHex(c.g, 2) + FixedHex(c.b, 2);
  }

  function LowerAll(s: string): (t: string)
    ensures |t| == |s|
  {
    seq(|s|, i requires 0 <= i < |s| => LowerHex(s[i]))
  }

  /** Parsing then formatting gives the six digits in lower case behind a `#`. */
  lemma HexRoundTrip(hex: string)
    requires HexToRgb(hex).Some?
    ensures RgbToHex(HexToRgb(hex).value) == "#" + LowerAll(HexBody(hex))
  {
    var body := HexBody(hex);
    var c := HexToRgb(hex).value;
    RgbToHexDigits(c);
    ByteDigits(body[0], body[1]);
    ByteDigits(body[2], body[3]);
    ByteDigits(body[4], body[5]);
    var x := FixedHex(c.r, 2) + FixedHex(c.g, 2) + FixedHex(c.b, 2);
    assert x == [LowerHex(body[0]), LowerHex(body[1]), LowerHex(body[2]), LowerHex(body[3]),
                 LowerHex(body[4]), LowerHex(body[5])];
    assert x == LowerAll(body);
  }

  /** The two digits printed for a parsed byte are its digits in lower case. */
  lemma ByteDigits(hi: char, lo: char)
    requires IsHexChar(hi) && IsHexChar(lo)
    ensures FixedHex(ParseByte(hi, lo), 2) == [LowerHex(hi), LowerHex(lo)]
  {
    var a := HexValue(hi);
    var b := HexValue(lo);
    var v := 16 * a + b;
    DivMod16(a, b);
    assert v / 16 == a && v % 16 == b;
    FixedHexByte(v);
    HexDigitOfValue(hi);
    HexDigitOfValue(lo);
  }

  /** `isValidHex`: a `#` and then three or six hex digits. */
  function IsValidHex(color: string): (ok: bool)
    ensures ok ==> |color| >= 1 && color[0] == '#'
  {
    |color| >= 1 && color[0] == '#' && (|color| == 7 || |color| == 4) && AllHex(color[1..])
  }

  /** For a colour written with `#`, parsing succeeds exactly on the six-digit valid colours; a
      three-digit one, accepted as valid, does not parse. */
  lemma ValidHexVersusParse(color: string)
    ensures IsValidHex(color) && |color| == 7 ==> HexToRgb(color).Some?
    ensures |color| >= 1 && color[0] == '#' ==>
      (HexToRgb(color).Some? <==> IsValidHex(color) && |color| == 7)
    ensures IsValidHex(color) && |color| == 4 ==> HexToRgb(color).None?
    ensures IsValidHex("#abc") && HexToRgb("#abc").None?
  {
    assert HexBody("#abc") == "abc";
  }

  // ---------------------------------------------------------------------------------------------
  // Helpers with a fallback

  /** `addAlpha`: an `rgba(...)` string for a parsable colour, the input unchanged otherwise. The
      alpha value is given as the text JavaScript prints for it. */
  function AddAlpha(color: string, alpha: string): (s: string)
    ensures HexToRgb(color).None? ==> s == color
    ensures HexToRgb(color).Some? ==> StartsWith(s, "rgba(") && EndsWith(s, ", " + alpha + ")")
  {
    match HexToRgb(color)
    case None => color
    case Some(c) =>
      var channels := NatToString(c.r) + ", " + NatToString(c.g) + ", " + NatToString(c.b);
      var s := "rgba(" + channels + ", " + alpha + ")";
      assert s == "rgba(" + (channels + (", " + alpha + ")"));
      s
  }

  /** `Math.round(v * (100 + p) / 100)` for integers: the nearest integer, halves rounded up. */
  function ScaleRound(v: nat, percent: int): int {
    (2 * (v * (100 + percent)) + 100) / 200
  }

  lemma ScaleRoundBounds(v: nat, percent: int)
    requires v <= 255
    ensures percent >= -100 ==> ScaleRound(v, percent) >= 0
    ensures percent >= 0 ==> ScaleRound(v, percent) >= v
    ensures percent <= 0 ==> ScaleRound(v, percent) <= v
  {
    var f := 100 + percent;
    if percent >= -100 {
      MulNonneg(v, f);
    }
    if percent >= 0 {
      MulNonneg(v, percent);
      assert v * f == 100 * v + v * percent;
    } else {
      MulNonneg(v, -percent);
      assert v * f == 100 * v - v * (-percent);
    }
  }

  lemma MulNonneg(a: nat, b: int)
    requires b >= 0
    ensures a * b >= 0
  {
  }

  function Min(a: int, b: int): int { if a <= b then a else b }

  function Max(a: int, b: int): int { if a >= b then a else b }

  /** One channel of `lighten`: scaled, rounded and capped at 255; never below the original for a
      non-negative percentage. */
  function LightenChannel(v: nat, percentage: int): (r: int)
    requires v <= 255 && percentage >= -100
    ensures 0 <= r <= 255
    ensures percentage >= 0 ==> v <= r
  {
    ScaleRoundBounds(v, percentage);
    Min(255, ScaleRound(v, percentage))
  }

  /** One channel of `darken`: scaled by `1 - p/100`, rounded and floored at 0; never above the
      original. */
  function DarkenChannel(v: nat, percentage: int): (r: int)
    requires v <= 255 && percentage >= 0
    ensures 0 <= r <= v
  {
    ScaleRoundBounds(v, -percentage);
    Max(0, ScaleRound(v, -percentage))
  }

  /** `lighten`: every channel scaled by `1 + p/100`; unparsable input is returned unchanged.
      The result parses again, with channels at most 255 and, for a non-negative percentage, no
      darker than the original's. */
  function Lighten(color: string, percentage: int): (r: string)
    requires percentage >= -100
    ensures HexToRgb(color).None? ==> r == color
    ensures HexToRgb(color).Some? ==>
      var c := HexToRgb(color).value;
      var l := HexToRgb(r);
      && l.Some? && l.value.r <= 255 && l.value.g <= 255 && l.value.b <= 255
      && (percentage >= 0 ==> c.r <= l.value.r && c.g <= l.value.g && c.b <= l.value.b)
  {
    match HexToRgb(color)
    case None => color
    case Some(c) =>
      var l := Rgb(LightenChannel(c.r, percentage), LightenChannel(c.g, percentage),
                   LightenChannel(c.b, percentage));
      RgbRoundTrip(l);
      RgbToHex(l)
  }

  /** `darken`: every channel scaled by `1 - p/100`; unparsable input is returned unchanged.
      The result parses again, with channels at least 0 and no brighter than the original's. */
  function Darken(color: string, percentage: int): (r: string)
    requires percentage >= 0
    ensures HexToRgb(color).None? ==> r == color
    ensures HexToRgb(color).Some? ==>
      var c := HexToRgb(color).value;
      var d := HexToRgb(r);
      && d.Some? && 0 <= d.value.r <= c.r && 0 <= d.value.g <= c.g && 0 <= d.value.b <= c.b
  {
    match HexToRgb(color)
    case None => color
    case Some(c) =>
      var d := Rgb(DarkenChannel(c.r, percentage), DarkenChannel(c.g, percentage),
                   DarkenChannel(c.b, percentage));
      RgbRoundTrip(d);
      RgbToHex(d)
  }

  /** `getContrastColor`: black on light colours and on unparsable input, white otherwise; the
      luminance test `(0.299 r + 0.587 g + 0.114 b) / 255 > 0.5` in exact arithmetic. The result
      is always black or white, and white exactly for a parsable colour of luminance at most one
      half. */
  function GetContrastColor(color: string): (r: string)
    ensures r == "#000000" || r == "#ffffff"
    ensures r == "#ffffff" <==>
      HexToRgb(color).Some? && var c := HexToRgb(color).value; 299 * c.r + 587 * c.g + 114 * c.b <= 127500
  {
    match HexToRgb(color)
    case None => "#000000"
    case Some(c) => if 299 * c.r + 587 * c.g + 114 * c.b > 127500 then "#000000" else "#ffffff"
  }

  /** White text on black and black text on white. */
  lemma ContrastOfBlackAndWhite()
    ensures GetContrastColor("#000000") == "#ffffff"
    ensures GetContrastColor("#ffffff") == "#000000"
  {
    assert HexBody("#000000") == "000000";
    assert HexBody("#ffffff") == "ffffff";
  }
}
