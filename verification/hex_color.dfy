/**
 Conversions between colours and the "#rrggbb" strings of the colour picker.
 Parsing accepts an optional '#' and exactly six hexadecimal digits in either
 case and falls back to pure green otherwise; formatting writes '#' and six
 lowercase digits.
 */
module HexColor {
  import opened Image

  /** The colour a malformed string parses to. */
  const Fallback := Color(0, 255, 0)

  predicate IsHexDigit(c: char) {
    ('0' <= c <= '9') || ('a' <= c <= 'f') || ('A' <= c <= 'F')
  }

  predicate IsLowerHexDigit(c: char) {
    ('0' <= c <= '9') || ('a' <= c <= 'f')
  }

  /** Value of one hexadecimal digit, either case. */
  function HexValue(c: char): (v: int)
    requires IsHexDigit(c)
    ensures 0 <= v < 16
  {
    if '0' <= c <= '9' then c as int - '0' as int
    else if 'a' <= c <= 'f' then c as int - 'a' as int + 10
    else c as int - 'A' as int + 10
  }

  /** Lowercase digit of a value below 16, as number-to-string in base 16
      writes it. */
  function Digit(d: int): (c: char)
    requires 0 <= d < 16
    ensures IsLowerHexDigit(c)
  {
    "0123456789abcdef"[d]
  }

  /** Base-16 rendering of a natural number, most significant digit first,
      without leading zeros. */
  function HexString(n: nat): (s: string)
    ensures |s| >= 1
  {
    if n < 16 then [Digit(n)] else HexString(n / 16) + [Digit(n % 16)]
  }

  /** The formatting of script.js: 2^24 plus the packed channels, rendered in
      base 16, with the leading digit dropped. */
  function RgbToHex(c: Color): string
  {
    "#" + HexString(0x1000000 + c.r * 65536 + c.g * 256 + c.b)[1..]
  }

  /** What the pattern accepts: an optional '#', then six hex digits, and
      nothing else. */
  predicate WellFormed(s: string) {
    || (|s| == 7 && s[0] == '#' && forall k :: 1 <= k < 7 ==> IsHexDigit(s[k]))
    || (|s| == 6 && forall k :: 0 <= k < 6 ==> IsHexDigit(s[k]))
  }

  /** The six digits of a well-formed string. */
  function Digits(s: string): (d: string)
    requires WellFormed(s)
    ensures |d| == 6 && forall k :: 0 <= k < 6 ==> IsHexDigit(d[k])
  {
    if |s| == 7 then s[1..] else s
  }

  /** One channel from two digits. */
  function Channel(hi: char, lo: char): byte
    requires IsHexDigit(hi) && IsHexDigit(lo)
  {
    HexValue(hi) * 16 + HexValue(lo)
  }

  /** The parsing of script.js. */
  function HexToRgb(s: string): (c: Color)
    ensures !WellFormed(s) ==> c == Fallback
  {
    if WellFormed(s) then
      var d := Digits(s);
      Color(Channel(d[0], d[1]), Channel(d[2], d[3]), Channel(d[4], d[5]))
    else Fallback
  }

  // ---------------------------------------------------------------------
  // Properties
  // ---------------------------------------------------------------------

  /** Two lowercase digits of a byte. */
  function Hex2(v: byte): string {
    [Digit(v / 16), Digit(v % 16)]
  }

  lemma DivMod16(n: int, q: int, r: int)
    requires 0 <= r < 16 && n == q * 16 + r
    ensures n / 16 == q && n % 16 == r
  {
    DivModUnique(n, 16, q, r);
  }

  /** One step of the rendering: the last digit is the remainder. */
  lemma HexStep(n: nat, q: nat, d: int)
    requires q >= 1 && 0 <= d < 16 && n == q * 16 + d
    ensures HexString(n) == HexString(q) + [Digit(d)]
  {
    DivMod16(n, q, d);
  }

  /** Appending a byte in base 256 appends its two digits. */
  lemma AppendByte(p: nat, v: byte)
    requires p >= 1
    ensures HexString(p * 256 + v) == HexString(p) + Hex2(v)
  {
    var q := p * 16 + v / 16;
    assert p * 256 + v == q * 16 + v % 16;
    HexStep(p * 256 + v, q, v % 16);
    HexStep(q, p, v / 16);
  }

  /** The packed rendering is a '1' followed by two digits per channel. */
  lemma PackedDigits(r: byte, g: byte, b: byte)
    ensures HexString(0x1000000 + r * 65536 + g * 256 + b) == "1" + Hex2(r) + Hex2(g) + Hex2(b)
  {
    var p2 := 0x10000 + r * 256 + g;
    PackedTwo(r, g);
    AppendByte(p2, b);
  }

  lemma PackedTwo(r: byte, g: byte)
    ensures HexString(0x10000 + r * 256 + g) == "1" + Hex2(r) + Hex2(g)
  {
    PackedOne(r);
    AppendByte(0x100 + r, g);
  }

  lemma PackedOne(r: byte)
    ensures HexString(0x100 + r) == "1" + Hex2(r)
  {
    AppendByte(1, r);
    HexOne();
  }

  lemma HexOne()
    ensures HexString(1) == "1"
  {
  }

  lemma DropFirst(x: char, t: string)
    ensures ([x] + t)[1..] == t
  {
  }

  /** Formatting writes '#' and two lowercase digits per channel. */
  lemma RgbToHexDigits(c: Color)
    ensures RgbToHex(c) == "#" + Hex2(c.r) + Hex2(c.g) + Hex2(c.b)
  {
    var t := Hex2(c.r) + Hex2(c.g) + Hex2(c.b);
    PackedDigits(c.r, c.g, c.b);
    DropFirst('1', t);
  }

  /** Formatting always yields '#' followed by six lowercase hex digits. */
  lemma RgbToHexShape(c: Color)
    ensures |RgbToHex(c)| == 7 && RgbToHex(c)[0] == '#'
    ensures forall k :: 1 <= k < 7 ==> IsLowerHexDigit(RgbToHex(c)[k])
  {
    RgbToHexDigits(c);
  }

  lemma DigitValue(d: int)
    requires 0 <= d < 16
    ensures IsHexDigit(Digit(d)) && HexValue(Digit(d)) == d
  {
  }

  /** Parsing undoes formatting for every colour; hence a formatted colour
      is also a fixed point of formatting after parsing. */
  lemma ParseFormat(c: Color)
    ensures HexToRgb(RgbToHex(c)) == c
  {
    RgbToHexDigits(c);
    var s := RgbToHex(c);
    DigitValue(c.r / 16); DigitValue(c.r % 16);
    DigitValue(c.g / 16); DigitValue(c.g % 16);
    DigitValue(c.b / 16); DigitValue(c.b % 16);
    assert WellFormed(s);
    assert Digits(s) == Hex2(c.r) + Hex2(c.g) + Hex2(c.b);
  }

  /** The lowercase form of a hex digit. */
  function Lower(c: char): char
    requires IsHexDigit(c)
  {
    if 'A' <= c <= 'F' then (c as int - 'A' as int + 'a' as int) as char else c
  }

  lemma ValueDigit(c: char)
    requires IsHexDigit(c)
    ensures Digit(HexValue(c)) == Lower(c)
  {
  }

  lemma ChannelDigits(hi: char, lo: char)
    requires IsHexDigit(hi) && IsHexDigit(lo)
    ensures Hex2(Channel(hi, lo)) == [Lower(hi), Lower(lo)]
  {
    DivMod16(Channel(hi, lo), HexValue(hi), HexValue(lo));
    ValueDigit(hi);
    ValueDigit(lo);
  }

  /** Formatting undoes parsing up to letter case: a well-formed string comes
      back with '#' and its six digits in lowercase. */
  lemma FormatParse(s: string)
    requires WellFormed(s)
    ensures |RgbToHex(HexToRgb(s))| == 7 && RgbToHex(HexToRgb(s))[0] == '#'
    ensures forall k :: 0 <= k < 6 ==> RgbToHex(HexToRgb(s))[k + 1] == Lower(Digits(s)[k])
  {
    var d := Digits(s);
    var c := HexToRgb(s);
    assert c == Color(Channel(d[0], d[1]), Channel(d[2], d[3]), Channel(d[4], d[5]));
    RgbToHexDigits(c);
    ColorDigits(d, c);
  }

  lemma ColorDigits(d: string, c: Color)
    requires |d| == 6 && forall k :: 0 <= k < 6 ==> IsHexDigit(d[k])
    requires c == Color(Channel(d[0], d[1]), Channel(d[2], d[3]), Channel(d[4], d[5]))
    ensures forall k :: 0 <= k < 6 ==> (Hex2(c.r) + Hex2(c.g) + Hex2(c.b))[k] == Lower(d[k])
  {
    ChannelDigits(d[0], d[1]);
    ChannelDigits(d[2], d[3]);
    ChannelDigits(d[4], d[5]);
  }
}
