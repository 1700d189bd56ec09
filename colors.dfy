/**
 * Colours as the notes use them: `UIColor(red:green:blue:)` with its range
 * asserts, `UIColor(rgb:)` with its shift-and-mask channel extraction, and the
 * two string conversions `UIColorToHex` and `HexToUIColor`.
 *
 * A colour is its integer RGB triple; the floating-point components UIKit
 * stores are not modelled.
 */
module Colors {
  import opened Wrappers
  import opened HexText

  type Channel = x: int | 0 <= x <= 255

  datatype Color = Color(red: Channel, green: Channel, blue: Channel)

  /** `UIColor.white`, the default colour of a note. */
  const White: Color := Color(255, 255, 255)
  /** `UIColor.black`. */
  const Black: Color := Color(0, 0, 0)

  /** The three failing asserts of `UIColor(red:green:blue:)`. */
  datatype ChannelTrap = InvalidRed | InvalidGreen | InvalidBlue

  predicate InChannelRange(x: int) {
    0 <= x <= 255
  }

  /** `UIColor(red:green:blue:)`: each channel is asserted to lie in 0...255,
      red first; a failing assert traps. */
  function ColorFromChannels(red: int, green: int, blue: int): (r: Result<Color, ChannelTrap>)
    ensures r.Success? <==> InChannelRange(red) && InChannelRange(green) && InChannelRange(blue)
    ensures r.Success? ==> r.value.red == red && r.value.green == green && r.value.blue == blue
    ensures r == Failure(InvalidRed) <==> !InChannelRange(red)
  {
    if !InChannelRange(red) then Failure(InvalidRed)
    else if !InChannelRange(green) then Failure(InvalidGreen)
    else if !InChannelRange(blue) then Failure(InvalidBlue)
    else Success(Color(red, green, blue))
  }

  /** `x >> k` on a two's-complement `Int` is an arithmetic shift: division by
      2^k rounded towards negative infinity, which is what Dafny's `/` does for a
      positive divisor. */
  function ShiftRight(x: int, k: nat): (r: int)
    ensures r * Pow2(k) <= x < (r + 1) * Pow2(k)
  {
    var d := Pow2(k);
    assert x == x / d * d + x % d;
    x / d
  }

  function Pow2(k: nat): (p: nat)
    ensures p >= 1
  {
    if k == 0 then 1 else 2 * Pow2(k - 1)
  }

  /** `x & 0xFF` on a two's-complement `Int`: the low eight bits, never negative. */
  function LowByte(x: int): (b: int)
    ensures InChannelRange(b)
  {
    x % 256
  }

  /** `UIColor(rgb:)`: red from bits 16-23, green from bits 8-15 and blue from
      bits 0-7; the extracted channels always pass the range asserts. */
  function ColorFromRgb(rgb: int): (r: Result<Color, ChannelTrap>)
    ensures r.Success?
  {
    ColorFromChannels(LowByte(ShiftRight(rgb, 16)), LowByte(ShiftRight(rgb, 8)), LowByte(rgb))
  }

  /** The integer `0xRRGGBB` a colour packs into. */
  function Packed(c: Color): (rgb: int)
    ensures 0 <= rgb < 0x100_0000
  {
    c.red * 0x1_0000 + c.green * 0x100 + c.blue
  }

  /** `HexToUIColor(hex:)`: the text read as a base-16 `Int`, or 0 (black) when it
      does not parse, then split into channels by `UIColor(rgb:)`. */
  function HexToColor(hex: string): (c: Color)
    ensures ParseInt(hex).None? ==> c == Black
    ensures hex == [] || hex[0] == '#' ==> c == Black
  {
    var rgb := match ParseInt(hex) case Some(v) => v case None => 0;
    ColorFromRgb(rgb).value
  }

  /** `UIColorToHex`: `String(format: "#%02lX%02lX%021lX", red, green, blue)`. */
  function ColorToHex(c: Color): (s: string)
    ensures |s| == 26 && s[0] == '#'
    ensures AllUpperHexDigits(s[1..])
    ensures AllHexDigits(s[1..3]) && AllHexDigits(s[3..5]) && AllHexDigits(s[5..])
    ensures DigitsValue(s[1..3]) == c.red
    ensures DigitsValue(s[3..5]) == c.green
    ensures DigitsValue(s[5..]) == c.blue
    ensures forall i :: 5 <= i < 24 ==> s[i] == '0'
  {
    ChannelWidth(c.red, 2);
    ChannelWidth(c.green, 2);
    ChannelWidth(c.blue, 21);
    var rs, gs, bs := Pad(c.red, 2), Pad(c.green, 2), Pad(c.blue, 21);
    HashFields(rs, gs, bs);
    "#" + rs + gs + bs
  }

  /** Where the three fields of `#<r><g><b>` lie. */
  lemma HashFields(r: string, g: string, b: string)
    requires |r| == 2 && |g| == 2
    requires AllUpperHexDigits(r) && AllUpperHexDigits(g) && AllUpperHexDigits(b)
    ensures var s := "#" + r + g + b;
      |s| == 5 + |b| && s[0] == '#' && AllUpperHexDigits(s[1..]) &&
      s[1..3] == r && s[3..5] == g && s[5..] == b
  {
    var s := "#" + r + g + b;
    assert s[1..] == r + g + b;
    UpperAppend(r, g);
    UpperAppend(r + g, b);
  }

  /** Each field of the written colour, read on its own by `Int(_, radix: 16)`,
      gives back its channel. */
  lemma ColorHexFields(c: Color)
    ensures var s := ColorToHex(c);
      ParseInt(s[1..3]) == Some(c.red as int) &&
      ParseInt(s[3..5]) == Some(c.green as int) &&
      ParseInt(s[5..]) == Some(c.blue as int)
  {
  }

  /** A channel needs at most two hex digits, so a field of width `w >= 2` is
      exactly `w` characters, all but the last two of them '0'. */
  lemma ChannelWidth(x: Channel, w: nat)
    requires 2 <= w
    ensures |Pad(x, w)| == w
    ensures forall i :: 0 <= i < w - 2 ==> Pad(x, w)[i] == '0'
  {
    assert Pow16(2) == 256;
    DigitsLength(x, 2);
  }

  /** Euclidean division is determined by its quotient-remainder equation. */
  lemma DivModUnique(a: int, d: int, q: int, r: int)
    requires d > 0 && 0 <= r < d && a == q * d + r
    ensures a / d == q && a % d == r
  {
    var q0, r0 := a / d, a % d;
    if q0 < q {
      assert (q - q0) * d == r0 - r;
      MulAtLeast(q - q0, d);
    } else if q0 > q {
      assert (q0 - q) * d == r - r0;
      MulAtLeast(q0 - q, d);
    }
  }

  /** The channels `UIColor(rgb:)` extracts from `rgb`, written with `/` and `%`. */
  lemma ChannelsOf(rgb: int)
    ensures ColorFromRgb(rgb).value
         == Color((rgb / 0x1_0000) % 256, (rgb / 0x100) % 256, rgb % 256)
  {
    assert Pow2(8) == 0x100;
    assert Pow2(16) == 0x1_0000;
  }

  /** Splitting a packed `0xRRGGBB` gives back its channels. */
  lemma PackedRoundTrip(c: Color)
    ensures ColorFromRgb(Packed(c)) == Success(c)
  {
    var x := Packed(c);
    ChannelsOf(x);
    DivModUnique(x, 0x1_0000, c.red, c.green * 0x100 + c.blue);
    DivModUnique(c.red, 256, 0, c.red);
    DivModUnique(x, 0x100, c.red * 0x100 + c.green, c.blue);
    DivModUnique(c.red * 0x100 + c.green, 256, c.red, c.green);
    DivModUnique(x, 256, c.red * 0x100 + c.green, c.blue);
  }

  /** Packing the channels of an `rgb` in 0...0xFFFFFF gives back `rgb`. */
  lemma RgbRoundTrip(rgb: int)
    requires 0 <= rgb < 0x100_0000
    ensures Packed(ColorFromRgb(rgb).value) == rgb
  {
    ChannelsOf(rgb);
    var r, g, b := (rgb / 0x1_0000) % 256, (rgb / 0x100) % 256, rgb % 256;
    var hi := rgb / 0x100;
    assert rgb == hi * 0x100 + b;
    DivModUnique(rgb, 0x1_0000, hi / 0x100, (hi % 0x100) * 0x100 + b);
    DivModUnique(hi / 0x100, 256, 0, hi / 0x100);
  }

  /** Only the low 24 bits of `rgb` reach the colour; in particular a negative
      `rgb` is read through its two's-complement bits. */
  lemma RgbIgnoresHighBits(rgb: int, k: int)
    ensures ColorFromRgb(rgb + k * 0x100_0000) == ColorFromRgb(rgb)
  {
    var x := rgb + k * 0x100_0000;
    ChannelsOf(rgb);
    ChannelsOf(x);
    DivModUnique(x, 0x1_0000, rgb / 0x1_0000 + k * 0x100, rgb % 0x1_0000);
    DivModUnique(rgb / 0x1_0000 + k * 0x100, 256, (rgb / 0x1_0000) / 256 + k, (rgb / 0x1_0000) % 256);
    DivModUnique(x, 0x100, rgb / 0x100 + k * 0x1_0000, rgb % 0x100);
    DivModUnique(rgb / 0x100 + k * 0x1_0000, 256, (rgb / 0x100) / 256 + k * 0x100, (rgb / 0x100) % 256);
    DivModUnique(x, 256, rgb / 256 + k * 0x1_0000, rgb % 256);
  }

  /** `UIColor(rgb:)` keeps exactly the low 24 bits of `rgb`: packing its
      channels gives `rgb mod 2^24`. */
  lemma LowBitsOfRgb(rgb: int)
    ensures Packed(ColorFromRgb(rgb).value) == rgb % 0x100_0000
  {
    RgbIgnoresHighBits(rgb % 0x100_0000, rgb / 0x100_0000);
    RgbRoundTrip(rgb % 0x100_0000);
  }

  /** When the text parses as `v`, `HexToUIColor` gives the colour of the low
      24 bits of `v`; so "ff" is blue, "+0000FF" too, and "-1" is white. */
  lemma HexToColorParsed(hex: string, v: int)
    requires ParseInt(hex) == Some(v)
    ensures Packed(HexToColor(hex)) == v % 0x100_0000
  {
    LowBitsOfRgb(v);
  }

  /** The colour written by `UIColorToHex` always starts with '#', which
      `Int(_, radix: 16)` rejects, so reading it back always gives black. */
  lemma HexRoundTripGivesBlack(c: Color)
    ensures HexToColor(ColorToHex(c)) == Black
    ensures HexToColor(ColorToHex(c)) == c <==> c == Black
  {
  }

  /** Without its '#' the written colour has 25 digits, `0xRRGG` followed by
      blue in 21 digits; that overflows `Int` unless red and green are 0. */
  lemma StrippedHexOverflows(c: Color)
    ensures ParseInt(ColorToHex(c)[1..]) == if c.red == 0 && c.green == 0 then Some(c.blue as int) else None
  {
    ChannelWidth(c.red, 2);
    ChannelWidth(c.green, 2);
    ChannelWidth(c.blue, 21);
    var rs, gs, bs := Pad(c.red, 2), Pad(c.green, 2), Pad(c.blue, 21);
    var t := ColorToHex(c)[1..];
    assert t == rs + gs + bs;
    assert t == (rs + gs) + bs;
    UpperAppend(rs, gs);
    DigitsValueAppend(rs, gs);
    assert Pow16(2) == 0x100;
    assert DigitsValue(rs + gs) == c.red * 0x100 + c.green;
    ParseWideField(rs + gs, bs);
  }

  /** The six-digit layout `RRGGBB` (two digits per channel, no '#') is the one
      `HexToUIColor` reads back exactly. */
  lemma SixDigitHexRoundTrip(c: Color)
    ensures HexToColor(Pad(c.red, 2) + Pad(c.green, 2) + Pad(c.blue, 2)) == c
  {
    ChannelWidth(c.red, 2);
    ChannelWidth(c.green, 2);
    ChannelWidth(c.blue, 2);
    var rs, gs, bs := Pad(c.red, 2), Pad(c.green, 2), Pad(c.blue, 2);
    DigitsValueAppend(rs, gs);
    DigitsValueAppend(rs + gs, bs);
    assert Pow16(2) == 0x100;
    assert DigitsValue(rs + gs + bs) == Packed(c);
    PackedRoundTrip(c);
  }
}
