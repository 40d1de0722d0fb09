/** The RGBA colour of src/graphics/color.rs: four 8-bit channels, packed into a
    32-bit integer as RRGGBBAA and parsed from "#RRGGBB" strings. Channels and packed
    values are bit-vectors, so the shifts, masks and truncating casts of the source
    are written as they are there. */
module Colors {
  import opened Results

  datatype Color = Color(r: bv8, g: bv8, b: bv8, a: bv8)

  /** `from_rgba`: every channel as given. */
  function FromRgba(red: bv8, green: bv8, blue: bv8, alpha: bv8): (c: Color)
    ensures ToInteger(c) == ((red as bv32) << 24) | ((green as bv32) << 16) | ((blue as bv32) << 8) | (alpha as bv32)
  {
    Color(red, green, blue, alpha)
  }

  /** `from_rgb`: the given channels, with alpha 255. */
  function FromRgb(red: bv8, green: bv8, blue: bv8): (c: Color)
    ensures c == FromRgba(red, green, blue, 0xFF)
  {
    Color(red, green, blue, 0xFF)
  }

  /** `from_integer`: the four bytes of `x`, most significant first, are red, green,
      blue and alpha. */
  function FromInteger(x: bv32): (c: Color)
    ensures ToInteger(c) == x
  {
    Color((x >> 24) as bv8, ((x >> 16) & 0xFF) as bv8, ((x >> 8) & 0xFF) as bv8, (x & 0xFF) as bv8)
  }

  /** `to_integer`: the channels shifted into place. */
  function ToInteger(c: Color): (x: bv32)
    ensures (x >> 24) as bv8 == c.r && ((x >> 16) & 0xFF) as bv8 == c.g
    ensures ((x >> 8) & 0xFF) as bv8 == c.b && (x & 0xFF) as bv8 == c.a
  {
    ((c.r as bv32) << 24) | ((c.g as bv32) << 16) | ((c.b as bv32) << 8) | (c.a as bv32)
  }

  /** The packing is a bijection between colours and 32-bit values. */
  lemma IntegerRoundTrip(x: bv32, c: Color)
    ensures ToInteger(FromInteger(x)) == x
    ensures FromInteger(ToInteger(c)) == c
  {
  }

  /** The hexadecimal digit a character stands for; both cases are accepted. */
  function DigitOf(ch: char): (d: Option<bv8>)
    ensures d.Some? ==> d.value < 16
  {
    match ch
    case '0' => Some(0)
    case '1' => Some(1)
    case '2' => Some(2)
    case '3' => Some(3)
    case '4' => Some(4)
    case '5' => Some(5)
    case '6' => Some(6)
    case '7' => Some(7)
    case '8' => Some(8)
    case '9' => Some(9)
    case 'a' => Some(10)
    case 'b' => Some(11)
    case 'c' => Some(12)
    case 'd' => Some(13)
    case 'e' => Some(14)
    case 'f' => Some(15)
    case 'A' => Some(10)
    case 'B' => Some(11)
    case 'C' => Some(12)
    case 'D' => Some(13)
    case 'E' => Some(14)
    case 'F' => Some(15)
    case _ => None
  }

  predicate AllHexDigits(s: string) {
    forall i :: 0 <= i < |s| ==> DigitOf(s[i]).Some?
  }

  /** The value of a digit character that `DigitOf` accepts, widened to 32 bits. */
  function Nibble(ch: char): bv32
    requires DigitOf(ch).Some?
  {
    DigitOf(ch).value as bv32
  }

  /** The value of at most seven hexadecimal digits, most significant first. Each digit
      is shifted in below the ones before it, which is the multiply-by-16-and-add that
      `from_str_radix` performs (`ShiftInIsMulAdd`); seven digits fit in 28 bits, so
      nothing overflows. */
  function DigitsValue(s: string): (v: bv32)
    requires AllHexDigits(s) && |s| <= 7
    ensures v == RadixValue(s)
  {
    if s == [] then 0
    else
      var w := DigitsValue(s[..|s| - 1]);
      DigitsValueStep(s, w);
      (w << 4) | Nibble(s[|s| - 1])
  }

  /** The bound on `k` hexadecimal digits: `16^k`, for the lengths a u32 holds. */
  function HexLimit(k: nat): bv32
    requires k <= 7
  {
    match k
    case 0 => 0x1
    case 1 => 0x10
    case 2 => 0x100
    case 3 => 0x1000
    case 4 => 0x1_0000
    case 5 => 0x10_0000
    case 6 => 0x100_0000
    case _ => 0x1000_0000
  }

  /** One step of `DigitsValue` is one step of `RadixValue`, given the value of the
      digits before the last. */
  lemma DigitsValueStep(s: string, w: bv32)
    requires AllHexDigits(s) && 0 < |s| <= 7
    requires w == RadixValue(s[..|s| - 1])
    ensures (w << 4) | Nibble(s[|s| - 1]) == RadixValue(s)
  {
    var d := Nibble(s[|s| - 1]);
    assert w < 0x100_0000 by { ShortLimit(|s| - 1); }
    ShiftInIsMulAdd(w, d);
  }

  lemma ShortLimit(k: nat)
    requires k <= 6
    ensures HexLimit(k) <= 0x100_0000
  {
  }

  /** The number `u32::from_str_radix(_, 16)` accumulates: each digit multiplies the
      value so far by sixteen and adds its own value. Below eight digits the u32
      arithmetic never overflows, which the bound records. */
  function RadixValue(s: string): (n: bv32)
    requires AllHexDigits(s) && |s| <= 7
    ensures n < HexLimit(|s|)
  {
    if s == [] then 0
    else RadixValue(s[..|s| - 1]) * 16 + Nibble(s[|s| - 1])
  }

  /** Shifting a nibble in below a value of at most 28 bits is multiplying it by 16
      and adding the nibble. */
  lemma ShiftInIsMulAdd(v: bv32, d: bv32)
    requires v < 0x1000_0000 && d < 16
    ensures (v << 4) | d == v * 16 + d
  {
  }

  /** The digits `u32::from_str_radix(_, 16)` reads: an optional leading '+' is
      skipped. */
  function Unsigned(t: string): string {
    if |t| > 0 && t[0] == '+' then t[1..] else t
  }

  /** What `u32::from_str_radix(_, 16)` accepts from a short string: one or more
      hexadecimal digits after the optional sign. */
  predicate ParsesHex(t: string) {
    |Unsigned(t)| > 0 && AllHexDigits(Unsigned(t))
  }

  /** The strings `from_hex` accepts: seven bytes, a leading '#', then a number
      `from_str_radix` parses. Every accepted character is ASCII, so the byte length
      Rust checks is the character count. Anything else panics. */
  predicate ValidHex(s: string): (b: bool)
    ensures b <==> |s| == 7 && s[0] == '#'
                   && (AllHexDigits(s[1..]) || (s[1] == '+' && AllHexDigits(s[2..])))
    ensures b ==> forall i :: 0 <= i < |s| ==> s[i] < 128 as char
  {
    |s| == 7 && s[0] == '#' && ParsesHex(s[1..])
  }

  /** `from_hex`: the parsed number shifted up one byte, with alpha 0xFF below it. */
  function FromHex(s: string): (c: Color)
    requires ValidHex(s)
    ensures c.a == 0xFF
  {
    LowByteIsOpaque(DigitsValue(Unsigned(s[1..])));
    FromInteger((DigitsValue(Unsigned(s[1..])) << 8) | 0xFF)
  }

  /** The upper-case digit for a value below 16. */
  function HexChar(n: bv8): (ch: char)
    requires n < 16
    ensures DigitOf(ch) == Some(n)
  {
    match n
    case 0 => '0'
    case 1 => '1'
    case 2 => '2'
    case 3 => '3'
    case 4 => '4'
    case 5 => '5'
    case 6 => '6'
    case 7 => '7'
    case 8 => '8'
    case 9 => '9'
    case 10 => 'A'
    case 11 => 'B'
    case 12 => 'C'
    case 13 => 'D'
    case 14 => 'E'
    case 15 => 'F'
  }

  /** The two upper-case digits of a byte, high nibble first. */
  function HexByte(b: bv8): (s: string)
    ensures |s| == 2 && AllHexDigits(s)
    ensures (Nibble(s[0]) << 4) | Nibble(s[1]) == b as bv32
  {
    var s := [HexChar(b >> 4), HexChar(b & 0xF)];
    assert Nibble(s[0]) == (b >> 4) as bv32;
    assert Nibble(s[1]) == (b & 0xF) as bv32;
    s
  }

  /** "#RRGGBB" in upper-case digits: the format `from_hex` is documented to read. */
  function ToHex(c: Color): (s: string)
    ensures ValidHex(s)
  {
    var digits := HexByte(c.r) + HexByte(c.g) + HexByte(c.b);
    assert digits[0] == HexByte(c.r)[0];
    assert DigitOf('+').None?;
    ['#'] + digits
  }

  lemma DigitsValueLast(s: string)
    requires AllHexDigits(s) && 0 < |s| <= 7
    ensures DigitsValue(s) == (DigitsValue(s[..|s| - 1]) << 4) | Nibble(s[|s| - 1])
  {
  }

  /** One more digit shifts the value up a nibble and puts its own value below it. */
  lemma DigitsValueSnoc(x: string, ch: char)
    requires AllHexDigits(x) && DigitOf(ch).Some? && |x| <= 6
    ensures AllHexDigits(x + [ch])
    ensures DigitsValue(x + [ch]) == (DigitsValue(x) << 4) | Nibble(ch)
  {
    var xs := x + [ch];
    assert xs[..|xs| - 1] == x;
    DigitsValueLast(xs);
  }

  /** Two more digits shift the value up a byte and put their byte below it. */
  lemma DigitsValueAppendTwo(x: string, y: string)
    requires AllHexDigits(x) && AllHexDigits(y) && |y| == 2 && |x| <= 5
    ensures AllHexDigits(x + y)
    ensures DigitsValue(x + y) == (DigitsValue(x) << 8) | (Nibble(y[0]) << 4) | Nibble(y[1])
  {
    var xy := x + y;
    assert xy[..|xy| - 1][..|xy| - 2] == x;
    DigitsValueLast(xy);
    DigitsValueLast(xy[..|xy| - 1]);
    ShiftTwice(DigitsValue(x), Nibble(y[0]), Nibble(y[1]));
  }

  lemma ShiftTwice(v: bv32, a: bv32, b: bv32)
    requires a < 16 && b < 16
    ensures (((v << 4) | a) << 4) | b == (v << 8) | (a << 4) | b
  {
  }

  /** The six digits `ToHex` writes are worth the three colour channels, red highest. */
  lemma ToHexValue(c: Color)
    ensures ToHex(c)[1..] == HexByte(c.r) + HexByte(c.g) + HexByte(c.b)
    ensures DigitsValue(ToHex(c)[1..]) == ((c.r as bv32) << 16) | ((c.g as bv32) << 8) | (c.b as bv32)
  {
    var r, g, b := HexByte(c.r), HexByte(c.g), HexByte(c.b);
    assert ToHex(c)[1..] == r + g + b;
    assert [] + r == r;
    DigitsValueAppendTwo([], r);
    DigitsValueAppendTwo(r, g);
    DigitsValueAppendTwo(r + g, b);
    Pack3(c.r as bv32, c.g as bv32, c.b as bv32);
  }

  lemma Pack3(r: bv32, g: bv32, b: bv32)
    requires r < 0x100 && g < 0x100 && b < 0x100
    ensures (((((0 << 8) | r) << 8) | g) << 8) | b == (r << 16) | (g << 8) | b
  {
  }

  /** A colour with alpha 255 is what `from_hex` builds from the 24 bits of its red, green
      and blue channels. */
  lemma FromOpaqueBits(c: Color, v: bv32)
    requires c.a == 0xFF
    requires v == ((c.r as bv32) << 16) | ((c.g as bv32) << 8) | (c.b as bv32)
    ensures FromInteger((v << 8) | 0xFF) == c
  {
  }

  /** `from_hex` of a string with no sign, in terms of the value of its digits. */
  lemma FromHexOfDigits(s: string, v: bv32)
    requires ValidHex(s) && Unsigned(s[1..]) == s[1..]
    requires DigitsValue(s[1..]) == v
    ensures FromHex(s) == FromInteger((v << 8) | 0xFF)
  {
  }

  lemma LowByteIsOpaque(v: bv32)
    ensures FromInteger((v << 8) | 0xFF).a == 0xFF
  {
  }

  /** Parsing the hex form of a colour with alpha 255 gives the colour back: `from_hex` reads
      the channels in the order `ToHex` writes them. */
  lemma HexRoundTrip(c: Color)
    requires c.a == 0xFF
    ensures FromHex(ToHex(c)) == c
  {
    var v := ((c.r as bv32) << 16) | ((c.g as bv32) << 8) | (c.b as bv32);
    assert FromHex(ToHex(c)) == FromInteger((v << 8) | 0xFF) by {
      var s := ToHex(c);
      ToHexValue(c);
      assert Unsigned(s[1..]) == s[1..];
      FromHexOfDigits(s, v);
    }
    FromOpaqueBits(c, v);
  }

  /** The C struct `sfColor`, laid out channel for channel. */
  datatype SfColor = SfColor(r: bv8, g: bv8, b: bv8, a: bv8)

  function ToCsfml(c: Color): (s: SfColor)
    ensures FromCsfml(s) == c
  {
    SfColor(c.r, c.g, c.b, c.a)
  }

  function FromCsfml(s: SfColor): (c: Color)
    ensures ToIvec4(c) == (s.r, s.g, s.b, s.a)
  {
    Color(s.r, s.g, s.b, s.a)
  }

  lemma CsfmlRoundTrip(c: Color, s: SfColor)
    ensures FromCsfml(ToCsfml(c)) == c
    ensures ToCsfml(FromCsfml(s)) == s
  {
  }

  /** `to_ivec4`: the channels as a tuple, in order. */
  function ToIvec4(c: Color): (v: (bv8, bv8, bv8, bv8))
    ensures FromRgba(v.0, v.1, v.2, v.3) == c
  {
    (c.r, c.g, c.b, c.a)
  }

  lemma Ivec4RoundTrip(c: Color)
    ensures FromRgba(ToIvec4(c).0, ToIvec4(c).1, ToIvec4(c).2, ToIvec4(c).3) == c
  {
  }

  const BLACK: Color := FromRgb(0, 0, 0)
  const WHITE: Color := FromRgb(255, 255, 255)
  const RED: Color := FromRgb(255, 0, 0)
  const GREEN: Color := FromRgb(0, 255, 0)
  const BLUE: Color := FromRgb(0, 0, 255)
  const YELLOW: Color := FromRgb(255, 255, 0)
  const MAGENTA: Color := FromRgb(255, 0, 255)
  const CYAN: Color := FromRgb(0, 255, 255)
  const TRANSPARENT: Color := FromRgba(0, 0, 0, 0)

  /** Transparent packs to zero; the named colours have alpha 255 and the listed channels. */
  lemma Constants()
    ensures ToInteger(TRANSPARENT) == 0
    ensures ToInteger(BLACK) == 0x0000_00FF && ToInteger(WHITE) == 0xFFFF_FFFF
    ensures ToInteger(RED) == 0xFF00_00FF && ToInteger(GREEN) == 0x00FF_00FF
    ensures ToInteger(BLUE) == 0x0000_FFFF && ToInteger(YELLOW) == 0xFFFF_00FF
    ensures ToInteger(MAGENTA) == 0xFF00_FFFF && ToInteger(CYAN) == 0x00FF_FFFF
  {
  }

  /** The conversion test of color.rs: 0x4BDA9CFF, "#4BDA9C" and (75, 218, 156) are one
      colour, and it packs back to the same integer. */
  lemma ColorExamples()
    ensures ValidHex("#4BDA9C")
    ensures FromHex("#4BDA9C") == FromInteger(0x4BDA_9CFF)
    ensures FromRgb(75, 218, 156) == FromInteger(0x4BDA_9CFF)
    ensures ToInteger(FromInteger(0x4BDA_9CFF)) == 0x4BDA_9CFF
    ensures FromCsfml(ToCsfml(FromRgba(5, 12, 28, 127))) == FromRgba(5, 12, 28, 127)
  {
    var c := FromRgb(75, 218, 156);
    assert ToHex(c) == "#4BDA9C";
    HexRoundTrip(c);
  }

  /** Digits that stand for the same nibbles have the same value, whatever their
      case. */
  lemma {:induction false} SameNibblesSameValue(s: string, t: string)
    requires AllHexDigits(s) && AllHexDigits(t) && |s| == |t| <= 7
    requires forall i :: 0 <= i < |s| ==> Nibble(s[i]) == Nibble(t[i])
    ensures DigitsValue(s) == DigitsValue(t)
  {
    if s != [] {
      var n := |s| - 1;
      SameNibblesSameValue(s[..n], t[..n]);
      DigitsValueLast(s);
      DigitsValueLast(t);
    }
  }

  /** A leading zero digit does not change the value. */
  lemma {:induction false} LeadingZero(s: string)
    requires AllHexDigits(s) && |s| <= 6
    ensures AllHexDigits(['0'] + s)
    ensures DigitsValue(['0'] + s) == DigitsValue(s)
  {
    var z := ['0'] + s;
    if s == [] {
      DigitsValueLast(z);
    } else {
      var n := |s| - 1;
      LeadingZero(s[..n]);
      assert z[..|z| - 1] == ['0'] + s[..n];
      DigitsValueLast(z);
      DigitsValueLast(s);
    }
  }

  /** `from_hex` reads two strings alike when their digits, after any '+', stand for
      the same nibbles: in particular it does not care about case. */
  lemma FromHexSameNibbles(s: string, t: string)
    requires ValidHex(s) && ValidHex(t)
    requires |Unsigned(s[1..])| == |Unsigned(t[1..])|
    requires forall i :: 0 <= i < |Unsigned(s[1..])| ==> Nibble(Unsigned(s[1..])[i]) == Nibble(Unsigned(t[1..])[i])
    ensures FromHex(s) == FromHex(t)
  {
    SameNibblesSameValue(Unsigned(s[1..]), Unsigned(t[1..]));
  }

  /** A '+' in front of five digits reads like a leading zero. */
  lemma FromHexSignIsZero(s: string)
    requires |s| == 7 && s[0] == '#' && s[1] == '+' && AllHexDigits(s[2..])
    ensures ValidHex(s) && ValidHex(['#', '0'] + s[2..])
    ensures FromHex(s) == FromHex(['#', '0'] + s[2..])
  {
    var digits := s[2..];
    assert Unsigned(s[1..]) == digits;
    var t := ['#', '0'] + digits;
    assert t[1..] == ['0'] + digits;
    assert Unsigned(t[1..]) == t[1..];
    LeadingZero(digits);
  }

  /** Lower-case digits read like upper-case ones. */
  lemma LowerCaseHexExample()
    ensures ValidHex("#4bda9c") && ValidHex("#4BDA9C")
    ensures FromHex("#4bda9c") == FromHex("#4BDA9C")
  {
    var lower, upper := "4bda9c", "4BDA9C";
    assert "#4bda9c"[1..] == lower && "#4BDA9C"[1..] == upper;
    assert Nibble(lower[1]) == Nibble(upper[1]) == 0xB;
    assert Nibble(lower[2]) == Nibble(upper[2]) == 0xD;
    assert Nibble(lower[3]) == Nibble(upper[3]) == 0xA;
    assert Nibble(lower[5]) == Nibble(upper[5]) == 0xC;
    FromHexSameNibbles("#4bda9c", "#4BDA9C");
  }

  /** A '+' may stand in front of five digits: `from_str_radix` skips it. */
  lemma SignedHexExample()
    ensures ValidHex("#+4BDA9") && FromHex("#+4BDA9") == FromInteger(0x04BD_A9FF)
  {
    var c := FromRgb(0x04, 0xBD, 0xA9);
    assert ToHex(c) == "#04BDA9";
    assert "#+4BDA9"[2..] == "4BDA9";
    assert ['#', '0'] + "4BDA9" == "#04BDA9";
    FromHexSignIsZero("#+4BDA9");
    HexRoundTrip(c);
  }

  /** The strings `from_hex` panics on are not accepted: no '#', too short, a letter
      past 'f', a minus sign. */
  lemma RejectedHexExamples()
    ensures !ValidHex("4BDA9C") && !ValidHex("#4BDA9") && !ValidHex("#4BDA9G") && !ValidHex("#-4BDA9")
  {
    assert "#4BDA9G"[1..][5] == 'G';
    assert "#-4BDA9"[1..][0] == '-';
  }
}
