/**
 * The colour of an issue label chip: GitHub's "rrggbb" hexadecimal colour,
 * read into red, green and blue components between 0 and 1.
 */
module LabelColor {
  import opened Wrappers
  import opened Strings

  /** `NSColor(calibratedRed:green:blue:alpha:)`. */
  datatype CalibratedColor = CalibratedColor(red: real, green: real, blue: real, alpha: real)

  predicate IsHexDigit(c: char) {
    '0' <= c <= '9' || 'a' <= c <= 'f' || 'A' <= c <= 'F'
  }

  function HexDigitValue(c: char): (d: nat)
    requires IsHexDigit(c)
    ensures d < 16
  {
    if '0' <= c <= '9' then c as int - '0' as int
    else if 'a' <= c <= 'f' then c as int - 'a' as int + 10
    else c as int - 'A' as int + 10
  }

  predicate AllHexDigits(s: string) {
    forall k :: 0 <= k < |s| ==> IsHexDigit(s[k])
  }

  /** The number a run of hexadecimal digits denotes. */
  function HexValue(s: string): nat
    requires AllHexDigits(s)
  {
    if s == [] then 0 else HexValue(s[..|s| - 1]) * 16 + HexDigitValue(s[|s| - 1])
  }

  /**
   * `Int(_:radix: 16)`: an optional `+` or `-` sign followed by at least one
   * hexadecimal digit, of either case; nothing for anything else.
   */
  function ParseHex(s: string): (r: Option<int>)
    ensures r.Some? ==> s != []
  {
    if s != [] && (s[0] == '+' || s[0] == '-') then
      var digits := s[1..];
      if digits != [] && AllHexDigits(digits) then
        var magnitude: int := HexValue(digits);
        Some(if s[0] == '-' then -magnitude else magnitude)
      else None
    else if s != [] && AllHexDigits(s) then Some(HexValue(s))
    else None
  }

  /** `(value >> shift) & 0xFF` on a two's-complement integer: the byte at bit `shift` and up. */
  function ByteAt(value: int, shift: nat): (b: int)
    ensures 0 <= b < 256
  {
    (value / Pow2(shift)) % 256
  }

  function Pow2(n: nat): (p: nat)
    ensures p >= 1
  {
    if n == 0 then 1 else 2 * Pow2(n - 1)
  }

  /** The character the colour text may be wrapped in. */
  predicate IsHash(c: char) {
    c == '#'
  }

  /** `Double(byte) / 255.0`. */
  function Unit(b: int): real {
    b as real / 255.0
  }

  /**
   * `nsColor(from:)`: strip every `#` at either end, demand exactly six
   * characters that read as a hexadecimal number, and take its three low
   * bytes as red, green and blue, fully opaque.
   */
  function NsColor(hex: string): (color: Option<CalibratedColor>)
    ensures color.Some? ==> |Trim(hex, IsHash)| == 6
    ensures color.Some? ==> color.value.alpha == 1.0
    ensures color.Some? ==>
              && 0.0 <= color.value.red <= 1.0
              && 0.0 <= color.value.green <= 1.0
              && 0.0 <= color.value.blue <= 1.0
  {
    var cleaned := Trim(hex, IsHash);
    if |cleaned| != 6 then None
    else
      match ParseHex(cleaned)
      case None => None
      case Some(value) =>
        Some(CalibratedColor(Unit(ByteAt(value, 16)), Unit(ByteAt(value, 8)), Unit(ByteAt(value, 0)), 1.0))
  }

  /** Lower-case hexadecimal digit of `d`. */
  function HexDigitChar(d: nat): (c: char)
    requires d < 16
    ensures IsHexDigit(c) && HexDigitValue(c) == d && c != '#'
  {
    if d < 10 then ('0' as int + d) as char else ('a' as int + d - 10) as char
  }

  /** The six-digit hexadecimal form of a colour. */
  function HexColor(red: nat, green: nat, blue: nat): (s: string)
    requires red < 256 && green < 256 && blue < 256
    ensures |s| == 6 && AllHexDigits(s)
  {
    [HexDigitChar(red / 16), HexDigitChar(red % 16),
     HexDigitChar(green / 16), HexDigitChar(green % 16),
     HexDigitChar(blue / 16), HexDigitChar(blue % 16)]
  }

  /** One more digit at the end multiplies the value by sixteen and adds the digit. */
  lemma HexValueSnoc(s: string, c: char)
    requires AllHexDigits(s) && IsHexDigit(c)
    ensures AllHexDigits(s + [c])
    ensures HexValue(s + [c]) == HexValue(s) * 16 + HexDigitValue(c)
  {
    assert (s + [c])[..|s|] == s;
  }

  /** The two digits of a byte denote that byte. */
  lemma HexByteValue(prefix: string, b: nat)
    requires AllHexDigits(prefix) && b < 256
    ensures AllHexDigits(prefix + [HexDigitChar(b / 16), HexDigitChar(b % 16)])
    ensures HexValue(prefix + [HexDigitChar(b / 16), HexDigitChar(b % 16)]) == HexValue(prefix) * 256 + b
  {
    var hi, lo := HexDigitChar(b / 16), HexDigitChar(b % 16);
    HexValueSnoc(prefix, hi);
    HexValueSnoc(prefix + [hi], lo);
    assert prefix + [hi] + [lo] == prefix + [hi, lo];
  }

  /** The six digits denote red * 65536 + green * 256 + blue. */
  lemma HexColorValue(red: nat, green: nat, blue: nat)
    requires red < 256 && green < 256 && blue < 256
    ensures HexValue(HexColor(red, green, blue)) == red * 65536 + green * 256 + blue
  {
    var r := [HexDigitChar(red / 16), HexDigitChar(red % 16)];
    var g := [HexDigitChar(green / 16), HexDigitChar(green % 16)];
    var b := [HexDigitChar(blue / 16), HexDigitChar(blue % 16)];
    assert HexColor(red, green, blue) == [] + r + g + b;
    HexByteValue([], red);
    HexByteValue([] + r, green);
    HexByteValue([] + r + g, blue);
  }

  /** The bytes of red * 65536 + green * 256 + blue are blue, green and red. */
  lemma BytesOfColor(red: nat, green: nat, blue: nat)
    requires red < 256 && green < 256 && blue < 256
    ensures var value := red * 65536 + green * 256 + blue;
            ByteAt(value, 16) == red && ByteAt(value, 8) == green && ByteAt(value, 0) == blue
  {
    assert Pow2(8) == 256 by {
      assert Pow2(4) == 16;
    }
    assert Pow2(16) == 65536 by {
      assert Pow2(8) == 256 by {
        assert Pow2(4) == 16;
      }
      assert Pow2(12) == 4096;
    }
    var value := red * 65536 + green * 256 + blue;
    assert value / 65536 == red;
    assert value / 256 == red * 256 + green;
  }

  /**
   * Reading the hexadecimal form of a colour, with any number of `#` before
   * and after it, gives that colour back, each byte scaled to 0..1.
   */
  lemma NsColorOfHex(red: nat, green: nat, blue: nat, before: nat, after: nat)
    requires red < 256 && green < 256 && blue < 256
    ensures NsColor(Repeat('#', before) + HexColor(red, green, blue) + Repeat('#', after)) ==
              Some(CalibratedColor(Unit(red), Unit(green), Unit(blue), 1.0))
  {
    TrimSurrounded(HexColor(red, green, blue), IsHash, '#', before, after);
    NsColorOfTrimmedHex(Repeat('#', before) + HexColor(red, green, blue) + Repeat('#', after), red, green, blue);
  }

  /** Text that strips to the hexadecimal form of a colour gives that colour. */
  lemma NsColorOfTrimmedHex(text: string, red: nat, green: nat, blue: nat)
    requires red < 256 && green < 256 && blue < 256
    requires Trim(text, IsHash) == HexColor(red, green, blue)
    ensures NsColor(text) == Some(CalibratedColor(Unit(red), Unit(green), Unit(blue), 1.0))
  {
    ParseHexColor(red, green, blue);
    NsColorOfCleaned(text, red * 65536 + green * 256 + blue);
    BytesOfColor(red, green, blue);
  }

  /** Text whose six stripped characters read as `value` gives the colour of `value`'s three low bytes. */
  lemma NsColorOfCleaned(text: string, value: int)
    requires |Trim(text, IsHash)| == 6 && ParseHex(Trim(text, IsHash)) == Some(value)
    ensures NsColor(text) == Some(CalibratedColor(Unit(ByteAt(value, 16)), Unit(ByteAt(value, 8)), Unit(ByteAt(value, 0)), 1.0))
  {
  }

  /** The hexadecimal form of a colour reads as its 24-bit value. */
  lemma ParseHexColor(red: nat, green: nat, blue: nat)
    requires red < 256 && green < 256 && blue < 256
    ensures ParseHex(HexColor(red, green, blue)) == Some(red * 65536 + green * 256 + blue)
  {
    HexColorValue(red, green, blue);
    ParseHexOfDigits(HexColor(red, green, blue));
  }

  /** A run of digits with no sign reads as the number it denotes. */
  lemma ParseHexOfDigits(s: string)
    requires s != [] && AllHexDigits(s)
    ensures ParseHex(s) == Some(HexValue(s))
  {
    assert IsHexDigit(s[0]);
  }

  /** Anything that is not six characters once the `#`s are stripped gives no colour. */
  lemma NsColorWrongLength(hex: string)
    requires |Trim(hex, IsHash)| != 6
    ensures NsColor(hex).None?
  {
  }

  /** Six characters give no colour when one of them is neither a hexadecimal digit nor a leading sign. */
  lemma NsColorNotHex(hex: string, k: nat)
    requires var cleaned := Trim(hex, IsHash);
             |cleaned| == 6 && k < 6 && !IsHexDigit(cleaned[k]) && !(k == 0 && (cleaned[0] == '+' || cleaned[0] == '-'))
    ensures NsColor(hex).None?
  {
    var cleaned := Trim(hex, IsHash);
    if cleaned[0] == '+' || cleaned[0] == '-' {
      assert cleaned[1..][k - 1] == cleaned[k];
    }
  }

  /**
   * A sign followed by five hexadecimal digits also reads as a colour, since
   * the number reader accepts a sign: "+12345" is 0x012345 and "-00001" is
   * -1, whose low bytes are all 0xFF (white).
   */
  lemma NsColorSigned(sign: char, digits: string)
    requires sign == '+' || sign == '-'
    requires |digits| == 5 && AllHexDigits(digits)
    ensures var magnitude: int := HexValue(digits);
            var value := if sign == '-' then -magnitude else magnitude;
            NsColor([sign] + digits) ==
              Some(CalibratedColor(Unit(ByteAt(value, 16)), Unit(ByteAt(value, 8)), Unit(ByteAt(value, 0)), 1.0))
  {
    var s := [sign] + digits;
    assert IsHexDigit(s[5]);
    TrimUnchanged(s, IsHash);
    assert s[1..] == digits;
    var magnitude: int := HexValue(digits);
    assert ParseHex(s) == Some(if sign == '-' then -magnitude else magnitude);
  }

  /** In particular "-00001" reads as white. */
  lemma MinusOneIsWhite()
    ensures ByteAt(-1, 16) == 255 && ByteAt(-1, 8) == 255 && ByteAt(-1, 0) == 255
  {
    assert Pow2(8) == 256 by {
      assert Pow2(4) == 16;
    }
    assert Pow2(16) == 65536 by {
      assert Pow2(8) == 256 by {
        assert Pow2(4) == 16;
      }
      assert Pow2(12) == 4096;
    }
  }
}
