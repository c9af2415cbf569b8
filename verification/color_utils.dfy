/** The two colour helpers that convert between `#rrggbb` text and red, green and blue
    components. The luminance, contrast and HSL helpers work in floating point and are
    not part of this model. */
module ColorUtils {
  import opened Common
  import opened JsText

  /** The components `hexToRgb` produces; `None` is `NaN`. */
  datatype Rgb = Rgb(r: Option<int>, g: Option<int>, b: Option<int>)

  /** `s.substring(a, b)` for `a <= b`: both ends clamped to the string. */
  function Substring(s: string, a: nat, b: nat): (r: string)
    requires a <= b
    ensures b <= |s| ==> r == s[a..b]
    ensures |s| <= a ==> r == ""
  {
    var lo := if a < |s| then a else |s|;
    var hi := if b < |s| then b else |s|;
    s[lo..hi]
  }

  /** `hexToRgb`: drop the first `#` (wherever it is), then read characters 0-2, 2-4 and
      4-6 with `parseInt(…, 16)`. */
  function HexToRgb(hex: string): (c: Rgb)
    ensures !Includes(hex, "#") && |hex| == 0 ==> c == Rgb(None, None, None)
  {
    var h := ReplaceFirst(hex, "#", "");
    Rgb(ParseIntHex(Substring(h, 0, 2)), ParseIntHex(Substring(h, 2, 4)), ParseIntHex(Substring(h, 4, 6)))
  }

  /** `Math.max(0, Math.min(255, n))` on an integer component. */
  function Clamp(n: int): (r: int)
    ensures 0 <= r <= 255
    ensures 0 <= n <= 255 ==> r == n
    ensures n < 0 ==> r == 0
    ensures n > 255 ==> r == 255
  {
    if n < 0 then 0 else if n > 255 then 255 else n
  }

  /** `n.toString(16).padStart(2, '0')` for `0 <= n <= 255`: two lower-case digits. */
  function Hex2(n: nat): (r: string)
    requires n <= 255
    ensures |r| == 2 && r[0] == HexChar(n / 16) && r[1] == HexChar(n % 16)
  {
    var digits := if n < 16 then [HexChar(n)] else [HexChar(n / 16), HexChar(n % 16)];
    PadStart2(digits)
  }

  /** `rgbToHex` on integer components: `#` and two lower-case digits per clamped component. */
  function RgbToHex(r: int, g: int, b: int): (s: string)
    ensures |s| == 7 && s[0] == '#'
    ensures forall i :: 1 <= i < 7 ==> LowerHex(s[i])
  {
    var x, y, z := Hex2(Clamp(r)), Hex2(Clamp(g)), Hex2(Clamp(b));
    SixLowerDigits(x, y, z);
    "#" + x + y + z
  }

  /** A digit as `toString(16)` writes it. */
  predicate LowerHex(c: char) {
    IsHexDigit(c) && !IsUpperAscii(c)
  }

  lemma SixLowerDigits(x: string, y: string, z: string)
    requires |x| == 2 && |y| == 2 && |z| == 2
    requires LowerHex(x[0]) && LowerHex(x[1]) && LowerHex(y[0]) && LowerHex(y[1])
    requires LowerHex(z[0]) && LowerHex(z[1])
    ensures forall i :: 1 <= i < 7 ==> LowerHex(("#" + x + y + z)[i])
  {
    var s := "#" + x + y + z;
    assert s[1] == x[0] && s[2] == x[1] && s[3] == y[0] && s[4] == y[1] && s[5] == z[0] && s[6] == z[1];
  }

  /** Out-of-range components are written as the nearest bound. */
  lemma RgbToHexClamps(r: int, g: int, b: int)
    ensures RgbToHex(r, g, b) == RgbToHex(Clamp(r), Clamp(g), Clamp(b))
    ensures HexToRgb(RgbToHex(r, g, b)) == Rgb(Some(Clamp(r)), Some(Clamp(g)), Some(Clamp(b)))
  {
    RgbRoundTrip(Clamp(r), Clamp(g), Clamp(b));
  }

  /** Two hexadecimal digits read back as their value: no whitespace, sign or `0x` prefix
      is taken off, and both characters are digits. */
  lemma ParseTwoHex(s: string)
    requires |s| == 2 && IsHexDigit(s[0]) && IsHexDigit(s[1])
    ensures ParseIntHex(s) == Some(PairValue(s[0], s[1]))
  {
    HexDigitNotSpace(s[0]);
    HexDigitNotSpace(s[1]);
    assert TrimStart(s) == s;
    assert AfterSign(s) == s;
    assert HexPrefix(s[2..]) == "";
    assert HexPrefix(s[1..]) == s[1..];
    assert HexPrefix(s) == s;
    assert s[..1][..0] == [];
    assert HexDigitsValue(s[..1]) == HexValue(s[0]);
  }

  lemma HexDigitNotSpace(c: char)
    requires IsHexDigit(c)
    ensures !IsSpace(c) && c != '-' && c != '+' && c != 'x' && c != 'X'
  {
  }

  /** After a leading `#`, the components are read from characters 0-2, 2-4 and 4-6. */
  lemma SixDigits(body: string)
    requires |body| == 6
    ensures HexToRgb("#" + body) == Rgb(ParseIntHex(body[0..2]), ParseIntHex(body[2..4]), ParseIntHex(body[4..6]))
  {
    ReplaceFirstAtStart("#", body);
  }

  /** Two hexadecimal digits of `n` read back as `n`. */
  lemma Hex2Parses(n: nat)
    requires n <= 255
    ensures ParseIntHex(Hex2(n)) == Some(n)
  {
    ParseTwoHex(Hex2(n));
  }

  /** Components in range survive the trip through text. */
  lemma RgbRoundTrip(r: int, g: int, b: int)
    requires 0 <= r <= 255 && 0 <= g <= 255 && 0 <= b <= 255
    ensures HexToRgb(RgbToHex(r, g, b)) == Rgb(Some(r), Some(g), Some(b))
  {
    var body := Hex2(r) + Hex2(g) + Hex2(b);
    assert RgbToHex(r, g, b) == "#" + body;
    SixDigits(body);
    ThreePairs(Hex2(r), Hex2(g), Hex2(b));
    Hex2Parses(r);
    Hex2Parses(g);
    Hex2Parses(b);
  }

  lemma ThreePairs(x: string, y: string, z: string)
    requires |x| == 2 && |y| == 2 && |z| == 2
    ensures (x + y + z)[0..2] == x && (x + y + z)[2..4] == y && (x + y + z)[4..6] == z
  {
  }

  /** A well-formed colour: `#` and six hexadecimal digits in either case. */
  predicate WellFormed(hex: string) {
    |hex| == 7 && hex[0] == '#' && forall i :: 1 <= i < 7 ==> IsHexDigit(hex[i])
  }

  /** A well-formed colour survives the trip through components, lower-cased. */
  lemma HexRoundTrip(hex: string)
    requires WellFormed(hex)
    ensures var c := HexToRgb(hex);
      c.r.Some? && c.g.Some? && c.b.Some? && RgbToHex(c.r.value, c.g.value, c.b.value) == ToLower(hex)
  {
    HexReads(hex);
    HexWrites(hex);
  }

  function PairValue(a: char, b: char): (n: nat)
    requires IsHexDigit(a) && IsHexDigit(b)
  {
    HexValue(a) * 16 + HexValue(b)
  }

  lemma HexReads(hex: string)
    requires WellFormed(hex)
    ensures HexToRgb(hex) == Rgb(Some(PairValue(hex[1], hex[2])), Some(PairValue(hex[3], hex[4])),
                                 Some(PairValue(hex[5], hex[6])))
  {
    var body := hex[1..];
    assert hex == "#" + body;
    SixDigits(body);
    var x, y, z := body[0..2], body[2..4], body[4..6];
    BodyPairs(hex);
    ParseTwoHex(x);
    ParseTwoHex(y);
    ParseTwoHex(z);
  }

  lemma BodyPairs(hex: string)
    requires |hex| == 7
    ensures hex[1..][0..2] == [hex[1], hex[2]]
    ensures hex[1..][2..4] == [hex[3], hex[4]]
    ensures hex[1..][4..6] == [hex[5], hex[6]]
  {
  }

  lemma HexWrites(hex: string)
    requires WellFormed(hex)
    ensures RgbToHex(PairValue(hex[1], hex[2]), PairValue(hex[3], hex[4]), PairValue(hex[5], hex[6])) == ToLower(hex)
  {
    PairToHex(hex[1], hex[2]);
    PairToHex(hex[3], hex[4]);
    PairToHex(hex[5], hex[6]);
    var out := RgbToHex(PairValue(hex[1], hex[2]), PairValue(hex[3], hex[4]), PairValue(hex[5], hex[6]));
    assert forall i :: 0 <= i < 7 ==> out[i] == ToLower(hex)[i];
  }

  /** Two digits read as a value are written back lower-cased. */
  lemma PairToHex(a: char, b: char)
    requires IsHexDigit(a) && IsHexDigit(b)
    ensures PairValue(a, b) <= 255
    ensures Hex2(PairValue(a, b)) == [LowerChar(a), LowerChar(b)]
  {
    var n := PairValue(a, b);
    assert n / 16 == HexValue(a) && n % 16 == HexValue(b);
    HexCharOfValue(a);
    HexCharOfValue(b);
  }
}
