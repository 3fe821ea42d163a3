/** The `#rrggbb` colour strings of the colour-accuracy page (ColorAccuracy/js/main.js):
    the encoder `rgb2Html` and, as its partner, the decoder a canvas applies to a
    `fillStyle` of that form. */
module ColorHex {
  import opened Wrappers

  /** One RGB colour; each channel is meant to lie in 0..255. */
  datatype Rgb = Rgb(r: int, g: int, b: int)

  predicate InByteRange(c: Rgb) {
    0 <= c.r <= 255 && 0 <= c.g <= 255 && 0 <= c.b <= 255
  }

  /** Lower-case hexadecimal digits, as JavaScript's `Number.prototype.toString(16)` writes them. */
  predicate IsHexDigit(c: char) {
    '0' <= c <= '9' || 'a' <= c <= 'f'
  }

  function HexDigit(d: nat): (c: char)
    requires d < 16
    ensures IsHexDigit(c)
  {
    if d < 10 then '0' + d as char else 'a' + (d - 10) as char
  }

  function HexValue(c: char): (d: nat)
    requires IsHexDigit(c)
    ensures d < 16
  {
    if c <= '9' then (c - '0') as nat else (c - 'a') as nat + 10
  }

  lemma HexDigitRoundTrip(d: nat)
    requires d < 16
    ensures HexValue(HexDigit(d)) == d
  {
  }

  /** `n.toString(16)` for a non-negative integer: no leading zeros, "0" for zero. */
  function ToHex(n: nat): (s: string)
    ensures |s| >= 1
    ensures s[0] == '0' <==> n == 0
    decreases n
  {
    if n < 16 then [HexDigit(n)] else ToHex(n / 16) + [HexDigit(n % 16)]
  }

  /** Every character `ToHex` writes is a lower-case hex digit. */
  lemma {:induction false} ToHexDigits(n: nat)
    ensures |ToHex(n)| >= 1
    ensures forall k :: 0 <= k < |ToHex(n)| ==> IsHexDigit(ToHex(n)[k])
  {
    if n >= 16 {
      ToHexDigits(n / 16);
    }
  }

  /** The value of a string of hex digits, most significant first. */
  function ParseHex(s: string): (n: nat)
    requires forall k :: 0 <= k < |s| ==> IsHexDigit(s[k])
  {
    if s == [] then 0 else ParseHex(s[..|s| - 1]) * 16 + HexValue(s[|s| - 1])
  }

  /** `toString(16)` is inverted by reading the digits back. */
  lemma {:induction false} ParseToHex(n: nat)
    ensures forall k :: 0 <= k < |ToHex(n)| ==> IsHexDigit(ToHex(n)[k])
    ensures ParseHex(ToHex(n)) == n
  {
    ToHexDigits(n);
    var s := ToHex(n);
    if n < 16 {
      assert s[..0] == [];
    } else {
      ParseToHex(n / 16);
      assert s[..|s| - 1] == ToHex(n / 16);
    }
  }

  /** Two hex digits for one byte. */
  function Hex2(x: nat): (s: string)
    requires x < 256
    ensures |s| == 2 && IsHexDigit(s[0]) && IsHexDigit(s[1])
    ensures HexValue(s[0]) * 16 + HexValue(s[1]) == x
  {
    HexDigitRoundTrip(x / 16);
    HexDigitRoundTrip(x % 16);
    [HexDigit(x / 16), HexDigit(x % 16)]
  }

  /** Appending one low-order digit to a number of at least one digit appends
      its hex digit to the string. */
  lemma ToHexAppendDigit(n: nat, d: nat)
    requires n >= 1 && d < 16
    ensures ToHex(n * 16 + d) == ToHex(n) + [HexDigit(d)]
  {
    var m := n * 16 + d;
    assert m >= 16;
    assert m / 16 == n && m % 16 == d;
  }

  /** Appending one low-order byte appends its two hex digits. */
  lemma ToHexAppendByte(n: nat, x: nat)
    requires n >= 1 && x < 256
    ensures ToHex(n * 256 + x) == ToHex(n) + Hex2(x)
  {
    var hi := n * 16 + x / 16;
    assert n * 256 + x == hi * 16 + x % 16;
    ToHexAppendDigit(hi, x % 16);
    ToHexAppendDigit(n, x / 16);
  }

  /** `rgb2Html(red, green, blue)`: `0x1000000 + blue + 0x100 * green + 0x10000 * red`
      written in hex, with its leading digit dropped (`substr(1)`), after a '#'.
      The callers only pass non-negative channels. */
  function Rgb2Html(red: nat, green: nat, blue: nat): (s: string)
    ensures |s| >= 1 && s[0] == '#'
  {
    var decColor := 0x1000000 + blue + 0x100 * green + 0x10000 * red;
    var hex := ToHex(decColor);
    ToHexDigits(decColor);
    "#" + hex[1..]
  }

  /** For channels in 0..255 the encoding is '#' and exactly two digits per channel. */
  lemma Rgb2HtmlDigits(red: nat, green: nat, blue: nat)
    requires red < 256 && green < 256 && blue < 256
    ensures Rgb2Html(red, green, blue) == "#" + Hex2(red) + Hex2(green) + Hex2(blue)
  {
    assert 0x1000000 + blue + 0x100 * green + 0x10000 * red ==
      ((1 * 256 + red) * 256 + green) * 256 + blue;
    ToHexAppendThreeBytes(1, red, green, blue);
    assert ToHex(1) == "1";
  }

  /** Appending three bytes appends their two-digit encodings. */
  lemma ToHexAppendThreeBytes(t: nat, a: nat, b: nat, c: nat)
    requires t >= 1 && a < 256 && b < 256 && c < 256
    ensures ToHex(((t * 256 + a) * 256 + b) * 256 + c) ==
      ToHex(t) + Hex2(a) + Hex2(b) + Hex2(c)
  {
    ToHexAppendByte((t * 256 + a) * 256 + b, c);
    ToHexAppendByte(t * 256 + a, b);
    ToHexAppendByte(t, a);
  }

  /** Reads a `#rrggbb` string back into its three channels; any other string is refused. */
  function ParseHtmlColor(s: string): (c: Option<Rgb>)
    ensures c.Some? ==> InByteRange(c.value)
  {
    if |s| == 7 && s[0] == '#' && forall k :: 1 <= k < 7 ==> IsHexDigit(s[k]) then
      Some(Rgb(HexValue(s[1]) * 16 + HexValue(s[2]),
               HexValue(s[3]) * 16 + HexValue(s[4]),
               HexValue(s[5]) * 16 + HexValue(s[6])))
    else
      None
  }

  /** The encoder's output is seven characters, '#' and six lower-case hex digits,
      and digit pairs 1-2, 3-4 and 5-6 decode back to red, green and blue. */
  lemma Rgb2HtmlRoundTrip(red: nat, green: nat, blue: nat)
    requires red < 256 && green < 256 && blue < 256
    ensures |Rgb2Html(red, green, blue)| == 7
    ensures forall k :: 1 <= k < 7 ==> IsHexDigit(Rgb2Html(red, green, blue)[k])
    ensures ParseHtmlColor(Rgb2Html(red, green, blue)) == Some(Rgb(red, green, blue))
  {
    Rgb2HtmlDigits(red, green, blue);
  }

  /** The other direction: every well-formed lower-case `#rrggbb` string is the
      encoding of the colour it decodes to. */
  lemma ParseThenEncode(s: string)
    requires ParseHtmlColor(s).Some?
    ensures var c := ParseHtmlColor(s).value;
      Rgb2Html(c.r, c.g, c.b) == s
  {
    assert IsHexDigit(s[1]) && IsHexDigit(s[2]) && IsHexDigit(s[3]) &&
      IsHexDigit(s[4]) && IsHexDigit(s[5]) && IsHexDigit(s[6]);
    var r := HexValue(s[1]) * 16 + HexValue(s[2]);
    var g := HexValue(s[3]) * 16 + HexValue(s[4]);
    var b := HexValue(s[5]) * 16 + HexValue(s[6]);
    assert ParseHtmlColor(s).value == Rgb(r, g, b);
    HexPairEncodes(s[1], s[2]);
    HexPairEncodes(s[3], s[4]);
    HexPairEncodes(s[5], s[6]);
    Rgb2HtmlDigits(r, g, b);
    SevenFromPairs(s);
  }

  /** A seven-character string starting with '#' is '#' and its three digit pairs. */
  lemma SevenFromPairs(s: string)
    requires |s| == 7 && s[0] == '#'
    ensures s == "#" + [s[1], s[2]] + [s[3], s[4]] + [s[5], s[6]]
  {
  }

  /** Two hex digits are the `Hex2` encoding of the byte they denote. */
  lemma HexPairEncodes(hi: char, lo: char)
    requires IsHexDigit(hi) && IsHexDigit(lo)
    ensures Hex2(HexValue(hi) * 16 + HexValue(lo)) == [hi, lo]
  {
    var x := HexValue(hi) * 16 + HexValue(lo);
    assert x / 16 == HexValue(hi) && x % 16 == HexValue(lo);
    DigitOfValue(hi);
    DigitOfValue(lo);
  }

  lemma DigitOfValue(c: char)
    requires IsHexDigit(c)
    ensures HexDigit(HexValue(c)) == c
  {
  }

  /** Beyond 255 the red channel wraps: while the colour value keeps seven hex
      digits, `substr(1)` drops the carry and red is taken modulo 256. */
  lemma Rgb2HtmlRedWraps(red: nat, green: nat, blue: nat)
    requires 256 <= red < 0xF00 && green < 256 && blue < 256
    ensures Rgb2Html(red, green, blue) == Rgb2Html(red % 256, green, blue)
  {
    var hi := 1 + red / 256;
    assert 2 <= hi < 16 &&
      0x1000000 + blue + 0x100 * green + 0x10000 * red ==
      ((hi * 256 + red % 256) * 256 + green) * 256 + blue
    by {
      assert red == red / 256 * 256 + red % 256;
    }
    ToHexAppendThreeBytes(hi, red % 256, green, blue);
    assert |ToHex(hi)| == 1;
    Rgb2HtmlDigits(red % 256, green, blue);
  }

  function Pow16(k: nat): (p: nat)
    ensures p >= 1
  {
    if k == 0 then 1 else 16 * Pow16(k - 1)
  }

  /** A number of at least 16^k needs more than k hex digits. */
  lemma {:induction false} ToHexLength(n: nat, k: nat)
    requires n >= Pow16(k)
    ensures |ToHex(n)| >= k + 1
  {
    if k > 0 {
      assert n >= 16;
      assert n / 16 >= Pow16(k - 1);
      ToHexLength(n / 16, k - 1);
    }
  }

  /** Once red reaches 0xF00 the colour value has eight or more hex digits, so the
      string is longer than `#rrggbb` and is not a `#rrggbb` string. */
  lemma Rgb2HtmlTooLong(red: nat, green: nat, blue: nat)
    requires red >= 0xF00
    ensures |Rgb2Html(red, green, blue)| >= 8
    ensures ParseHtmlColor(Rgb2Html(red, green, blue)) == None
  {
    var decColor := 0x1000000 + blue + 0x100 * green + 0x10000 * red;
    assert Pow16(7) == 0x10000000;
    ToHexLength(decColor, 7);
  }

  /** A number below 16^k has at most k hex digits. */
  lemma {:induction false} ToHexLengthBelow(n: nat, k: nat)
    requires k >= 1 && n < Pow16(k)
    ensures |ToHex(n)| <= k
  {
    if n >= 16 {
      assert k >= 2;
      assert n / 16 < Pow16(k - 1);
      ToHexLengthBelow(n / 16, k - 1);
    }
  }

  // ---- the hex colour forms a canvas accepts ----

  /** A colour as a canvas holds it: RGB and an alpha from 0 (transparent) to 255 (opaque). */
  datatype CanvasColor = CanvasColor(rgb: Rgb, alpha: int)

  /** The byte two hex digits denote. */
  function PairValue(hi: char, lo: char): (x: nat)
    requires IsHexDigit(hi) && IsHexDigit(lo)
    ensures x < 256
  {
    HexValue(hi) * 16 + HexValue(lo)
  }

  /** The byte one digit of a short form denotes: the digit repeated. */
  function ShortValue(c: char): (x: nat)
    requires IsHexDigit(c)
    ensures x < 256 && x % 17 == 0
  {
    HexValue(c) * 17
  }

  /** The hexadecimal forms of a CSS colour that a `fillStyle` assignment accepts:
      `#rgb`, `#rgba`, `#rrggbb` and `#rrggbbaa` (lower-case digits here); without an
      alpha part the colour is opaque. Any other string is refused. */
  function ParseCssHexColor(s: string): (c: Option<CanvasColor>)
    ensures c.Some? ==> InByteRange(c.value.rgb) && 0 <= c.value.alpha <= 255
    ensures c.Some? ==> |s| == 4 || |s| == 5 || |s| == 7 || |s| == 9
    ensures |s| == 7 ==> c == match ParseHtmlColor(s)
      case Some(rgb) => Some(CanvasColor(rgb, 255))
      case None => None
  {
    if |s| < 1 || s[0] != '#' || !(forall k :: 1 <= k < |s| ==> IsHexDigit(s[k])) then None
    else if |s| == 4 then
      Some(CanvasColor(Rgb(ShortValue(s[1]), ShortValue(s[2]), ShortValue(s[3])), 255))
    else if |s| == 5 then
      Some(CanvasColor(Rgb(ShortValue(s[1]), ShortValue(s[2]), ShortValue(s[3])), ShortValue(s[4])))
    else if |s| == 7 then
      Some(CanvasColor(Rgb(PairValue(s[1], s[2]), PairValue(s[3], s[4]), PairValue(s[5], s[6])), 255))
    else if |s| == 9 then
      Some(CanvasColor(Rgb(PairValue(s[1], s[2]), PairValue(s[3], s[4]), PairValue(s[5], s[6])),
        PairValue(s[7], s[8])))
    else None
  }

  /** Four low-order bytes appended to a number of one or more digits append their
      two-digit forms. */
  lemma ToHexAppendFourBytes(t: nat, a: nat, b: nat, c: nat, d: nat)
    requires t >= 1 && a < 256 && b < 256 && c < 256 && d < 256
    ensures ToHex((((t * 256 + a) * 256 + b) * 256 + c) * 256 + d) ==
      ToHex(t) + Hex2(a) + Hex2(b) + Hex2(c) + Hex2(d)
  {
    ToHexAppendByte(((t * 256 + a) * 256 + b) * 256 + c, d);
    ToHexAppendThreeBytes(t, a, b, c);
  }

  /** For red from 0xFF00 to 0xFFEFF the colour value has nine hex digits: the two
      low bytes of `0x100 + red`, then green and blue, after a '#'. */
  lemma Rgb2HtmlNineDigits(red: nat, green: nat, blue: nat)
    requires 0xFF00 <= red < 0xFFF00 && green < 256 && blue < 256
    ensures Rgb2Html(red, green, blue) ==
      "#" + Hex2(((0x100 + red) / 256) % 256) + Hex2(red % 256) + Hex2(green) + Hex2(blue)
  {
    var hi := (0x100 + red) / 256;
    var top := hi / 256;
    assert 1 <= top < 16 &&
      0x1000000 + blue + 0x100 * green + 0x10000 * red ==
      (((top * 256 + hi % 256) * 256 + red % 256) * 256 + green) * 256 + blue
    by {
      assert 0x100 + red == hi * 256 + red % 256;
      assert hi == top * 256 + hi % 256;
    }
    ToHexAppendFourBytes(top, hi % 256, red % 256, green, blue);
    assert |ToHex(top)| == 1;
  }

  /** So the string is a `#rrggbbaa` colour the canvas accepts: green becomes its blue
      and blue its alpha. */
  lemma Rgb2HtmlWithAlpha(red: nat, green: nat, blue: nat)
    requires 0xFF00 <= red < 0xFFF00 && green < 256 && blue < 256
    ensures ParseCssHexColor(Rgb2Html(red, green, blue)) ==
      Some(CanvasColor(Rgb(((0x100 + red) / 256) % 256, red % 256, green), blue))
  {
    Rgb2HtmlNineDigits(red, green, blue);
    ParseFourPairs(((0x100 + red) / 256) % 256, red % 256, green, blue);
  }

  /** '#' and four two-digit bytes read back as a colour with alpha. */
  lemma ParseFourPairs(w: nat, x: nat, y: nat, z: nat)
    requires w < 256 && x < 256 && y < 256 && z < 256
    ensures ParseCssHexColor("#" + Hex2(w) + Hex2(x) + Hex2(y) + Hex2(z)) ==
      Some(CanvasColor(Rgb(w, x, y), z))
  {
    var a, b, c, d := Hex2(w), Hex2(x), Hex2(y), Hex2(z);
    var s := "#" + a + b + c + d;
    assert s == ['#', a[0], a[1], b[0], b[1], c[0], c[1], d[0], d[1]];
  }

  /** For red from 0xF00 to 0xFEFF the string has eight characters, and from 0xFFF00 on
      ten or more: no hex colour form has those lengths, so the canvas refuses it. */
  lemma Rgb2HtmlRefused(red: nat, green: nat, blue: nat)
    requires (0xF00 <= red < 0xFF00 && green < 256 && blue < 256) || red >= 0xFFF00
    ensures |Rgb2Html(red, green, blue)| == 8 || |Rgb2Html(red, green, blue)| >= 10
    ensures ParseCssHexColor(Rgb2Html(red, green, blue)) == None
  {
    var decColor := 0x1000000 + blue + 0x100 * green + 0x10000 * red;
    if red < 0xFF00 {
      assert Pow16(7) == 0x10000000;
      assert Pow16(8) == 0x100000000;
      ToHexLength(decColor, 7);
      ToHexLengthBelow(decColor, 8);
    } else {
      assert Pow16(9) == 0x1000000000;
      ToHexLength(decColor, 9);
    }
  }
}
