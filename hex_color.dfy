/** `hexToRgb` of the palette component: the first `#` of the string is dropped
    and the two-character slices at offsets 0, 2 and 4 are each read with
    `parseInt(_, 16)`. Nothing is validated, so a malformed colour yields NaN
    channels rather than an error. */
module HexColor {

  import opened JsBuiltins

  /** The red, green and blue channels as `parseInt` returns them. */
  datatype Channels = Channels(r: Parsed, g: Parsed, b: Parsed)

  function HexToRgb(hex: string): Channels
  {
    var digits := RemoveFirst(hex, '#');
    Channels(Channel(digits, 0), Channel(digits, 2), Channel(digits, 4))
  }

  /** `parseInt(digits.substring(i, i + 2), 16)`. */
  function Channel(digits: string, i: nat): Parsed {
    ParseIntHex(Substring(digits, i, i + 2))
  }

  /** `s` is six hex digits. */
  predicate IsSixDigits(s: string) {
    |s| == 6 && forall i :: 0 <= i < 6 ==> IsHexDigit(s[i])
  }

  /** The byte spelled by the two hex digits of `s` at `i` and `i + 1`. */
  function ByteAt(s: string, i: nat): (v: int)
    requires i + 1 < |s| && IsHexDigit(s[i]) && IsHexDigit(s[i + 1])
    ensures 0 <= v <= 255
  {
    16 * DigitValue(s[i]) + DigitValue(s[i + 1])
  }

  /** A string of hex digits holds no `#`, so `replace` leaves it alone. */
  lemma NoHashToRemove(s: string)
    requires IsSixDigits(s)
    ensures RemoveFirst(s, '#') == s
  {
    assert '#' !in s by {
      forall i | 0 <= i < 6 ensures s[i] != '#' {
        assert IsHexDigit(s[i]);
      }
    }
    RemoveFirstSpec(s, '#');
  }

  /** `substring` within bounds is the plain slice, whatever `parseInt` makes
      of it. */
  lemma ParseSlice(s: string, i: nat, v: int)
    requires i + 2 <= |s| && ParseIntHex(s[i..i + 2]) == Num(v)
    ensures ParseIntHex(Substring(s, i, i + 2)) == Num(v)
  {
    assert Substring(s, i, i + 2) == s[i..i + 2];
  }

  /** Two hex digits at `i` read as the byte they spell. */
  lemma SliceToByte(s: string, i: nat)
    requires i + 1 < |s| && IsHexDigit(s[i]) && IsHexDigit(s[i + 1])
    ensures Channel(s, i) == Num(ByteAt(s, i))
  {
    var t := s[i..i + 2];
    assert t[0] == s[i] && t[1] == s[i + 1];
    ParseTwoHexDigits(t);
    ParseSlice(s, i, ByteAt(s, i));
  }

  /** Two strings left with the same digits once their first `#` is dropped give
      the same channels. */
  lemma SameDigits(a: string, b: string)
    requires RemoveFirst(a, '#') == RemoveFirst(b, '#')
    ensures HexToRgb(a) == HexToRgb(b)
  {
  }

  /** Six hex digits without any `#` give the three bytes they spell. */
  lemma SixDigitsToRgb(s: string)
    requires IsSixDigits(s)
    ensures HexToRgb(s) == Channels(Num(ByteAt(s, 0)), Num(ByteAt(s, 2)), Num(ByteAt(s, 4)))
  {
    NoHashToRemove(s);
    assert IsHexDigit(s[0]) && IsHexDigit(s[1]) && IsHexDigit(s[2]);
    assert IsHexDigit(s[3]) && IsHexDigit(s[4]) && IsHexDigit(s[5]);
    SliceToByte(s, 0);
    SliceToByte(s, 2);
    SliceToByte(s, 4);
  }

  /** `#` followed by six hex digits (either case) gives three integers in
      [0, 255], the bytes those digits spell; the `#` is optional. */
  lemma {:induction false} HashColorToRgb(s: string)
    requires IsSixDigits(s)
    ensures HexToRgb("#" + s) == HexToRgb(s)
    ensures HexToRgb("#" + s) == Channels(Num(ByteAt(s, 0)), Num(ByteAt(s, 2)), Num(ByteAt(s, 4)))
  {
    assert ("#" + s)[0] == '#';
    assert Seqs.Position("#" + s, '#') == 0;
    assert RemoveFirst("#" + s, '#') == s;
    NoHashToRemove(s);
    SameDigits("#" + s, s);
    SixDigitsToRgb(s);
  }

  /** Only the first `#` is removed: with two of them, the red slice is `#`
      followed by a digit, which reads as NaN. */
  lemma {:induction false} SecondHashRemains(s: string)
    requires IsSixDigits(s)
    ensures HexToRgb("##" + s).r == NaN
    ensures HexToRgb("##" + s).g == Num(ByteAt(s, 1))
  {
    var t := "#" + s;
    assert ("##" + s)[0] == '#';
    assert RemoveFirst("##" + s, '#') == t by {
      assert Seqs.Position("##" + s, '#') == 0;
    }
    var red := Substring(t, 0, 2);
    assert red == ['#', s[0]];
    assert TrimStart(red) == red;
    ParseNoDigit(red);
    assert Channel(t, 0) == NaN;
    assert t[2] == s[1] && t[3] == s[2];
    assert IsHexDigit(s[1]) && IsHexDigit(s[2]);
    SliceToByte(t, 2);
    assert ByteAt(t, 2) == ByteAt(s, 1);
  }

  /** The lower-case hex digit for `v`. */
  function HexDigit(v: nat): (c: char)
    requires v < 16
    ensures IsHexDigit(c) && DigitValue(c) == v
  {
    if v < 10 then ('0' as int + v) as char else ('a' as int + v - 10) as char
  }

  /** The `#rrggbb` spelling of a colour whose channels are bytes. */
  function FormatHex(r: int, g: int, b: int): (hex: string)
    requires 0 <= r <= 255 && 0 <= g <= 255 && 0 <= b <= 255
    ensures |hex| == 7 && hex[0] == '#' && IsSixDigits(hex[1..])
  {
    ['#', HexDigit(r / 16), HexDigit(r % 16), HexDigit(g / 16), HexDigit(g % 16),
     HexDigit(b / 16), HexDigit(b % 16)]
  }

  /** Two digits of `FormatHex` spell back the byte they came from. */
  lemma DigitPair(v: int)
    requires 0 <= v <= 255
    ensures 16 * DigitValue(HexDigit(v / 16)) + DigitValue(HexDigit(v % 16)) == v
  {
  }

  /** Reading a formatted colour back gives its channels: `hexToRgb` inverts the
      `#rrggbb` spelling. */
  lemma FormatHexRoundTrip(r: int, g: int, b: int)
    requires 0 <= r <= 255 && 0 <= g <= 255 && 0 <= b <= 255
    ensures HexToRgb(FormatHex(r, g, b)) == Channels(Num(r), Num(g), Num(b))
  {
    var hex := FormatHex(r, g, b);
    var s := hex[1..];
    assert hex == "#" + s;
    DigitPair(r);
    DigitPair(g);
    DigitPair(b);
    assert ByteAt(s, 0) == r && ByteAt(s, 2) == g && ByteAt(s, 4) == b;
    HashColorToRgb(s);
  }

  /** The component's accent colour. */
  lemma AccentColor()
    ensures HexToRgb("#4f8cff") == Channels(Num(79), Num(140), Num(255))
  {
    assert FormatHex(79, 140, 255) == "#4f8cff";
    FormatHexRoundTrip(79, 140, 255);
  }
}
