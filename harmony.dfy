/** `generateHarmonies` of the palette component: a base colour is read with
    `hexToRgb`, converted to HSL, turned into a table of five HSL colours that
    depends on the kind of harmony, and each row is converted back to hex. Hues
    are shifted with `(h + d) % 360`; lightness and saturation are pushed by a
    fixed amount and clamped with `Math.max`/`Math.min`. */
module Harmony {

  import opened JsBuiltins
  import opened HexColor
  import opened ColorUtils

  datatype HarmonyKind = Analogous | Complementary | Triadic | Monochrome

  /** `Math.max` on two numbers that are not NaN. */
  function MaxReal(a: real, b: real): (m: real)
    ensures m >= a && m >= b && (m == a || m == b)
  {
    if a >= b then a else b
  }

  /** `Math.min` on two numbers that are not NaN. */
  function MinReal(a: real, b: real): (m: real)
    ensures m <= a && m <= b && (m == a || m == b)
  {
    if a <= b then a else b
  }

  /** The five HSL rows the `switch` builds for `base`. */
  function HarmonyTable(base: Hsl, kind: HarmonyKind): seq<Hsl>
  {
    var h, s, l := base.h, base.s, base.l;
    match kind
    case Analogous =>
      [Hsl(Rem360(h + 330.0), s, l),
       Hsl(h, s, l),
       Hsl(Rem360(h + 30.0), s, l),
       Hsl(Rem360(h + 15.0), s, l),
       Hsl(Rem360(h + 345.0), s, l)]
    case Complementary =>
      [Hsl(h, s, l),
       Hsl(Rem360(h + 180.0), s, l),
       Hsl(h, s, MaxReal(20.0, l - 20.0)),
       Hsl(Rem360(h + 180.0), s, MinReal(80.0, l + 20.0)),
       Hsl(h, MaxReal(30.0, s - 20.0), l)]
    case Triadic =>
      [Hsl(h, s, l),
       Hsl(Rem360(h + 120.0), s, l),
       Hsl(Rem360(h + 240.0), s, l),
       Hsl(h, s, MaxReal(20.0, l - 15.0)),
       Hsl(Rem360(h + 120.0), MaxReal(30.0, s - 10.0), l)]
    case Monochrome =>
      [Hsl(h, s, MaxReal(15.0, l - 30.0)),
       Hsl(h, s, MaxReal(25.0, l - 15.0)),
       Hsl(h, s, l),
       Hsl(h, s, MinReal(85.0, l + 15.0)),
       Hsl(h, s, MinReal(95.0, l + 30.0))]
  }

  /** `generateHarmonies(baseColor, type)`: every row of the table goes through
      `hslToRgb` and `toHex`, in order. */
  function GenerateHarmonies(baseColor: string, kind: HarmonyKind, utils: Converters): seq<string>
  {
    var c := HexToRgb(baseColor);
    var table := HarmonyTable(utils.rgbToHsl(c.r, c.g, c.b), kind);
    seq(|table|, i requires 0 <= i < |table| => ToHexColor(table[i], utils))
  }

  /** One HSL row converted back to a hex string. */
  function ToHexColor(c: Hsl, utils: Converters): string {
    var rgb := utils.hslToRgb(c);
    utils.toHex(rgb.0, rgb.1, rgb.2)
  }

  /** Where the unchanged base colour sits in the table of each kind. */
  function BaseIndex(kind: HarmonyKind): nat {
    match kind
    case Analogous => 1
    case Complementary => 0
    case Triadic => 0
    case Monochrome => 2
  }

  /** The hue shift of each row, in degrees, as a signed angle. */
  function Offsets(kind: HarmonyKind): seq<real> {
    match kind
    case Analogous => [-30.0, 0.0, 30.0, 15.0, -15.0]
    case Complementary => [0.0, 180.0, 0.0, 180.0, 0.0]
    case Triadic => [0.0, 120.0, 240.0, 0.0, 120.0]
    case Monochrome => [0.0, 0.0, 0.0, 0.0, 0.0]
  }

  /** The hue `h` turned by `d` degrees on the colour wheel, as an angle in
      [0, 360). */
  function Rotate(h: real, d: real): (r: real)
    requires 0.0 <= h < 360.0 && -360.0 < d < 360.0
    ensures 0.0 <= r < 360.0
    ensures r == h + d || r == h + d - 360.0 || r == h + d + 360.0
  {
    var x := h + d;
    if x < 0.0 then x + 360.0 else if x >= 360.0 then x - 360.0 else x
  }

  /** Whether the row at `i` of `kind` moves the saturation. */
  predicate ChangesSaturation(kind: HarmonyKind, i: nat) {
    (kind == Complementary || kind == Triadic) && i == 4
  }

  /** Whether the row at `i` of `kind` moves the lightness. */
  predicate ChangesLightness(kind: HarmonyKind, i: nat) {
    match kind
    case Analogous => false
    case Complementary => i == 2 || i == 3
    case Triadic => i == 3
    case Monochrome => i != 2
  }

  /** Every kind gives five rows, the base colour among them. */
  lemma TableShape(base: Hsl, kind: HarmonyKind)
    ensures |HarmonyTable(base, kind)| == 5 && BaseIndex(kind) < 5
    ensures HarmonyTable(base, kind)[BaseIndex(kind)] == base
  {
  }

  /** Rows keep the base saturation and lightness except where the kind says
      otherwise. */
  lemma KeptChannels(base: Hsl, kind: HarmonyKind, i: nat)
    requires i < 5
    ensures var row := HarmonyTable(base, kind)[i];
      (!ChangesSaturation(kind, i) ==> row.s == base.s) &&
      (!ChangesLightness(kind, i) ==> row.l == base.l)
  {
  }

  /** For a hue in [0, 360), `(h + d) % 360` with the table's non-negative
      shifts is the hue turned by the signed offset, back in [0, 360). */
  lemma {:induction false} HueOffsets(base: Hsl, kind: HarmonyKind, i: nat)
    requires 0.0 <= base.h < 360.0 && i < 5
    ensures |Offsets(kind)| == 5
    ensures var row := HarmonyTable(base, kind)[i];
      row.h == Rotate(base.h, Offsets(kind)[i]) && 0.0 <= row.h < 360.0
  {
    var h := base.h;
    match kind
    case Analogous =>
      RemOnce(h + 330.0);
      RemOnce(h + 30.0);
      RemOnce(h + 15.0);
      RemOnce(h + 345.0);
    case Complementary =>
      RemOnce(h + 180.0);
    case Triadic =>
      RemOnce(h + 120.0);
      RemOnce(h + 240.0);
    case Monochrome =>
  }

  /** `%` keeps the sign of the dividend: a hue below -330 is not brought back
      onto the wheel. */
  lemma NegativeHue(s: real, l: real)
    ensures HarmonyTable(Hsl(-400.0, s, l), Analogous)[0].h == -70.0
  {
    assert Trunc(-70.0 / 360.0) == 0;
  }

  /** The complement of the complement is the base hue. */
  lemma ComplementTwice(base: Hsl)
    requires 0.0 <= base.h < 360.0
    ensures var c := HarmonyTable(base, Complementary)[1];
      HarmonyTable(c, Complementary)[1].h == base.h
  {
    var c := HarmonyTable(base, Complementary)[1];
    HueOffsets(base, Complementary, 1);
    HueOffsets(c, Complementary, 1);
  }

  /** Three triadic steps go once round the wheel. */
  lemma TriadicCycle(base: Hsl)
    requires 0.0 <= base.h < 360.0
    ensures var a := HarmonyTable(base, Triadic)[1];
      var b := HarmonyTable(a, Triadic)[1];
      HarmonyTable(b, Triadic)[1].h == base.h && a.h == HarmonyTable(base, Triadic)[4].h
      && HarmonyTable(a, Triadic)[1].h == HarmonyTable(base, Triadic)[2].h
  {
    var a := HarmonyTable(base, Triadic)[1];
    HueOffsets(base, Triadic, 1);
    HueOffsets(base, Triadic, 2);
    HueOffsets(base, Triadic, 4);
    HueOffsets(a, Triadic, 1);
    var b := HarmonyTable(a, Triadic)[1];
    HueOffsets(b, Triadic, 1);
  }

  /** The darker and lighter complementary rows stay within [20, 80] and move
      away from the base lightness exactly when it is inside those bounds; the
      desaturated row never drops below 30. */
  lemma ComplementaryShades(base: Hsl)
    ensures var t := HarmonyTable(base, Complementary);
      && 20.0 <= t[2].l && (t[2].l <= base.l <==> base.l >= 20.0)
      && t[3].l <= 80.0 && (t[3].l >= base.l <==> base.l <= 80.0)
      && 30.0 <= t[4].s && (t[4].s <= base.s <==> base.s >= 30.0)
  {
  }

  /** The darker triadic row stays at or above lightness 20 and its desaturated
      row at or above saturation 30, each lowering the base value exactly when
      the base is at or above that floor. */
  lemma TriadicShades(base: Hsl)
    ensures var t := HarmonyTable(base, Triadic);
      && 20.0 <= t[3].l && (t[3].l <= base.l <==> base.l >= 20.0)
      && 30.0 <= t[4].s && (t[4].s <= base.s <==> base.s >= 30.0)
  {
  }

  /** Monochrome rows keep hue and saturation and run from dark to light; the
      whole row is ordered exactly when the base lightness is in [25, 85]. */
  lemma MonochromeRamp(base: Hsl)
    ensures var t := HarmonyTable(base, Monochrome);
      && (forall i :: 0 <= i < 5 ==> t[i].h == base.h && t[i].s == base.s)
      && t[0].l <= t[1].l && t[3].l <= t[4].l
      && (t[1].l <= t[2].l <= t[3].l <==> 25.0 <= base.l <= 85.0)
      && 15.0 <= t[0].l && t[4].l <= 95.0
  {
  }

  /** An analogous row wraps past 0: a base hue of 350 gives a neighbour at 20. */
  lemma AnalogousWraps(s: real, l: real)
    ensures HarmonyTable(Hsl(350.0, s, l), Analogous)[2].h == 20.0
  {
    RemOnce(380.0);
  }

  /** A complementary table from HSL (222, 100, 65): the lighter complement is
      clamped to lightness 80. */
  lemma ComplementaryExample()
    ensures HarmonyTable(Hsl(222.0, 100.0, 65.0), Complementary)[3] == Hsl(42.0, 100.0, 80.0)
  {
    RemOnce(402.0);
  }

  /** The output has one hex string per row, in table order. */
  lemma GeneratedRows(baseColor: string, kind: HarmonyKind, utils: Converters)
    ensures var c := HexToRgb(baseColor);
      var table := HarmonyTable(utils.rgbToHsl(c.r, c.g, c.b), kind);
      var out := GenerateHarmonies(baseColor, kind, utils);
      |out| == 5 && forall i :: 0 <= i < 5 ==> out[i] == ToHexColor(table[i], utils)
  {
    var c := HexToRgb(baseColor);
    TableShape(utils.rgbToHsl(c.r, c.g, c.b), kind);
  }

  /** For `#rrggbb`, HSL conversion receives the three bytes, and the `#` makes
      no difference. */
  lemma GenerateFromHex(s: string, kind: HarmonyKind, utils: Converters)
    requires IsSixDigits(s)
    ensures GenerateHarmonies("#" + s, kind, utils) == GenerateHarmonies(s, kind, utils)
    ensures var base := utils.rgbToHsl(Num(ByteAt(s, 0)), Num(ByteAt(s, 2)), Num(ByteAt(s, 4)));
      GenerateHarmonies(s, kind, utils) ==
        seq(5, i requires 0 <= i < 5 => ToHexColor(HarmonyTable(base, kind)[i], utils))
  {
    HashColorToRgb(s);
    var base := utils.rgbToHsl(Num(ByteAt(s, 0)), Num(ByteAt(s, 2)), Num(ByteAt(s, 4)));
    TableShape(base, kind);
  }

  /** When the colour helpers convert a colour to HSL and back without loss, the
      base colour appears unchanged in its own harmony. */
  lemma BaseColorKept(r: int, g: int, b: int, kind: HarmonyKind, utils: Converters)
    requires 0 <= r <= 255 && 0 <= g <= 255 && 0 <= b <= 255
    requires utils.hslToRgb(utils.rgbToHsl(Num(r), Num(g), Num(b))) == (r, g, b)
    requires utils.toHex(r, g, b) == FormatHex(r, g, b)
    ensures GenerateHarmonies(FormatHex(r, g, b), kind, utils)[BaseIndex(kind)] == FormatHex(r, g, b)
  {
    FormatHexRoundTrip(r, g, b);
    TableShape(utils.rgbToHsl(Num(r), Num(g), Num(b)), kind);
  }
}
