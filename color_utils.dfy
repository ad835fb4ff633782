/** The colour helpers the component imports from `../utils/colorUtils`
    (`toHex`, `rgbToHsl`, `hslToRgb`). Their bodies are not part of this model:
    the operations that use them take them as parameters. */
module ColorUtils {

  import opened JsBuiltins

  /** A colour as hue (degrees), saturation and lightness (percent). */
  datatype Hsl = Hsl(h: real, s: real, l: real)

  /** The three imported helpers. `rgbToHsl` receives channels as `hexToRgb`
      produces them, so possibly NaN. */
  datatype Converters = Converters(
    toHex: (int, int, int) -> string,
    rgbToHsl: (Parsed, Parsed, Parsed) -> Hsl,
    hslToRgb: Hsl -> (int, int, int))
}
