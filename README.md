# Palette generator logic, modelled in Dafny

color-theme-generator is a single React component, `PaletteGenerator`. It picks
the dominant colours of an uploaded image and builds colour harmonies from a
base colour. This project models the logic inside that component and proves
properties of it:

- **Dominant-colour extraction** (the body of `img.onload` in `handleFile`):
  - walks the RGBA byte buffer in steps of 16 bytes, so it samples every 4th pixel;
  - rounds each channel to a multiple of 32 with `Math.round(c / 32) * 32`;
  - counts the rounded colours in an object, which remembers insertion order;
  - sorts the entries by descending count and keeps the first `numColors` of them;
  - formats each kept colour with `toHex`.
- **`hexToRgb`**: drops the first `#`, then reads the slices `[0, 2)`, `[2, 4)` and
  `[4, 6)` with `parseInt(_, 16)`.
- **`generateHarmonies`**:
  - converts the base colour to HSL;
  - builds five HSL rows for the chosen harmony (analogous, complementary,
    triadic or monochrome);
  - converts every row back to hex.
- **The `numColors` setting**: starts at 5 and is moved by the `+` and `-` buttons.

Files and modules:

- `extraction.dfy` (`Extraction`):
  - the sampling loop, as a method over a frequency `map` and an insertion-order
    `seq`, proved against the functions `Samples`, `Counts` and `FirstSeen`;
  - the ranking (`Top`) and what it guarantees.
- `ranking.dfy` (`Ranking`): `Array.prototype.sort`, which is stable, as an
  insertion sort. Ties stay in input order.
- `hex_color.dfy` (`HexColor`): `hexToRgb`.
- `harmony.dfy` (`Harmony`): the harmony table and `generateHarmonies`.
- `counter.dfy` (`ColorCount`): the `numColors` state, as a class.
- `js_builtins.dfy` (`JsBuiltins`): the ECMAScript built-ins the code relies on:
  - `Math.round`;
  - `%` on numbers, which truncates, so the result has the sign of the dividend;
  - `parseInt` with radix 16, which skips leading white space, reads an
    optional sign and `0x`, takes the longest run of hex digits, and gives NaN
    when there are none;
  - `substring`, which clamps and orders its bounds;
  - `replace` with a one-character string pattern, which removes only the
    first occurrence.
- `color_utils.dfy` (`ColorUtils`): the HSL record, and the three helpers
  imported from `../utils/colorUtils`. Their source is not part of this model,
  so they are passed in as function parameters.
- `seqs.dfy` (`Seqs`): sequence helpers (first position, no duplicates).

The model follows the code on two points that are easy to misread:

- **Pixels.** The loop steps by 16 bytes, so it samples one pixel in four. A
  buffer of 16 bytes (four pixels) therefore yields exactly the colour of its
  first pixel, whatever the other three hold (`Extraction.SixteenBytes`).
  `handleFile` itself never passes such a buffer: it draws every image into a
  canvas 300 pixels wide, so its buffer is a multiple of 1200 bytes.
- **Quantization.** Nothing clamps the quantized channel, so bytes 240 to 255
  become 256 (`Extraction.QuantizeRange`, `Extraction.QuantizeOverflows`).

## Model

| member | source | states |
|---|---|---|
| JsBuiltins.Round | src/components/PaletteGenerator.tsx:59-61 | `Math.round(x)` is the integer r with r - 1/2 <= x < r + 1/2, so a half rounds up |
| JsBuiltins.Rem360 | src/components/PaletteGenerator.tsx:111-133 | `x % 360` differs from `x` by a whole number of turns and lies in [0, 360) for a non-negative dividend and in (-360, 0] for a negative one |
| JsBuiltins.RemOnce | src/components/PaletteGenerator.tsx:111-133 | for a dividend in [0, 720), `% 360` is the dividend or the dividend minus 360 |
| JsBuiltins.TrimStart | src/components/PaletteGenerator.tsx:90-92 | the white-space skip at the start of `parseInt`; `TrimStartSpec` states what it drops and keeps |
| JsBuiltins.TrimStartSpec | src/components/PaletteGenerator.tsx:90-92 | `parseInt`'s white-space skip drops exactly the leading white space and keeps the rest of the string |
| JsBuiltins.HexPrefixLength | src/components/PaletteGenerator.tsx:90-92 | the digits `parseInt` reads are the longest prefix of hex digits |
| JsBuiltins.ParseIntHex | src/components/PaletteGenerator.tsx:90-92 | `parseInt(_, 16)`: trim, optional sign and `0x`, longest hex prefix, NaN when empty; `ParseTwoHexDigits` and `ParseNoDigit` state its value on the slices `hexToRgb` forms |
| JsBuiltins.ParseTwoHexDigits | src/components/PaletteGenerator.tsx:90-92 | two hex digits parse to 16 * first + second, a value in [0, 255] |
| JsBuiltins.ParseNoDigit | src/components/PaletteGenerator.tsx:90-92 | a slice starting (after white space) with neither a sign nor a hex digit parses to NaN |
| JsBuiltins.Substring | src/components/PaletteGenerator.tsx:90-92 | `substring` is the slice between its bounds taken in either order, each bound past the end clamped to the length (empty when both are) |
| JsBuiltins.RemoveFirst | src/components/PaletteGenerator.tsx:89 | `replace("#", "")` with a string pattern; `RemoveFirstSpec` states the exact string it returns |
| JsBuiltins.RemoveFirstSpec | src/components/PaletteGenerator.tsx:89 | `replace("#", "")` leaves a string without `#` unchanged, and otherwise removes exactly the character at the first `#` |
| HexColor.Channel | src/components/PaletteGenerator.tsx:90-92 | one `parseInt(hex.substring(i, i + 2), 16)`; `SliceToByte` states its value on two hex digits |
| HexColor.HexToRgb | src/components/PaletteGenerator.tsx:88-94 | `hexToRgb`; `SixDigitsToRgb`, `HashColorToRgb`, `SameDigits`, `SecondHashRemains` and `FormatHexRoundTrip` state what it returns |
| HexColor.NoHashToRemove | src/components/PaletteGenerator.tsx:89 | six hex digits contain no `#`, so the replace does not change them |
| HexColor.SliceToByte | src/components/PaletteGenerator.tsx:90-92 | a channel slice holding two hex digits parses to the byte they spell |
| HexColor.SameDigits | src/components/PaletteGenerator.tsx:88-94 | the channels depend only on the string left after the first `#` is removed |
| HexColor.SixDigitsToRgb | src/components/PaletteGenerator.tsx:88-94 | six hex digits without `#` give the three bytes they spell |
| HexColor.HashColorToRgb | src/components/PaletteGenerator.tsx:88-94 | `#` plus six hex digits (either case) give three integers in [0, 255], the same as without the `#` |
| HexColor.SecondHashRemains | src/components/PaletteGenerator.tsx:89-91 | only the first `#` is removed: with `##`, red reads as NaN and green reads from the shifted digits |
| HexColor.FormatHexRoundTrip | src/components/PaletteGenerator.tsx:88-94 | reading back a `#rrggbb` spelling of three bytes gives those bytes |
| HexColor.AccentColor | src/components/PaletteGenerator.tsx:88-94 | `hexToRgb` of `#4f8cff`, the accent colour of line 5, is (79, 140, 255) |
| Ranking.SortByCount | src/components/PaletteGenerator.tsx:69 | the sorted entries are a permutation of the input with non-increasing counts |
| Ranking.SortRanked | src/components/PaletteGenerator.tsx:68-69 | the sort is stable: entries come by descending count, and equal counts keep their input order |
| Extraction.Quantize | src/components/PaletteGenerator.tsx:59-61 | the quantized channel is a multiple of 32 within 16 of the byte (a tie rounds up), equal to (c + 16) / 32 * 32 |
| Extraction.QuantizeRange | src/components/PaletteGenerator.tsx:59-61 | a byte quantizes into [0, 256], and to 256 exactly when it is 240 or more |
| Extraction.QuantizeNearest | src/components/PaletteGenerator.tsx:59-61 | no multiple of 32 is closer to the byte than its quantized value |
| Extraction.QuantizeIdempotent | src/components/PaletteGenerator.tsx:59-61 | quantizing a quantized value leaves it unchanged |
| Extraction.QuantizeOverflows | src/components/PaletteGenerator.tsx:59-61 | a channel of 250 quantizes to 256, which is not a byte |
| Extraction.SampleCount | src/components/PaletteGenerator.tsx:53 | the loop runs ceil(len / 16) times |
| Extraction.SampledOffsets | src/components/PaletteGenerator.tsx:53 | offset 16 * j is visited exactly when it is below the buffer length |
| Extraction.KeyAt | src/components/PaletteGenerator.tsx:54-61 | the quantized colour of the pixel at byte offset i; `SampleAt` ties it to the loop's j-th sample |
| Extraction.Samples | src/components/PaletteGenerator.tsx:53-61 | the sampled keys number one per iteration |
| Extraction.SampleAt | src/components/PaletteGenerator.tsx:53-61 | the j-th sampled key is the quantized pixel at byte offset 16 * j, which lies inside the buffer |
| Extraction.SampleFits | src/components/PaletteGenerator.tsx:53-56 | in a buffer of whole RGBA pixels, every sampled pixel lies wholly inside the buffer |
| Extraction.SampleStep | src/components/PaletteGenerator.tsx:53-61 | one more iteration appends the key of the pixel at offset 16 * n |
| Extraction.Counts | src/components/PaletteGenerator.tsx:63-64 | the `freq` object as a map from colour to count; `CountsSpec`, `CountsTotal` and `CountColors` state its contents |
| Extraction.FirstSeen | src/components/PaletteGenerator.tsx:63-64 | the `freq` object's key insertion order; `FirstSeenSpec`, `FirstSeenOrder` and `FirstSeenAppend` state its contents |
| Extraction.CountsSpec | src/components/PaletteGenerator.tsx:63-64 | the table holds exactly the sampled keys, each with its number of occurrences |
| Extraction.FirstSeenSpec | src/components/PaletteGenerator.tsx:64 | the insertion order lists every sampled key exactly once |
| Extraction.FirstSeenOrder | src/components/PaletteGenerator.tsx:64 | keys appear in the insertion order in the order of their first occurrence |
| Extraction.DistinctKeys | src/components/PaletteGenerator.tsx:64 | the table has as many keys as the insertion order |
| Extraction.CountsTotal | src/components/PaletteGenerator.tsx:63-64 | the counts add up to the number of keys counted |
| Extraction.FirstSeenAppend | src/components/PaletteGenerator.tsx:64 | a new key joins the end of the insertion order, and a known one changes nothing |
| Extraction.TableOfKeys | src/components/PaletteGenerator.tsx:63-64 | the table built from the samples lists each of its keys once in insertion order |
| Extraction.Entries | src/components/PaletteGenerator.tsx:68 | `Object.entries(freq)` in insertion order; `EntriesOfTable` states where each key sits |
| Extraction.EntriesOfTable | src/components/PaletteGenerator.tsx:68 | `Object.entries` lists every key of the table once, with its own count, at the key's place in insertion order |
| Extraction.Sorted | src/components/PaletteGenerator.tsx:68-69 | the entries after the stable sort by descending count; `SortedEntries`, `SortedIndexOf`, `SortedDistinct` and `SortedRanked` state what they hold |
| Extraction.SortedEntries | src/components/PaletteGenerator.tsx:68-69 | the sorted entries are one per key, each with its own count |
| Extraction.SortedIndexOf | src/components/PaletteGenerator.tsx:68-69 | every key of the table has its entry among the sorted entries |
| Extraction.SortedDistinct | src/components/PaletteGenerator.tsx:68-69 | no key appears twice among the sorted entries |
| Extraction.SortedRanked | src/components/PaletteGenerator.tsx:68-69 | sorted entries come by descending count and, for equal counts, in insertion order |
| Extraction.Top | src/components/PaletteGenerator.tsx:68-70 | the first n keys of the sorted entries; `TopLength`, `TopDistinct`, `TopOrdered` and `TopLeftOut` state which keys they are |
| Extraction.TopLength | src/components/PaletteGenerator.tsx:70 | the result has min(n, number of keys) colours and is never padded |
| Extraction.TopDistinct | src/components/PaletteGenerator.tsx:68-71 | the result holds pairwise distinct keys of the table |
| Extraction.TopOrdered | src/components/PaletteGenerator.tsx:68-70 | counts never increase along the result, and equal counts come in insertion order |
| Extraction.TopLeftOut | src/components/PaletteGenerator.tsx:68-70 | a key left out means the result is full, no kept key has a lower count, and a kept key with the same count was inserted before it, as the stable sort and the slice decide |
| Extraction.DominantColors | src/components/PaletteGenerator.tsx:50-70 | the whole extraction up to the slice; `DominantLength`, `DominantDistinct`, `DominantOrdered`, `DominantLeftOut` and `SixteenBytes` state its result |
| Extraction.DominantLength | src/components/PaletteGenerator.tsx:50-70 | min(numColors, distinct sampled colours) colours; the counts add up to ceil(len / 16) |
| Extraction.DominantDistinct | src/components/PaletteGenerator.tsx:50-71 | every colour returned was sampled, and none is returned twice |
| Extraction.DominantOrdered | src/components/PaletteGenerator.tsx:50-70 | a colour comes first when more sampled pixels have it, or as many and it was sampled first |
| Extraction.DominantLeftOut | src/components/PaletteGenerator.tsx:50-70 | a sampled colour left out means the result is full, no returned colour is rarer, and a returned colour sampled as often was sampled first |
| Extraction.SixteenBytes | src/components/PaletteGenerator.tsx:53 | a 16-byte buffer yields exactly the colour of its first pixel |
| Extraction.CountColors | src/components/PaletteGenerator.tsx:50-65 | the loop leaves the table and its insertion order equal to counting the keys of all sampled pixels |
| Extraction.ExtractSwatches | src/components/PaletteGenerator.tsx:50-74 | the swatches are `toHex` of the dominant colours, in rank order |
| Harmony.MaxReal | src/components/PaletteGenerator.tsx:122 | `Math.max` is one of its arguments and at least both |
| Harmony.MinReal | src/components/PaletteGenerator.tsx:123 | `Math.min` is one of its arguments and at most both |
| Harmony.Rotate | src/components/PaletteGenerator.tsx:111-133 | the hue turned by a signed offset lies in [0, 360) and differs from h + d by a multiple of 360 |
| Harmony.HarmonyTable | src/components/PaletteGenerator.tsx:108-145 | the `switch` building five HSL rows; `TableShape`, `KeptChannels`, `HueOffsets` and the shade lemmas state the rows |
| Harmony.TableShape | src/components/PaletteGenerator.tsx:108-145 | every kind gives five rows, with the unchanged base at index 1 (analogous), 0 (complementary, triadic) or 2 (monochrome) |
| Harmony.KeptChannels | src/components/PaletteGenerator.tsx:108-145 | every row keeps the base saturation and lightness, except the rows each kind adjusts |
| Harmony.HueOffsets | src/components/PaletteGenerator.tsx:111-133 | for a hue in [0, 360), each row's hue is in [0, 360) and is the base turned by -30/0/+30/+15/-15, 0/180/0/180/0, or 0/120/240/0/120 degrees (monochrome: 0) |
| Harmony.NegativeHue | src/components/PaletteGenerator.tsx:111 | `%` keeps the dividend's sign: a hue of -400 gives an analogous hue of -70, off the wheel |
| Harmony.AnalogousWraps | src/components/PaletteGenerator.tsx:113 | from hue 350 the +30 neighbour wraps to 20 |
| Harmony.ComplementTwice | src/components/PaletteGenerator.tsx:121 | the complement of the complement is the base hue |
| Harmony.TriadicCycle | src/components/PaletteGenerator.tsx:130-133 | three +120 steps return to the base hue; the rows at +120 and +240 agree with one and two steps |
| Harmony.ComplementaryShades | src/components/PaletteGenerator.tsx:122-124 | darkened lightness >= 20, lightened <= 80, desaturated saturation >= 30, each lowering or raising the base exactly when it is inside the bound |
| Harmony.TriadicShades | src/components/PaletteGenerator.tsx:132-133 | darkened lightness >= 20 and desaturated saturation >= 30, each lowering the base exactly when it is at or above the bound |
| Harmony.MonochromeRamp | src/components/PaletteGenerator.tsx:137-143 | hue and saturation unchanged; lightness within [15, 95] at the ends, rows 1 <= 2 and 4 <= 5, and the whole ramp ordered exactly when 25 <= l <= 85 |
| Harmony.ComplementaryExample | src/components/PaletteGenerator.tsx:123 | HSL (222, 100, 65) has its lightened complement at (42, 100, 80) |
| Harmony.GenerateHarmonies | src/components/PaletteGenerator.tsx:96-152 | `generateHarmonies`; `GeneratedRows`, `GenerateFromHex` and `BaseColorKept` state its result |
| Harmony.ToHexColor | src/components/PaletteGenerator.tsx:148-151 | one row through `hslToRgb` and `toHex`; `GeneratedRows` states that row i of the result is this of table row i |
| Harmony.GeneratedRows | src/components/PaletteGenerator.tsx:147-151 | five hex strings, one per row of the table, in order |
| Harmony.GenerateFromHex | src/components/PaletteGenerator.tsx:101-104 | for `#rrggbb` the HSL conversion receives the three bytes, and the `#` makes no difference |
| Harmony.BaseColorKept | src/components/PaletteGenerator.tsx:96-151 | if the helpers convert a colour to HSL and back without loss, the base colour appears unchanged in its harmony |
| ColorCount.Increment | src/components/PaletteGenerator.tsx:161-163 | `+` is a step up saturating at 10: min(n + 1, 10) for n up to 10, and it never lowers the value |
| ColorCount.Decrement | src/components/PaletteGenerator.tsx:165-167 | `-` is a step down saturating at 2: max(n - 1, 2) for n from 2, and it never raises the value |
| ColorCount.StaysInRange | src/components/PaletteGenerator.tsx:161-167 | neither button leaves [2, 10] |
| ColorCount.Undo | src/components/PaletteGenerator.tsx:161-167 | inside [2, 10], `-` undoes `+` below 10 and `+` undoes `-` above 2 |
| ColorCount.IncrementSaturates | src/components/PaletteGenerator.tsx:161-163 | pressing `+` k times from a valid value gives min(n + k, 10) |
| ColorCount.Setting.constructor | src/components/PaletteGenerator.tsx:23 | the setting starts at 5, inside [2, 10] |
| ColorCount.Setting.IncrementColors | src/components/PaletteGenerator.tsx:161-163 | the field becomes `Increment` of its old value and stays in [2, 10] |
| ColorCount.Setting.DecrementColors | src/components/PaletteGenerator.tsx:165-167 | the field becomes `Decrement` of its old value and stays in [2, 10] |

## Left out

- Image loading and rasterisation are browser I/O, so the model takes the RGBA
  buffer as input. This covers `new Image`, the object URL, `drawImage` into a
  300-pixel-wide canvas, `getImageData`, the early returns when the canvas or
  context is missing, and `onerror` with its alert.
- The bodies of `toHex`, `rgbToHsl` and `hslToRgb` are not part of this model.
  They are parameters. Their types assume two things about them: `rgbToHsl`
  returns real numbers (never NaN), and `hslToRgb` returns integer channels.
  Beyond that, nothing is assumed except in the explicit hypothesis of
  `Harmony.BaseColorKept`.
  - A `hslToRgb` that returns fractional channels is not modelled.
  - What `toHex` makes of a quantized channel of 256 is therefore not modelled.
- Floating point is not modelled. HSL values are exact reals.
  - NaN cannot be represented in an HSL value. A malformed base colour gives
    NaN channels, and the model passes those to `rgbToHsl` as they are, but
    NaN cannot flow on through the `%` and the clamps.
  - `Math.max` and `Math.min` are modelled on numbers that are not NaN.
- Strings are sequences of Unicode characters, while JavaScript's `substring`
  counts UTF-16 code units. A base colour holding a character outside the
  Basic Multilingual Plane is therefore sliced differently. The component calls
  `generateHarmonies` only with a `toHex` result, which is plain ASCII.
- `parseInt` gives -0 for a string like `-0`. The model represents it as 0.
- The string key `` `${r},${g},${b}` `` and its re-parse with
  `split(",").map(Number)` are modelled as the integer triple itself. For
  integer channels, that encoding round-trips.
- The `isProcessing` flag, `setSwatches`, and React's batching of state updates
  are not modelled.
  - Each button press is modelled as one immediate update of `numColors`.
  - A stale closure that sees an old value is not modelled.
- The JSX rendering, hover state, `clearPalette`, clipboard copy, the CSS
  variables and JSON export, and the download are UI with side effects.
