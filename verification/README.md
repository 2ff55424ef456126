# ColorEx core in Dafny

A model of the core of ColorEx, a small C# library of color arithmetic.
It covers three static classes:

- `Assert` holds the argument guards. Each guard either passes or fails with an argument error that names the offending argument.
- `Rgb` holds:
  - the perceptual brightness test (ITU-R BT.709 luma coefficients, strict comparison with the midpoint of the range);
  - the black-or-white contrast pick;
  - the packed 32-bit ARGB codec, for bytes and for normalized channels.
- `Hsb` holds:
  - the six-sector hexcone conversion from HSB to RGB;
  - the max/min/delta conversion from RGB to HSB;
  - the random-hue and parametric-hue generators.

Modules follow the source files:

- `Validation` (validation.dfy) models `ColorEx/Assert.cs`.
- `Rgb` (rgb.dfy) models `ColorEx/Rgb.cs`.
- `Hsb` (hsb.dfy) models `ColorEx/Hsb.cs`.
- `HsbRoundTrip` (hsb_roundtrip.dfy) proves what converting HSB to RGB and back gives:
  - the original hue, saturation and brightness, exactly, when hue is in [0.0; 1.0) and saturation and brightness are above 0;
  - hue 0.0 for hue 1.0, which converts like hue 0.0;
  - hue 0 when saturation is 0, because a gray has no hue;
  - hue 0 and saturation 0 when brightness is 0, because black keeps neither.

Modelling choices:

- Normalized channels are `real`.
- Channel bytes are `bv8` and the packed value is `bv32`. The codec therefore uses the library's own shifts and masks, and its arithmetic is stated modulo 2^32.
- A thrown `ArgumentException` becomes `Failure(OutOfRange(name))` or `Failure(Negative(name))` of a `Result`. The guard calls of a method run in order through `Validation.FirstFailure`, so the first failing guard decides the error, as the first exception thrown would.
- Guards are pure functions of their arguments. They return only a verdict and cannot change what they inspect.
- The two conversions from double to integer follow the code: both `(int)` and `(byte)` truncate toward zero. The model does not round.
- The normalized unpacking uses the integer division the code performs.
- Where the documentation promises otherwise, the code is followed and the difference is listed under "Findings".

## Model

| member | source | states |
|---|---|---|
| `Validation.FirstFailure` | ColorEx/Assert.cs:20-28 | A sequence of guards passes iff every guard passes. Otherwise the verdict is the failure of the first failing guard, and every guard before it passed. |
| `Validation.IsValueInRange0_1` | ColorEx/Assert.cs:10-13 | Passes iff 0.0 <= value <= 1.0, so both endpoints are accepted. Otherwise it fails with an out-of-range error carrying the given argument name. |
| `Validation.IsValuePositive` | ColorEx/Assert.cs:15-18 | Passes iff value >= 0.0, so zero passes despite the name. Otherwise it fails with a negative-value error carrying the argument name. |
| `Validation.AreInRange0_1` | ColorEx/Rgb.cs:16-18 | Three range guards in a row pass iff all three values are in [0.0; 1.0]. Otherwise the error names the first value out of range. |
| `Validation.AreHsbValuesValid` | ColorEx/Assert.cs:20-28 | Passes iff hue, saturation and brightness are all in [0.0; 1.0]. It reports the first offender in the order "hue", "saturation", "brightness". The error is always out-of-range, so the positivity guards never decide. |
| `Validation.AreRgbValuesValid` | ColorEx/Assert.cs:30-38 | Passes iff red, green and blue are all in [0.0; 1.0]. It reports the first offender in the order "red", "green", "blue". The positivity guards are unreachable. |
| `Rgb.IsBright` | ColorEx/Rgb.cs:15-21 | Fails iff some channel is outside [0.0; 1.0], naming the first offender in the order "Red", "Green", "Blue". Otherwise it returns true iff 0.2126 r + 0.7152 g + 0.0722 b > 0.5. |
| `Rgb.IsBrightByte` | ColorEx/Rgb.cs:28-30 | For all bytes, the byte test equals the normalized test applied to each byte divided by 255, and that normalized test cannot fail. |
| `Rgb.IsBrightScaled` | ColorEx/Rgb.cs:15-30 | For levels in [0; 255], the normalized test of level/255 succeeds and agrees with comparing the levels' luma against 127.5. |
| `Rgb.IsBrightBoundaries` | ColorEx/Rgb.cs:20 | Black is not bright and white is. Mid gray, whose luma is exactly 0.5, is not bright, because the comparison is strict. |
| `Rgb.IsBrightMonotone` | ColorEx/Rgb.cs:20 | Raising any channels of a bright color, within range, keeps it bright. |
| `Rgb.IsBrightExamples` | Tests/RgbTests.cs:9-13 | The library's test cases. Bytes (0xFF, 0xAA, 0xEE) and doubles (1, 0.8, 0.7) are bright. Bytes (0x00, 0x22, 0x33) and doubles (0.1, 0.2, 0.5) are not. |
| `Rgb.ToBlackIfBright` | ColorEx/Rgb.cs:40-47 | Fails on exactly the inputs the brightness test rejects, with the same error. Otherwise the output is a gray: 0.0 iff the source is bright, and 255.0 (0xFF) otherwise. |
| `Rgb.ToBlackIfBrightLeavesUnitRange` | ColorEx/Rgb.cs:36-45 | A black source gives channels of 255.0, outside the documented output range [0.0; 1.0]. |
| `Rgb.ToBlackIfBrightNormalized` | ColorEx/Rgb.cs:36-47 | The corrected pick. It fails and decides exactly like the as-written one. Its output is a gray of 0.0 or 1.0, always in [0.0; 1.0], and equals the as-written output divided by 255. |
| `Rgb.ToUint` | ColorEx/Rgb.cs:89-91 | The packed value is alpha·2^24 + red·2^16 + green·2^8 + blue, and its top byte is alpha. |
| `Rgb.FromUint` | ColorEx/Rgb.cs:59-64 | Packing the four extracted bytes gives back the value, for every 32-bit value. |
| `Rgb.FromUintToUint` | ColorEx/Rgb.cs:59-91 | Unpacking a packed value gives back the four bytes. |
| `Rgb.FromUintDigits` | ColorEx/Rgb.cs:59-64 | The extracted bytes are the base-256 digits of the value, most significant first. |
| `Rgb.CodecExamples` | ColorEx/Rgb.cs:89-91 | Packing 0xAA, 0xBB, 0xCC, 0xDD gives 0xAABBCCDD. Unpacking 0x00010001 gives alpha 0, red 1, green 0, blue 1. |
| `Rgb.WholeUnits` | ColorEx/Rgb.cs:73-76 | A field divided by 0xFF in integer arithmetic is 1.0 when the field is 0xFF and 0.0 for every other byte. |
| `Rgb.FromUintNormalized` | ColorEx/Rgb.cs:72-77 | As written, each normalized output is 1.0 exactly when its extracted byte is 0xFF, and 0.0 otherwise. |
| `Rgb.FromUintNormalizedTruncates` | ColorEx/Rgb.cs:72-77 | 0x80808080 unpacks to four 0.0 channels, not to about 0.5. |
| `Rgb.ExactFractions` | ColorEx/Rgb.cs:66-71 | Each output times 255 is its byte, and each output lies in [0.0; 1.0]. |
| `Rgb.FromUintNormalizedExact` | ColorEx/Rgb.cs:66-77 | The corrected unpacking. Each channel times 255 equals its extracted byte, and each channel lies in the documented range [0.0; 1.0]. |
| `Rgb.ScaleToLevel` | ColorEx/Rgb.cs:107-110 | For a channel in [0.0; 1.0], the truncated value·255 is a level in [0; 255] with level <= value·255 < level + 1. |
| `Rgb.ScaleToByte` | ColorEx/Rgb.cs:107-110 | The byte cast of value·255 is the byte b with b <= value·255 < b + 1. |
| `Rgb.ToUintNormalizedGuards` | ColorEx/Rgb.cs:101-104 | The four guards pass iff alpha is in [0.0; 1.0]. Any failure is reported under "Alpha". |
| `Rgb.ToUintNormalizedGuardsIgnoreColorChannels` | ColorEx/Rgb.cs:101-104 | Alpha 0.5 with red 2.0, green -1.0 and blue 7.0 passes every guard. |
| `Rgb.ToUintNormalized` | ColorEx/Rgb.cs:100-112 | For in-range red, green and blue, it fails iff alpha is out of range, under "Alpha". On success the packed value unpacks to the four channels scaled and truncated to bytes. |
| `Rgb.ToUintNormalizedChecked` | ColorEx/Rgb.cs:93-112 | The corrected packing. It fails iff some channel is outside [0.0; 1.0], naming the first offender in the order alpha, red, green, blue. On success the bytes are as in the as-written packing. |
| `Rgb.ToUintNormalizedCheckedAgrees` | ColorEx/Rgb.cs:100-112 | On in-range red, green and blue, the corrected and the as-written packing give the same result for every alpha. |
| `Rgb.ScaleToByteOfByteValue` | ColorEx/Rgb.cs:107-110 | A byte divided by 255 and scaled back is the same byte. |
| `Rgb.ExactFractionsScaleBack` | ColorEx/Rgb.cs:72-111 | Four bytes read as fractions of 255 are valid channels, and they scale back to the same four bytes. |
| `Rgb.ToUintNormalizedCheckedRoundTrip` | ColorEx/Rgb.cs:72-112 | For every 32-bit value, the corrected unpacking followed by the corrected packing succeeds and gives back the value. |
| `Hsb.Max3` | ColorEx/Hsb.cs:86-89 | The nested comparison yields one of the three values and is at least each of them. |
| `Hsb.Min3` | ColorEx/Hsb.cs:92-97 | The nested comparison yields one of the three values and is at most each of them. |
| `Hsb.Truncate` | ColorEx/Hsb.cs:23 | The int cast of a double: n <= x < n + 1 for x >= 0, and n - 1 < x <= n for negative x. |
| `Hsb.SectorRow` | ColorEx/Hsb.cs:31-67 | Brightness is the green channel in sectors 1 and 2, the blue one in 3 and 4, and the red one otherwise: 0, 5 and the default. The floor p is red in sectors 2 and 3, green in 4 and 5, and blue otherwise. |
| `Hsb.SectorRowPermutes` | ColorEx/Hsb.cs:31-67 | Each row holds brightness, p and q in sectors 1, 3 and 5, and brightness, p and t in every other sector. |
| `Hsb.SectorRowBounds` | ColorEx/Hsb.cs:31-67 | When p <= q, t <= brightness, every row of the table, default included, has brightness as its largest entry and p as its smallest. |
| `Hsb.SectorEntriesOrdered` | ColorEx/Hsb.cs:26-29 | For a fraction in [0; 1) and valid saturation and brightness, 0 <= p <= q <= brightness and p <= t <= brightness. |
| `Hsb.SectorColorBounds` | ColorEx/Hsb.cs:22-67 | A sector color has channels in [0.0; 1.0], largest channel brightness and smallest channel brightness·(1 - saturation). |
| `Hsb.ToRgb` | ColorEx/Hsb.cs:17-68 | Fails iff hue, saturation or brightness is outside [0.0; 1.0], naming the first offender in the order "Hue", "Saturation", "Brightness". On success every channel is in [0.0; 1.0], the largest is brightness and the smallest is brightness·(1 - saturation). |
| `Hsb.ToRgbSector` | ColorEx/Hsb.cs:22-23 | For a valid hue, the truncated hue·6 is its floor. It lies in 0..6 and is 6 only for hue 1.0. |
| `Hsb.ToRgbHueWraps` | ColorEx/Hsb.cs:22-66 | Hue 1.0 gives the same result as hue 0.0 for every saturation and brightness, failures included. |
| `Hsb.ToRgbAchromatic` | ColorEx/Hsb.cs:26-67 | Saturation 0 gives the gray (brightness, brightness, brightness) for every valid hue. |
| `Hsb.ToRgbPureRed` | ColorEx/Hsb.cs:62-66 | Hue 0 at full saturation and brightness gives (1, 0, 0). |
| `Hsb.HueOf` | ColorEx/Hsb.cs:101-118 | When max and delta are the largest channel and the nonzero spread, the hue after the sector arithmetic and the wrap lies in [0.0; 1.0). |
| `Hsb.HueOfTiesAgree` | ColorEx/Hsb.cs:103-111 | When green or blue ties with the channel chosen by the red, green, blue precedence, its own sector formula gives the same hue. |
| `Hsb.HsbOf` | ColorEx/Hsb.cs:83-119 | For any channels, brightness is at least each channel and equals one of them. A gray converts to hue 0, saturation 0 and its level as brightness. |
| `Hsb.HsbOfSaturation` | ColorEx/Hsb.cs:85-99 | For channels in range, brightness is the largest channel, saturation is in [0.0; 1.0], brightness·(1 - saturation) is the smallest channel, and saturation is 0 exactly for grays. |
| `Hsb.HsbOfHue` | ColorEx/Hsb.cs:83-119 | For channels in range, the hue is in [0.0; 1.0) and is 0 whenever the saturation is 0. |
| `Hsb.HsbOfDescribesRgb` | ColorEx/Hsb.cs:83-119 | For channels in range: brightness is the largest channel, brightness·(1 - saturation) is the smallest, saturation is 0 exactly for grays, hue is 0 then, hue is in [0.0; 1.0), and saturation and brightness are in [0.0; 1.0]. |
| `Hsb.FromRgb` | ColorEx/Hsb.cs:78-120 | Fails iff some channel is outside [0.0; 1.0], naming the first offender in the order "Red", "Green", "Blue". On success the values satisfy everything `HsbOfDescribesRgb` lists. |
| `Hsb.SaturationOf` | ColorEx/Hsb.cs:99 | For 0 <= delta <= brightness <= 1, the saturation (0 for brightness 0, delta/brightness otherwise) lies in [0.0; 1.0], brightness·(1 - saturation) = brightness - delta, and it is 0 iff delta is 0. |
| `Hsb.FromRgbGray` | ColorEx/Hsb.cs:83-101 | A gray in range converts to hue 0, saturation 0 and its level as brightness. |
| `Hsb.FromRgbGrayExamples` | ColorEx/Hsb.cs:83-101 | Mid gray and black convert to hue 0 and saturation 0. |
| `Hsb.FromRgbFirstOffender` | ColorEx/Hsb.cs:79-81 | With red 1.5 and green 2.0, the error names "Red", the first guard that fails. |
| `Hsb.FromRgbWrapExample` | ColorEx/Hsb.cs:113-118 | (1, 0, 0.5) has raw hue -1/12, which wraps to 11/12, with saturation 1 and brightness 1. |
| `Hsb.RandomHueToRgb` | ColorEx/Hsb.cs:130-132 | For a drawn hue in [0.0; 1.0), it fails iff saturation or brightness is out of range, naming "Saturation" first and then "Brightness". On success every channel is in [0.0; 1.0], the largest channel is brightness and the smallest is brightness·(1 - saturation). `HsbRoundTrip.RandomHueToRgbReadBack` ties the color to the drawn hue. |
| `Hsb.ParametricHueToRgb` | ColorEx/Hsb.cs:134-138 | A factor outside [0.0; 1.0] fails under "Value". Factor 0 gives the conversion of minHue and factor 1 that of maxHue. Only the mapped hue minHue + factor·(maxHue - minHue) is checked, not the endpoints. A mapped hue out of range fails under "Hue". For a valid factor and mapped hue, it fails iff saturation or brightness is out of range, naming "Saturation" first and then "Brightness". Between two valid hues the mapped hue is always valid. On success every channel is in [0.0; 1.0], the largest is brightness and the smallest is brightness·(1 - saturation). `HsbRoundTrip.ParametricHueToRgbReadBack` ties the color to the mapped hue. |
| `Hsb.ParametricHueToRgbIgnoresEndpoints` | ColorEx/Hsb.cs:134-138 | From minHue -1.0 to maxHue 1.0 at factor 0.75, the mapped hue is 0.5, so the invalid endpoint is accepted and saturation 0 at brightness 1 gives white. |
| `Hsb.HueBetween` | ColorEx/Hsb.cs:137 | For a factor in [0.0; 1.0], the mapped hue is minHue at factor 0 and maxHue at factor 1. Between two hues in [0.0; 1.0] it is also in [0.0; 1.0]. |
| `HsbRoundTrip.SectorRowHue` | ColorEx/Hsb.cs:101-119 | Reading the hue back from the table row of sector k (0..5) at position f gives (k + f)/6. |
| `HsbRoundTrip.ToRgbChromaticRow` | ColorEx/Hsb.cs:22-67 | A valid chromatic color converts to the row of sector floor(hue·6) in 0..5. Its levels are written with delta = brightness·saturation, and (sector + fraction)/6 = hue. |
| `HsbRoundTrip.FromRgbOfSectorRow` | ColorEx/Hsb.cs:83-119 | Reading back such a row gives brightness, delta/brightness as saturation, and (sector + fraction)/6 as hue. |
| `HsbRoundTrip.FromRgbToRgb` | ColorEx/Hsb.cs:17-120 | For hue in [0.0; 1.0) and saturation and brightness in (0.0; 1.0], converting to RGB succeeds, and converting back gives exactly the same hue, saturation and brightness. |
| `HsbRoundTrip.FromRgbToRgbAchromatic` | ColorEx/Hsb.cs:17-120 | With saturation 0, the round trip gives hue 0, saturation 0 and the same brightness, whatever the hue was. |
| `HsbRoundTrip.FromRgbToRgbBlack` | ColorEx/Hsb.cs:17-120 | With brightness 0, the round trip gives hue 0 and saturation 0, whatever hue and saturation were given. |
| `HsbRoundTrip.RandomHueToRgbReadBack` | ColorEx/Hsb.cs:130-132 | For a drawn hue in [0.0; 1.0) and saturation and brightness in (0.0; 1.0], the generator succeeds, and converting its color back gives the drawn hue, the saturation and the brightness. |
| `HsbRoundTrip.ParametricHueToRgbReadBack` | ColorEx/Hsb.cs:134-138 | For a factor in [0.0; 1.0] whose mapped hue is in [0.0; 1.0), and saturation and brightness in (0.0; 1.0], the generator succeeds, and converting its color back gives the mapped hue, the saturation and the brightness. |

## Left out

- IEEE-754 doubles. Channels are exact reals, so rounding in the luma sum, in `hue * 6` and in the divisions is not modelled. The model also ignores that NaN passes every range guard, because it compares false with both bounds.
- The text of exception messages. An error carries only the kind of guard and the argument's name.
- `System.Random`. The drawn hue is an ordinary parameter of `Hsb.RandomHueToRgb`. `NextDouble` yields values in [0.0; 1.0), and that is the range its contract speaks about.
- `Rgb.ToUintNormalized`: it requires red, green and blue in [0.0; 1.0]. The code casts an unchecked channel·255 to a byte. C# leaves that cast unspecified once the truncated value falls outside 0..255, that is for a channel at or below -1/255 or at or above 256/255. The requires is wider than that region only by the two bands (-1/255; 0) and (1; 256/255), where the cast truncates to 0 and 255. The model leaves those bands out, so as to keep one channel range throughout. The guards themselves are modelled in full by `Rgb.ToUintNormalizedGuards`.
- `Rgb.ToUint`: the formula is stated in 32-bit arithmetic rather than over unbounded integers. The four terms occupy disjoint bytes, so the sum never wraps. The C# expression shifts `int` operands, and casting the result to `uint` keeps the same 32 bits.
- The WPF adapter `ColorEx.Wpf/ColorExtensions.cs`, which converts between these channels and `System.Windows.Media` colors and brushes.
- `Multiply`, `Average`, `Desaturate` and hue interpolation. The adapter calls some of them, but their definitions are not part of this model.
- The `out` parameters of the C# methods. They are modelled as returned records: `Argb`, `ArgbChannels`, `RgbColor` and `HsbColor`.

## Findings

| source | as written | input that shows it | evidently intended | confidence | as-written member | corrected member |
|---|---|---|---|---|---|---|
| ColorEx/Rgb.cs:73-76 | `(value >> 24 & 0xFF) / 0xFF` divides two integers, so each channel is 0 or 1 | 0x80808080 unpacks to (0.0, 0.0, 0.0, 0.0) | each byte divided by 255 as a fraction, so packing it again gives back the value | high, not executed | `Rgb.FromUintNormalized`, shown by `Rgb.FromUintNormalizedTruncates` | `Rgb.FromUintNormalizedExact`, proved by `Rgb.ToUintNormalizedCheckedRoundTrip` |
| ColorEx/Rgb.cs:101-104 | the four range guards all inspect `alpha`, under the names "Alpha", "Red", "Green", "Blue" | alpha 0.5, red 2.0, green -1.0, blue 7.0 passes every guard | each guard checks its own channel | high, not executed | `Rgb.ToUintNormalizedGuards` and `Rgb.ToUintNormalized`, shown by `Rgb.ToUintNormalizedGuardsIgnoreColorChannels` | `Rgb.ToUintNormalizedChecked`, whose contract names the first offending channel |
| ColorEx/Rgb.cs:42-45 | a non-bright source sets the normalized outputs to 0xFF, that is 255.0 | source (0.0, 0.0, 0.0) yields (255.0, 255.0, 255.0) | white as 1.0, inside the documented output range [0.0; 1.0] | medium, not executed | `Rgb.ToBlackIfBright`, shown by `Rgb.ToBlackIfBrightLeavesUnitRange` | `Rgb.ToBlackIfBrightNormalized`, whose contract keeps the output in [0.0; 1.0] |
