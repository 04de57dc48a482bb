# Colour values: RGB and HSV

This project models the colour module of the program in `color.go`. The
module has two value types, `RGB` (red, green, blue) and `HSV` (hue in
degrees, saturation, value). It also provides construction from three
bytes or from a packed `0xRRGGBB` word, export back to bytes, scaling by a
ratio capped at 1 (`Times`), channel-wise addition capped at 1 (`Plus`),
the two conversions `RGB.ToHSV` and `HSV.ToRGB`, and the variadic `Min`
and `Max` helpers those operations use.

Layout:

- `minmax.dfy`, module `MinMax`. `MinOf` and `MaxOf` are the recursive
  specification of the helpers. The methods `Min` and `Max` are the
  library's running-accumulator loops, proved to compute them.
- `color.dfy`, module `Color`. Holds the `Byte` and `Uint32` types and the
  `RGB` and `HSV` datatypes with their operations. Also holds the sector
  table `SectorRow`, `RGBFromBytes`, `RGBFromHex`, and `PackHex`, the
  0xRRGGBB packing that the hex lemmas use as the inverse of `RGBFromHex`.
- `color_proofs.dfy`, module `ColorProofs`. Lemmas about the model:
  - byte and hex round trips;
  - blending bounds;
  - the ranges of H, S and V;
  - the sector table;
  - the two exact conversion round trips.

Modelling choices:

- `float64` is modelled by `real`, and `math.Floor` by `.Floor`. Every
  property is therefore proved for exact arithmetic.
- `byte` and `uint32` are integer subset types.
- A right shift of the unsigned hex word by k is a division by 2^k. A mask
  with `0xFF` is the remainder modulo 256.
- Byte export `byte(255 * c)` truncates a non-negative value. It is
  modelled by `Floor` on channels in [0, 1].

## Model

| member | source | states |
|---|---|---|
| MinMax.MinOf | color.go:121-132 | An empty sequence gives 0. Otherwise the result is an element of the sequence and is at most every element. |
| MinMax.MaxOf | color.go:134-145 | An empty sequence gives 0. Otherwise the result is an element of the sequence and is at least every element. |
| MinMax.Min | color.go:121-132 | The loop computes `MinOf`: 0 on no arguments, otherwise an element that is at most every element. |
| MinMax.Max | color.go:134-145 | The loop computes `MaxOf`: 0 on no arguments, otherwise an element that is at least every element. |
| Color.RGBFromBytes | color.go:11-13 | Every channel lies in [0, 1], and 255 times each channel is exactly its byte. |
| Color.RGBFromHex | color.go:15-20 | Every channel of the unpacked colour lies in [0, 1]. |
| Color.PackHex | color.go:15-20 | Packing three bytes as 0xRRGGBB gives a value below 2^24, so the bits above 23 are clear. |
| Color.RGB.ToBytes | color.go:22-24 | For channels in [0, 1], each exported byte is the whole part of 255 times its channel: at most that value and more than that value minus 1. |
| Color.RGB.Times | color.go:26-31 | A ratio of 1 or more leaves the colour unchanged. A ratio of 1 or less, negative ones included, multiplies every channel by the ratio. |
| Color.RGB.Plus | color.go:33-35 | Each channel is the sum when the sum is at most 1, and 1 when it is at least 1; there is no lower clamp. |
| Color.RGB.ToHSV | color.go:37-67 | V is the largest channel. A colour is black exactly when the result is the sentinel {-1, 0, 0}. For a chromatic colour, S times V is the spread max - min. |
| Color.HSV.Times | color.go:73-78 | A ratio of 1 or more leaves the colour unchanged. A ratio of 1 or less multiplies H, S and V alike by the ratio. |
| Color.HSV.Plus | color.go:80-86 | The hue is the sum when the sum is at most 360, and the sum minus 360 when it exceeds 360. S and V are each the sum capped at 1. |
| Color.HSV.PlusWrapped | color.go:80-86 | Corrected `Plus`: the hue is the sum below 360 and the sum minus 360 from 360 on. S and V are those of `Plus`. |
| Color.HSV.ToRGB | color.go:88-119 | Zero saturation gives the grey {V, V, V} whatever the hue. |
| Color.SectorRow | color.go:104-117 | Unfolding helper: its contract states only the default arm, that every index outside 0..4 (5, 6, negative or larger) takes the row (V, p, q). What the table does for a hue is stated by `ToRGBDefaultRow`, `ToRGBBounds`, `PrimaryHues` and `HSVRoundTrip`. |
| ColorProofs.BytesRoundTrip | color.go:11-24 | `RGBFromBytes(r, g, b).ToBytes() == (r, g, b)` for every three bytes. |
| ColorProofs.HexOfPacked | color.go:15-20 | Unpacking 0xRRGGBB gives red from bits 16-23, green from bits 8-15 and blue from bits 0-7. |
| ColorProofs.HexDecomposes | color.go:15-20 | Every 32-bit word unpacks to the bytes of its low 24 bits, and those bytes pack back to the low 24 bits. |
| ColorProofs.HexIgnoresHighBits | color.go:15-20 | Two words that agree on their low 24 bits give the same colour. |
| ColorProofs.HexOrangeBytes | color.go:15-24 | `RGBFromHex(0xFF8000).ToBytes() == (255, 128, 0)`. |
| ColorProofs.RGBTimesDarkens | color.go:26-31 | For a colour in [0, 1] and a non-negative ratio, the scaled colour is in [0, 1] and no channel gets brighter. |
| ColorProofs.RGBPlusInRange | color.go:33-35 | The sum of two colours in [0, 1] is in [0, 1]. |
| ColorProofs.RGBPlusCommutes | color.go:33-35 | `c.Plus(o) == o.Plus(c)`. |
| ColorProofs.HSVTimesShrinks | color.go:73-78 | For non-negative components and ratio, each of H, S and V stays between 0 and its old value. |
| ColorProofs.HSVPlusCommutes | color.go:80-86 | `c.Plus(o) == o.Plus(c)`. |
| ColorProofs.HSVPlusHueRange | color.go:80-86 | Two hues in [0, 360] add to a hue in [0, 360]; one subtraction of 360 is enough. |
| ColorProofs.HSVPlusReachesFullTurn | color.go:80-86 | As written, two hues of 180 add to hue 360, which converts to magenta (1, 0, 1) while hue 0 gives red. |
| ColorProofs.PlusWrappedHueRange | color.go:80-86 | With the corrected wrap, hues in [0, 360) add to a hue in [0, 360). The result agrees with `Plus` unless the sum is exactly 360. |
| ColorProofs.PlusWrappedFullTurn | color.go:80-86 | With the corrected wrap, the two hues of 180 add to hue 0, which converts to red. |
| ColorProofs.Extremes | color.go:41-43 | Every channel lies between the smallest and the largest channel, and both of those are channels. |
| ColorProofs.BlackFixedPoint | color.go:45-53 | Black from bytes converts to {-1, 0, 0}, and that converts back to black. |
| ColorProofs.SaturationRange | color.go:45-47 | For a chromatic colour with non-negative channels, S lies in (0, 1] and V is the largest channel, which is positive. |
| ColorProofs.HueRange | color.go:55-66 | A chromatic hue lies in [0, 360). Red dominant (ties included) gives [0, 60] or [300, 360). Green dominant over red gives (60, 180]. Otherwise blue dominates and the hue lies in (180, 300). |
| ColorProofs.ToRGBInSector | color.go:97-117 | Unfolding helper: for any integer k with k <= H/60 < k + 1, the result is the row of sector k with fraction H/60 - k, i.e. the body with k in place of the floor. The sector content is stated by `ToRGBDefaultRow`, `ToRGBBounds`, `PrimaryHues` and `HSVRoundTrip`. |
| ColorProofs.ToRGBDefaultRow | color.go:115-116 | A negative hue or a hue of 300 or more takes the row (V, p, q). |
| ColorProofs.PrimaryHues | color.go:104-114 | Hues 0, 120 and 240 at S = V = 1 give pure red, green and blue. |
| ColorProofs.ToRGBBounds | color.go:97-117 | With S in (0, 1] and V non-negative, every channel lies in [0, V] for any hue, not only [0, 360). |
| ColorProofs.RGBRoundTrip | color.go:37-119 | Every chromatic colour converts to HSV and back to exactly itself. |
| ColorProofs.HSVRoundTrip | color.go:37-119 | Every HSV colour with H in [0, 360), S in (0, 1] and V > 0 converts to a chromatic RGB colour and back to exactly itself. |

## Left out

- Floating point: rounding, NaN, infinities and negative zero are not modelled. The round trips hold exactly over reals, not within a floating-point tolerance.
- MinMax.Min: the loop starts from the first element rather than from the `math.MaxFloat64` sentinel. The result is the same whenever the elements are finite float64 values, since none of them exceeds `MaxFloat64`.
- MinMax.Max: the loop likewise starts from the first element rather than from the `-math.MaxFloat64` sentinel, with the same result on finite values.
- Color.RGB.ToHSV: a grey that is not black (largest channel equal to the smallest but not 0) divides 0 by 0 and gives NaN hues. The model excludes it by its precondition.
- Color.RGB.ToBytes: converting a value outside [0, 256) from float to byte is implementation-defined, so export is modelled only for channels in [0, 1].
- Color.HSV.ToRGB: its own contract covers only the grey case. The sector behaviour is stated by `ToRGBInSector`, `ToRGBDefaultRow`, `ToRGBBounds`, `PrimaryHues` and `HSVRoundTrip`.
- persist_polymorphic_objects.go is not part of this model. It is JSON marshalling, reflection and printing through library calls, with no colour logic.

## Findings

| source | as written | input that shows it | evidently intended | confidence | as-written member | corrected member |
|---|---|---|---|---|---|---|
| color.go:82 | `HSV.Plus` wraps the hue only when the sum is greater than 360, so a sum of exactly 360 stays 360. `ToRGB` then takes sector 6, the default row. | `HSV{180, 0.5, 0.5}.Plus(HSV{180, 0.5, 0.5})` gives `HSV{360, 1, 1}`, which converts to (1, 0, 1), magenta. `HSV{0, 1, 1}` converts to (1, 0, 0), red. | Wrap when the sum is 360 or more, so hues in [0, 360) stay in [0, 360), the range `ToHSV` produces. | medium, not executed | ColorProofs.HSVPlusReachesFullTurn | Color.HSV.PlusWrapped |
