/** The colour values of the library: `RGB` and `HSV`, each three real
    components, with construction from bytes and packed hex, byte export,
    scaling (`Times`), clamped addition (`Plus`) and the two conversions.
    Floating point is modelled by exact real arithmetic. */
module Color {
  import opened MinMax

  /** An 8-bit unsigned value, the library's `byte`. */
  type Byte = x: int | 0 <= x < 0x100

  /** A 32-bit unsigned value, the library's `uint32`. */
  type Uint32 = x: int | 0 <= x < 0x1_0000_0000

  datatype RGB = RGB(r: real, g: real, b: real) {

    /** Every channel lies in [0, 1], the conventional range. */
    predicate InUnitRange() {
      0.0 <= r <= 1.0 && 0.0 <= g <= 1.0 && 0.0 <= b <= 1.0
    }

    function MaxComponent(): real {
      MaxOf([r, g, b])
    }

    function MinComponent(): real {
      MinOf([r, g, b])
    }

    /** The colour whose largest channel is 0: converted to the black sentinel. */
    predicate IsBlack() {
      MaxComponent() == 0.0
    }

    /** The colour has a defined hue: its largest channel is not 0 and
        differs from its smallest. */
    predicate IsChromatic() {
      MaxComponent() != 0.0 && MaxComponent() != MinComponent()
    }

    /** Byte export: each channel scaled by 255 and truncated, so each
        byte is the whole part of 255 times its channel and never rounds
        up. The conversion of an out-of-range value to a byte is left to
        the platform, so the channels must lie in [0, 1]. */
    function ToBytes(): (bytes: (Byte, Byte, Byte))
      requires InUnitRange()
      ensures bytes.0 as real <= 255.0 * r < bytes.0 as real + 1.0
      ensures bytes.1 as real <= 255.0 * g < bytes.1 as real + 1.0
      ensures bytes.2 as real <= 255.0 * b < bytes.2 as real + 1.0
    {
      ((255.0 * r).Floor as Byte, (255.0 * g).Floor as Byte, (255.0 * b).Floor as Byte)
    }

    /** Scales every channel by `ratio`, which is first capped at 1; a
        ratio below 0 is passed through. */
    function Times(ratio: real): (c: RGB)
      ensures ratio >= 1.0 ==> c == this
      ensures ratio <= 1.0 ==> c.r == r * ratio && c.g == g * ratio && c.b == b * ratio
    {
      var k := if ratio > 1.0 then 1.0 else ratio;
      RGB(r * k, g * k, b * k)
    }

    /** Channel-wise sum, each channel capped at 1 and not bounded below. */
    function Plus(o: RGB): (c: RGB)
      ensures c.r <= 1.0 && c.g <= 1.0 && c.b <= 1.0
      ensures c.r <= r + o.r && c.g <= g + o.g && c.b <= b + o.b
      ensures (r + o.r <= 1.0 ==> c.r == r + o.r) && (r + o.r >= 1.0 ==> c.r == 1.0)
      ensures (g + o.g <= 1.0 ==> c.g == g + o.g) && (g + o.g >= 1.0 ==> c.g == 1.0)
      ensures (b + o.b <= 1.0 ==> c.b == b + o.b) && (b + o.b >= 1.0 ==> c.b == 1.0)
    {
      RGB(MinOf([r + o.r, 1.0]), MinOf([g + o.g, 1.0]), MinOf([b + o.b, 1.0]))
    }

    /** RGB to HSV. A colour whose largest channel is 0 becomes the black
        sentinel {-1, 0, 0}. Otherwise V is the largest channel, S the
        spread over V, and the hue is taken from the dominant channel
        (ties go to red, then green) in degrees, shifted once into the
        non-negative range. A grey that is not black would divide 0 by 0
        and is excluded. */
    function ToHSV(): (hsv: HSV)
      requires IsBlack() || IsChromatic()
      ensures hsv.v == MaxComponent()
      ensures IsBlack() <==> hsv == HSV(-1.0, 0.0, 0.0)
      ensures IsChromatic() ==> hsv.s * MaxComponent() == MaxComponent() - MinComponent()
    {
      var mn := MinComponent();
      var mx := MaxComponent();
      var delta := mx - mn;
      if mx == 0.0 then
        HSV(-1.0, 0.0, mx)
      else
        var s := delta / mx;
        var sector :=
          if r == mx then (g - b) / delta
          else if g == mx then 2.0 + (b - r) / delta
          else 4.0 + (r - g) / delta;
        var degrees := sector * 60.0;
        var h := if degrees < 0.0 then degrees + 360.0 else degrees;
        HSV(h, s, mx)
    }
  }

  datatype HSV = HSV(h: real, s: real, v: real) {

    /** Scales hue, saturation and value alike by `ratio`, which is first
        capped at 1; the hue is not renormalised. */
    function Times(ratio: real): (c: HSV)
      ensures ratio >= 1.0 ==> c == this
      ensures ratio <= 1.0 ==> c.h == h * ratio && c.s == s * ratio && c.v == v * ratio
    {
      var k := if ratio > 1.0 then 1.0 else ratio;
      HSV(h * k, s * k, v * k)
    }

    /** Adds hues, taking 360 off once when the sum exceeds 360, and adds
        saturations and values, each capped at 1. */
    function Plus(o: HSV): (c: HSV)
      ensures h + o.h <= 360.0 ==> c.h == h + o.h
      ensures h + o.h > 360.0 ==> c.h == h + o.h - 360.0
      ensures c.s <= 1.0 && c.v <= 1.0
      ensures (s + o.s <= 1.0 ==> c.s == s + o.s) && (s + o.s >= 1.0 ==> c.s == 1.0)
      ensures (v + o.v <= 1.0 ==> c.v == v + o.v) && (v + o.v >= 1.0 ==> c.v == 1.0)
    {
      var sum := h + o.h;
      var hue := if sum > 360.0 then sum - 360.0 else sum;
      HSV(hue, MinOf([s + o.s, 1.0]), MinOf([v + o.v, 1.0]))
    }

    /** `Plus` with the hue wrapped whenever the sum reaches a full turn,
        so that two hues in [0, 360) add to a hue in [0, 360), the range
        `ToHSV` produces. */
    function PlusWrapped(o: HSV): (c: HSV)
      ensures h + o.h < 360.0 ==> c.h == h + o.h
      ensures h + o.h >= 360.0 ==> c.h == h + o.h - 360.0
      ensures c.s == Plus(o).s && c.v == Plus(o).v
    {
      var sum := h + o.h;
      var hue := if sum >= 360.0 then sum - 360.0 else sum;
      HSV(hue, MinOf([s + o.s, 1.0]), MinOf([v + o.v, 1.0]))
    }

    /** HSV to RGB. Zero saturation gives the grey {V, V, V} whatever the
        hue. Otherwise the hue in sixths of a turn is split into the sector
        floor(H/60) and its fraction, and the sector table picks the row. */
    function ToRGB(): (c: RGB)
      ensures s == 0.0 ==> c == RGB(v, v, v)
    {
      if s == 0.0 then
        RGB(v, v, v)
      else
        var sixths := h / 60.0;
        var i := sixths.Floor;
        var f := sixths - i as real;
        SectorRow(i, v, v * (1.0 - s), v * (1.0 - s * f), v * (1.0 - s * (1.0 - f)))
    }
  }

  /** The six-way switch of HSV to RGB: sectors 0 to 4 have their own row,
      every other index (5 and anything unexpected) the row (V, p, q). */
  function SectorRow(i: int, v: real, p: real, q: real, t: real): (c: RGB)
    ensures (i < 0 || 4 < i) ==> c == RGB(v, p, q)
  {
    match i
    case 0 => RGB(v, t, p)
    case 1 => RGB(q, v, p)
    case 2 => RGB(p, v, t)
    case 3 => RGB(p, q, v)
    case 4 => RGB(t, p, v)
    case _ => RGB(v, p, q)
  }

  /** Each byte divided by 255. */
  function RGBFromBytes(r: Byte, g: Byte, b: Byte): (c: RGB)
    ensures c.InUnitRange()
    ensures 255.0 * c.r == r as real && 255.0 * c.g == g as real && 255.0 * c.b == b as real
  {
    RGB(r as real / 255.0, g as real / 255.0, b as real / 255.0)
  }

  /** Unpacks 0xRRGGBB: red from bits 16-23, green from bits 8-15, blue
      from bits 0-7; the bits above 23 are masked off. On an unsigned value
      a right shift by k is a division by 2^k and a mask with 0xFF the
      remainder modulo 256. */
  function RGBFromHex(x: Uint32): (c: RGB)
    ensures c.InUnitRange()
  {
    RGBFromBytes((x / 0x1_0000) % 0x100, (x / 0x100) % 0x100, x % 0x100)
  }

  /** The 0xRRGGBB packing of three bytes, the inverse of `RGBFromHex`. */
  function PackHex(r: Byte, g: Byte, b: Byte): (x: Uint32)
    ensures x < 0x100_0000
  {
    r * 0x1_0000 + g * 0x100 + b
  }
}
