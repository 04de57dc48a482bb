/** Properties of the colour operations: the byte and hex mappings, the
    blending bounds, the ranges of the HSV components, the sector table,
    and the two conversion round trips. */
module ColorProofs {
  import opened MinMax
  import opened Color

  // ---------------------------------------------------------------------
  // Bytes and hex
  // ---------------------------------------------------------------------

  /** Bytes to colour and back gives the same bytes exactly. */
  lemma BytesRoundTrip(r: Byte, g: Byte, b: Byte)
    ensures RGBFromBytes(r, g, b).ToBytes() == (r, g, b)
  {
    var c := RGBFromBytes(r, g, b);
    assert 255.0 * c.r == r as real && 255.0 * c.g == g as real && 255.0 * c.b == b as real;
  }

  /** Quotient and remainder are determined by the division identity. */
  lemma DivModOf(n: int, d: int, q: int, m: int)
    requires 0 < d && 0 <= m < d && n == q * d + m
    ensures n / d == q && n % d == m
  {
    var q0, m0 := n / d, n % d;
    assert n == q0 * d + m0 && 0 <= m0 < d;
    assert (q - q0) * d == m0 - m;
    if q > q0 {
      AtLeastDivisor(q - q0, d);
    } else if q < q0 {
      AtLeastDivisor(q0 - q, d);
    }
  }

  lemma AtLeastDivisor(k: int, d: int)
    requires 1 <= k && 0 < d
    ensures d <= k * d
  {
    assert k * d == (k - 1) * d + d;
  }

  /** A packed 0xRRGGBB value unpacks to its three bytes. */
  lemma HexOfPacked(r: Byte, g: Byte, b: Byte)
    ensures RGBFromHex(PackHex(r, g, b)) == RGBFromBytes(r, g, b)
  {
    var x := PackHex(r, g, b);
    DivModOf(x, 0x1_0000, r, g * 0x100 + b);
    DivModOf(r, 0x100, 0, r);
    DivModOf(x, 0x100, r * 0x100 + g, b);
    DivModOf(r * 0x100 + g, 0x100, r, g);
  }

  /** Every hex value reads as the packing of the three bytes held in its
      low 24 bits; what lies above bit 23 plays no part. */
  lemma HexDecomposes(x: Uint32)
    ensures var low := x % 0x100_0000;
      var r, g, b := low / 0x1_0000, (low % 0x1_0000) / 0x100, low % 0x100;
      PackHex(r, g, b) == low && RGBFromHex(x) == RGBFromBytes(r, g, b)
  {
    var top, low := x / 0x100_0000, x % 0x100_0000;
    var r, rest := low / 0x1_0000, low % 0x1_0000;
    var g, b := rest / 0x100, rest % 0x100;
    DivModOf(x, 0x1_0000, top * 0x100 + r, rest);
    DivModOf(top * 0x100 + r, 0x100, top, r);
    DivModOf(x, 0x100, top * 0x1_0000 + r * 0x100 + g, b);
    DivModOf(top * 0x1_0000 + r * 0x100 + g, 0x100, top * 0x100 + r, g);
    assert PackHex(r, g, b) == low;
  }

  /** Two hex values that agree on bits 0-23 give the same colour. */
  lemma HexIgnoresHighBits(x: Uint32, y: Uint32)
    requires x % 0x100_0000 == y % 0x100_0000
    ensures RGBFromHex(x) == RGBFromHex(y)
  {
    HexDecomposes(x);
    HexDecomposes(y);
  }

  lemma HexOrangeBytes()
    ensures RGBFromHex(0xFF8000).ToBytes() == (255, 128, 0)
  {
    HexOfPacked(255, 128, 0);
    BytesRoundTrip(255, 128, 0);
  }

  // ---------------------------------------------------------------------
  // Blending
  // ---------------------------------------------------------------------

  lemma ScaledWithin(x: real, k: real)
    requires 0.0 <= x && 0.0 <= k <= 1.0
    ensures 0.0 <= x * k <= x
  {
  }

  /** Scaling a colour in range by a non-negative ratio keeps it in range
      and never brightens a channel. */
  lemma RGBTimesDarkens(c: RGB, ratio: real)
    requires c.InUnitRange() && 0.0 <= ratio
    ensures c.Times(ratio).InUnitRange()
    ensures c.Times(ratio).r <= c.r && c.Times(ratio).g <= c.g && c.Times(ratio).b <= c.b
  {
    var t := c.Times(ratio);
    ScaledChannel(c.r, ratio, t.r);
    ScaledChannel(c.g, ratio, t.g);
    ScaledChannel(c.b, ratio, t.b);
  }

  lemma ScaledChannel(x: real, ratio: real, y: real)
    requires 0.0 <= x && 0.0 <= ratio
    requires y == x * (if ratio > 1.0 then 1.0 else ratio)
    ensures 0.0 <= y <= x
  {
    if ratio <= 1.0 {
      ScaledWithin(x, ratio);
    }
  }

  /** Adding two colours in range stays in range. */
  lemma RGBPlusInRange(c: RGB, o: RGB)
    requires c.InUnitRange() && o.InUnitRange()
    ensures c.Plus(o).InUnitRange()
  {
  }

  lemma RGBPlusCommutes(c: RGB, o: RGB)
    ensures c.Plus(o) == o.Plus(c)
  {
  }

  lemma HSVPlusCommutes(c: HSV, o: HSV)
    ensures c.Plus(o) == o.Plus(c)
  {
  }

  /** Two hues in [0, 360] add to a hue in [0, 360]; the single
      subtraction of 360 is enough. */
  lemma HSVPlusHueRange(c: HSV, o: HSV)
    requires 0.0 <= c.h <= 360.0 && 0.0 <= o.h <= 360.0
    ensures 0.0 <= c.Plus(o).h <= 360.0
  {
  }

  /** Scaling an HSV colour with non-negative components by a
      non-negative ratio keeps every component between 0 and its old
      value; the hue is scaled as well, so it moves towards 0. */
  lemma HSVTimesShrinks(c: HSV, ratio: real)
    requires 0.0 <= c.h && 0.0 <= c.s && 0.0 <= c.v && 0.0 <= ratio
    ensures 0.0 <= c.Times(ratio).h <= c.h
    ensures 0.0 <= c.Times(ratio).s <= c.s
    ensures 0.0 <= c.Times(ratio).v <= c.v
  {
    var t := c.Times(ratio);
    ScaledChannel(c.h, ratio, t.h);
    ScaledChannel(c.s, ratio, t.s);
    ScaledChannel(c.v, ratio, t.v);
  }

  /** As written, `Plus` leaves a hue sum of exactly 360 unwrapped. Two
      half-turn cyans add to hue 360, which `ToRGB` puts in sector 6 and
      hence the default row: magenta, where hue 0 gives red. */
  lemma HSVPlusReachesFullTurn()
    ensures HSV(180.0, 0.5, 0.5).Plus(HSV(180.0, 0.5, 0.5)) == HSV(360.0, 1.0, 1.0)
    ensures HSV(360.0, 1.0, 1.0).ToRGB() == RGB(1.0, 0.0, 1.0)
    ensures HSV(0.0, 1.0, 1.0).ToRGB() == RGB(1.0, 0.0, 0.0)
  {
    ToRGBInSector(HSV(360.0, 1.0, 1.0), 6);
    ToRGBInSector(HSV(0.0, 1.0, 1.0), 0);
  }

  /** With the wrap at 360 inclusive, hues in [0, 360) stay in [0, 360),
      and the result differs from `Plus` only when the sum is exactly 360. */
  lemma PlusWrappedHueRange(c: HSV, o: HSV)
    requires 0.0 <= c.h < 360.0 && 0.0 <= o.h < 360.0
    ensures 0.0 <= c.PlusWrapped(o).h < 360.0
    ensures c.h + o.h != 360.0 ==> c.PlusWrapped(o) == c.Plus(o)
  {
  }

  /** The corrected sum of the two half-turn cyans is hue 0, which is red. */
  lemma PlusWrappedFullTurn()
    ensures HSV(180.0, 0.5, 0.5).PlusWrapped(HSV(180.0, 0.5, 0.5)) == HSV(0.0, 1.0, 1.0)
    ensures HSV(180.0, 0.5, 0.5).PlusWrapped(HSV(180.0, 0.5, 0.5)).ToRGB() == RGB(1.0, 0.0, 0.0)
  {
    ToRGBInSector(HSV(0.0, 1.0, 1.0), 0);
  }

  // ---------------------------------------------------------------------
  // RGB to HSV
  // ---------------------------------------------------------------------

  /** Facts about a quotient by a positive divisor. */
  lemma Quotient(n: real, d: real)
    requires 0.0 < d
    ensures d * (n / d) == n
    ensures 0.0 <= n ==> 0.0 <= n / d
    ensures n < 0.0 ==> n / d < 0.0
    ensures n < d ==> n / d < 1.0
    ensures n <= d ==> n / d <= 1.0
    ensures n == d ==> n / d == 1.0
    ensures -d < n ==> -1.0 < n / d
    ensures -d <= n ==> -1.0 <= n / d
  {
    QuotientBelowOne(n, d);
    QuotientAboveMinusOne(n, d);
  }

  lemma QuotientBelowOne(n: real, d: real)
    requires 0.0 < d
    ensures n < d ==> n / d < 1.0
  {
  }

  lemma QuotientAboveMinusOne(n: real, d: real)
    requires 0.0 < d
    ensures -d < n ==> -1.0 < n / d
  {
  }

  /** The largest and smallest channel bound the three channels and are
      each one of them. */
  lemma Extremes(c: RGB)
    ensures c.MinComponent() <= c.r <= c.MaxComponent()
    ensures c.MinComponent() <= c.g <= c.MaxComponent()
    ensures c.MinComponent() <= c.b <= c.MaxComponent()
    ensures c.MaxComponent() == c.r || c.MaxComponent() == c.g || c.MaxComponent() == c.b
    ensures c.MinComponent() == c.r || c.MinComponent() == c.g || c.MinComponent() == c.b
  {
    var fs := [c.r, c.g, c.b];
    assert fs[0] == c.r && fs[1] == c.g && fs[2] == c.b;
  }

  /** Black converts to the sentinel {-1, 0, 0}, and the sentinel converts
      back to black. */
  lemma BlackFixedPoint()
    ensures RGBFromBytes(0, 0, 0).ToHSV() == HSV(-1.0, 0.0, 0.0)
    ensures HSV(-1.0, 0.0, 0.0).ToRGB() == RGB(0.0, 0.0, 0.0)
  {
  }

  /** For non-negative channels the saturation of a chromatic colour lies
      in (0, 1], and its value is its largest channel. */
  lemma SaturationRange(c: RGB)
    requires 0.0 <= c.r && 0.0 <= c.g && 0.0 <= c.b && c.IsChromatic()
    ensures 0.0 < c.ToHSV().s <= 1.0
    ensures c.ToHSV().v == c.MaxComponent() > 0.0
  {
    var mx, mn := c.MaxComponent(), c.MinComponent();
    Quotient(mx - mn, mx);
  }

  /** The hue of a chromatic colour lies in [0, 360): in [0, 60] or
      [300, 360) when red dominates, in (60, 180] when green does and in
      (180, 300) when blue does, ties going to red, then green. */
  lemma HueRange(c: RGB)
    requires c.IsChromatic()
    ensures 0.0 <= c.ToHSV().h < 360.0
    ensures c.r == c.MaxComponent() ==>
      (0.0 <= c.ToHSV().h <= 60.0 || 300.0 <= c.ToHSV().h < 360.0)
    ensures c.r != c.MaxComponent() && c.g == c.MaxComponent() ==>
      60.0 < c.ToHSV().h <= 180.0
    ensures c.r != c.MaxComponent() && c.g != c.MaxComponent() ==>
      c.b == c.MaxComponent() && 180.0 < c.ToHSV().h < 300.0
  {
    var mx, mn := c.MaxComponent(), c.MinComponent();
    var delta := mx - mn;
    Extremes(c);
    assert 0.0 < delta;
    var h := c.ToHSV().h;
    if c.r == mx {
      var y := (c.g - c.b) / delta;
      Quotient(c.g - c.b, delta);
      assert -1.0 <= y <= 1.0;
      assert h == if y < 0.0 then 60.0 * y + 360.0 else 60.0 * y;
    } else if c.g == mx {
      var y := (c.b - c.r) / delta;
      Quotient(c.b - c.r, delta);
      assert -1.0 < y <= 1.0;
      assert h == 60.0 * (2.0 + y);
    } else {
      var y := (c.r - c.g) / delta;
      Quotient(c.r - c.g, delta);
      assert -1.0 < y < 1.0;
      assert h == 60.0 * (4.0 + y);
    }
  }

  // ---------------------------------------------------------------------
  // HSV to RGB
  // ---------------------------------------------------------------------

  lemma FloorIs(x: real, k: int)
    requires k as real <= x < k as real + 1.0
    ensures x.Floor == k
  {
  }

  /** A saturated hue falls into the sector row of floor(H/60), with the
      fraction f of H/60 past that sector. */
  lemma ToRGBInSector(c: HSV, k: int)
    requires c.s != 0.0 && k as real <= c.h / 60.0 < k as real + 1.0
    ensures var f := c.h / 60.0 - k as real;
      c.ToRGB() == SectorRow(k, c.v, c.v * (1.0 - c.s), c.v * (1.0 - c.s * f), c.v * (1.0 - c.s * (1.0 - f)))
  {
    FloorIs(c.h / 60.0, k);
  }

  /** A saturated hue below 0 or at 300 and beyond (including 360 and the
      sentinel -1) takes the default row (V, p, q). */
  lemma ToRGBDefaultRow(c: HSV)
    requires c.s != 0.0 && (c.h < 0.0 || 300.0 <= c.h)
    ensures var f := c.h / 60.0 - (c.h / 60.0).Floor as real;
      c.ToRGB() == RGB(c.v, c.v * (1.0 - c.s), c.v * (1.0 - c.s * f))
  {
    var i := (c.h / 60.0).Floor;
    assert i < 0 || 5 <= i;
    ToRGBInSector(c, i);
  }

  /** Hues 0, 120 and 240 at full saturation and value are the primaries. */
  lemma PrimaryHues()
    ensures HSV(0.0, 1.0, 1.0).ToRGB() == RGB(1.0, 0.0, 0.0)
    ensures HSV(120.0, 1.0, 1.0).ToRGB() == RGB(0.0, 1.0, 0.0)
    ensures HSV(240.0, 1.0, 1.0).ToRGB() == RGB(0.0, 0.0, 1.0)
  {
    ToRGBInSector(HSV(0.0, 1.0, 1.0), 0);
    ToRGBInSector(HSV(120.0, 1.0, 1.0), 2);
    ToRGBInSector(HSV(240.0, 1.0, 1.0), 4);
  }

  /** With S in (0, 1] and V non-negative, every channel of the result
      lies in [0, V], whatever the hue. */
  lemma ToRGBBounds(c: HSV)
    requires 0.0 < c.s <= 1.0 && 0.0 <= c.v
    ensures var o := c.ToRGB();
      0.0 <= o.r <= c.v && 0.0 <= o.g <= c.v && 0.0 <= o.b <= c.v
  {
    var x := c.h / 60.0;
    var i := x.Floor;
    var p, q, t := RowPartsAt(c, i, x - i as real);
    SectorRowWithin(i, c.v, p, q, t);
  }

  /** The sector row of a saturated colour in sector `i`, with its three
      derived values in [0, V]. */
  lemma RowPartsAt(c: HSV, i: int, f: real) returns (p: real, q: real, t: real)
    requires 0.0 < c.s <= 1.0 && 0.0 <= c.v
    requires i as real <= c.h / 60.0 < i as real + 1.0 && f == c.h / 60.0 - i as real
    ensures c.ToRGB() == SectorRow(i, c.v, p, q, t)
    ensures 0.0 <= p <= c.v && 0.0 <= q <= c.v && 0.0 <= t <= c.v
  {
    p, q, t := c.v * (1.0 - c.s), c.v * (1.0 - c.s * f), c.v * (1.0 - c.s * (1.0 - f));
    ToRGBInSector(c, i);
    RowPartsWithin(c.v, c.s, f, p, q, t);
  }

  lemma RowPartsWithin(v: real, s: real, f: real, p: real, q: real, t: real)
    requires 0.0 < s <= 1.0 && 0.0 <= v && 0.0 <= f <= 1.0
    requires p == v * (1.0 - s) && q == v * (1.0 - s * f) && t == v * (1.0 - s * (1.0 - f))
    ensures 0.0 <= p <= v && 0.0 <= q <= v && 0.0 <= t <= v
  {
    ScaledWithin(s, f);
    ScaledWithin(s, 1.0 - f);
    ScaledWithin(v, 1.0 - s);
    ScaledWithin(v, 1.0 - s * f);
    ScaledWithin(v, 1.0 - s * (1.0 - f));
  }

  lemma SectorRowWithin(i: int, v: real, p: real, q: real, t: real)
    requires 0.0 <= p <= v && 0.0 <= q <= v && 0.0 <= t <= v
    ensures var o := SectorRow(i, v, p, q, t);
      0.0 <= o.r <= v && 0.0 <= o.g <= v && 0.0 <= o.b <= v
  {
  }

  // ---------------------------------------------------------------------
  // Round trips
  // ---------------------------------------------------------------------

  /** The three derived values of a sector row for V = max and S = delta / max. */
  lemma RowParts(v: real, s: real, f: real, delta: real, df: real)
    requires v != 0.0 && s == delta / v && df == delta * f
    ensures v * (1.0 - s) == v - delta
    ensures v * (1.0 - s * f) == v - df
    ensures v * (1.0 - s * (1.0 - f)) == v - delta + df
  {
    assert v * s == delta;
    calc {
      v * (1.0 - s * f);
      v - (v * s) * f;
    }
    calc {
      v * (1.0 - s * (1.0 - f));
      v - (v * s) * (1.0 - f);
    }
  }

  /** The row that HSV to RGB picks for an HSV value with V = max and
      S = delta / max in sector `k`, where `df` is the spread times the
      fraction of the sector. */
  lemma RowOf(hsv: HSV, k: int, f: real, mx: real, delta: real, df: real)
    requires mx != 0.0 && delta != 0.0 && hsv.v == mx && hsv.s == delta / mx
    requires k as real <= hsv.h / 60.0 < k as real + 1.0 && f == hsv.h / 60.0 - k as real
    requires df == delta * f
    ensures hsv.ToRGB() == SectorRow(k, mx, mx - delta, mx - df, mx - delta + df)
  {
    ToRGBInSector(hsv, k);
    RowParts(mx, hsv.s, f, delta, df);
  }

  /** Where the hue of a chromatic colour falls, in sixths of a turn. */
  lemma HueSixths(c: RGB)
    requires c.IsChromatic()
    ensures var mx, delta := c.MaxComponent(), c.MaxComponent() - c.MinComponent();
      var x := c.ToHSV().h / 60.0;
      && (c.r == mx && c.g >= c.b ==> x == (c.g - c.b) / delta)
      && (c.r == mx && c.g < c.b ==> x == 6.0 + (c.g - c.b) / delta)
      && (c.r != mx && c.g == mx ==> x == 2.0 + (c.b - c.r) / delta)
      && (c.r != mx && c.g != mx ==> x == 4.0 + (c.r - c.g) / delta)
  {
    var mx, mn := c.MaxComponent(), c.MinComponent();
    Extremes(c);
    if c.r == mx {
      Quotient(c.g - c.b, mx - mn);
    } else if c.g == mx {
      Quotient(c.b - c.r, mx - mn);
    } else {
      Quotient(c.r - c.g, mx - mn);
    }
  }

  /** A chromatic colour survives RGB to HSV to RGB exactly. */
  lemma RGBRoundTrip(c: RGB)
    requires c.IsChromatic()
    ensures c.ToHSV().ToRGB() == c
  {
    var mx, mn := c.MaxComponent(), c.MinComponent();
    var hsv := c.ToHSV();
    Extremes(c);
    assert hsv.v == mx && hsv.s == (mx - mn) / mx;
    HueSixths(c);
    if c.r == mx {
      RedRoundTrip(c, hsv, mx, mn);
    } else if c.g == mx {
      GreenRoundTrip(c, hsv, mx, mn);
    } else {
      BlueRoundTrip(c, hsv, mx, mn);
    }
  }

  lemma RedRoundTrip(c: RGB, hsv: HSV, mx: real, mn: real)
    requires mx != 0.0 && mn < mx && hsv.v == mx && hsv.s == (mx - mn) / mx
    requires mn <= c.g <= mx && mn <= c.b <= mx && c.r == mx
    requires mn == c.g || mn == c.b
    requires c.g >= c.b ==> hsv.h / 60.0 == (c.g - c.b) / (mx - mn)
    requires c.g < c.b ==> hsv.h / 60.0 == 6.0 + (c.g - c.b) / (mx - mn)
    ensures hsv.ToRGB() == c
  {
    var delta := mx - mn;
    var y := (c.g - c.b) / delta;
    Quotient(c.g - c.b, delta);
    if c.g < c.b {
      FractionPlusOne(c.g - c.b, delta);
      RowOf(hsv, 5, y + 1.0, mx, delta, c.g - c.b + delta);
    } else if c.g == mx {
      RowOf(hsv, 1, 0.0, mx, delta, 0.0);
    } else {
      RowOf(hsv, 0, y, mx, delta, c.g - c.b);
    }
  }

  lemma GreenRoundTrip(c: RGB, hsv: HSV, mx: real, mn: real)
    requires mx != 0.0 && mn < mx && hsv.v == mx && hsv.s == (mx - mn) / mx
    requires mn <= c.r < mx && mn <= c.b <= mx && c.g == mx
    requires mn == c.r || mn == c.b
    requires hsv.h / 60.0 == 2.0 + (c.b - c.r) / (mx - mn)
    ensures hsv.ToRGB() == c
  {
    var delta := mx - mn;
    var y := (c.b - c.r) / delta;
    Quotient(c.b - c.r, delta);
    if c.b < c.r {
      FractionPlusOne(c.b - c.r, delta);
      RowOf(hsv, 1, y + 1.0, mx, delta, c.b - c.r + delta);
    } else if c.b == mx {
      RowOf(hsv, 3, 0.0, mx, delta, 0.0);
    } else {
      RowOf(hsv, 2, y, mx, delta, c.b - c.r);
    }
  }

  lemma BlueRoundTrip(c: RGB, hsv: HSV, mx: real, mn: real)
    requires mx != 0.0 && mn < mx && hsv.v == mx && hsv.s == (mx - mn) / mx
    requires mn <= c.r < mx && mn <= c.g < mx && c.b == mx
    requires mn == c.r || mn == c.g
    requires hsv.h / 60.0 == 4.0 + (c.r - c.g) / (mx - mn)
    ensures hsv.ToRGB() == c
  {
    var delta := mx - mn;
    var y := (c.r - c.g) / delta;
    Quotient(c.r - c.g, delta);
    if c.r < c.g {
      FractionPlusOne(c.r - c.g, delta);
      RowOf(hsv, 3, y + 1.0, mx, delta, c.r - c.g + delta);
    } else {
      RowOf(hsv, 4, y, mx, delta, c.r - c.g);
    }
  }

  lemma FractionPlusOne(n: real, d: real)
    requires 0.0 < d
    ensures d * (n / d + 1.0) == n + d
  {
    Quotient(n, d);
  }

  /** The HSV of a colour whose channels lie between `v - d` and `v`,
      reaching both, where `x` is its hue in sixths as read from the
      dominant channel. */
  lemma HSVOfRow(c: RGB, v: real, d: real, x: real)
    requires 0.0 < d && 0.0 < v
    requires v - d <= c.r <= v && v - d <= c.g <= v && v - d <= c.b <= v
    requires c.r == v || c.g == v || c.b == v
    requires c.r == v - d || c.g == v - d || c.b == v - d
    requires c.r == v ==> x == (c.g - c.b) / d
    requires c.r != v && c.g == v ==> x == 2.0 + (c.b - c.r) / d
    requires c.r != v && c.g != v ==> x == 4.0 + (c.r - c.g) / d
    ensures c.MaxComponent() == v && c.MinComponent() == v - d && c.IsChromatic()
    ensures c.ToHSV() == HSV(if x * 60.0 < 0.0 then x * 60.0 + 360.0 else x * 60.0, d / v, v)
  {
    Extremes(c);
  }

  /** The spread times a fraction of a sector lies in [0, d). */
  lemma FractionParts(d: real, f: real, df: real)
    requires 0.0 < d && 0.0 <= f < 1.0 && df == d * f
    ensures 0.0 <= df < d && (df == 0.0 <==> f == 0.0)
  {
    ScaledBelow(d, f, df);
    ZeroProduct(d, f, df);
  }

  lemma ScaledBelow(x: real, k: real, xk: real)
    requires 0.0 < x && 0.0 <= k < 1.0 && xk == x * k
    ensures 0.0 <= xk < x
  {
  }

  lemma ZeroProduct(x: real, k: real, xk: real)
    requires 0.0 < x && 0.0 <= k && xk == x * k
    ensures xk == 0.0 <==> k == 0.0
  {
    assert 0.0 < k ==> 0.0 < x * k;
  }

  lemma QuotientOfProduct(n: real, d: real, y: real)
    requires 0.0 < d && n == d * y
    ensures n / d == y
  {
  }

  /** An HSV value with hue in [0, 360), saturation in (0, 1] and positive
      value converts to a chromatic colour, and back to itself exactly. */
  lemma HSVRoundTrip(c: HSV)
    requires 0.0 <= c.h < 360.0 && 0.0 < c.s <= 1.0 && 0.0 < c.v
    ensures c.ToRGB().IsChromatic()
    ensures c.ToRGB().ToHSV() == c
  {
    var v := c.v;
    var x := c.h / 60.0;
    var k := x.Floor;
    var f := x - k as real;
    var d := v * c.s;
    var df := d * f;
    assert 0 <= k <= 5;
    ScaledWithin(v, c.s);
    assert 0.0 < d <= v;
    QuotientOfProduct(d, v, c.s);
    FractionParts(d, f, df);
    RowOf(c, k, f, v, d, df);
    SectorHSV(k, v, d, f, df);
    assert 60.0 * (k as real + f) == c.h;
  }

  /** The HSV of each sector row, for V = v, spread d and fraction f. */
  lemma SectorHSV(k: int, v: real, d: real, f: real, df: real)
    requires 0 <= k <= 5 && 0.0 < d <= v
    requires 0.0 <= f < 1.0 && df == d * f && 0.0 <= df < d && (df == 0.0 <==> f == 0.0)
    ensures SectorRow(k, v, v - d, v - df, v - d + df).IsChromatic()
    ensures SectorRow(k, v, v - d, v - df, v - d + df).ToHSV() == HSV(60.0 * (k as real + f), d / v, v)
  {
    var c := SectorRow(k, v, v - d, v - df, v - d + df);
    if k == 0 {
      assert c == RGB(v, v - d + df, v - d);
      QuotientOfProduct(c.g - c.b, d, f);
      HSVOfRow(c, v, d, f);
    } else if k == 1 {
      assert c == RGB(v - df, v, v - d);
      SectorOneHSV(c, v, d, f, df);
    } else if k == 2 {
      assert c == RGB(v - d, v, v - d + df);
      QuotientOfProduct(c.b - c.r, d, f);
      HSVOfRow(c, v, d, 2.0 + f);
    } else if k == 3 {
      assert c == RGB(v - d, v - df, v);
      SectorThreeHSV(c, v, d, f, df);
    } else if k == 4 {
      assert c == RGB(v - d + df, v - d, v);
      QuotientOfProduct(c.r - c.g, d, f);
      HSVOfRow(c, v, d, 4.0 + f);
    } else {
      assert c == RGB(v, v - d, v - df);
      QuotientOfProduct(c.g - c.b, d, f - 1.0);
      HSVOfRow(c, v, d, f - 1.0);
    }
  }

  /** Sector 1 starts on the red-green edge, where red still dominates. */
  lemma SectorOneHSV(c: RGB, v: real, d: real, f: real, df: real)
    requires 0.0 < d <= v && 0.0 <= f < 1.0 && df == d * f && 0.0 <= df < d && (df == 0.0 <==> f == 0.0)
    requires c == RGB(v - df, v, v - d)
    ensures c.IsChromatic() && c.ToHSV() == HSV(60.0 * (1.0 + f), d / v, v)
  {
    if f == 0.0 {
      QuotientOfProduct(c.g - c.b, d, 1.0);
      HSVOfRow(c, v, d, 1.0);
    } else {
      QuotientOfProduct(c.b - c.r, d, f - 1.0);
      HSVOfRow(c, v, d, 1.0 + f);
    }
  }

  /** Sector 3 starts on the green-blue edge, where green still dominates. */
  lemma SectorThreeHSV(c: RGB, v: real, d: real, f: real, df: real)
    requires 0.0 < d <= v && 0.0 <= f < 1.0 && df == d * f && 0.0 <= df < d && (df == 0.0 <==> f == 0.0)
    requires c == RGB(v - d, v - df, v)
    ensures c.IsChromatic() && c.ToHSV() == HSV(60.0 * (3.0 + f), d / v, v)
  {
    if f == 0.0 {
      QuotientOfProduct(c.b - c.r, d, 1.0);
      HSVOfRow(c, v, d, 3.0);
    } else {
      QuotientOfProduct(c.r - c.g, d, f - 1.0);
      HSVOfRow(c, v, d, 3.0 + f);
    }
  }
}
