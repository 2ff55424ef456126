/**
 Conversion between the RGB and HSB (hue, saturation, brightness) color
 models (ColorEx/Hsb.cs): the six-sector hexcone conversion to RGB, the
 max/min/delta conversion from RGB, and the two hue generators built on the
 former.

 All channel values are `real`; hue is a fraction of the full circle, so
 0.0 and 1.0 denote the same color.
 */
module Hsb {
  import opened Validation
  import opened Rgb

  /** Three normalized HSB values. */
  datatype HsbColor = HsbColor(hue: real, saturation: real, brightness: real)

  /** The largest of three values, chosen the way the conversion from RGB
      chooses it: red against green first, the winner against blue. */
  function Max3(a: real, b: real, c: real): (m: real)
    ensures m >= a && m >= b && m >= c
    ensures m == a || m == b || m == c
  {
    if a > b then (if a > c then a else c) else (if b > c then b else c)
  }

  /** The smallest of three values, chosen in the same order as `Max3`. */
  function Min3(a: real, b: real, c: real): (m: real)
    ensures m <= a && m <= b && m <= c
    ensures m == a || m == b || m == c
  {
    if a < b then (if a < c then a else c) else (if b < c then b else c)
  }

  /** The integer conversion of a double: truncation toward zero. */
  function Truncate(x: real): (n: int)
    ensures 0.0 <= x ==> 0 <= n && n as real <= x < n as real + 1.0
    ensures x < 0.0 ==> n <= 0 && n as real - 1.0 < x <= n as real
  {
    if x >= 0.0 then x.Floor else -((-x).Floor)
  }

  lemma MulNonnegative(a: real, b: real)
    requires 0.0 <= a && 0.0 <= b
    ensures 0.0 <= a * b
  {
  }

  lemma MulPositive(a: real, b: real)
    requires 0.0 < a && 0.0 < b
    ensures 0.0 < a * b
  {
  }

  lemma MulMonotone(a: real, x: real, y: real)
    requires 0.0 <= a && x <= y
    ensures a * x <= a * y
  {
    MulNonnegative(a, y - x);
    assert a * y - a * x == a * (y - x);
  }

  // ------------------------------------------------------------------------
  // HSB to RGB

  /** The hexcone table: the RGB color of a hue sector, given the sector's
      falling level q, rising level t, floor level p and the brightness.
      Sector 0 and every sector outside 1..5 share the default row. */
  function SectorRow(sector: int, p: real, q: real, t: real, brightness: real): (c: RgbColor)
    // Brightness moves from red to green to blue and back every two sectors.
    ensures sector in {1, 2} ==> c.green == brightness
    ensures sector in {3, 4} ==> c.blue == brightness
    ensures !(sector in {1, 2, 3, 4}) ==> c.red == brightness
    // The floor p trails two sectors behind.
    ensures sector in {2, 3} ==> c.red == p
    ensures sector in {4, 5} ==> c.green == p
    ensures !(sector in {2, 3, 4, 5}) ==> c.blue == p
  {
    match sector
    case 1 => RgbColor(q, brightness, p)
    case 2 => RgbColor(p, brightness, t)
    case 3 => RgbColor(p, q, brightness)
    case 4 => RgbColor(t, p, brightness)
    case 5 => RgbColor(brightness, p, q)
    case _ => RgbColor(brightness, t, p)
  }

  /** The color at position `fraction` of a hue sector: the table row with
      p = brightness * (1 - saturation), q = brightness * (1 - fraction * saturation)
      and t = brightness * (1 - (1 - fraction) * saturation). */
  function SectorColor(sector: int, fraction: real, saturation: real, brightness: real): RgbColor {
    SectorRow(sector,
      brightness * (1.0 - saturation),
      brightness * (1.0 - fraction * saturation),
      brightness * (1.0 - (1.0 - fraction) * saturation),
      brightness)
  }

  /** Each row is a permutation of brightness, p and the falling level q in
      the odd sectors or the rising level t in the others. */
  lemma SectorRowPermutes(sector: int, p: real, q: real, t: real, brightness: real)
    ensures var c := SectorRow(sector, p, q, t, brightness);
      multiset{c.red, c.green, c.blue} == multiset{brightness, p, if sector in {1, 3, 5} then q else t}
  {
  }

  /** Every row lists brightness, p and one of q, t, so when p is the lowest
      level and brightness the highest, they are the row's extremes. */
  lemma SectorRowBounds(sector: int, p: real, q: real, t: real, brightness: real)
    requires 0.0 <= p <= q <= brightness <= 1.0 && p <= t <= brightness
    ensures var c := SectorRow(sector, p, q, t, brightness);
      && InUnitInterval(c.red) && InUnitInterval(c.green) && InUnitInterval(c.blue)
      && Max3(c.red, c.green, c.blue) == brightness
      && Min3(c.red, c.green, c.blue) == p
  {
  }

  /** A brightness scaled by 1 minus a share in [0.0; 1.0] lies between 0 and
      the brightness; `level` names the product. */
  lemma ScaledLevel(brightness: real, share: real, level: real)
    requires 0.0 <= brightness && InUnitInterval(share)
    requires level == brightness * (1.0 - share)
    ensures 0.0 <= level <= brightness
  {
    MulMonotone(brightness, 0.0, 1.0 - share);
    MulMonotone(brightness, 1.0 - share, 1.0);
  }

  /** A larger share scales the brightness down further. */
  lemma ScaledLevelOrder(brightness: real, larger: real, smaller: real, low: real, high: real)
    requires 0.0 <= brightness && smaller <= larger
    requires low == brightness * (1.0 - larger) && high == brightness * (1.0 - smaller)
    ensures low <= high
  {
    MulMonotone(brightness, 1.0 - larger, 1.0 - smaller);
  }

  /** A fraction of the saturation is a share between 0 and the saturation. */
  lemma ShareOf(fraction: real, saturation: real, share: real)
    requires InUnitInterval(fraction) && InUnitInterval(saturation)
    requires share == fraction * saturation
    ensures 0.0 <= share <= saturation
  {
    MulNonnegative(fraction, saturation);
    MulMonotone(saturation, fraction, 1.0);
    assert saturation * fraction == fraction * saturation;
    assert saturation * 1.0 == saturation;
  }

  /** Within a sector the three table entries satisfy p <= q, t <= brightness. */
  lemma SectorEntriesOrdered(fraction: real, saturation: real, brightness: real, p: real, q: real, t: real)
    requires 0.0 <= fraction < 1.0
    requires InUnitInterval(saturation) && InUnitInterval(brightness)
    requires p == brightness * (1.0 - saturation)
    requires q == brightness * (1.0 - fraction * saturation)
    requires t == brightness * (1.0 - (1.0 - fraction) * saturation)
    ensures 0.0 <= p <= q <= brightness && p <= t <= brightness
  {
    ShareOf(fraction, saturation, fraction * saturation);
    ShareOf(1.0 - fraction, saturation, (1.0 - fraction) * saturation);
    ScaledLevel(brightness, saturation, p);
    ScaledLevel(brightness, fraction * saturation, q);
    ScaledLevel(brightness, (1.0 - fraction) * saturation, t);
    ScaledLevelOrder(brightness, saturation, fraction * saturation, p, q);
    ScaledLevelOrder(brightness, saturation, (1.0 - fraction) * saturation, p, t);
  }

  /** The largest channel of a sector color is brightness and the smallest is p. */
  lemma SectorColorBounds(sector: int, fraction: real, saturation: real, brightness: real)
    requires 0.0 <= fraction < 1.0
    requires InUnitInterval(saturation) && InUnitInterval(brightness)
    ensures var c := SectorColor(sector, fraction, saturation, brightness);
      && InUnitInterval(c.red) && InUnitInterval(c.green) && InUnitInterval(c.blue)
      && Max3(c.red, c.green, c.blue) == brightness
      && Min3(c.red, c.green, c.blue) == brightness * (1.0 - saturation)
  {
    var p := brightness * (1.0 - saturation);
    var q := brightness * (1.0 - fraction * saturation);
    var t := brightness * (1.0 - (1.0 - fraction) * saturation);
    SectorEntriesOrdered(fraction, saturation, brightness, p, q, t);
    SectorRowBounds(sector, p, q, t, brightness);
    assert SectorColor(sector, fraction, saturation, brightness) == SectorRow(sector, p, q, t, brightness);
  }

  /** Converts HSB to RGB. The three values are validated in the order hue,
      saturation, brightness; then hue * 6 is split into a sector number
      (its truncation) and a fraction, and the hexcone table gives the color. */
  function ToRgb(hue: real, saturation: real, brightness: real): (r: Result<RgbColor>)
    ensures r.Failure? <==>
      !(InUnitInterval(hue) && InUnitInterval(saturation) && InUnitInterval(brightness))
    ensures !InUnitInterval(hue) ==> r == Failure(OutOfRange("Hue"))
    ensures InUnitInterval(hue) && !InUnitInterval(saturation) ==>
      r == Failure(OutOfRange("Saturation"))
    ensures InUnitInterval(hue) && InUnitInterval(saturation) && !InUnitInterval(brightness) ==>
      r == Failure(OutOfRange("Brightness"))
    ensures r.Success? ==>
      InUnitInterval(r.value.red) && InUnitInterval(r.value.green) && InUnitInterval(r.value.blue)
    ensures r.Success? ==> Max3(r.value.red, r.value.green, r.value.blue) == brightness
    ensures r.Success? ==>
      Min3(r.value.red, r.value.green, r.value.blue) == brightness * (1.0 - saturation)
  {
    match AreInRange0_1(hue, "Hue", saturation, "Saturation", brightness, "Brightness")
    case Fail(e) => Failure(e)
    case Pass =>
      var sector := Truncate(hue * 6.0);
      var fraction := hue * 6.0 - sector as real;
      SectorColorBounds(sector, fraction, saturation, brightness);
      Success(SectorColor(sector, fraction, saturation, brightness))
  }

  /** For a valid hue the sector number is the floor of hue * 6, one of 0..6,
      and it is 6 only for hue 1.0. */
  lemma ToRgbSector(hue: real)
    requires InUnitInterval(hue)
    ensures Truncate(hue * 6.0) == (hue * 6.0).Floor
    ensures 0 <= Truncate(hue * 6.0) <= 6
    ensures Truncate(hue * 6.0) == 6 <==> hue == 1.0
  {
  }

  /** Hue 1.0 lands in the default row with fraction 0, the same color as hue 0.0. */
  lemma ToRgbHueWraps(saturation: real, brightness: real)
    ensures ToRgb(1.0, saturation, brightness) == ToRgb(0.0, saturation, brightness)
  {
  }

  /** Zero saturation gives the gray of the brightness, whatever the hue. */
  lemma ToRgbAchromatic(hue: real, brightness: real)
    requires InUnitInterval(hue) && InUnitInterval(brightness)
    ensures ToRgb(hue, 0.0, brightness) == Success(RgbColor(brightness, brightness, brightness))
  {
  }

  /** Hue 0 at full saturation and brightness is pure red. */
  lemma ToRgbPureRed()
    ensures ToRgb(0.0, 1.0, 1.0) == Success(RgbColor(1.0, 0.0, 0.0))
  {
  }

  // ------------------------------------------------------------------------
  // RGB to HSB

  /** The hue of a chromatic color as a fraction of the circle. The sector is
      chosen by which channel equals the maximum, red first, then green, then
      blue; the sector offset is divided by 6 and a negative result is
      wrapped by adding 1. When `max` and `delta` are the maximum and the
      spread of the channels, the hue lies in [0.0; 1.0). */
  function HueOf(red: real, green: real, blue: real, max: real, delta: real): (hue: real)
    requires delta != 0.0
    ensures max == Max3(red, green, blue) && delta == max - Min3(red, green, blue) ==>
      0.0 <= hue < 1.0
  {
    SectorToHue(
      if red == max then Ratio(green - blue, delta)
      else if green == max then 2.0 + Ratio(blue - red, delta)
      else if blue == max then 4.0 + Ratio(red - green, delta)
      else 0.0)
  }

  /** A position on the six-sector scale as a fraction of the circle:
      divided by 6, and moved up by one full turn when negative. */
  function SectorToHue(sectorHue: real): real {
    var hue := sectorHue * (1.0 / 6.0);
    if hue < 0.0 then hue + 1.0 else hue
  }

  /** A channel difference relative to the spread; a difference no larger
      than a positive spread gives a quotient in [-1.0; 1.0]. */
  function Ratio(x: real, delta: real): (q: real)
    requires delta != 0.0
    ensures 0.0 < delta && -delta <= x <= delta ==> -1.0 <= q <= 1.0
  {
    x / delta
  }

  lemma DivideExact(x: real, d: real, y: real)
    requires d != 0.0 && x == d * y
    ensures x / d == y
  {
  }

  /** When two channels tie for the maximum, the sector formula of the later
      channel in the precedence order gives the same hue as the one chosen,
      so the red-green-blue precedence never changes the result. */
  lemma HueOfTiesAgree(red: real, green: real, blue: real)
    requires Max3(red, green, blue) != Min3(red, green, blue)
    ensures var max := Max3(red, green, blue);
      var delta := max - Min3(red, green, blue);
      && (green == max ==> HueOf(red, green, blue, max, delta) == SectorToHue(2.0 + Ratio(blue - red, delta)))
      && (blue == max ==> HueOf(red, green, blue, max, delta) == SectorToHue(4.0 + Ratio(red - green, delta)))
  {
    var max := Max3(red, green, blue);
    var min := Min3(red, green, blue);
    var delta := max - min;
    assert delta > 0.0;
    if red == max && green == max {
      assert blue == min;
      DivideExact(green - blue, delta, 1.0);
      DivideExact(blue - red, delta, -1.0);
    }
    if red == max && blue == max {
      assert green == min;
      DivideExact(green - blue, delta, -1.0);
      DivideExact(red - green, delta, 1.0);
    }
    if red != max && green == max && blue == max {
      assert red == min;
      DivideExact(blue - red, delta, 1.0);
      DivideExact(red - green, delta, -1.0);
    }
  }

  /** The HSB values of an RGB triple: brightness is the largest channel,
      saturation the spread between largest and smallest relative to
      brightness, and hue is 0 for every gray. */
  function HsbOf(red: real, green: real, blue: real): (c: HsbColor)
    ensures c.brightness >= red && c.brightness >= green && c.brightness >= blue
    ensures c.brightness == red || c.brightness == green || c.brightness == blue
    ensures red == green == blue ==> c == HsbColor(0.0, 0.0, red)
  {
    var brightness := Max3(red, green, blue);
    var delta := brightness - Min3(red, green, blue);
    var saturation := Saturation(brightness, delta);
    if saturation == 0.0 then HsbColor(0.0, saturation, brightness)
    else HsbColor(HueOf(red, green, blue, brightness, delta), saturation, brightness)
  }

  /** The spread `delta` relative to the brightness; 0 for black. */
  function Saturation(brightness: real, delta: real): real {
    if brightness == 0.0 then 0.0 else delta / brightness
  }

  /** What the HSB values of a valid RGB triple satisfy. */
  ghost predicate DescribesRgb(c: HsbColor, red: real, green: real, blue: real) {
    && InUnitInterval(c.hue) && c.hue < 1.0
    && InUnitInterval(c.saturation) && InUnitInterval(c.brightness)
    && c.brightness >= red && c.brightness >= green && c.brightness >= blue
    && (c.brightness == red || c.brightness == green || c.brightness == blue)
    && c.brightness * (1.0 - c.saturation) == Min3(red, green, blue)
    && (c.saturation == 0.0 <==> red == green == blue)
    && (c.saturation == 0.0 ==> c.hue == 0.0)
  }

  /** For channels in [0.0; 1.0]: brightness is the largest channel, the
      saturation scales it down to the smallest one, saturation is 0 exactly
      for grays and then the hue is 0, and every value lies in [0.0; 1.0]
      with the hue strictly below 1.0. */
  lemma HsbOfDescribesRgb(red: real, green: real, blue: real)
    requires InUnitInterval(red) && InUnitInterval(green) && InUnitInterval(blue)
    ensures DescribesRgb(HsbOf(red, green, blue), red, green, blue)
  {
    HsbOfSaturation(red, green, blue);
    HsbOfHue(red, green, blue);
  }

  /** The saturation part of `DescribesRgb`. */
  lemma HsbOfSaturation(red: real, green: real, blue: real)
    requires InUnitInterval(red) && InUnitInterval(green) && InUnitInterval(blue)
    ensures var c := HsbOf(red, green, blue);
      && c.brightness == Max3(red, green, blue)
      && InUnitInterval(c.saturation)
      && c.brightness * (1.0 - c.saturation) == Min3(red, green, blue)
      && (c.saturation == 0.0 <==> red == green == blue)
  {
    var c := HsbOf(red, green, blue);
    assert c.brightness == Max3(red, green, blue);
    SaturationOf(c.brightness, c.brightness - Min3(red, green, blue), c.saturation);
  }

  /** The hue part of `DescribesRgb`. */
  lemma HsbOfHue(red: real, green: real, blue: real)
    requires InUnitInterval(red) && InUnitInterval(green) && InUnitInterval(blue)
    ensures var c := HsbOf(red, green, blue);
      && InUnitInterval(c.hue) && c.hue < 1.0
      && (c.saturation == 0.0 ==> c.hue == 0.0)
  {
    var max, min := Max3(red, green, blue), Min3(red, green, blue);
    SaturationOf(max, max - min, Saturation(max, max - min));
  }

  /** Converts RGB to HSB after validating the channels in the order red,
      green, blue. */
  function FromRgb(red: real, green: real, blue: real): (r: Result<HsbColor>)
    ensures r.Failure? <==>
      !(InUnitInterval(red) && InUnitInterval(green) && InUnitInterval(blue))
    ensures !InUnitInterval(red) ==> r == Failure(OutOfRange("Red"))
    ensures InUnitInterval(red) && !InUnitInterval(green) ==> r == Failure(OutOfRange("Green"))
    ensures InUnitInterval(red) && InUnitInterval(green) && !InUnitInterval(blue) ==>
      r == Failure(OutOfRange("Blue"))
    ensures r.Success? ==> DescribesRgb(r.value, red, green, blue)
  {
    match AreInRange0_1(red, "Red", green, "Green", blue, "Blue")
    case Fail(e) => Failure(e)
    case Pass =>
      HsbOfDescribesRgb(red, green, blue);
      Success(HsbOf(red, green, blue))
  }

  /** For a spread between 0 and a brightness in [0.0; 1.0], the saturation
      lies in [0.0; 1.0], scales the brightness back down by the spread, and
      is 0 exactly when there is no spread. */
  lemma SaturationOf(brightness: real, delta: real, saturation: real)
    requires 0.0 <= delta <= brightness <= 1.0
    requires saturation == Saturation(brightness, delta)
    ensures InUnitInterval(saturation)
    ensures brightness * (1.0 - saturation) == brightness - delta
    ensures saturation == 0.0 <==> delta == 0.0
  {
    if brightness != 0.0 {
      DivideExact(delta, brightness, saturation);
      assert brightness * saturation == delta;
      MulMonotone(brightness, saturation, 1.0);
      if saturation < 0.0 {
        MulMonotone(brightness, saturation, 0.0);
      }
    }
  }

  /** Mid gray and black report hue 0 and saturation 0. */
  lemma FromRgbGrayExamples()
    ensures FromRgb(0.5, 0.5, 0.5) == Success(HsbColor(0.0, 0.0, 0.5))
    ensures FromRgb(0.0, 0.0, 0.0) == Success(HsbColor(0.0, 0.0, 0.0))
  {
    FromRgbGray(0.5);
    FromRgbGray(0.0);
  }

  /** A gray in range has hue and saturation 0 and its level as brightness. */
  lemma FromRgbGray(level: real)
    requires InUnitInterval(level)
    ensures FromRgb(level, level, level) == Success(HsbColor(0.0, 0.0, level))
  {
    var r := FromRgb(level, level, level);
    assert r.Success? && DescribesRgb(r.value, level, level, level);
  }

  /** The first offending channel is reported even when later ones are also
      out of range. */
  lemma FromRgbFirstOffender()
    ensures FromRgb(1.5, 2.0, 0.0) == Failure(OutOfRange("Red"))
  {
  }

  /** A red maximum with blue above green gives the negative raw hue -1/12,
      which wraps to 11/12. */
  lemma FromRgbWrapExample()
    ensures FromRgb(1.0, 0.0, 0.5) == Success(HsbColor(11.0 / 12.0, 1.0, 1.0))
  {
    assert Max3(1.0, 0.0, 0.5) == 1.0 && Min3(1.0, 0.0, 0.5) == 0.0;
    assert HueOf(1.0, 0.0, 0.5, 1.0, 1.0) == 11.0 / 12.0;
  }

  // ------------------------------------------------------------------------
  // Hue generators

  /** Converts a color whose hue was drawn from a random source: `drawnHue`
      stands for the one uniform draw in [0.0; 1.0) the source yields. */
  function RandomHueToRgb(drawnHue: real, saturation: real, brightness: real): (r: Result<RgbColor>)
    ensures 0.0 <= drawnHue < 1.0 ==>
      (r.Failure? <==> !(InUnitInterval(saturation) && InUnitInterval(brightness)))
    // The conversion names the first offender, saturation before brightness.
    ensures 0.0 <= drawnHue < 1.0 && !InUnitInterval(saturation) ==>
      r == Failure(OutOfRange("Saturation"))
    ensures 0.0 <= drawnHue < 1.0 && InUnitInterval(saturation) && !InUnitInterval(brightness) ==>
      r == Failure(OutOfRange("Brightness"))
    ensures r.Success? ==>
      InUnitInterval(r.value.red) && InUnitInterval(r.value.green) && InUnitInterval(r.value.blue)
    ensures r.Success? ==>
      Max3(r.value.red, r.value.green, r.value.blue) == brightness
    ensures r.Success? ==>
      Min3(r.value.red, r.value.green, r.value.blue) == brightness * (1.0 - saturation)
  {
    ToRgb(drawnHue, saturation, brightness)
  }

  /** Converts a color whose hue is placed along [minHue; maxHue] by the
      factor `value`. The factor is validated under the name "Value"; the
      mapped hue is then validated by the conversion itself. */
  function ParametricHueToRgb(minHue: real, maxHue: real, value: real, saturation: real, brightness: real): (r: Result<RgbColor>)
    ensures !InUnitInterval(value) ==> r == Failure(OutOfRange("Value"))
    ensures value == 0.0 ==> r == ToRgb(minHue, saturation, brightness)
    ensures value == 1.0 ==> r == ToRgb(maxHue, saturation, brightness)
    // Between two valid hues the mapped hue is valid too, so only saturation
    // and brightness can still be rejected.
    ensures InUnitInterval(value) && InUnitInterval(minHue) && InUnitInterval(maxHue) ==>
      (r.Failure? <==> !(InUnitInterval(saturation) && InUnitInterval(brightness)))
    // A mapped hue outside [0.0; 1.0] is rejected by the conversion, under its own name.
    ensures InUnitInterval(value) && !InUnitInterval(minHue + value * (maxHue - minHue)) ==>
      r == Failure(OutOfRange("Hue"))
    // Only the mapped hue is checked, not the endpoints: once it is valid,
    // saturation and then brightness decide, under their own names.
    ensures InUnitInterval(value) && InUnitInterval(minHue + value * (maxHue - minHue)) ==>
      (r.Failure? <==> !(InUnitInterval(saturation) && InUnitInterval(brightness)))
    ensures InUnitInterval(value) && InUnitInterval(minHue + value * (maxHue - minHue)) ==>
      !InUnitInterval(saturation) ==> r == Failure(OutOfRange("Saturation"))
    ensures InUnitInterval(value) && InUnitInterval(minHue + value * (maxHue - minHue)) ==>
      InUnitInterval(saturation) && !InUnitInterval(brightness) ==> r == Failure(OutOfRange("Brightness"))
    ensures r.Success? ==>
      InUnitInterval(r.value.red) && InUnitInterval(r.value.green) && InUnitInterval(r.value.blue)
    ensures r.Success? ==> Max3(r.value.red, r.value.green, r.value.blue) == brightness
    ensures r.Success? ==>
      Min3(r.value.red, r.value.green, r.value.blue) == brightness * (1.0 - saturation)
  {
    match IsValueInRange0_1(value, "Value")
    case Fail(e) => Failure(e)
    case Pass =>
      HueBetween(minHue, maxHue, value);
      ToRgb(minHue + value * (maxHue - minHue), saturation, brightness)
  }

  /** An endpoint outside [0.0; 1.0] is accepted as long as the mapped hue is
      valid: from -1.0 to 1.0 at factor 0.75 the hue is 0.5, and a gray of
      full brightness results. */
  lemma ParametricHueToRgbIgnoresEndpoints()
    ensures ParametricHueToRgb(-1.0, 1.0, 0.75, 0.0, 1.0) == Success(RgbColor(1.0, 1.0, 1.0))
  {
  }

  /** The point at `value` of the segment from minHue to maxHue: the
      endpoints at 0 and 1, and a valid hue whenever both endpoints are. */
  lemma HueBetween(minHue: real, maxHue: real, value: real)
    requires InUnitInterval(value)
    ensures value == 0.0 ==> minHue + value * (maxHue - minHue) == minHue
    ensures value == 1.0 ==> minHue + value * (maxHue - minHue) == maxHue
    ensures InUnitInterval(minHue) && InUnitInterval(maxHue) ==>
      InUnitInterval(minHue + value * (maxHue - minHue))
  {
    StepBounds(value, maxHue - minHue, value * (maxHue - minHue));
  }

  /** A fraction `value` of a span, named `step`, lies between 0 and the
      span, and is the whole span at 1. */
  lemma StepBounds(value: real, span: real, step: real)
    requires InUnitInterval(value) && step == value * span
    ensures value == 0.0 ==> step == 0.0
    ensures value == 1.0 ==> step == span
    ensures span >= 0.0 ==> 0.0 <= step <= span
    ensures span < 0.0 ==> span <= step <= 0.0
  {
    if span >= 0.0 {
      MulMonotone(span, 0.0, value);
      MulMonotone(span, value, 1.0);
      assert span * value == step;
    } else {
      MulMonotone(-span, 0.0, value);
      MulMonotone(-span, value, 1.0);
      assert (-span) * value == -step;
    }
  }
}
