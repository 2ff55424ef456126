/**
 The round trip between the two color models (ColorEx/Hsb.cs): a chromatic
 HSB color converted to RGB and back is reproduced exactly over the reals,
 and an achromatic one comes back as a gray with hue 0.
 */
module HsbRoundTrip {
  import opened Validation
  import opened Rgb
  import opened Hsb

  /** Sector 0: red is the largest channel and green rises from the floor. */
  lemma HueOfRisingGreen(fraction: real, delta: real, brightness: real)
    requires 0.0 <= fraction < 1.0 && 0.0 < delta <= brightness
    ensures HueOf(brightness, brightness - delta + delta * fraction, brightness - delta, brightness, delta)
         == fraction / 6.0
  {
    DivideExact((brightness - delta + delta * fraction) - (brightness - delta), delta, fraction);
  }

  /** Sector 1: green is the largest channel and red falls from the top. */
  lemma HueOfFallingRed(fraction: real, delta: real, brightness: real)
    requires 0.0 <= fraction < 1.0 && 0.0 < delta <= brightness
    ensures HueOf(brightness - delta * fraction, brightness, brightness - delta, brightness, delta)
         == (1.0 + fraction) / 6.0
  {
    if fraction == 0.0 {
      DivideExact(brightness - (brightness - delta), delta, 1.0);
    } else {
      assert brightness - delta * fraction != brightness;
      DivideExact((brightness - delta) - (brightness - delta * fraction), delta, fraction - 1.0);
    }
  }

  /** Sector 2: green is the largest channel and blue rises from the floor. */
  lemma HueOfRisingBlue(fraction: real, delta: real, brightness: real)
    requires 0.0 <= fraction < 1.0 && 0.0 < delta <= brightness
    ensures HueOf(brightness - delta, brightness, brightness - delta + delta * fraction, brightness, delta)
         == (2.0 + fraction) / 6.0
  {
    DivideExact((brightness - delta + delta * fraction) - (brightness - delta), delta, fraction);
  }

  /** Sector 3: blue is the largest channel and green falls from the top. */
  lemma HueOfFallingGreen(fraction: real, delta: real, brightness: real)
    requires 0.0 <= fraction < 1.0 && 0.0 < delta <= brightness
    ensures HueOf(brightness - delta, brightness - delta * fraction, brightness, brightness, delta)
         == (3.0 + fraction) / 6.0
  {
    if fraction == 0.0 {
      DivideExact(brightness - (brightness - delta), delta, 1.0);
    } else {
      assert brightness - delta * fraction != brightness;
      DivideExact((brightness - delta) - (brightness - delta * fraction), delta, fraction - 1.0);
    }
  }

  /** Sector 4: blue is the largest channel and red rises from the floor. */
  lemma HueOfRisingRed(fraction: real, delta: real, brightness: real)
    requires 0.0 <= fraction < 1.0 && 0.0 < delta <= brightness
    ensures HueOf(brightness - delta + delta * fraction, brightness - delta, brightness, brightness, delta)
         == (4.0 + fraction) / 6.0
  {
    assert delta * fraction < delta;
    DivideExact((brightness - delta + delta * fraction) - (brightness - delta), delta, fraction);
  }

  /** Sector 5: red is the largest channel and blue falls from the top; the
      negative raw hue wraps around. */
  lemma HueOfFallingBlue(fraction: real, delta: real, brightness: real)
    requires 0.0 <= fraction < 1.0 && 0.0 < delta <= brightness
    ensures HueOf(brightness, brightness - delta, brightness - delta * fraction, brightness, delta)
         == (5.0 + fraction) / 6.0
  {
    DivideExact((brightness - delta) - (brightness - delta * fraction), delta, fraction - 1.0);
  }

  /** The hue read back from the table row of sector `sector` at position
      `fraction`, for a color whose spread between largest and smallest
      channel is `delta`, is (sector + fraction) / 6. */
  lemma SectorRowHue(sector: int, fraction: real, delta: real, brightness: real)
    requires 0 <= sector <= 5 && 0.0 <= fraction < 1.0
    requires 0.0 < delta <= brightness
    ensures var c := SectorRow(sector, brightness - delta, brightness - delta * fraction,
                               brightness - delta + delta * fraction, brightness);
      HueOf(c.red, c.green, c.blue, brightness, delta) == (sector as real + fraction) / 6.0
  {
    var p, q, t := brightness - delta, brightness - delta * fraction, brightness - delta + delta * fraction;
    match sector
    case 0 => HueOfRisingGreen(fraction, delta, brightness);
    case 1 => HueOfFallingRed(fraction, delta, brightness);
    case 2 => HueOfRisingBlue(fraction, delta, brightness);
    case 3 => HueOfFallingGreen(fraction, delta, brightness);
    case 4 => HueOfRisingRed(fraction, delta, brightness);
    case 5 => HueOfFallingBlue(fraction, delta, brightness);
  }

  /** The table levels of a sector, written with delta = brightness * saturation. */
  lemma SectorLevels(fraction: real, saturation: real, brightness: real, delta: real)
    requires delta == brightness * saturation
    ensures brightness * (1.0 - saturation) == brightness - delta
    ensures brightness * (1.0 - fraction * saturation) == brightness - delta * fraction
    ensures brightness * (1.0 - (1.0 - fraction) * saturation) == brightness - delta + delta * fraction
  {
  }

  /** A valid chromatic HSB color converts to the table row of sector
      floor(hue * 6), one of 0..5, with the levels written through
      delta = brightness * saturation. */
  lemma ToRgbChromaticRow(hue: real, saturation: real, brightness: real, sector: int, fraction: real, delta: real)
    requires 0.0 <= hue < 1.0 && 0.0 < saturation <= 1.0 && 0.0 < brightness <= 1.0
    requires sector == Truncate(hue * 6.0) && fraction == hue * 6.0 - sector as real
    requires delta == brightness * saturation
    ensures 0 <= sector <= 5 && 0.0 <= fraction < 1.0
    ensures (sector as real + fraction) / 6.0 == hue
    ensures 0.0 < delta <= brightness
    ensures ToRgb(hue, saturation, brightness) ==
      Success(SectorRow(sector, brightness - delta, brightness - delta * fraction,
                        brightness - delta + delta * fraction, brightness))
  {
    assert 0.0 <= hue * 6.0 < 6.0;
    assert 0 <= sector <= 5;
    MulMonotone(brightness, saturation, 1.0);
    assert brightness * 1.0 == brightness;
    MulPositive(brightness, saturation);
    SectorLevels(fraction, saturation, brightness, delta);
    ToRgbValid(hue, saturation, brightness);
    var p := brightness * (1.0 - saturation);
    var q := brightness * (1.0 - fraction * saturation);
    var t := brightness * (1.0 - (1.0 - fraction) * saturation);
    assert SectorColor(sector, fraction, saturation, brightness) == SectorRow(sector, p, q, t, brightness);
    assert p == brightness - delta && q == brightness - delta * fraction;
    assert t == brightness - delta + delta * fraction;
  }

  /** On valid arguments the conversion is the sector color at floor(hue * 6). */
  lemma ToRgbValid(hue: real, saturation: real, brightness: real)
    requires InUnitInterval(hue) && InUnitInterval(saturation) && InUnitInterval(brightness)
    ensures var sector := Truncate(hue * 6.0);
      ToRgb(hue, saturation, brightness) ==
        Success(SectorColor(sector, hue * 6.0 - sector as real, saturation, brightness))
  {
  }

  /** Reading back a table row of sectors 0..5 gives brightness, the spread
      relative to brightness as saturation, and (sector + fraction) / 6 as hue. */
  lemma FromRgbOfSectorRow(sector: int, fraction: real, delta: real, brightness: real)
    requires 0 <= sector <= 5 && 0.0 <= fraction < 1.0
    requires 0.0 < delta <= brightness <= 1.0
    ensures var c := SectorRow(sector, brightness - delta, brightness - delta * fraction,
                               brightness - delta + delta * fraction, brightness);
      FromRgb(c.red, c.green, c.blue) ==
        Success(HsbColor((sector as real + fraction) / 6.0, delta / brightness, brightness))
  {
    var p, q, t := brightness - delta, brightness - delta * fraction, brightness - delta + delta * fraction;
    assert 0.0 <= delta * fraction < delta by {
      MulNonnegative(delta, fraction);
      MulMonotone(delta, fraction, 1.0);
    }
    SectorRowBounds(sector, p, q, t, brightness);
    var c := SectorRow(sector, p, q, t, brightness);
    assert brightness - p == delta;
    assert Saturation(brightness, delta) == delta / brightness != 0.0;
    assert HsbOf(c.red, c.green, c.blue)
        == HsbColor(HueOf(c.red, c.green, c.blue, brightness, delta), delta / brightness, brightness);
    SectorRowHue(sector, fraction, delta, brightness);
  }

  /** Converting a chromatic HSB color to RGB and back gives the same hue,
      saturation and brightness, for every hue in [0.0; 1.0). */
  lemma FromRgbToRgb(hue: real, saturation: real, brightness: real)
    requires 0.0 <= hue < 1.0 && 0.0 < saturation <= 1.0 && 0.0 < brightness <= 1.0
    ensures ToRgb(hue, saturation, brightness).Success?
    ensures var c := ToRgb(hue, saturation, brightness).value;
      FromRgb(c.red, c.green, c.blue) == Success(HsbColor(hue, saturation, brightness))
  {
    var sector := Truncate(hue * 6.0);
    var fraction := hue * 6.0 - sector as real;
    var delta := brightness * saturation;
    ToRgbChromaticRow(hue, saturation, brightness, sector, fraction, delta);
    FromRgbOfSectorRow(sector, fraction, delta, brightness);
    DivideExact(delta, brightness, saturation);
  }

  /** A gray or black HSB color comes back with saturation 0 and hue 0,
      whatever hue it was given. */
  lemma FromRgbToRgbAchromatic(hue: real, brightness: real)
    requires InUnitInterval(hue) && InUnitInterval(brightness)
    ensures ToRgb(hue, 0.0, brightness).Success?
    ensures var c := ToRgb(hue, 0.0, brightness).value;
      FromRgb(c.red, c.green, c.blue) == Success(HsbColor(0.0, 0.0, brightness))
  {
    ToRgbAchromatic(hue, brightness);
    HsbOfDescribesRgb(brightness, brightness, brightness);
  }

  /** Black loses its hue and saturation: with brightness 0 the round trip
      gives hue 0 and saturation 0, whatever values it was given. */
  lemma FromRgbToRgbBlack(hue: real, saturation: real)
    requires InUnitInterval(hue) && InUnitInterval(saturation)
    ensures ToRgb(hue, saturation, 0.0).Success?
    ensures var c := ToRgb(hue, saturation, 0.0).value;
      FromRgb(c.red, c.green, c.blue) == Success(HsbColor(0.0, 0.0, 0.0))
  {
  }

  /** A drawn hue in [0.0; 1.0) with positive saturation and brightness is
      converted, and reading the color back gives the drawn hue and the
      requested saturation and brightness. */
  lemma RandomHueToRgbReadBack(drawnHue: real, saturation: real, brightness: real)
    requires 0.0 <= drawnHue < 1.0 && 0.0 < saturation <= 1.0 && 0.0 < brightness <= 1.0
    ensures RandomHueToRgb(drawnHue, saturation, brightness).Success?
    ensures var c := RandomHueToRgb(drawnHue, saturation, brightness).value;
      FromRgb(c.red, c.green, c.blue) == Success(HsbColor(drawnHue, saturation, brightness))
  {
    FromRgbToRgb(drawnHue, saturation, brightness);
  }

  /** When the factor is valid and the mapped hue lies in [0.0; 1.0), a color
      with positive saturation and brightness is converted, and reading it
      back gives the mapped hue and the requested saturation and brightness. */
  lemma ParametricHueToRgbReadBack(minHue: real, maxHue: real, value: real, saturation: real, brightness: real)
    requires InUnitInterval(value)
    requires 0.0 <= minHue + value * (maxHue - minHue) < 1.0
    requires 0.0 < saturation <= 1.0 && 0.0 < brightness <= 1.0
    ensures ParametricHueToRgb(minHue, maxHue, value, saturation, brightness).Success?
    ensures var c := ParametricHueToRgb(minHue, maxHue, value, saturation, brightness).value;
      FromRgb(c.red, c.green, c.blue)
        == Success(HsbColor(minHue + value * (maxHue - minHue), saturation, brightness))
  {
    FromRgbToRgb(minHue + value * (maxHue - minHue), saturation, brightness);
  }
}
