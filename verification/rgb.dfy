/**
 Channel arithmetic in the RGB model (ColorEx/Rgb.cs): the perceptual
 brightness test, the black-or-white contrast pick, and the packed 32-bit
 ARGB codec in its byte and normalized flavours.

 Normalized channels are modelled as `real` values, bytes as `bv8` and the
 packed value as `bv32`, so the codec is stated with the same shifts and masks
 the library uses.
 */
module Rgb {
  import opened Validation

  type byte = bv8
  type uint = bv32

  /** Four channel bytes, alpha first, as the codec packs them. */
  datatype Argb = Argb(alpha: byte, red: byte, green: byte, blue: byte)

  /** Four normalized channel values, alpha first. */
  datatype ArgbChannels = ArgbChannels(alpha: real, red: real, green: real, blue: real)

  /** Three normalized channel values. */
  datatype RgbColor = RgbColor(red: real, green: real, blue: real)

  predicate IsGray(c: RgbColor) {
    c.red == c.green == c.blue
  }

  // ------------------------------------------------------------------------
  // Brightness test

  /** Perceived brightness: the channels weighted by the ITU-R BT.709 luma
      coefficients 0.2126, 0.7152 and 0.0722. */
  function Luma(red: real, green: real, blue: real): real {
    red * 0.2126 + green * 0.7152 + blue * 0.0722
  }

  /** The byte value of a channel as a number of 255ths. */
  function ByteValue(b: byte): (x: real)
    ensures 0.0 <= x <= 255.0
  {
    b as int as real
  }

  /** Tests a normalized color for brightness: after validating the channels
      in the order red, green, blue, the color is bright when its luma is
      strictly above the midpoint 0.5. */
  function IsBright(red: real, green: real, blue: real): (r: Result<bool>)
    ensures r.Failure? <==>
      !(InUnitInterval(red) && InUnitInterval(green) && InUnitInterval(blue))
    ensures !InUnitInterval(red) ==> r == Failure(OutOfRange("Red"))
    ensures InUnitInterval(red) && !InUnitInterval(green) ==> r == Failure(OutOfRange("Green"))
    ensures InUnitInterval(red) && InUnitInterval(green) && !InUnitInterval(blue) ==>
      r == Failure(OutOfRange("Blue"))
    ensures r.Success? ==> (r.value <==> Luma(red, green, blue) > 0.5)
  {
    match AreInRange0_1(red, "Red", green, "Green", blue, "Blue")
    case Fail(e) => Failure(e)
    case Pass => Success(Luma(red, green, blue) > 0.5)
  }

  /** Tests a byte color for brightness: the luma of the byte values is
      compared strictly against the midpoint 127.5. Bytes need no validation,
      and the answer is the one the normalized test gives for the bytes read
      as fractions of 255. */
  function IsBrightByte(red: byte, green: byte, blue: byte): (bright: bool)
    ensures IsBright(ByteValue(red) / 255.0, ByteValue(green) / 255.0, ByteValue(blue) / 255.0)
         == Success(bright)
  {
    IsBrightScaled(ByteValue(red), ByteValue(green), ByteValue(blue));
    Luma(ByteValue(red), ByteValue(green), ByteValue(blue)) > 127.5
  }

  /** Levels in [0; 255] scaled down by 255 are valid normalized channels,
      and they are bright exactly when the levels' luma exceeds 127.5. */
  lemma IsBrightScaled(r: real, g: real, b: real)
    requires 0.0 <= r <= 255.0 && 0.0 <= g <= 255.0 && 0.0 <= b <= 255.0
    ensures IsBright(r / 255.0, g / 255.0, b / 255.0) == Success(Luma(r, g, b) > 127.5)
  {
    assert InUnitInterval(r / 255.0) && InUnitInterval(g / 255.0) && InUnitInterval(b / 255.0);
    assert Luma(r / 255.0, g / 255.0, b / 255.0) * 255.0 == Luma(r, g, b);
  }

  /** Black is not bright, white is, and a luma of exactly 0.5 counts as not
      bright: the comparison is strict. */
  lemma IsBrightBoundaries()
    ensures IsBright(0.0, 0.0, 0.0) == Success(false)
    ensures IsBright(1.0, 1.0, 1.0) == Success(true)
    ensures IsBright(0.5, 0.5, 0.5) == Success(false)
  {
  }

  /** Brightening any channel of a bright color keeps it bright. */
  lemma IsBrightMonotone(c: RgbColor, d: RgbColor)
    requires IsBright(c.red, c.green, c.blue) == Success(true)
    requires c.red <= d.red <= 1.0 && c.green <= d.green <= 1.0 && c.blue <= d.blue <= 1.0
    ensures IsBright(d.red, d.green, d.blue) == Success(true)
  {
  }

  /** The library's own brightness examples. */
  lemma IsBrightExamples()
    ensures IsBrightByte(0xFF, 0xAA, 0xEE)
    ensures !IsBrightByte(0x00, 0x22, 0x33)
    ensures IsBright(1.0, 0.8, 0.7) == Success(true)
    ensures IsBright(0.1, 0.2, 0.5) == Success(false)
  {
  }

  // ------------------------------------------------------------------------
  // Contrast color

  /** Picks a contrast color for a normalized source color: black when the
      source is bright, otherwise every channel set to 0xFF, that is 255.0,
      although normalized outputs are documented to lie in [0.0; 1.0]. */
  function ToBlackIfBright(red: real, green: real, blue: real): (r: Result<RgbColor>)
    ensures r.Failure? <==>
      !(InUnitInterval(red) && InUnitInterval(green) && InUnitInterval(blue))
    ensures r.Failure? ==> IsBright(red, green, blue) == Failure(r.error)
    ensures r.Success? ==> IsGray(r.value)
    ensures r.Success? ==> (r.value.red == 0.0 <==> Luma(red, green, blue) > 0.5)
    ensures r.Success? ==> r.value.red == 0.0 || r.value.red == 255.0
  {
    match IsBright(red, green, blue)
    case Failure(e) => Failure(e)
    case Success(bright) =>
      Success(if bright then RgbColor(0.0, 0.0, 0.0) else RgbColor(255.0, 255.0, 255.0))
  }

  /** A dark source yields 255.0 channels, outside the documented output range. */
  lemma ToBlackIfBrightLeavesUnitRange()
    ensures ToBlackIfBright(0.0, 0.0, 0.0) == Success(RgbColor(255.0, 255.0, 255.0))
    ensures !InUnitInterval(ToBlackIfBright(0.0, 0.0, 0.0).value.red)
  {
  }

  /** Contrast pick with white written as the normalized 1.0, so that the
      result stays in the documented range [0.0; 1.0]. */
  function ToBlackIfBrightNormalized(red: real, green: real, blue: real): (r: Result<RgbColor>)
    ensures r.Failure? <==>
      !(InUnitInterval(red) && InUnitInterval(green) && InUnitInterval(blue))
    ensures r.Failure? ==> IsBright(red, green, blue) == Failure(r.error)
    ensures r.Success? ==> IsGray(r.value) && InUnitInterval(r.value.red)
    ensures r.Success? ==> (r.value.red == 0.0 <==> Luma(red, green, blue) > 0.5)
    ensures r.Success? ==> r.value.red == 0.0 || r.value.red == 1.0
    // Same decision as the as-written pick; only the white level differs.
    ensures r.Success? ==> ToBlackIfBright(red, green, blue).value.red == r.value.red * 255.0
  {
    match IsBright(red, green, blue)
    case Failure(e) => Failure(e)
    case Success(bright) =>
      Success(if bright then RgbColor(0.0, 0.0, 0.0) else RgbColor(1.0, 1.0, 1.0))
  }

  // ------------------------------------------------------------------------
  // Packed 32-bit codec

  /** Packs four bytes into one value: alpha in the most significant byte,
      then red, green, blue. Each term of the sum stays in its own byte, so
      the 32-bit sum does not wrap. */
  function ToUint(alpha: byte, red: byte, green: byte, blue: byte): (v: uint)
    ensures v == alpha as uint * 0x100_0000 + red as uint * 0x1_0000 + green as uint * 0x100 + blue as uint
    ensures v >> 24 == alpha as uint
  {
    (alpha as uint << 24) | (red as uint << 16) | (green as uint << 8) | blue as uint
  }

  /** Extracts the four bytes of a packed value by shifting and masking. */
  function FromUint(value: uint): (c: Argb)
    ensures ToUint(c.alpha, c.red, c.green, c.blue) == value
  {
    Argb(
      ((value >> 24) & 0xFF) as byte,
      ((value >> 16) & 0xFF) as byte,
      ((value >> 8) & 0xFF) as byte,
      (value & 0xFF) as byte)
  }

  /** Packing then unpacking gives back the four bytes. */
  lemma FromUintToUint(alpha: byte, red: byte, green: byte, blue: byte)
    ensures FromUint(ToUint(alpha, red, green, blue)) == Argb(alpha, red, green, blue)
  {
  }

  /** The unpacked bytes are the base-256 digits of the packed value, most
      significant first. */
  lemma FromUintDigits(value: uint)
    ensures var c := FromUint(value);
      value == c.alpha as uint * 0x100_0000 + c.red as uint * 0x1_0000 + c.green as uint * 0x100 + c.blue as uint
  {
    var c := FromUint(value);
    assert ToUint(c.alpha, c.red, c.green, c.blue) == value;
  }

  /** The library's packing example and an unpacking example. */
  lemma CodecExamples()
    ensures ToUint(0xAA, 0xBB, 0xCC, 0xDD) == 0xAABBCCDD
    ensures FromUint(0x00010001) == Argb(0x00, 0x01, 0x00, 0x01)
  {
  }

  /** A byte value read as the whole number of times 0xFF goes into it, the
      integer division the normalized unpacking performs. */
  function WholeUnits(b: byte): (x: real)
    ensures x == if b == 0xFF then 1.0 else 0.0
  {
    var n := b as int;
    assert 0 <= n < 256;
    assert n == 255 <==> b == 0xFF;
    (n / 0xFF) as real
  }

  /** Unpacks a value into normalized channels, dividing each extracted field
      by 0xFF in integer arithmetic before the result becomes a double. */
  function FromUintNormalized(value: uint): (c: ArgbChannels)
    ensures var b := FromUint(value);
      && c.alpha == (if b.alpha == 0xFF then 1.0 else 0.0)
      && c.red == (if b.red == 0xFF then 1.0 else 0.0)
      && c.green == (if b.green == 0xFF then 1.0 else 0.0)
      && c.blue == (if b.blue == 0xFF then 1.0 else 0.0)
  {
    var b := FromUint(value);
    ArgbChannels(WholeUnits(b.alpha), WholeUnits(b.red), WholeUnits(b.green), WholeUnits(b.blue))
  }

  /** A mid-level channel unpacks to 0.0 rather than about 0.5. */
  lemma FromUintNormalizedTruncates()
    ensures FromUintNormalized(0x80808080) == ArgbChannels(0.0, 0.0, 0.0, 0.0)
  {
  }

  /** Each byte read as a fraction of 255. */
  function ExactFractions(b: Argb): (c: ArgbChannels)
    ensures c.alpha * 255.0 == ByteValue(b.alpha) && c.red * 255.0 == ByteValue(b.red)
    ensures c.green * 255.0 == ByteValue(b.green) && c.blue * 255.0 == ByteValue(b.blue)
    ensures InUnitInterval(c.alpha) && InUnitInterval(c.red)
    ensures InUnitInterval(c.green) && InUnitInterval(c.blue)
  {
    ArgbChannels(
      ByteValue(b.alpha) / 255.0, ByteValue(b.red) / 255.0,
      ByteValue(b.green) / 255.0, ByteValue(b.blue) / 255.0)
  }

  /** Unpacks a value into normalized channels, each byte divided by 255 as
      a fraction. */
  function FromUintNormalizedExact(value: uint): (c: ArgbChannels)
    ensures var b := FromUint(value);
      && c.alpha * 255.0 == ByteValue(b.alpha)
      && c.red * 255.0 == ByteValue(b.red)
      && c.green * 255.0 == ByteValue(b.green)
      && c.blue * 255.0 == ByteValue(b.blue)
    ensures InUnitInterval(c.alpha) && InUnitInterval(c.red)
    ensures InUnitInterval(c.green) && InUnitInterval(c.blue)
  {
    ExactFractions(FromUint(value))
  }

  /** A normalized channel scaled to a level in [0; 255]: the largest whole
      number not above value * 255, the truncating conversion of a
      non-negative double. */
  function ScaleToLevel(value: real): (level: int)
    requires InUnitInterval(value)
    ensures 0 <= level <= 255
    ensures level as real <= value * 255.0 < level as real + 1.0
  {
    (value * 255.0).Floor
  }

  /** A normalized channel scaled to a byte: the level of `ScaleToLevel`. */
  function ScaleToByte(value: real): (b: byte)
    requires InUnitInterval(value)
    ensures ByteValue(b) <= value * 255.0 < ByteValue(b) + 1.0
  {
    LevelByte(ScaleToLevel(value))
  }

  /** The byte holding a level in [0; 255], that is the library's cast of the
      scaled value to a byte. The three `LevelBelow` functions below are proof
      scaffolding, not library code: the byte is assembled from the top bit
      down, so that each step converts a smaller number to bits, which keeps
      the conversion cheap for the solver. */
  function LevelByte(level: int): (b: byte)
    requires 0 <= level <= 255
    ensures b as int == level
  {
    if level < 128 then LevelBelow128(level) else LevelBelow128(level - 128) | 0x80
  }

  /** Proof scaffolding for `LevelByte`: levels below 128, 64 and 32. */
  function LevelBelow128(level: int): (b: byte)
    requires 0 <= level < 128
    ensures b as int == level
  {
    if level < 64 then LevelBelow64(level) else LevelBelow64(level - 64) | 0x40
  }

  function LevelBelow64(level: int): (b: byte)
    requires 0 <= level < 64
    ensures b as int == level
  {
    if level < 32 then LevelBelow32(level) else LevelBelow32(level - 32) | 0x20
  }

  function LevelBelow32(level: int): (b: byte)
    requires 0 <= level < 32
    ensures b as int == level
  {
    level as byte
  }

  /** The guards the normalized packing runs: all four of them inspect
      `alpha`, under the names of the four channels in turn. */
  function ToUintNormalizedGuards(alpha: real, red: real, green: real, blue: real): (o: Outcome)
    ensures o.Pass? <==> InUnitInterval(alpha)
    ensures o.Fail? ==> o.error == OutOfRange("Alpha")
  {
    var guards := [
      IsValueInRange0_1(alpha, "Alpha"),
      IsValueInRange0_1(alpha, "Red"),
      IsValueInRange0_1(alpha, "Green"),
      IsValueInRange0_1(alpha, "Blue")
    ];
    assert guards[0] == IsValueInRange0_1(alpha, "Alpha");
    FirstFailure(guards)
  }

  /** The normalized packing's guards let an out-of-range red, green or blue
      through. */
  lemma ToUintNormalizedGuardsIgnoreColorChannels()
    ensures ToUintNormalizedGuards(0.5, 2.0, -1.0, 7.0) == Pass
  {
  }

  /** Packs normalized channels: the guards, then each channel scaled to a
      byte and packed. Red, green and blue must lie in [0.0; 1.0] because
      the guards do not check them and the library's cast of an out-of-range
      double to a byte is unspecified. */
  function ToUintNormalized(alpha: real, red: real, green: real, blue: real): (r: Result<uint>)
    requires InUnitInterval(red) && InUnitInterval(green) && InUnitInterval(blue)
    ensures r.Failure? <==> !InUnitInterval(alpha)
    ensures r.Failure? ==> r.error == OutOfRange("Alpha")
    ensures r.Success? ==>
      FromUint(r.value) ==
        Argb(ScaleToByte(alpha), ScaleToByte(red), ScaleToByte(green), ScaleToByte(blue))
  {
    match ToUintNormalizedGuards(alpha, red, green, blue)
    case Fail(e) => Failure(e)
    case Pass =>
      Success(ToUint(ScaleToByte(alpha), ScaleToByte(red), ScaleToByte(green), ScaleToByte(blue)))
  }

  /** Packs normalized channels after validating each channel under its own
      name, in the order alpha, red, green, blue. */
  function ToUintNormalizedChecked(alpha: real, red: real, green: real, blue: real): (r: Result<uint>)
    ensures r.Failure? <==>
      !(InUnitInterval(alpha) && InUnitInterval(red) && InUnitInterval(green) && InUnitInterval(blue))
    ensures !InUnitInterval(alpha) ==> r == Failure(OutOfRange("Alpha"))
    ensures InUnitInterval(alpha) && !InUnitInterval(red) ==> r == Failure(OutOfRange("Red"))
    ensures InUnitInterval(alpha) && InUnitInterval(red) && !InUnitInterval(green) ==>
      r == Failure(OutOfRange("Green"))
    ensures InUnitInterval(alpha) && InUnitInterval(red) && InUnitInterval(green) && !InUnitInterval(blue) ==>
      r == Failure(OutOfRange("Blue"))
    ensures r.Success? ==>
      FromUint(r.value) ==
        Argb(ScaleToByte(alpha), ScaleToByte(red), ScaleToByte(green), ScaleToByte(blue))
  {
    var guards := [
      IsValueInRange0_1(alpha, "Alpha"),
      IsValueInRange0_1(red, "Red"),
      IsValueInRange0_1(green, "Green"),
      IsValueInRange0_1(blue, "Blue")
    ];
    assert guards[0] == IsValueInRange0_1(alpha, "Alpha") && guards[1] == IsValueInRange0_1(red, "Red");
    assert guards[2] == IsValueInRange0_1(green, "Green") && guards[3] == IsValueInRange0_1(blue, "Blue");
    match FirstFailure(guards)
    case Fail(e) => Failure(e)
    case Pass =>
      Success(ToUint(ScaleToByte(alpha), ScaleToByte(red), ScaleToByte(green), ScaleToByte(blue)))
  }

  /** On in-range channels the checked packing and the as-written packing agree. */
  lemma ToUintNormalizedCheckedAgrees(alpha: real, red: real, green: real, blue: real)
    requires InUnitInterval(red) && InUnitInterval(green) && InUnitInterval(blue)
    ensures ToUintNormalizedChecked(alpha, red, green, blue) == ToUintNormalized(alpha, red, green, blue)
  {
  }

  /** Scaling a byte read as a fraction of 255 back to a byte is exact. */
  lemma ScaleToByteOfByteValue(b: byte)
    ensures ScaleToByte(ByteValue(b) / 255.0) == b
  {
    var x := ByteValue(b) / 255.0;
    assert x * 255.0 == ByteValue(b);
    var c := ScaleToByte(x);
    assert c as int == b as int;
    assert c == (c as int) as byte && b == (b as int) as byte;
  }

  /** The fractions of 255 of four bytes scale back to the same bytes. */
  lemma ExactFractionsScaleBack(b: Argb)
    ensures var c := ExactFractions(b);
      && InUnitInterval(c.alpha) && InUnitInterval(c.red)
      && InUnitInterval(c.green) && InUnitInterval(c.blue)
      && Argb(ScaleToByte(c.alpha), ScaleToByte(c.red), ScaleToByte(c.green), ScaleToByte(c.blue)) == b
  {
    ScaleToByteOfByteValue(b.alpha);
    ScaleToByteOfByteValue(b.red);
    ScaleToByteOfByteValue(b.green);
    ScaleToByteOfByteValue(b.blue);
  }

  /** Unpacking to exact fractions and packing again gives back the value. */
  lemma ToUintNormalizedCheckedRoundTrip(value: uint)
    ensures var c := FromUintNormalizedExact(value);
      ToUintNormalizedChecked(c.alpha, c.red, c.green, c.blue) == Success(value)
  {
    var b := FromUint(value);
    var c := FromUintNormalizedExact(value);
    ExactFractionsScaleBack(b);
    var r := ToUintNormalizedChecked(c.alpha, c.red, c.green, c.blue);
    assert FromUint(r.value) == b;
    calc {
      r.value;
      ToUint(FromUint(r.value).alpha, FromUint(r.value).red, FromUint(r.value).green, FromUint(r.value).blue);
      ToUint(b.alpha, b.red, b.green, b.blue);
      value;
    }
  }
}
