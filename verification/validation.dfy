/**
 Argument guards shared by every entry point that takes normalized channel
 values (ColorEx/Assert.cs).

 A guard either passes or fails with an error that names the offending
 argument. Guards are pure: they return nothing but the verdict, so the
 arguments they inspect are left unchanged by construction.
 */
module Validation {

  /** The closed unit interval [0.0; 1.0] that normalized channel values live in. */
  predicate InUnitInterval(x: real) {
    0.0 <= x <= 1.0
  }

  /** The two kinds of argument error the guards raise; each carries the argument's name. */
  datatype ArgumentError =
    | OutOfRange(argumentName: string)
    | Negative(argumentName: string)

  /** Verdict of a guard: it either passes or fails with an argument error. */
  datatype Outcome = Pass | Fail(error: ArgumentError)

  /** Result of an operation that validates its arguments before computing. */
  datatype Result<+T> = Success(value: T) | Failure(error: ArgumentError)

  /** Runs guards in order; the first failing one decides the verdict, as the
      first exception thrown by a sequence of guard calls would. */
  function FirstFailure(guards: seq<Outcome>): (o: Outcome)
    ensures o.Pass? <==> forall i | 0 <= i < |guards| :: guards[i].Pass?
    ensures o.Fail? ==>
      exists i | 0 <= i < |guards| ::
        guards[i] == o && forall j | 0 <= j < i :: guards[j].Pass?
  {
    if |guards| == 0 then Pass
    else if guards[0].Fail? then guards[0]
    else
      var rest := FirstFailure(guards[1..]);
      assert forall i | 1 <= i < |guards| :: guards[i] == guards[1..][i - 1];
      rest
  }

  /** Guard rejecting a value outside [0.0; 1.0]; both endpoints are accepted. */
  function IsValueInRange0_1(value: real, argumentName: string): (o: Outcome)
    ensures o.Pass? <==> InUnitInterval(value)
    ensures o.Fail? ==> o.error == OutOfRange(argumentName)
  {
    if value < 0.0 || value > 1.0 then Fail(OutOfRange(argumentName)) else Pass
  }

  /** Guard rejecting a negative value; zero is accepted although the guard's
      name speaks of positivity. */
  function IsValuePositive(value: real, argumentName: string): (o: Outcome)
    ensures o.Pass? <==> value >= 0.0
    ensures o.Fail? ==> o.error == Negative(argumentName)
  {
    if value < 0.0 then Fail(Negative(argumentName)) else Pass
  }

  /** Runs the range guard on three arguments in order: the verdict names the
      first argument outside [0.0; 1.0]. */
  function AreInRange0_1(x: real, xName: string, y: real, yName: string, z: real, zName: string): (o: Outcome)
    ensures o.Pass? <==> InUnitInterval(x) && InUnitInterval(y) && InUnitInterval(z)
    ensures !InUnitInterval(x) ==> o == Fail(OutOfRange(xName))
    ensures InUnitInterval(x) && !InUnitInterval(y) ==> o == Fail(OutOfRange(yName))
    ensures InUnitInterval(x) && InUnitInterval(y) && !InUnitInterval(z) ==>
      o == Fail(OutOfRange(zName))
  {
    var guards := [IsValueInRange0_1(x, xName), IsValueInRange0_1(y, yName), IsValueInRange0_1(z, zName)];
    assert guards[0] == IsValueInRange0_1(x, xName) && guards[1] == IsValueInRange0_1(y, yName);
    assert guards[2] == IsValueInRange0_1(z, zName);
    FirstFailure(guards)
  }

  /** Validates an HSB triple: three range guards, then three positivity guards. */
  function AreHsbValuesValid(hue: real, saturation: real, brightness: real): (o: Outcome)
    ensures o.Pass? <==>
      InUnitInterval(hue) && InUnitInterval(saturation) && InUnitInterval(brightness)
    ensures !InUnitInterval(hue) ==> o == Fail(OutOfRange("hue"))
    ensures InUnitInterval(hue) && !InUnitInterval(saturation) ==>
      o == Fail(OutOfRange("saturation"))
    ensures InUnitInterval(hue) && InUnitInterval(saturation) && !InUnitInterval(brightness) ==>
      o == Fail(OutOfRange("brightness"))
    // The positivity guards that follow the range guards never decide the verdict.
    ensures o.Fail? ==> o.error.OutOfRange?
  {
    var guards := [
      IsValueInRange0_1(hue, "hue"),
      IsValueInRange0_1(saturation, "saturation"),
      IsValueInRange0_1(brightness, "brightness"),
      IsValuePositive(hue, "hue"),
      IsValuePositive(saturation, "saturation"),
      IsValuePositive(brightness, "brightness")
    ];
    assert guards[0] == IsValueInRange0_1(hue, "hue") && guards[1] == IsValueInRange0_1(saturation, "saturation");
    assert guards[2] == IsValueInRange0_1(brightness, "brightness") && guards[3] == IsValuePositive(hue, "hue");
    assert guards[4] == IsValuePositive(saturation, "saturation") && guards[5] == IsValuePositive(brightness, "brightness");
    FirstFailure(guards)
  }

  /** Validates an RGB triple: three range guards, then three positivity guards. */
  function AreRgbValuesValid(red: real, green: real, blue: real): (o: Outcome)
    ensures o.Pass? <==>
      InUnitInterval(red) && InUnitInterval(green) && InUnitInterval(blue)
    ensures !InUnitInterval(red) ==> o == Fail(OutOfRange("red"))
    ensures InUnitInterval(red) && !InUnitInterval(green) ==>
      o == Fail(OutOfRange("green"))
    ensures InUnitInterval(red) && InUnitInterval(green) && !InUnitInterval(blue) ==>
      o == Fail(OutOfRange("blue"))
    // The positivity guards that follow the range guards never decide the verdict.
    ensures o.Fail? ==> o.error.OutOfRange?
  {
    var guards := [
      IsValueInRange0_1(red, "red"),
      IsValueInRange0_1(green, "green"),
      IsValueInRange0_1(blue, "blue"),
      IsValuePositive(red, "red"),
      IsValuePositive(green, "green"),
      IsValuePositive(blue, "blue")
    ];
    assert guards[0] == IsValueInRange0_1(red, "red") && guards[1] == IsValueInRange0_1(green, "green");
    assert guards[2] == IsValueInRange0_1(blue, "blue") && guards[3] == IsValuePositive(red, "red");
    assert guards[4] == IsValuePositive(green, "green") && guards[5] == IsValuePositive(blue, "blue");
    FirstFailure(guards)
  }
}
