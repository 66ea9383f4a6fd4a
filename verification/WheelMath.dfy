/**
 The velocity limiter and the omni-wheel kinematics (`Wheel_math`). The sines and cosines of the
 wheel angles and the wheel distances are constants of the robot; what is asked for may be any
 doubles.
*/
module WheelMath {
  import opened Doubles

  function Abs(x: real): real {
    if x < 0.0 then -x else x
  }

  function Min(a: real, b: real): real {
    if a <= b then a else b
  }

  datatype Velocity = Velocity(x: real, y: real, w: real)

  /** A velocity as it is asked for. */
  datatype Demand = Demand(x: Double, y: Double, w: Double) {
    predicate Finite() {
      x.Finite? && y.Finite? && w.Finite?
    }

    function Value(): Velocity
      requires Finite()
    {
      Velocity(x.r, y.r, w.r)
    }
  }

  datatype Wheel = Wheel(sin: real, cos: real, distance: real)

  const WHEELS := 4
  const RADIUS: real := 33.5 / 1000.0

  /** The largest allowed speed along each axis. */
  datatype Limits = Limits(x: real, y: real, w: real) {
    predicate Valid() {
      0.0 <= x && 0.0 <= y && 0.0 <= w
    }

    predicate Meets(v: Velocity) {
      Abs(v.x) <= x && Abs(v.y) <= y && Abs(v.w) <= w
    }
  }

  lemma MeetsIs(limits: Limits, v: Velocity)
    ensures limits.Meets(v) <==> Abs(v.x) <= limits.x && Abs(v.y) <= limits.y && Abs(v.w) <= limits.w
  {
  }

  function Scaled(v: Velocity, factor: real): Velocity {
    Velocity(v.x * factor, v.y * factor, v.w * factor)
  }

  /** The largest factor in [0, 1] that brings a velocity within the limits. */
  ghost predicate LargestFactor(limits: Limits, v: Velocity, factor: real) {
    && 0.0 <= factor <= 1.0 && limits.Meets(Scaled(v, factor))
    && forall f: real :: 0.0 <= f <= 1.0 && limits.Meets(Scaled(v, f)) ==> f <= factor
  }

  lemma FactorIsUnique(limits: Limits, v: Velocity, f: real, g: real)
    requires LargestFactor(limits, v, f) && LargestFactor(limits, v, g)
    ensures f == g
  {
  }

  /** The speed of one wheel; the robot's x axis is the wheels' y axis. */
  function WheelSpeed(wheel: Wheel, v: Velocity): real {
    (v.y * wheel.sin + v.x * wheel.cos + v.w * wheel.distance) / RADIUS
  }

  /** The fastest a wheel can be asked to turn within the limits. */
  function WheelBound(wheel: Wheel, limits: Limits): real {
    (limits.y * Abs(wheel.sin) + limits.x * Abs(wheel.cos) + limits.w * Abs(wheel.distance)) / RADIUS
  }

  /** Along one axis a wheel turns with its share of the speed, and speeds along the axes add up. */
  lemma SpeedByAxis(wheel: Wheel, v: Velocity)
    ensures WheelSpeed(wheel, Velocity(v.x, 0.0, 0.0)) * 0.0335 == v.x * wheel.cos
    ensures WheelSpeed(wheel, Velocity(0.0, v.y, 0.0)) * 0.0335 == v.y * wheel.sin
    ensures WheelSpeed(wheel, Velocity(0.0, 0.0, v.w)) * 0.0335 == v.w * wheel.distance
    ensures WheelSpeed(wheel, v) == WheelSpeed(wheel, Velocity(v.x, 0.0, 0.0))
      + WheelSpeed(wheel, Velocity(0.0, v.y, 0.0)) + WheelSpeed(wheel, Velocity(0.0, 0.0, v.w))
  {
  }

  lemma SpeedIs(wheel: Wheel, limits: Limits, v: Velocity)
    ensures WheelSpeed(wheel, v) == (v.y * wheel.sin + v.x * wheel.cos + v.w * wheel.distance) / RADIUS
    ensures WheelBound(wheel, limits)
      == (limits.y * Abs(wheel.sin) + limits.x * Abs(wheel.cos) + limits.w * Abs(wheel.distance)) / RADIUS
  {
  }

  lemma ProductBound(a: real, b: real, bound: real)
    requires Abs(a) <= bound
    ensures -(bound * Abs(b)) <= a * b <= bound * Abs(b)
  {
    if b >= 0.0 {
      assert a * b <= bound * b && -bound * b <= a * b;
    } else {
      assert a * b <= -bound * b && bound * b <= a * b;
    }
  }

  lemma SumBound(a: real, b: real, c: real, x: real, y: real, z: real)
    requires -x <= a <= x && -y <= b <= y && -z <= c <= z
    ensures Abs((a + b + c) / RADIUS) <= (x + y + z) / RADIUS
  {
  }

  /** Within the limits, no wheel turns faster than its bound. */
  lemma WheelSpeedBound(wheel: Wheel, limits: Limits, v: Velocity)
    requires limits.Meets(v)
    ensures Abs(WheelSpeed(wheel, v)) <= WheelBound(wheel, limits)
  {
    hide Abs, WheelSpeed, WheelBound;
    MeetsIs(limits, v);
    SpeedIs(wheel, limits, v);
    ProductBound(v.y, wheel.sin, limits.y);
    ProductBound(v.x, wheel.cos, limits.x);
    ProductBound(v.w, wheel.distance, limits.w);
    SumBound(v.y * wheel.sin, v.x * wheel.cos, v.w * wheel.distance,
             limits.y * Abs(wheel.sin), limits.x * Abs(wheel.cos), limits.w * Abs(wheel.distance));
  }

  /** The bound is the least one: some velocity within the limits reaches it. */
  lemma WheelBoundIsReached(wheel: Wheel, limits: Limits)
    requires limits.Valid()
    ensures exists v: Velocity :: limits.Meets(v) && WheelSpeed(wheel, v) == WheelBound(wheel, limits)
  {
    var v := Velocity(if wheel.cos < 0.0 then -limits.x else limits.x, if wheel.sin < 0.0 then -limits.y else limits.y,
                      if wheel.distance < 0.0 then -limits.w else limits.w);
    assert v.x * wheel.cos == limits.x * Abs(wheel.cos);
    assert v.y * wheel.sin == limits.y * Abs(wheel.sin);
    assert v.w * wheel.distance == limits.w * Abs(wheel.distance);
    assert limits.Meets(v) && WheelSpeed(wheel, v) == WheelBound(wheel, limits);
  }

  lemma SmallerFactor(r: real, a: real)
    requires 0.0 < a && r * a < a
    ensures r < 1.0
  {
  }

  /** One axis decides: its factor brings it to its limit, and a larger one takes it over. */
  lemma AxisFactor(v: real, limit: real, f: real)
    requires 0.0 <= limit < Abs(v) && 0.0 <= f
    ensures 0.0 <= limit / Abs(v) < 1.0
    ensures Abs(v * f) <= limit <==> f <= limit / Abs(v)
  {
    var r := limit / Abs(v);
    assert r * Abs(v) == limit < 1.0 * Abs(v);
    SmallerFactor(r, Abs(v));
    assert Abs(v * f) == Abs(v) * f;
    if f <= r {
      assert Abs(v) * f <= Abs(v) * r;
    } else {
      assert Abs(v) * f > Abs(v) * r;
    }
  }

  lemma AxisWithin(v: real, limit: real, f: real)
    requires Abs(v) <= limit && 0.0 <= f <= 1.0
    ensures Abs(v * f) <= limit
  {
    assert Abs(v * f) == Abs(v) * f <= Abs(v);
  }

  /** What one axis allows. */
  function Allowed(v: real, limit: real): real
    requires 0.0 <= limit
  {
    if Abs(v) > limit then limit / Abs(v) else 1.0
  }

  lemma AxisAllows(v: real, limit: real, f: real, scaled: real)
    requires 0.0 <= limit && 0.0 <= f <= 1.0 && scaled == v * f
    ensures 0.0 <= Allowed(v, limit) <= 1.0
    ensures Abs(scaled) <= limit <==> f <= Allowed(v, limit)
  {
    if Abs(v) > limit {
      AxisFactor(v, limit, f);
    } else {
      AxisWithin(v, limit, f);
    }
  }

  /** The least of what the axes allow is the largest factor. */
  lemma LeastIsLargest(limits: Limits, v: Velocity, factor: real)
    requires limits.Valid()
    requires factor == Min(Allowed(v.x, limits.x), Min(Allowed(v.y, limits.y), Allowed(v.w, limits.w)))
    ensures LargestFactor(limits, v, factor)
  {
    hide Allowed, Abs;
    forall f: real | 0.0 <= f <= 1.0
      ensures limits.Meets(Scaled(v, f)) <==> f <= factor
    {
      var w := Scaled(v, f);
      MeetsIs(limits, w);
      AxisAllows(v.x, limits.x, f, w.x);
      AxisAllows(v.y, limits.y, f, w.y);
      AxisAllows(v.w, limits.w, f, w.w);
    }
    AxisAllows(v.x, limits.x, 1.0, v.x);
    AxisAllows(v.y, limits.y, 1.0, v.y);
    AxisAllows(v.w, limits.w, 1.0, v.w);
  }

  // ------------------------------------------------------------- doubles

  /** `std::abs(v) > limit`, which NaN never is and an infinity always. */
  predicate Over(v: Double, limit: real) {
    match v
    case Finite(r) => Abs(r) > limit
    case Infinite(_) => true
    case NaN => false
  }

  /** `limit / std::abs(v)` */
  function Share(limit: real, v: Double): real
    requires 0.0 <= limit && Over(v, limit)
  {
    if v.Finite? then limit / Abs(v.r) else 0.0
  }

  function TimesAll(v: Demand, factor: real): Demand {
    Demand(Times(v.x, factor), Times(v.y, factor), Times(v.w, factor))
  }

  function DoubleSpeed(wheel: Wheel, v: Demand): Double {
    Times(Plus(Plus(Times(v.y, wheel.sin), Times(v.x, wheel.cos)), Times(v.w, wheel.distance)), 1.0 / RADIUS)
  }

  /** One component that is not finite reaches every wheel; none gives the kinematics over reals. */
  lemma DoubleSpeedIs(wheel: Wheel, v: Demand)
    ensures DoubleSpeed(wheel, v).Finite? <==> v.Finite()
    ensures v.Finite() ==> DoubleSpeed(wheel, v) == Finite(WheelSpeed(wheel, v.Value()))
  {
  }

  /** Safe, capped and unlimited. */
  const SAFE := 0
  const CAPPED := 1

  /** Some component is over its limit. */
  predicate Exceeded(limits: Limits, wanted: Demand) {
    Over(wanted.x, limits.x) || Over(wanted.y, limits.y) || Over(wanted.w, limits.w)
  }

  /** The wheels get numbers: everything is finite, or safe mode stops them. */
  predicate Harmless(mode: int, limits: Limits, wanted: Demand) {
    wanted.Finite() || (mode == SAFE && Exceeded(limits, wanted))
  }

  /** NaN is never over a limit, and capping an infinity multiplies it by 0. */
  lemma NotEverythingIsHarmless(limits: Limits)
    requires limits.Valid()
    ensures !Harmless(SAFE, limits, Demand(NaN, Finite(0.0), Finite(0.0)))
    ensures !Harmless(CAPPED, limits, Demand(Infinite(false), Finite(0.0), Finite(0.0)))
    ensures Harmless(SAFE, limits, Demand(Infinite(false), NaN, Finite(0.0)))
  {
  }

  /** The velocity the wheels follow in each mode. */
  ghost predicate Follows(mode: int, limits: Limits, wanted: Demand, followed: Velocity)
    requires Harmless(mode, limits, wanted)
  {
    if mode == SAFE then
      followed == if wanted.Finite() && limits.Meets(wanted.Value()) then wanted.Value() else Velocity(0.0, 0.0, 0.0)
    else if mode == CAPPED then
      exists factor: real :: LargestFactor(limits, wanted.Value(), factor) && followed == Scaled(wanted.Value(), factor)
    else followed == wanted.Value()
  }

  /** The modes by their numbers: 0 stops, 1 caps, any other follows. */
  lemma ModesByNumber(limits: Limits, v: Velocity, followed: Velocity)
    requires limits.Valid()
    ensures var wanted := Demand(Finite(v.x), Finite(v.y), Finite(v.w));
      && (Follows(0, limits, wanted, followed) <==>
          followed == if Abs(v.x) <= limits.x && Abs(v.y) <= limits.y && Abs(v.w) <= limits.w then v
                      else Velocity(0.0, 0.0, 0.0))
      && (Follows(1, limits, wanted, followed) <==>
          exists factor: real :: LargestFactor(limits, v, factor) && followed == Scaled(v, factor))
      && (Follows(2, limits, wanted, followed) <==> followed == v)
  {
  }

  const STOPPED := [Finite(0.0), Finite(0.0), Finite(0.0), Finite(0.0)]

  class Limiter {
    const limits: Limits
    const wheels: seq<Wheel>
    var mode: int
    /** The last computed speeds, one for each wheel. */
    var speeds: seq<Double>

    constructor (limits: Limits, wheels: seq<Wheel>)
      requires |wheels| == WHEELS
      ensures this.limits == limits && this.wheels == wheels && mode == SAFE && speeds == STOPPED
    {
      this.limits, this.wheels, mode, speeds := limits, wheels, SAFE, STOPPED;
    }

    ghost predicate Valid()
      reads this
    {
      limits.Valid() && |wheels| == WHEELS && |speeds| == WHEELS
    }

    method SetMode(mode: int)
      modifies `mode
      ensures this.mode == mode
    {
      this.mode := mode;
    }

    /**
     The wheel speeds for a wanted velocity. They are finite exactly if it is harmless, and then
     those of one followed velocity, which safe mode keeps or replaces by standstill and capped
     mode scales by the largest factor that meets all three limits.
    */
    method Calculate(wanted: Demand) returns (result: seq<Double>, ghost followed: Velocity)
      requires Valid()
      modifies `speeds
      ensures Valid() && |result| == WHEELS
      ensures forall i | 0 <= i < WHEELS :: result[i].Finite? <==> Harmless(mode, limits, wanted)
      ensures Harmless(mode, limits, wanted) ==>
        && Follows(mode, limits, wanted, followed)
        && (mode in {SAFE, CAPPED} ==> limits.Meets(followed))
        && forall i | 0 <= i < WHEELS :: result[i] == Finite(WheelSpeed(wheels[i], followed))
      ensures speeds == if mode == SAFE && Exceeded(limits, wanted) then old(speeds) else result
    {
      hide WheelSpeed, DoubleSpeed, Abs, LargestFactor, Min, Over, TimesAll, Scaled, Limits.Meets;
      var v := wanted;
      if mode == SAFE {
        if Over(v.x, limits.x) || Over(v.y, limits.y) || Over(v.w, limits.w) {
          followed := Velocity(0.0, 0.0, 0.0);
          StillFollows(limits, wheels, wanted);
          return STOPPED, followed;
        }
      } else if mode == CAPPED {
        var scale := 1.0;
        if Over(v.x, limits.x) {
          scale := Min(scale, Share(limits.x, v.x));
        }
        if Over(v.y, limits.y) {
          scale := Min(scale, Share(limits.y, v.y));
        }
        if Over(v.w, limits.w) {
          scale := Min(scale, Share(limits.w, v.w));
        }
        CappedFollows(limits, v, scale);
        v := TimesAll(v, scale);
      }
      WithinFollows(limits, wanted);
      followed := if v.Finite() then v.Value() else Velocity(0.0, 0.0, 0.0);
      for i := 0 to WHEELS
        invariant |speeds| == WHEELS && forall k | 0 <= k < i :: speeds[k] == DoubleSpeed(wheels[k], v)
      {
        speeds := speeds[i := DoubleSpeed(wheels[i], v)];
      }
      forall i | 0 <= i < WHEELS
        ensures speeds[i].Finite? <==> v.Finite()
        ensures v.Finite() ==> speeds[i] == Finite(WheelSpeed(wheels[i], v.Value()))
      {
        DoubleSpeedIs(wheels[i], v);
      }
      result := speeds;
    }
  }

  /** One turn of capping an axis. */
  function Capped(scale: real, v: Double, limit: real): real
    requires 0.0 <= limit
  {
    if Over(v, limit) then Min(scale, Share(limit, v)) else scale
  }

  lemma CappedFollows(limits: Limits, wanted: Demand, scale: real)
    requires limits.Valid()
    requires scale == Capped(Capped(Capped(1.0, wanted.x, limits.x), wanted.y, limits.y), wanted.w, limits.w)
    ensures TimesAll(wanted, scale).Finite() <==> wanted.Finite()
    ensures wanted.Finite() ==>
      && TimesAll(wanted, scale).Value() == Scaled(wanted.Value(), scale)
      && LargestFactor(limits, wanted.Value(), scale) && limits.Meets(Scaled(wanted.Value(), scale))
  {
    hide LargestFactor, Limits.Meets, Abs;
    if wanted.Finite() {
      LeastAllowed(limits, wanted.Value(), scale);
    }
  }

  lemma WithinFollows(limits: Limits, wanted: Demand)
    ensures wanted.Finite() ==> (limits.Meets(wanted.Value()) <==> !Exceeded(limits, wanted))
  {
  }

  lemma StillFollows(limits: Limits, wheels: seq<Wheel>, wanted: Demand)
    requires limits.Valid() && |wheels| == WHEELS && Exceeded(limits, wanted)
    ensures Follows(SAFE, limits, wanted, Velocity(0.0, 0.0, 0.0)) && limits.Meets(Velocity(0.0, 0.0, 0.0))
    ensures forall i | 0 <= i < WHEELS :: STOPPED[i] == Finite(WheelSpeed(wheels[i], Velocity(0.0, 0.0, 0.0)))
  {
  }

  lemma LeastAllowed(limits: Limits, v: Velocity, scale: real)
    requires limits.Valid()
    requires scale == Min(Min(Min(1.0, Allowed(v.x, limits.x)), Allowed(v.y, limits.y)), Allowed(v.w, limits.w))
    ensures LargestFactor(limits, v, scale) && limits.Meets(Scaled(v, scale))
  {
    hide Allowed;
    AxisAllows(v.x, limits.x, 1.0, v.x);
    AxisAllows(v.y, limits.y, 1.0, v.y);
    AxisAllows(v.w, limits.w, 1.0, v.w);
    LeastIsLargest(limits, v, scale);
  }

  /** In safe and capped modes every wheel stays within its bound, whatever is wanted. */
  lemma SpeedsWithinBounds(limits: Limits, wheels: seq<Wheel>, followed: Velocity, speeds: seq<real>)
    requires limits.Meets(followed) && |speeds| == |wheels|
    requires forall i | 0 <= i < |wheels| :: speeds[i] == WheelSpeed(wheels[i], followed)
    ensures forall i | 0 <= i < |wheels| :: Abs(speeds[i]) <= WheelBound(wheels[i], limits)
  {
    forall i | 0 <= i < |wheels|
      ensures Abs(speeds[i]) <= WheelBound(wheels[i], limits)
    {
      WheelSpeedBound(wheels[i], limits, followed);
    }
  }
}
