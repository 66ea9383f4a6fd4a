/**
 Fixed-point numbers on the wire (`Saturate`, `WriteMapped`, `Nanify`,
 `ReadConcrete`). The four bytes of a float are opaque.
*/
module Numbers {
  import opened Bytes
  import opened Doubles
  import opened Registers

  /** What a reader sees: NaN, a number, or the bits of a float. */
  datatype Reading = NotANumber | Number(r: real) | Bits(bytes: seq<byte>)

  /** The four bytes of `static_cast<float>(value)`. */
  type FloatBytes = Double -> (byte, byte, byte, byte)

  datatype Concrete =
    | Int | Position | Velocity | Torque | Pwm | Voltage | Temperature | Time | Current | Theta | Power | Acceleration

  const PI: real := 3.14159265358979323846

  function Scale(concrete: Concrete, res: Resolution): (s: real)
    ensures s > 0.0
  {
    var pick := (a: real, b: real, c: real) => if res == Int8 then a else if res == Int16 then b else c;
    match concrete
    case Int => 1.0
    case Position => pick(0.01, 0.0001, 0.00001)
    case Velocity => pick(0.1, 0.00025, 0.00001)
    case Torque => pick(0.5, 0.01, 0.001)
    case Pwm => pick(1.0 / 127.0, 1.0 / 32767.0, 1.0 / 2147483647.0)
    case Voltage => pick(0.5, 0.1, 0.001)
    case Temperature => pick(1.0, 0.1, 0.001)
    case Time => pick(0.01, 0.001, 0.000001)
    case Current => pick(1.0, 0.1, 0.001)
    case Theta => pick(1.0 / 127.0 * PI, 1.0 / 32767.0 * PI, 1.0 / 2147483647.0 * PI)
    case Power => pick(10.0, 0.05, 0.0001)
    case Acceleration => pick(0.05, 0.001, 0.00001)
  }

  /** The largest number that each type can carry in each integer width. */
  lemma FullScales()
    ensures Carries(Int, 127.0, 32767.0, 2147483647.0)
    ensures Carries(Position, 1.27, 3.2767, 21474.83647)
    ensures Carries(Velocity, 12.7, 8.19175, 21474.83647)
    ensures Carries(Torque, 63.5, 327.67, 2147483.647)
    ensures Carries(Pwm, 1.0, 1.0, 1.0)
    ensures Carries(Voltage, 63.5, 3276.7, 2147483.647)
    ensures Carries(Temperature, 127.0, 3276.7, 2147483.647)
    ensures Carries(Time, 1.27, 32.767, 2147.483647)
    ensures Carries(Current, 127.0, 3276.7, 2147483.647)
    ensures Carries(Theta, 3.14159265358979323846, 3.14159265358979323846, 3.14159265358979323846)
    ensures Carries(Power, 1270.0, 1638.35, 214748.3647)
    ensures Carries(Acceleration, 6.35, 32.767, 21474.83647)
  {
  }

  predicate Carries(concrete: Concrete, int8: real, int16: real, int32: real) {
    && int8 == 127.0 * Scale(concrete, Int8)
    && int16 == 32767.0 * Scale(concrete, Int16)
    && int32 == 2147483647.0 * Scale(concrete, Int32)
  }

  /** The range of an integer width is all of its bytes, less the number that stands for no number. */
  lemma MaxFillsWidth(res: Resolution)
    requires res in {Int8, Int16, Int32}
    ensures Pow256(Width(res)) == 2 * Max(res) + 2
    ensures Max(res) == if res == Int8 then 127 else if res == Int16 then 32767 else 2147483647
    ensures Width(Float) == 4
  {
    assert Pow256(1) == 256 && Pow256(2) == 0x1_0000 && Pow256(3) == 0x100_0000 && Pow256(4) == 0x1_0000_0000;
  }

  function Max(res: Resolution): int {
    match res
    case Int8 => 127
    case Int16 => 32767
    case _ => 2147483647
  }

  /** A C cast from a floating type to an integer drops the fraction. */
  function Truncate(r: real): int {
    if r >= 0.0 then r.Floor else -((-r).Floor)
  }

  function Saturate(value: Double, scale: real, max: int): int
    requires scale > 0.0
  {
    match value
    case Finite(r) =>
      var scaled := r / scale;
      if scaled < -(max as real) then -max else if scaled > max as real then max else Truncate(scaled)
    case _ => -max - 1
  }

  function WriteMapped(value: Double, concrete: Concrete, res: Resolution, float: FloatBytes): (bytes: seq<byte>)
    requires res != Ignore
    ensures |bytes| == Width(res)
  {
    if res == Float then
      var (a, b, c, d) := float(value);
      [a, b, c, d]
    else
      LittleEndian(Saturate(value, Scale(concrete, res), Max(res)), Width(res))
  }

  /** An integer that is already whole is limited, not scaled. */
  function WriteInt(value: int, res: Resolution, float: FloatBytes): (bytes: seq<byte>)
    requires res != Ignore
    ensures |bytes| == Width(res)
  {
    if res == Float then
      var (a, b, c, d) := float(Finite(value as real));
      [a, b, c, d]
    else
      var limited :=
        if res == Int32 then value
        else if value > Max(res) then Max(res)
        else if value < -Max(res) then -Max(res)
        else value;
      LittleEndian(limited, Width(res))
  }

  function ReadConcrete(concrete: Concrete, res: Resolution, bytes: seq<byte>): Reading {
    if res == Float then Bits(bytes)
    else if Signed(bytes) == -Max(res) - 1 then NotANumber
    else Number(Signed(bytes) as real * Scale(concrete, res))
  }

  // ------------------------------------------------------------- Saturate over the reals

  lemma TruncateWithin(r: real)
    ensures r >= 0.0 ==> 0.0 <= Truncate(r) as real <= r < Truncate(r) as real + 1.0
    ensures r <= 0.0 ==> Truncate(r) as real - 1.0 < r <= Truncate(r) as real <= 0.0
  {
  }

  lemma TruncateMonotone(a: real, b: real)
    requires a <= b
    ensures Truncate(a) <= Truncate(b)
  {
  }

  lemma SaturateInRange(value: Double, scale: real, max: int)
    requires scale > 0.0 && max >= 0
    ensures value.Finite? ==> -max <= Saturate(value, scale, max) <= max
    ensures Saturate(value, scale, max) == -max - 1 <==> !value.Finite?
  {
    if value.Finite? {
      TruncateWithin(value.r / scale);
    }
  }

  lemma SaturateMonotone(a: real, b: real, scale: real, max: int)
    requires scale > 0.0 && max >= 0 && a <= b
    ensures Saturate(Finite(a), scale, max) <= Saturate(Finite(b), scale, max)
  {
    DivideMonotone(a, b, scale);
    TruncateWithin(a / scale);
    TruncateWithin(b / scale);
    TruncateMonotone(a / scale, b / scale);
  }

  lemma TimesMonotone(a: real, b: real, scale: real)
    requires scale > 0.0
    ensures a <= b ==> a * scale <= b * scale
    ensures a < b ==> a * scale < b * scale
  {
    ProductSign(b - a, scale);
    assert b * scale - a * scale == (b - a) * scale;
  }

  lemma ProductSign(d: real, scale: real)
    requires scale > 0.0
    ensures d >= 0.0 ==> d * scale >= 0.0
    ensures d > 0.0 ==> d * scale > 0.0
  {
  }

  lemma DivideMonotone(a: real, b: real, scale: real)
    requires scale > 0.0
    ensures a <= b ==> a / scale <= b / scale
    ensures a < b ==> a / scale < b / scale
  {
    var p, q := a / scale, b / scale;
    assert p * scale == a && q * scale == b;
    TimesMonotone(q, p, scale);
  }

  /** In range, the number read back is short of the one written by less than one step, towards zero. */
  lemma SaturateError(r: real, scale: real, max: int)
    requires scale > 0.0 && max >= 0 && -(max as real * scale) <= r <= max as real * scale
    ensures var back := Saturate(Finite(r), scale, max) as real * scale;
      if r >= 0.0 then 0.0 <= back <= r < back + scale else back - scale < r <= back <= 0.0
  {
    hide Truncate;
    ScaledInRange(r, scale, max as real);
    assert Saturate(Finite(r), scale, max) == Truncate(r / scale);
    DivideTimes(r, scale);
    ErrorOfTruncation(r / scale, scale, r, Truncate(r / scale) as real * scale);
  }

  lemma ScaledInRange(r: real, scale: real, m: real)
    requires scale > 0.0 && -(m * scale) <= r <= m * scale
    ensures -m <= r / scale <= m
    ensures r >= 0.0 ==> r / scale >= 0.0
    ensures r <= 0.0 ==> r / scale <= 0.0
  {
    CancelScale(m, scale);
    CancelScale(-m, scale);
    CancelScale(0.0, scale);
    assert (-m) * scale == -(m * scale) && 0.0 * scale == 0.0;
    DivideMonotone(-(m * scale), r, scale);
    DivideMonotone(r, m * scale, scale);
    DivideMonotone(0.0, r, scale);
    DivideMonotone(r, 0.0, scale);
  }

  lemma ErrorOfTruncation(scaled: real, scale: real, r: real, back: real)
    requires scale > 0.0 && r == scaled * scale && back == Truncate(scaled) as real * scale
    ensures scaled >= 0.0 ==> 0.0 <= back <= r < back + scale
    ensures scaled <= 0.0 ==> back - scale < r <= back <= 0.0
  {
    TruncateWithin(scaled);
    var n := Truncate(scaled) as real;
    if scaled >= 0.0 {
      StepsBelow(scaled, n, scale, r, back);
    }
    if scaled <= 0.0 {
      assert -r == -scaled * scale && -back == -n * scale;
      StepsBelow(-scaled, -n, scale, -r, -back);
    }
  }

  lemma StepsBelow(scaled: real, n: real, scale: real, r: real, back: real)
    requires scale > 0.0 && r == scaled * scale && back == n * scale && 0.0 <= n <= scaled < n + 1.0
    ensures 0.0 <= back <= r < back + scale
  {
    ProductSign(n, scale);
    TimesMonotone(n, scaled, scale);
    var rest := n + 1.0 - scaled;
    ProductSign(rest, scale);
    assert rest * scale == back + scale - r;
  }

  lemma DivideTimes(r: real, scale: real)
    requires scale > 0.0
    ensures r / scale * scale == r
  {
  }

  lemma CancelScale(n: real, scale: real)
    requires scale > 0.0
    ensures n * scale / scale == n
  {
  }

  /** Writing a number that was read gives the same number again. */
  lemma SaturateStable(n: int, scale: real, max: int)
    requires scale > 0.0 && -max <= n <= max
    ensures Saturate(Finite(n as real * scale), scale, max) == n
  {
    CancelScale(n as real, scale);
  }

  // ------------------------------------------------------------- through the bytes

  lemma WidthHoldsMax(res: Resolution)
    requires res != Ignore
    ensures Pow256(Width(res)) > 2 * Max(res)
    ensures -Pow256(Width(res)) <= 2 * (-Max(res) - 1)
  {
    assert Pow256(1) == 256 && Pow256(2) == 0x1_0000 && Pow256(3) == 0x100_0000 && Pow256(4) == 0x1_0000_0000;
  }

  lemma SignedBack(n: int, res: Resolution)
    requires res != Ignore && -Max(res) - 1 <= n <= Max(res)
    ensures Signed(LittleEndian(n, Width(res))) == n
  {
    WidthHoldsMax(res);
    SignedLittleEndian(n, Width(res));
  }

  /** `back` is what survives of `value` when it is written in steps of `scale` up to `max` steps. */
  predicate Quantised(value: real, scale: real, max: int, back: real) {
    var limit := max as real * scale;
    if value > limit then back == limit
    else if value < -limit then back == -limit
    else if value >= 0.0 then 0.0 <= back <= value < back + scale
    else back - scale < value <= back <= 0.0
  }

  lemma SaturateQuantises(r: real, scale: real, max: int, back: real)
    requires scale > 0.0 && max >= 0 && back == Saturate(Finite(r), scale, max) as real * scale
    ensures Quantised(r, scale, max, back)
  {
    hide Saturate;
    if r > max as real * scale {
      SaturateAbove(r, scale, max);
    } else if r < -(max as real * scale) {
      SaturateBelow(r, scale, max);
    } else {
      SaturateError(r, scale, max);
    }
  }

  lemma SaturateAbove(r: real, scale: real, max: int)
    requires scale > 0.0 && max >= 0 && r > max as real * scale
    ensures Saturate(Finite(r), scale, max) == max
  {
    CancelScale(max as real, scale);
    DivideMonotone(max as real * scale, r, scale);
  }

  lemma SaturateBelow(r: real, scale: real, max: int)
    requires scale > 0.0 && max >= 0 && r < -(max as real * scale)
    ensures Saturate(Finite(r), scale, max) == -max
  {
    var m := max as real;
    assert (-m) * scale == -(m * scale);
    CancelScale(-m, scale);
    DivideMonotone(r, -m * scale, scale);
  }

  /**
   What the wire keeps of a double written with a scale: NaN exactly for a value that
   is not finite, the limit for one out of range, otherwise a number within one step
   on the side of zero. Writing that number again changes nothing.
  */
  lemma MappedReadBack(value: Double, concrete: Concrete, res: Resolution, float: FloatBytes)
    requires res != Ignore && res != Float
    ensures var bytes := WriteMapped(value, concrete, res, float);
      match ReadConcrete(concrete, res, bytes)
      case NotANumber => !value.Finite?
      case Number(back) =>
        && value.Finite?
        && Quantised(value.r, Scale(concrete, res), Max(res), back)
        && WriteMapped(Finite(back), concrete, res, float) == bytes
      case Bits(_) => false
  {
    hide Scale, LittleEndian, Signed, Quantised, Saturate, Max;
    var scale, max := Scale(concrete, res), Max(res);
    var n := Saturate(value, scale, max);
    MaxPositive(res);
    SaturateInRange(value, scale, max);
    SignedBack(n, res);
    if value.Finite? {
      assert value == Finite(value.r);
      SaturateStable(n, scale, max);
      assert Saturate(Finite(value.r), scale, max) == n;
      SaturateQuantises(value.r, scale, max, n as real * scale);
      var bytes := WriteMapped(value, concrete, res, float);
      assert Signed(bytes) == n;
      assert ReadConcrete(concrete, res, bytes) == Number(n as real * scale);
      assert WriteMapped(Finite(n as real * scale), concrete, res, float) == bytes;
    }
  }

  /**
   What the wire keeps of a whole number: the number, limited to the range. The one 32-bit number
   that is not limited, the least, is read as no number.
  */
  lemma WholeReadBack(value: int, res: Resolution, float: FloatBytes)
    requires res != Ignore && res != Float && -0x8000_0000 <= value < 0x8000_0000
    ensures ReadConcrete(Int, res, WriteInt(value, res, float)) ==
      if res == Int32 && value == -0x8000_0000 then NotANumber
      else Number((if value > Max(res) then Max(res) else if value < -Max(res) then -Max(res) else value) as real)
  {
    hide LittleEndian, Signed;
    var limited :=
      if res == Int32 then value
      else if value > Max(res) then Max(res)
      else if value < -Max(res) then -Max(res)
      else value;
    SignedBack(limited, res);
  }

  lemma MaxPositive(res: Resolution)
    ensures Max(res) > 0
  {
  }
}
