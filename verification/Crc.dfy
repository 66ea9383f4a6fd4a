/**
 The checksum on serial lines (`ComputeCrc8`): two table look-ups a byte. It is the
 remainder of polynomial long division over GF(2) by x^8 + 0x97.
*/
module Crc {

  /** A byte as its bits, most significant first. */
  datatype Octet = Octet(b7: bool, b6: bool, b5: bool, b4: bool, b3: bool, b2: bool, b1: bool, b0: bool)

  function Bit(b: Octet, k: nat): bool
    requires k < 8
  {
    if k == 0 then b.b7 else if k == 1 then b.b6 else if k == 2 then b.b5 else if k == 3 then b.b4
    else if k == 4 then b.b3 else if k == 5 then b.b2 else if k == 6 then b.b1 else b.b0
  }

  function FromInt(n: int): Octet {
    Octet(n / 128 % 2 == 1, n / 64 % 2 == 1, n / 32 % 2 == 1, n / 16 % 2 == 1,
          n / 8 % 2 == 1, n / 4 % 2 == 1, n / 2 % 2 == 1, n % 2 == 1)
  }

  function ToInt(b: Octet): (n: int)
    ensures 0 <= n < 256
  {
    (if b.b7 then 128 else 0) + (if b.b6 then 64 else 0) + (if b.b5 then 32 else 0) + (if b.b4 then 16 else 0) +
    (if b.b3 then 8 else 0) + (if b.b2 then 4 else 0) + (if b.b1 then 2 else 0) + (if b.b0 then 1 else 0)
  }

  /** A byte is its bits. */
  lemma BitsBack(n: int)
    requires 0 <= n < 256
    ensures ToInt(FromInt(n)) == n
  {
    hide FromInt, ToInt, NibbleOf, IsNibble;
    var b, q, m := FromInt(n), n / 16, n % 16;
    BitsOfParts(n, q, m);
    NibbleBits(b.b7, b.b6, b.b5, b.b4, q);
    NibbleBits(b.b3, b.b2, b.b1, b.b0, m);
    SumOfBits(b);
  }

  function NibbleOf(b3: bool, b2: bool, b1: bool, b0: bool): int {
    (if b3 then 8 else 0) + (if b2 then 4 else 0) + (if b1 then 2 else 0) + if b0 then 1 else 0
  }

  predicate IsNibble(b3: bool, b2: bool, b1: bool, b0: bool, n: int) {
    b3 == (n / 8 % 2 == 1) && b2 == (n / 4 % 2 == 1) && b1 == (n / 2 % 2 == 1) && b0 == (n % 2 == 1)
  }

  lemma NibbleBits(b3: bool, b2: bool, b1: bool, b0: bool, n: int)
    requires 0 <= n < 16 && IsNibble(b3, b2, b1, b0, n)
    ensures NibbleOf(b3, b2, b1, b0) == n
  {
  }

  lemma SumOfBits(b: Octet)
    ensures ToInt(b) == 16 * NibbleOf(b.b7, b.b6, b.b5, b.b4) + NibbleOf(b.b3, b.b2, b.b1, b.b0)
  {
  }

  lemma BitsOfParts(n: int, q: int, m: int)
    requires n == 16 * q + m && 0 <= m < 16
    ensures var b := FromInt(n); IsNibble(b.b7, b.b6, b.b5, b.b4, q) && IsNibble(b.b3, b.b2, b.b1, b.b0, m)
  {
    HighQuotients(n, q, m);
    LowQuotients(n, q, m);
  }

  lemma HighQuotients(n: int, q: int, m: int)
    requires n == 16 * q + m && 0 <= m < 16
    ensures n / 16 == q && n / 32 == q / 2 && n / 64 == q / 4 && n / 128 == q / 8
  {
  }

  lemma LowQuotients(n: int, q: int, m: int)
    requires n == 16 * q + m && 0 <= m < 16
    ensures n % 2 == m % 2 && n / 2 % 2 == m / 2 % 2 && n / 4 % 2 == m / 4 % 2 && n / 8 % 2 == m / 8 % 2
  {
    SmallQuotients(n, q, m);
    EvenPart(8 * q, m);
    EvenPart(4 * q, m / 2);
    EvenPart(2 * q, m / 4);
    EvenPart(q, m / 8);
  }

  lemma SmallQuotients(n: int, q: int, m: int)
    requires n == 16 * q + m
    ensures n / 2 == 8 * q + m / 2 && n / 4 == 4 * q + m / 4 && n / 8 == 2 * q + m / 8
  {
  }

  lemma EvenPart(half: int, rest: int)
    ensures (2 * half + rest) % 2 == rest % 2
  {
  }

  lemma PolynomialIs()
    ensures POLYNOMIAL == FromInt(0x97) && ToInt(POLYNOMIAL) == 0x97
  {
  }

  const ZERO: Octet := Octet(false, false, false, false, false, false, false, false)

  /** 0x97. */
  const POLYNOMIAL: Octet := Octet(true, false, false, true, false, true, true, true)

  function Plus(a: Octet, b: Octet): Octet {
    Octet(a.b7 != b.b7, a.b6 != b.b6, a.b5 != b.b5, a.b4 != b.b4, a.b3 != b.b3, a.b2 != b.b2, a.b1 != b.b1,
          a.b0 != b.b0)
  }

  function ShiftLeft(a: Octet): Octet {
    Octet(a.b6, a.b5, a.b4, a.b3, a.b2, a.b1, a.b0, false)
  }

  // ------------------------------------------------------------- long division

  function Bits(b: Octet): (bits: seq<bool>)
    ensures |bits| == 8 && forall k | 0 <= k < 8 :: bits[k] == Bit(b, k)
  {
    seq(8, k requires 0 <= k < 8 => Bit(b, k))
  }

  function BitsOf(data: seq<Octet>): seq<bool> {
    if data == [] then [] else Bits(data[0]) + BitsOf(data[1..])
  }

  function Pack(bits: seq<bool>): Octet
    requires |bits| == 8
  {
    Octet(bits[0], bits[1], bits[2], bits[3], bits[4], bits[5], bits[6], bits[7])
  }

  /** Subtracts `v` from the eight leading coefficients. */
  function Subtract(bits: seq<bool>, v: Octet): (r: seq<bool>)
    requires |bits| >= 8
    ensures |r| == |bits|
    ensures forall k | 0 <= k < |bits| :: r[k] == if k < 8 then bits[k] != Bit(v, k) else bits[k]
  {
    seq(|bits|, k requires 0 <= k < |bits| => if k < 8 then bits[k] != Bit(v, k) else bits[k])
  }

  /** The remainder of a polynomial, given by its coefficients from the highest down. */
  function Remainder(bits: seq<bool>): Octet
    requires |bits| >= 8
    decreases |bits|
  {
    if |bits| == 8 then Pack(bits)
    else if bits[0] then Remainder(Subtract(bits[1..], POLYNOMIAL))
    else Remainder(bits[1..])
  }

  const EIGHT_ZEROS: seq<bool> := [false, false, false, false, false, false, false, false]

  // ------------------------------------------------------------- the shift register

  /** One place up; the bit that falls out brings the polynomial in. */
  function Shift(crc: Octet): Octet {
    var t := crc.b7;
    Octet(crc.b6 != t, crc.b5, crc.b4, crc.b3 != t, crc.b2, crc.b1 != t, crc.b0 != t, t)
  }

  lemma ShiftSubtracts(crc: Octet)
    ensures Shift(crc) == if crc.b7 then Plus(ShiftLeft(crc), POLYNOMIAL) else ShiftLeft(crc)
  {
  }

  function BitStep(crc: Octet, bit: bool): Octet {
    Shift(crc.(b7 := crc.b7 != bit))
  }

  function BitSteps(crc: Octet, bits: seq<bool>): Octet
    decreases |bits|
  {
    if bits == [] then crc else BitSteps(BitStep(crc, bits[0]), bits[1..])
  }

  function Shift4(crc: Octet): Octet {
    Shift(Shift(Shift(Shift(crc))))
  }

  function ByteStep(crc: Octet, b: Octet): Octet {
    Shift4(Shift4(Plus(crc, b)))
  }

  function Crc8(crc: Octet, data: seq<Octet>): Octet
    decreases |data|
  {
    if data == [] then crc else Crc8(ByteStep(crc, data[0]), data[1..])
  }

  /** Dividing one coefficient off leaves the register shifted once. */
  lemma DivideOne(crc: Octet, bits: seq<bool>)
    requires |bits| > 8
    ensures Remainder(Subtract(bits, crc)) == Remainder(Subtract(bits[1..], BitStep(crc, bits[0])))
  {
    hide Remainder, Shift, ShiftLeft, Bit, Plus, Subtract;
    RemainderStep(Subtract(bits, crc));
    FirstAndRest(crc, bits);
    BitStepIs(crc, bits[0]);
    SubtractTwice(bits[1..], ShiftLeft(crc), POLYNOMIAL);
  }

  lemma FirstAndRest(crc: Octet, bits: seq<bool>)
    requires |bits| > 8
    ensures Subtract(bits, crc)[0] == (bits[0] != crc.b7)
    ensures Subtract(bits, crc)[1..] == Subtract(bits[1..], ShiftLeft(crc))
  {
    hide Bit, ShiftLeft;
    TopBit(crc);
    forall k | 0 <= k < |bits| - 1
      ensures Subtract(bits, crc)[1..][k] == Subtract(bits[1..], ShiftLeft(crc))[k]
    {
      if k < 8 {
        ShiftLeftBit(crc, k);
      }
    }
  }

  lemma BitStepIs(crc: Octet, bit: bool)
    ensures BitStep(crc, bit) == if crc.b7 != bit then Plus(ShiftLeft(crc), POLYNOMIAL) else ShiftLeft(crc)
  {
    ShiftSubtracts(crc.(b7 := crc.b7 != bit));
  }

  lemma PlusBit(a: Octet, b: Octet, k: nat)
    requires k < 8
    ensures Bit(Plus(a, b), k) == (Bit(a, k) != Bit(b, k))
  {
    hide Plus;
    PlusBits(a, b);
    if k == 0 {
    } else if k == 1 {
    } else if k == 2 {
    } else if k == 3 {
    } else if k == 4 {
    } else if k == 5 {
    } else if k == 6 {
    } else {
    }
  }

  lemma ShiftLeftBit(a: Octet, k: nat)
    requires k < 8
    ensures Bit(ShiftLeft(a), k) == if k < 7 then Bit(a, k + 1) else false
  {
  }

  lemma TopBit(a: Octet)
    ensures Bit(a, 0) == a.b7
  {
  }

  lemma SubtractTwice(bits: seq<bool>, a: Octet, b: Octet)
    requires |bits| >= 8
    ensures Subtract(Subtract(bits, a), b) == Subtract(bits, Plus(a, b))
  {
    hide Bit, Plus;
    forall k | 0 <= k < 8
      ensures Subtract(Subtract(bits, a), b)[k] == Subtract(bits, Plus(a, b))[k]
    {
      PlusBit(a, b, k);
    }
  }

  lemma RemainderStep(bits: seq<bool>)
    requires |bits| > 8
    ensures Remainder(bits) == if bits[0] then Remainder(Subtract(bits[1..], POLYNOMIAL)) else Remainder(bits[1..])
  {
  }

  lemma NothingToDivide(crc: Octet)
    ensures Remainder(Subtract(EIGHT_ZEROS, crc)) == crc
  {
    hide Bit, Pack;
    var bits := Subtract(EIGHT_ZEROS, crc);
    assert Remainder(bits) == Pack(bits);
    PackBits(crc, bits);
  }

  lemma PackBits(crc: Octet, bits: seq<bool>)
    requires |bits| == 8 && forall k | 0 <= k < 8 :: bits[k] == Bit(crc, k)
    ensures Pack(bits) == crc
  {
  }

  lemma {:induction false} StepsDivide(crc: Octet, bits: seq<bool>)
    ensures BitSteps(crc, bits) == Remainder(Subtract(bits + EIGHT_ZEROS, crc))
    decreases |bits|
  {
    hide BitStep, Remainder, Subtract;
    var all := bits + EIGHT_ZEROS;
    if bits == [] {
      assert all == EIGHT_ZEROS;
      NothingToDivide(crc);
    } else {
      DivideOne(crc, all);
      assert all[1..] == bits[1..] + EIGHT_ZEROS;
      StepsDivide(BitStep(crc, bits[0]), bits[1..]);
    }
  }

  lemma {:induction false} StepsConcat(crc: Octet, a: seq<bool>, b: seq<bool>)
    ensures BitSteps(crc, a + b) == BitSteps(BitSteps(crc, a), b)
    decreases |a|
  {
    hide BitStep;
    if a == [] {
      assert a + b == b;
    } else {
      assert (a + b)[1..] == a[1..] + b;
      StepsConcat(BitStep(crc, a[0]), a[1..], b);
    }
  }

  /** What four shifts make of each bit. */
  lemma Shift4Bits(x: Octet)
    ensures Shift4(x) == Octet(
      (x.b6 != x.b5) != (x.b4 != x.b3), (x.b7 != x.b6) != x.b2, (x.b6 != x.b5) != x.b1,
      (x.b7 != x.b5) != (x.b4 != x.b0),
      x.b7 != x.b5, (x.b7 != x.b6) != x.b4, x.b4, (x.b7 != x.b6) != (x.b5 != x.b4))
  {
    var a := Shift(x);
    var b := Shift(a);
    var c := Shift(b);
    assert a == Octet(x.b6 != x.b7, x.b5, x.b4, x.b3 != x.b7, x.b2, x.b1 != x.b7, x.b0 != x.b7, x.b7);
    assert b == Octet(x.b5 != (x.b6 != x.b7), x.b4, x.b3 != x.b7, x.b2 != (x.b6 != x.b7), x.b1 != x.b7,
                      (x.b0 != x.b7) != (x.b6 != x.b7), x.b7 != (x.b6 != x.b7), x.b6 != x.b7);
    assert c.b7 == (x.b4 != b.b7);
  }

  /** The high four bits of a byte in place, and the low four in their place. */
  function HighPart(b: Octet): Octet {
    Octet(b.b7, b.b6, b.b5, b.b4, false, false, false, false)
  }

  lemma FourBits(crc: Octet, b: Octet)
    ensures BitStep(BitStep(BitStep(BitStep(crc, b.b7), b.b6), b.b5), b.b4) == Shift4(Plus(crc, HighPart(b)))
  {
    hide BitStep, Shift, Plus;
    var v0 := HighPart(b);
    var v1 := ShiftLeft(v0);
    var v2 := ShiftLeft(v1);
    var v3 := ShiftLeft(v2);
    var c1 := BitStep(crc, b.b7);
    var c2 := BitStep(c1, b.b6);
    var c3 := BitStep(c2, b.b5);
    OneBit(crc, v0);
    OneBit(c1, v1);
    OneBit(c2, v2);
    OneBit(c3, v3);
    PlusZero(BitStep(c3, b.b4));
  }

  /** One bit taken in, and the others moved up, is one shift of the sum. */
  lemma OneBit(crc: Octet, v: Octet)
    ensures Plus(BitStep(crc, v.b7), ShiftLeft(v)) == Shift(Plus(crc, v))
  {
  }

  lemma PlusZero(a: Octet)
    ensures Plus(a, ZERO) == a && Plus(ZERO, a) == a
  {
  }

  lemma StepsOfByte(crc: Octet, b: Octet)
    ensures BitSteps(crc, Bits(b)) == ByteStep(crc, b)
  {
    hide BitStep, Shift4, Plus;
    var bits := Bits(b);
    var low := ShiftLeft4(b);
    var middle := Shift4(Plus(crc, HighPart(b)));
    FourBits(crc, b);
    FourBits(middle, low);
    LowNibble(crc, b);
    StepsOfFour(crc, bits[..4]);
    StepsOfFour(middle, bits[4..]);
    StepsConcat(crc, bits[..4], bits[4..]);
    assert bits[..4] + bits[4..] == bits;
    assert HighPart(low) == low;
  }

  lemma StepsOfFour(crc: Octet, bits: seq<bool>)
    requires |bits| == 4
    ensures BitSteps(crc, bits) == BitStep(BitStep(BitStep(BitStep(crc, bits[0]), bits[1]), bits[2]), bits[3])
  {
    hide BitStep;
    var c1 := BitStep(crc, bits[0]);
    var c2 := BitStep(c1, bits[1]);
    var c3 := BitStep(c2, bits[2]);
    assert bits[1..][1..] == bits[2..] && bits[2..][1..] == bits[3..] && bits[3..][1..] == [];
    assert BitSteps(c3, bits[3..]) == BitStep(c3, bits[3]);
    assert BitSteps(c2, bits[2..]) == BitSteps(c3, bits[3..]);
    assert BitSteps(c1, bits[1..]) == BitSteps(c2, bits[2..]);
  }

  lemma {:induction false} CrcIsSteps(crc: Octet, data: seq<Octet>)
    ensures Crc8(crc, data) == BitSteps(crc, BitsOf(data))
    decreases |data|
  {
    hide ByteStep, BitStep, Bit;
    if data != [] {
      StepsConcat(crc, Bits(data[0]), BitsOf(data[1..]));
      StepsOfByte(crc, data[0]);
      CrcIsSteps(ByteStep(crc, data[0]), data[1..]);
    }
  }

  /** The checksum is the remainder of the message, shifted up by eight places. */
  lemma CrcIsRemainder(data: seq<Octet>)
    ensures Crc8(ZERO, data) == Remainder(BitsOf(data) + EIGHT_ZEROS)
  {
    hide Remainder, BitSteps, Crc8;
    CrcIsSteps(ZERO, data);
    StepsDivide(ZERO, BitsOf(data));
    var all := BitsOf(data) + EIGHT_ZEROS;
    assert Subtract(all, ZERO) == all;
  }

  // ------------------------------------------------------------- the table

  const TABLE: seq<int> := [
    0x00, 0x97, 0xb9, 0x2e, 0xe5, 0x72, 0x5c, 0xcb,
    0x5d, 0xca, 0xe4, 0x73, 0xb8, 0x2f, 0x01, 0x96]

  /** The high four bits in the low four places. */
  function ShiftRight4(b: Octet): Octet {
    Octet(false, false, false, false, b.b7, b.b6, b.b5, b.b4)
  }

  function ShiftLeft4(b: Octet): Octet {
    Octet(b.b3, b.b2, b.b1, b.b0, false, false, false, false)
  }

  function Low4(b: Octet): Octet {
    Octet(false, false, false, false, b.b3, b.b2, b.b1, b.b0)
  }

  /** `kCrc8Table[((crc >> 4) ^ n) & 0x0f] ^ (crc << 4)` */
  function Nibble(crc: Octet, n: Octet): Octet {
    Plus(FromInt(TABLE[ToInt(Low4(Plus(ShiftRight4(crc), n)))]), ShiftLeft4(crc))
  }

  lemma TableEntry(x: Octet)
    ensures FromInt(TABLE[ToInt(Low4(ShiftRight4(x)))]) == Shift4(HighPart(x))
  {
    hide Shift4;
    Shift4Bits(HighPart(x));
  }

  /** Four shifts only move the low bits up. */
  lemma LowBitsMove(x: Octet)
    ensures Shift4(x) == Plus(Shift4(HighPart(x)), ShiftLeft4(x))
  {
    hide Shift4;
    Shift4Bits(x);
    Shift4Bits(HighPart(x));
  }

  lemma NibbleIsFourShifts(crc: Octet, n: Octet)
    requires Low4(n) == n
    ensures Nibble(crc, n) == Shift4(Plus(crc, ShiftLeft4(n)))
  {
    hide FromInt, ToInt, Shift4;
    var x := Plus(crc, ShiftLeft4(n));
    assert Low4(Plus(ShiftRight4(crc), n)) == Low4(ShiftRight4(x));
    TableEntry(x);
    LowBitsMove(x);
  }

  /** The low bits of a byte can be added before four shifts, or moved up after them. */
  lemma LowNibble(crc: Octet, b: Octet)
    ensures Plus(Shift4(Plus(crc, HighPart(b))), ShiftLeft4(b)) == Shift4(Plus(crc, b))
  {
    hide Shift4, Plus, HighPart, ShiftLeft4;
    LowBitsMove(Plus(crc, b));
    LowBitsMove(Plus(crc, HighPart(b)));
    PlusParts(crc, b);
    PlusAssociative(Shift4(HighPart(Plus(crc, b))), ShiftLeft4(crc), ShiftLeft4(b));
  }

  lemma PlusParts(crc: Octet, b: Octet)
    ensures HighPart(Plus(crc, b)) == HighPart(Plus(crc, HighPart(b)))
    ensures ShiftLeft4(Plus(crc, b)) == Plus(ShiftLeft4(crc), ShiftLeft4(b))
    ensures ShiftLeft4(Plus(crc, HighPart(b))) == ShiftLeft4(crc)
  {
    hide Plus;
    PlusBits(crc, b);
    PlusBits(crc, HighPart(b));
    PlusBits(ShiftLeft4(crc), ShiftLeft4(b));
  }

  lemma PlusBits(a: Octet, b: Octet)
    ensures var c := Plus(a, b);
      && c.b7 == (a.b7 != b.b7) && c.b6 == (a.b6 != b.b6) && c.b5 == (a.b5 != b.b5) && c.b4 == (a.b4 != b.b4)
      && c.b3 == (a.b3 != b.b3) && c.b2 == (a.b2 != b.b2) && c.b1 == (a.b1 != b.b1) && c.b0 == (a.b0 != b.b0)
  {
  }

  lemma PlusAssociative(a: Octet, b: Octet, c: Octet)
    ensures Plus(Plus(a, b), c) == Plus(a, Plus(b, c))
  {
  }

  lemma TwoNibbles(crc: Octet, b: Octet)
    ensures Nibble(Nibble(crc, ShiftRight4(b)), Low4(b)) == ByteStep(crc, b)
  {
    hide Nibble, Shift4, Plus;
    NibbleIsFourShifts(crc, ShiftRight4(b));
    NibbleIsFourShifts(Nibble(crc, ShiftRight4(b)), Low4(b));
    assert ShiftLeft4(ShiftRight4(b)) == HighPart(b) && ShiftLeft4(Low4(b)) == ShiftLeft4(b);
    LowNibble(crc, b);
  }

  method ComputeCrc8(data: seq<Octet>) returns (crc: Octet)
    ensures crc == Crc8(ZERO, data)
  {
    hide ByteStep, Nibble;
    crc := ZERO;
    for i := 0 to |data|
      invariant Crc8(ZERO, data) == Crc8(crc, data[i..])
    {
      var b := data[i];
      TwoNibbles(crc, b);
      crc := Nibble(crc, ShiftRight4(b));
      crc := Nibble(crc, Low4(b));
      assert data[i..][1..] == data[i + 1..];
    }
  }

  // ------------------------------------------------------------- what it detects

  function Xor(a: seq<Octet>, b: seq<Octet>): (r: seq<Octet>)
    requires |a| == |b|
    ensures |r| == |a| && forall k | 0 <= k < |a| :: r[k] == Plus(a[k], b[k])
  {
    seq(|a|, k requires 0 <= k < |a| => Plus(a[k], b[k]))
  }

  lemma ByteStepLinear(c: Octet, d: Octet, x: Octet, y: Octet)
    ensures ByteStep(Plus(c, d), Plus(x, y)) == Plus(ByteStep(c, x), ByteStep(d, y))
  {
    hide Shift4;
    var u, v := Plus(c, x), Plus(d, y);
    assert Plus(Plus(c, d), Plus(x, y)) == Plus(u, v);
    Shift4Linear(u, v);
    Shift4Linear(Shift4(u), Shift4(v));
  }

  lemma Shift4Linear(x: Octet, y: Octet)
    ensures Shift4(Plus(x, y)) == Plus(Shift4(x), Shift4(y))
  {
    hide Shift, Plus;
    ShiftLinear(x, y);
    ShiftLinear(Shift(x), Shift(y));
    ShiftLinear(Shift(Shift(x)), Shift(Shift(y)));
    ShiftLinear(Shift(Shift(Shift(x))), Shift(Shift(Shift(y))));
  }

  lemma ShiftLinear(x: Octet, y: Octet)
    ensures Shift(Plus(x, y)) == Plus(Shift(x), Shift(y))
  {
  }

  lemma {:induction false} CrcLinear(c: Octet, d: Octet, a: seq<Octet>, b: seq<Octet>)
    requires |a| == |b|
    ensures Crc8(Plus(c, d), Xor(a, b)) == Plus(Crc8(c, a), Crc8(d, b))
    decreases |a|
  {
    hide ByteStep, Plus;
    if a != [] {
      ByteStepLinear(c, d, a[0], b[0]);
      assert Xor(a, b)[1..] == Xor(a[1..], b[1..]);
      CrcLinear(ByteStep(c, a[0]), ByteStep(d, b[0]), a[1..], b[1..]);
    }
  }

  lemma {:induction false} CrcConcat(crc: Octet, a: seq<Octet>, b: seq<Octet>)
    ensures Crc8(crc, a + b) == Crc8(Crc8(crc, a), b)
    decreases |a|
  {
    hide ByteStep;
    if a == [] {
      assert a + b == b;
    } else {
      assert (a + b)[1..] == a[1..] + b;
      CrcConcat(ByteStep(crc, a[0]), a[1..], b);
    }
  }

  lemma CrcOfOne(crc: Octet, b: Octet)
    ensures Crc8(crc, [b]) == ByteStep(crc, b)
  {
    hide ByteStep;
    assert [b][1..] == [];
  }

  /** Data followed by its own checksum checks to zero. */
  lemma CrcOfChecked(data: seq<Octet>)
    ensures Crc8(ZERO, data + [Crc8(ZERO, data)]) == ZERO
  {
    hide Crc8;
    var crc := Crc8(ZERO, data);
    CrcConcat(ZERO, data, [crc]);
    CrcOfOne(crc, crc);
    assert Plus(crc, crc) == ZERO;
    ShiftZero(ZERO);
  }

  /** The part of a pattern that falls into its first byte when it starts at bit `s`. */
  function FirstPart(p: Octet, s: nat): Octet {
    match s
    case 0 => p
    case 1 => Octet(false, p.b7, p.b6, p.b5, p.b4, p.b3, p.b2, p.b1)
    case 2 => Octet(false, false, p.b7, p.b6, p.b5, p.b4, p.b3, p.b2)
    case 3 => Octet(false, false, false, p.b7, p.b6, p.b5, p.b4, p.b3)
    case 4 => Octet(false, false, false, false, p.b7, p.b6, p.b5, p.b4)
    case 5 => Octet(false, false, false, false, false, p.b7, p.b6, p.b5)
    case 6 => Octet(false, false, false, false, false, false, p.b7, p.b6)
    case _ => Octet(false, false, false, false, false, false, false, p.b7)
  }

  /** The part that falls into the second byte. */
  function SecondPart(p: Octet, s: nat): Octet {
    match s
    case 0 => ZERO
    case 1 => Octet(p.b0, false, false, false, false, false, false, false)
    case 2 => Octet(p.b1, p.b0, false, false, false, false, false, false)
    case 3 => Octet(p.b2, p.b1, p.b0, false, false, false, false, false)
    case 4 => Octet(p.b3, p.b2, p.b1, p.b0, false, false, false, false)
    case 5 => Octet(p.b4, p.b3, p.b2, p.b1, p.b0, false, false, false)
    case 6 => Octet(p.b5, p.b4, p.b3, p.b2, p.b1, p.b0, false, false)
    case _ => Octet(p.b6, p.b5, p.b4, p.b3, p.b2, p.b1, p.b0, false)
  }

  /** The pattern `p` laid over a message at bit `8 * k + s`. */
  function Burst(n: nat, k: nat, s: nat, p: Octet): (e: seq<Octet>)
    requires s < 8 && k < n && (s > 0 ==> k + 1 < n)
    ensures |e| == n && forall i | 0 <= i < n :: e[i] == BurstAt(k, s, p, i)
  {
    seq(n, i => BurstAt(k, s, p, i))
  }

  function BurstAt(k: nat, s: nat, p: Octet, i: int): Octet
    requires s < 8
  {
    if i == k then FirstPart(p, s) else if i == k + 1 then SecondPart(p, s) else ZERO
  }

  /** A shift loses nothing: the polynomial has a constant term. */
  lemma ShiftZero(x: Octet)
    ensures Shift4(x) == ZERO <==> x == ZERO
  {
    hide Shift4;
    Shift4Bits(x);
  }

  lemma ByteStepZero(crc: Octet, b: Octet)
    ensures ByteStep(crc, b) == ZERO <==> crc == b
  {
    hide Shift4;
    ShiftZero(Plus(crc, b));
    ShiftZero(Shift4(Plus(crc, b)));
  }

  lemma {:induction false} CrcOfZeros(crc: Octet, e: seq<Octet>)
    requires forall i | 0 <= i < |e| :: e[i] == ZERO
    ensures Crc8(crc, e) == ZERO <==> crc == ZERO
    decreases |e|
  {
    hide ByteStep;
    if e != [] {
      ByteStepZero(crc, ZERO);
      CrcOfZeros(ByteStep(crc, ZERO), e[1..]);
    }
  }

  /** A pattern that straddles two bytes is not a multiple of the polynomial. */
  lemma Straddle(s: nat, p: Octet)
    requires 0 < s < 8 && p != ZERO
    ensures ByteStep(ZERO, FirstPart(p, s)) != SecondPart(p, s)
  {
    hide Shift4, FirstPart, SecondPart, ByteStep;
    ByteStepOf(FirstPart(p, s));
    if s <= 3 {
      StraddleEarly(s, p);
    } else {
      StraddleLate(s, p);
    }
  }

  lemma ByteStepOf(b: Octet)
    ensures ByteStep(ZERO, b) == Shift4(Shift4(b))
  {
    hide Shift4;
    assert Plus(ZERO, b) == b;
  }

  lemma StraddleEarly(s: nat, p: Octet)
    requires 0 < s <= 3 && p != ZERO
    ensures Shift4(Shift4(FirstPart(p, s))) != SecondPart(p, s)
  {
    hide Shift4;
    Shift4Bits(FirstPart(p, s));
    Shift4Bits(Shift4(FirstPart(p, s)));
  }

  lemma StraddleLate(s: nat, p: Octet)
    requires 3 < s < 8 && p != ZERO
    ensures Shift4(Shift4(FirstPart(p, s))) != SecondPart(p, s)
  {
    hide Shift4;
    Shift4Bits(FirstPart(p, s));
    Shift4Bits(Shift4(FirstPart(p, s)));
  }

  lemma BurstIsSeen(n: nat, k: nat, s: nat, p: Octet)
    requires s < 8 && k < n && (s > 0 ==> k + 1 < n) && p != ZERO
    ensures Crc8(ZERO, Burst(n, k, s, p)) != ZERO
  {
    hide Crc8, ByteStep, Burst, FirstPart, SecondPart;
    var e := Burst(n, k, s, p);
    BurstParts(n, k, s, p);
    var width := if s > 0 then 2 else 1;
    var front, middle, back := e[..k], e[k..k + width], e[k + width..];
    assert e == front + (middle + back);
    CrcConcat(ZERO, front, middle + back);
    CrcOfZeros(ZERO, front);
    CrcConcat(ZERO, middle, back);
    MiddleIsSeen(s, p);
    assert middle == if s == 0 then [p] else [FirstPart(p, s), SecondPart(p, s)];
    CrcOfZeros(Crc8(ZERO, middle), back);
  }

  /** Where a burst is not zero. */
  lemma BurstParts(n: nat, k: nat, s: nat, p: Octet)
    requires s < 8 && k < n && (s > 0 ==> k + 1 < n)
    ensures var e := Burst(n, k, s, p);
      && |e| == n
      && (forall i | 0 <= i < k :: e[i] == ZERO)
      && (forall i | k + (if s > 0 then 2 else 1) <= i < n :: e[i] == ZERO)
      && (if s == 0 then e[k] == p else e[k] == FirstPart(p, s) && e[k + 1] == SecondPart(p, s))
  {
  }

  lemma MiddleIsSeen(s: nat, p: Octet)
    requires s < 8 && p != ZERO
    ensures Crc8(ZERO, if s == 0 then [p] else [FirstPart(p, s), SecondPart(p, s)]) != ZERO
  {
    hide Crc8, ByteStep, FirstPart, SecondPart;
    if s == 0 {
      CrcOfOne(ZERO, p);
      ByteStepZero(ZERO, p);
    } else {
      var high, low := FirstPart(p, s), SecondPart(p, s);
      assert [high, low] == [high] + [low];
      CrcConcat(ZERO, [high], [low]);
      CrcOfOne(ZERO, high);
      CrcOfOne(ByteStep(ZERO, high), low);
      Straddle(s, p);
      ByteStepZero(ByteStep(ZERO, high), low);
    }
  }

  /** An error confined to eight consecutive bits always changes the checksum. */
  lemma BurstChangesCrc(data: seq<Octet>, k: nat, s: nat, p: Octet)
    requires s < 8 && k < |data| && (s > 0 ==> k + 1 < |data|) && p != ZERO
    ensures Crc8(ZERO, Xor(data, Burst(|data|, k, s, p))) != Crc8(ZERO, data)
  {
    hide Crc8, Burst, Xor;
    var e := Burst(|data|, k, s, p);
    assert Plus(ZERO, ZERO) == ZERO;
    CrcLinear(ZERO, ZERO, data, e);
    BurstIsSeen(|data|, k, s, p);
    var a, b := Crc8(ZERO, data), Crc8(ZERO, e);
    assert Plus(a, b) == a ==> b == ZERO;
  }
}
