/** Bytes, fixed-width integers and the little-endian layout used inside CAN-FD frames. */
module Bytes {

  datatype Option<+T> = None | Some(value: T)

  type byte = b: int | 0 <= b < 256
  type uint16 = n: int | 0 <= n < 0x1_0000
  type int8 = n: int | -128 <= n < 128

  /** The value an `int8_t` holds after an out-of-range `int` is stored in it. */
  function Wrap8(n: int): int8 {
    (n + 128) % 256 - 128
  }

  /** `n` little-endian bytes of the two's complement representation of `v`. */
  function LittleEndian(v: int, n: nat): (r: seq<byte>)
    ensures |r| == n
    decreases n
  {
    if n == 0 then [] else [v % 256] + LittleEndian(v / 256, n - 1)
  }

  /** The least significant byte comes first. */
  lemma LowByteFirst(v: int)
    ensures LittleEndian(v, 1) == [v % 0x100]
    ensures LittleEndian(v, 2) == [v % 0x100, v / 0x100 % 0x100]
    ensures LittleEndian(v, 4) == [v % 0x100, v / 0x100 % 0x100, v / 0x1_0000 % 0x100, v / 0x100_0000 % 0x100]
  {
    assert LittleEndian(v / 0x100_0000, 1) == [v / 0x100_0000 % 0x100];
    assert LittleEndian(v / 0x1_0000, 2) == [v / 0x1_0000 % 0x100, v / 0x100_0000 % 0x100];
    assert LittleEndian(v / 0x100, 3) == [v / 0x100 % 0x100, v / 0x1_0000 % 0x100, v / 0x100_0000 % 0x100];
  }

  /** The unsigned number written by `bs`, least significant byte first. */
  function Unsigned(bs: seq<byte>): nat {
    if bs == [] then 0 else bs[0] + 256 * Unsigned(bs[1..])
  }

  function Pow256(n: nat): (r: int)
    ensures r >= 1
  {
    if n == 0 then 1 else 256 * Pow256(n - 1)
  }

  /** The two's complement number written by `bs`. */
  function Signed(bs: seq<byte>): int {
    var u := Unsigned(bs);
    if 2 * u < Pow256(|bs|) then u else u - Pow256(|bs|)
  }

  lemma {:induction false} UnsignedLittleEndian(v: int, n: nat)
    ensures Unsigned(LittleEndian(v, n)) == v % Pow256(n)
    decreases n
  {
    if n > 0 {
      UnsignedLittleEndian(v / 256, n - 1);
      ModSplit(v, Pow256(n - 1));
    }
  }

  /** Sums of bytes: taking the remainder early or late makes no difference. */
  lemma AddBytes(total: nat, more: nat)
    ensures (total % 256 + more % 256) % 256 == (total + more) % 256
    ensures (total % 256 + more) % 256 == (total + more) % 256
  {
    var q, r := (total % 256 + more % 256) / 256, (total % 256 + more % 256) % 256;
    assert total + more == 256 * (total / 256 + more / 256 + q) + r;
    assert total % 256 + more == 256 * (more / 256 + q) + r;
    Residue(total + more, total / 256 + more / 256 + q, r);
    Residue(total % 256 + more, more / 256 + q, r);
  }

  /** The same for sixteen bits. */
  lemma AddWords(a: int, b: int)
    ensures (a % 0x1_0000 + b) % 0x1_0000 == (a + b) % 0x1_0000
  {
    var r := (a % 0x1_0000 + b) % 0x1_0000;
    var q := (a % 0x1_0000 + b) / 0x1_0000;
    assert a + b == 0x1_0000 * (a / 0x1_0000 + q) + r;
    WordResidue(a + b, a / 0x1_0000 + q, r);
  }

  lemma WordResidue(v: int, q: int, r: int)
    requires v == 0x1_0000 * q + r && 0 <= r < 0x1_0000
    ensures v % 0x1_0000 == r
  {
  }

  lemma Residue(v: int, q: int, r: int)
    requires v == 256 * q + r && 0 <= r < 256
    ensures v % 256 == r
  {
  }

  lemma ModSplit(v: int, p: int)
    requires p >= 1
    ensures v % (256 * p) == v % 256 + 256 * ((v / 256) % p)
  {
    var q, r := v / 256, v % 256;
    var a, b := q / p, q % p;
    assert q == a * p + b;
    assert v == 256 * p * a + (256 * b + r) by {
      assert 256 * (a * p) == 256 * p * a;
    }
    assert 0 <= 256 * b + r < 256 * p;
    ModUnique(v, 256 * p, a, 256 * b + r);
  }

  lemma ModUnique(v: int, m: int, q: int, r: int)
    requires m >= 1 && v == m * q + r && 0 <= r < m
    ensures v % m == r && v / m == q
  {
    var k := v / m - q;
    assert m * (v / m) + v % m == v;
    assert m * k == r - v % m by {
      assert m * k == m * (v / m) - m * q;
    }
    MulBound(m, k);
  }

  lemma MulBound(m: int, k: int)
    requires m >= 1
    ensures k >= 1 ==> m * k >= m
    ensures k <= -1 ==> m * k <= -m
  {
  }

  /** A signed number that fits `n` bytes survives the trip through memory. */
  lemma SignedLittleEndian(v: int, n: nat)
    requires -Pow256(n) <= 2 * v < Pow256(n)
    ensures Signed(LittleEndian(v, n)) == v
  {
    UnsignedLittleEndian(v, n);
    if v >= 0 {
      ModUnique(v, Pow256(n), 0, v);
    } else {
      ModUnique(v, Pow256(n), -1, v + Pow256(n));
    }
  }
}
