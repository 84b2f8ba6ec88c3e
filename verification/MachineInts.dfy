/** Fixed-width integers of the C++ program, as mathematical integers with explicit wrap-around. */
module MachineInts {

  const TWO31: int := 0x8000_0000
  const TWO32: int := 0x1_0000_0000
  const TWO56: int := 0x100_0000_0000_0000
  const TWO63: int := 0x8000_0000_0000_0000
  const TWO64: int := 0x1_0000_0000_0000_0000

  type byte = x: int | 0 <= x < 256

  /** `size_t`, `uint64_t`, `ino_t`, `unsigned long long`. */
  type u64 = x: int | 0 <= x < TWO64

  /** `off_t`, `ssize_t`, `int64_t`, `long long`. */
  type s64 = x: int | -TWO63 <= x < TWO63

  /** `uint32_t`. */
  type u32 = x: int | 0 <= x < TWO32

  /** `int`. */
  type s32 = x: int | -TWO31 <= x < TWO31

  function Min(a: nat, b: nat): nat {
    if a <= b then a else b
  }

  /** Conversion of any integer to an unsigned 64-bit one. */
  function U64(x: int): u64 {
    x % TWO64
  }

  /** Conversion to `uint32_t`. */
  function U32(x: int): u32 {
    x % TWO32
  }

  /** Conversion to a signed 64-bit integer, two's complement. */
  function S64(x: int): s64 {
    var u := x % TWO64;
    if u < TWO63 then u else u - TWO64
  }

  /** Conversion to `int`, two's complement. */
  function S32(x: int): s32 {
    var u := x % TWO32;
    if u < TWO31 then u else u - TWO32
  }

  // Wrapping early or late makes no difference.

  lemma WrapU64(x: int, a: int)
    ensures U64(U64(x) + a) == U64(x + a)
  {
  }

  lemma WrapU32(x: int, a: int)
    ensures U32(U32(x) + a) == U32(x + a)
  {
  }

  lemma WrapS64(x: int, a: int)
    ensures S64(S64(x) + a) == S64(x + a)
  {
  }

  /** Through a signed integer and back nothing is lost. */
  lemma ThereAndBack(x: int)
    ensures U64(S64(x)) == U64(x)
    ensures 0 <= x < TWO64 ==> U64(S64(x)) == x
  {
  }

  /** Bitwise exclusive or. */
  function Xor(a: nat, b: nat): nat
    decreases a + b
  {
    if a == 0 && b == 0 then 0
    else (if a % 2 == b % 2 then 0 else 1) + 2 * Xor(a / 2, b / 2)
  }

  function Pow2(e: nat): (r: int)
    ensures r >= 1
  {
    if e == 0 then 1 else 2 * Pow2(e - 1)
  }

  lemma {:induction false} Pow2Add(d: nat, e: nat)
    ensures Pow2(d + e) == Pow2(d) * Pow2(e)
  {
    if d > 0 {
      Pow2Add(d - 1, e);
      assert 2 * (Pow2(d - 1) * Pow2(e)) == (2 * Pow2(d - 1)) * Pow2(e);
    }
  }

  lemma Pow2Of64()
    ensures Pow2(64) == TWO64
  {
    assert Pow2(8) == 0x100;
    Pow2Add(8, 8);
    Pow2Add(16, 16);
    Pow2Add(32, 32);
  }

  /** Exclusive or with the same number twice gives the first one back. */
  lemma {:induction false} XorUndoes(a: nat, b: nat)
    ensures Xor(Xor(a, b), b) == a
    decreases a + b
  {
    if a != 0 || b != 0 {
      XorUndoes(a / 2, b / 2);
      assert Xor(a, b) / 2 == Xor(a / 2, b / 2);
      assert Xor(0, 0) == 0;
    }
  }

  lemma {:induction false} XorCommutes(a: nat, b: nat)
    ensures Xor(a, b) == Xor(b, a)
    decreases a + b
  {
    if a != 0 || b != 0 {
      XorCommutes(a / 2, b / 2);
    }
  }

  lemma {:induction false} XorFits(e: nat, a: nat, b: nat)
    requires a < Pow2(e) && b < Pow2(e)
    ensures Xor(a, b) < Pow2(e)
  {
    if e > 0 && (a != 0 || b != 0) {
      XorFits(e - 1, a / 2, b / 2);
    }
  }

  predicate Bit(x: nat, i: nat) {
    x / Pow2(i) % 2 == 1
  }

  lemma {:induction false} HalveBits(x: nat, i: nat)
    ensures Bit(x, i + 1) <==> Bit(x / 2, i)
  {
    var p := Pow2(i);
    assert x / (2 * p) == x / 2 / p by { DivideTwice(x, 2, p); }
  }

  lemma DivideTwice(x: nat, a: int, b: int)
    requires a > 0 && b > 0
    ensures x / (a * b) == x / a / b
  {
    var y := x / a;
    var q := y / b;
    var r := x % a + a * (y % b);
    assert x == a * y + x % a && y == b * q + y % b;
    assert a * (b * q) == (a * b) * q;
    assert x == (a * b) * q + r;
    assert a * (y % b) <= a * (b - 1) by { MulMonotone(a, y % b, b - 1); }
    assert a * (b - 1) == a * b - a;
    QuotientUnique(x, a * b, q, r);
  }

  lemma MulMonotone(a: int, x: int, y: int)
    requires a > 0 && x <= y
    ensures a * x <= a * y
  {
  }

  lemma QuotientUnique(x: nat, d: int, q: int, r: int)
    requires d > 0 && x == d * q + r && 0 <= r < d
    ensures x / d == q
  {
    var p, s := x / d, x % d;
    assert x == d * p + s;
    if p < q {
      MulMonotone(d, p + 1, q);
    }
    if q < p {
      MulMonotone(d, q + 1, p);
    }
  }

  /** Bit by bit: a bit of the result is set exactly where the operands differ. */
  lemma {:induction false} XorBits(a: nat, b: nat, i: nat)
    ensures Bit(Xor(a, b), i) <==> Bit(a, i) != Bit(b, i)
    decreases i
  {
    assert Xor(a, b) % 2 == (if a % 2 == b % 2 then 0 else 1) && Xor(a, b) / 2 == Xor(a / 2, b / 2) by {
      assert Xor(0, 0) == 0;
    }
    if i > 0 {
      HalveBits(a, i - 1);
      HalveBits(b, i - 1);
      HalveBits(Xor(a, b), i - 1);
      XorBits(a / 2, b / 2, i - 1);
    }
  }
}
