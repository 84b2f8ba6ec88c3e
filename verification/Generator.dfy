/**
 The 64-bit linear congruential generator behind random reads, and why it is a good one: its
 multiplier is 1 modulo 4 and its increment is odd, so it runs through all 2^64 states before it
 repeats (Knuth, The Art of Computer Programming, volume 2, section 3.2.1.2, Theorem A).
 */
module Generator {
  import opened MachineInts

  const K: int := 6364136223846793005
  const C: int := 1442695040888963407

  function Next(s: int): u64 {
    (s * K + C) % TWO64
  }

  /** The state after n steps from s. */
  function State(n: nat, s: u64): u64 {
    if n == 0 then s else Next(State(n - 1, s))
  }

  /** The byte a state puts out: its top eight bits. */
  function TopByte(s: u64): byte {
    s / TWO56
  }

  /** The initial state of a random read: offset XOR inode. */
  function Seed(offset: nat, ino: nat): u64
    requires offset < TWO64 && ino < TWO64
  {
    Pow2Of64();
    XorFits(64, offset, ino);
    Xor(offset, ino)
  }

  function Pow(a: int, n: nat): int {
    if n == 0 then 1 else a * Pow(a, n - 1)
  }

  /** 1 + a + ... + a^(n-1), in Horner form. */
  function GeometricSum(a: int, n: nat): int {
    if n == 0 then 0 else a * GeometricSum(a, n - 1) + 1
  }

  // ---------------------------------------------------------------- remainders

  lemma MulAtLeast(d: int, t: int)
    requires d > 0 && t >= 1
    ensures d * t >= d
  {
  }

  /** Division with remainder has one answer. */
  lemma RemainderUnique(d: int, q: int, r: int)
    requires 0 <= r < d
    ensures (d * q + r) % d == r
  {
    var x := d * q + r;
    var t := q - x / d;
    assert d * t == x % d - r by { assert x == d * (x / d) + x % d; }
    if t >= 1 { MulAtLeast(d, t); }
    if t <= -1 { MulAtLeast(d, -t); }
  }

  lemma AddMultiple(d: int, x: int, k: int)
    requires d > 0
    ensures (x + d * k) % d == x % d
  {
    assert x + d * k == d * (x / d + k) + x % d by { assert x == d * (x / d) + x % d; }
    RemainderUnique(d, x / d + k, x % d);
  }

  lemma MulMinus(d: int, a: int, b: int)
    ensures d * (a - b) == d * a - d * b
  {
  }

  lemma RemainderOfDifference(d: int, r: int, t: int)
    requires 0 <= r < d && 0 <= t < d
    ensures (r - t) % d == 0 <==> r == t
  {
    if r >= t {
      RemainderUnique(d, 0, r - t);
    } else {
      RemainderUnique(d, -1, r - t + d);
    }
  }

  lemma EqualRemainders(d: int, x: int, y: int)
    requires d > 0
    ensures x % d == y % d <==> (x - y) % d == 0
  {
    var qx, qy, r, t := x / d, y / d, x % d, y % d;
    assert x == d * qx + r && y == d * qy + t;
    MulMinus(d, qx, qy);
    AddMultiple(d, r - t, qx - qy);
    RemainderOfDifference(d, r, t);
  }

  /** 2^e divides x. */
  predicate Divides(e: nat, x: int) {
    e == 0 || (x % 2 == 0 && Divides(e - 1, x / 2))
  }

  lemma {:induction false} DividesMeansNoRemainder(e: nat, x: int)
    ensures Divides(e, x) <==> x % Pow2(e) == 0
  {
    if e == 0 {
      RemainderUnique(1, x, 0);
    } else {
      DividesMeansNoRemainder(e - 1, x / 2);
      HalveRemainder(Pow2(e - 1), x);
    }
  }

  lemma HalveRemainder(p: int, x: int)
    requires p > 0
    ensures x % (2 * p) == 0 <==> x % 2 == 0 && (x / 2) % p == 0
  {
    var y := x / 2;
    var q, r := y / p, y % p;
    assert x == (2 * p) * q + (2 * r + x % 2) by {
      assert y == p * q + r;
      assert (2 * p) * q == 2 * (p * q);
    }
    RemainderUnique(2 * p, q, 2 * r + x % 2);
  }

  lemma OddTimes(x: int, m: int)
    requires m % 2 == 1
    ensures (x * m) % 2 == x % 2
  {
    var h := m / 2;
    assert x * m == 2 * (x * h) + x by { assert m == 2 * h + 1; }
  }

  /** An odd factor does not change divisibility by a power of two. */
  lemma {:induction false} OddFactor(e: nat, x: int, m: int)
    requires m % 2 == 1
    ensures Divides(e, x * m) <==> Divides(e, x)
  {
    if e > 0 {
      OddTimes(x, m);
      if x % 2 == 0 {
        var y := x / 2;
        OddFactor(e - 1, y, m);
        assert x * m == 2 * (y * m) by { assert x == 2 * y; }
      }
    }
  }

  // ---------------------------------------------------------------- geometric sums

  lemma TimesOneMore(d: int, h: int, x: int)
    ensures (d * h + 1) * x == d * (h * x) + x
  {
  }

  lemma SplitProduct(a: int, g: int, p: int, r: int)
    ensures a * (g * p + r) == g * (a * p) + a * r
  {
  }

  /** Multiplying by a number that is 1 modulo d keeps the remainder modulo d. */
  lemma UnitFactor(d: int, h: int, x: int)
    requires d > 0
    ensures ((d * h + 1) * x) % d == x % d
  {
    TimesOneMore(d, h, x);
    AddMultiple(d, x, h * x);
  }

  lemma {:induction false} PowMod4(a: int, n: nat)
    requires a % 4 == 1
    ensures Pow(a, n) % 4 == 1
  {
    if n > 0 {
      PowMod4(a, n - 1);
      var h := a / 4;
      assert a == 4 * h + 1;
      UnitFactor(4, h, Pow(a, n - 1));
    }
  }

  lemma {:induction false} SumParity(a: int, n: nat)
    requires a % 2 == 1
    ensures GeometricSum(a, n) % 2 == n % 2
  {
    if n > 0 {
      SumParity(a, n - 1);
      var h := a / 2;
      assert a == 2 * h + 1;
      UnitFactor(2, h, GeometricSum(a, n - 1));
    }
  }

  lemma {:induction false} SumSplit(a: int, m: nat, n: nat)
    ensures GeometricSum(a, m + n) == GeometricSum(a, m) * Pow(a, n) + GeometricSum(a, n)
  {
    if n > 0 {
      SumSplit(a, m, n - 1);
      SplitProduct(a, GeometricSum(a, m), Pow(a, n - 1), GeometricSum(a, n - 1));
    }
  }

  /** (a - 1)(1 + a + ... + a^(n-1)) = a^n - 1. */
  lemma {:induction false} SumTelescopes(a: int, n: nat)
    ensures (a - 1) * GeometricSum(a, n) == Pow(a, n) - 1
  {
    if n > 0 {
      SumTelescopes(a, n - 1);
      var g := GeometricSum(a, n - 1);
      assert (a - 1) * (a * g + 1) == a * ((a - 1) * g) + (a - 1);
    }
  }

  lemma SumOfDouble(a: int, m: nat, h: int)
    requires 1 + Pow(a, m) == 2 * h
    ensures GeometricSum(a, 2 * m) == 2 * (GeometricSum(a, m) * h)
  {
    SumSplit(a, m, m);
    var g := GeometricSum(a, m);
    assert m + m == 2 * m;
    assert g * Pow(a, m) + g == g * (1 + Pow(a, m)) == g * (2 * h) == 2 * (g * h);
  }

  lemma Doubling(e: nat, x: int, g: int, odd: int, m: int)
    requires e > 0 && odd % 2 == 1 && x == 2 * (g * odd)
    requires Divides(e - 1, g) <==> Divides(e - 1, m)
    ensures Divides(e, x) <==> Divides(e, 2 * m)
  {
    OddFactor(e - 1, g, odd);
    assert x / 2 == g * odd;
  }

  lemma HalfOfPowPlusOne(a: int, m: nat) returns (odd: int)
    requires a % 4 == 1
    ensures odd % 2 == 1 && 1 + Pow(a, m) == 2 * odd
  {
    PowMod4(a, m);
    odd := (1 + Pow(a, m)) / 2;
  }

  lemma EvenCount(a: int, m: nat) returns (odd: int)
    requires a % 4 == 1
    ensures odd % 2 == 1 && GeometricSum(a, 2 * m) == 2 * (GeometricSum(a, m) * odd)
  {
    odd := HalfOfPowPlusOne(a, m);
    SumOfDouble(a, m, odd);
  }

  /** The geometric sum of n terms and n itself are divisible by the same powers of two. */
  lemma {:induction false} SumValuation(a: int, n: nat, e: nat)
    requires a % 4 == 1
    ensures Divides(e, GeometricSum(a, n)) <==> Divides(e, n)
    decreases e
  {
    if e > 0 {
      SumParity(a, n);
      if n % 2 == 0 {
        var m := n / 2;
        var odd := EvenCount(a, m);
        SumValuation(a, m, e - 1);
        Doubling(e, GeometricSum(a, 2 * m), GeometricSum(a, m), odd, m);
      }
    }
  }

  // ---------------------------------------------------------------- the generator

  lemma NextOfRemainder(x: int)
    ensures Next(x % TWO64) == Next(x)
  {
    var q := x / TWO64;
    assert x * K + C == (x % TWO64) * K + C + TWO64 * (q * K) by { assert x == TWO64 * q + x % TWO64; }
    AddMultiple(TWO64, (x % TWO64) * K + C, q * K);
  }

  lemma {:induction false} ClosedForm(n: nat, s: u64)
    ensures State(n, s) == (Pow(K, n) * s + C * GeometricSum(K, n)) % TWO64
  {
    if n > 0 {
      ClosedForm(n - 1, s);
      var p, g := Pow(K, n - 1), GeometricSum(K, n - 1);
      NextOfRemainder(p * s + C * g);
      calc {
        (p * s + C * g) * K + C;
        (p * s) * K + C * (K * g + 1);
        { assert (p * s) * K == (K * p) * s; }
        Pow(K, n) * s + C * GeometricSum(K, n);
      }
    } else {
      assert Pow(K, 0) == 1 && GeometricSum(K, 0) == 0;
    }
  }

  lemma {:induction false} StateSplit(m: nat, n: nat, s: u64)
    ensures State(m + n, s) == State(n, State(m, s))
  {
    if n > 0 {
      StateSplit(m, n - 1, s);
    }
  }

  /** a^n s + C(1 + ... + a^(n-1)) - s, factored. */
  lemma Displacement(a: int, c: int, n: nat, s: int)
    ensures Pow(a, n) * s + c * GeometricSum(a, n) - s == GeometricSum(a, n) * ((a - 1) * s + c)
  {
    SumTelescopes(a, n);
    var p, g := Pow(a, n), GeometricSum(a, n);
    assert p * s - s == (p - 1) * s == ((a - 1) * g) * s == g * ((a - 1) * s);
    assert g * ((a - 1) * s + c) == g * ((a - 1) * s) + c * g;
  }

  lemma FactorIsOdd(s: int)
    ensures ((K - 1) * s + C) % 2 == 1
  {
  }

  lemma DividesWord(x: int)
    ensures Divides(64, x) <==> x % TWO64 == 0
  {
    Pow2Of64();
    DividesMeansNoRemainder(64, x);
  }

  lemma ReturnCondition(x: int, s: u64, g: int, f: int, n: nat)
    requires x - s == g * f && f % 2 == 1
    requires Divides(64, g) <==> Divides(64, n)
    ensures x % TWO64 == s <==> n % TWO64 == 0
  {
    EqualRemainders(TWO64, x, s);
    DividesWord(g * f);
    OddFactor(64, g, f);
    DividesWord(n);
  }

  /** The generator is back where it started after n steps exactly when n is a multiple of 2^64. */
  lemma Period(n: nat, s: u64)
    ensures State(n, s) == s <==> n % TWO64 == 0
  {
    ClosedForm(n, s);
    Displacement(K, C, n, s);
    FactorIsOdd(s);
    SumValuation(K, n, 64);
    ReturnCondition(Pow(K, n) * s + C * GeometricSum(K, n), s, GeometricSum(K, n), (K - 1) * s + C, n);
  }

  lemma NextInjective(s: u64, t: u64)
    requires Next(s) == Next(t)
    ensures s == t
  {
    EqualRemainders(TWO64, s * K + C, t * K + C);
    assert (s * K + C) - (t * K + C) == (s - t) * K;
    DividesWord((s - t) * K);
    OddFactor(64, s - t, K);
    DividesWord(s - t);
  }

  /** Two runs that ever agree at the same step started from the same state. */
  lemma {:induction false} StateInjective(n: nat, s: u64, t: u64)
    requires State(n, s) == State(n, t)
    ensures s == t
  {
    if n > 0 {
      NextInjective(State(n - 1, s), State(n - 1, t));
      StateInjective(n - 1, s, t);
    }
  }

  /** No state repeats within 2^64 steps. */
  lemma StatesDistinct(i: nat, j: nat, s: u64)
    requires i < j < i + TWO64
    ensures State(i, s) != State(j, s)
  {
    StateSplit(i, j - i, s);
    Period(j - i, State(i, s));
    RemainderUnique(TWO64, 0, j - i);
  }

  ghost predicate Reaches(s: u64, v: int, n: nat) {
    exists i: nat :: i < n && State(i, s) == v
  }

  ghost function Visited(n: nat, s: u64): set<int> {
    if n == 0 then {} else Visited(n - 1, s) + {State(n - 1, s)}
  }

  lemma {:induction false} VisitedAre(n: nat, s: u64, v: int)
    ensures v in Visited(n, s) <==> Reaches(s, v, n)
  {
    if n > 0 {
      VisitedAre(n - 1, s, v);
    }
  }

  lemma {:induction false} VisitedSize(n: nat, s: u64)
    requires n <= TWO64
    ensures |Visited(n, s)| == n
  {
    if n > 0 {
      VisitedSize(n - 1, s);
      VisitedAre(n - 1, s, State(n - 1, s));
      if Reaches(s, State(n - 1, s), n - 1) {
        var i: nat :| i < n - 1 && State(i, s) == State(n - 1, s);
        StatesDistinct(i, n - 1, s);
      }
    }
  }

  /** A set of n numbers below n holds all of them. */
  lemma {:induction false} Pigeonhole(a: set<int>, n: nat)
    requires forall x :: x in a ==> 0 <= x < n
    requires |a| >= n
    ensures forall x :: 0 <= x < n ==> x in a
  {
    if n > 0 {
      var b := a - {n - 1};
      assert n - 1 !in a ==> b == a;
      Pigeonhole(b, n - 1);
      if n - 1 !in a {
        AtMost(a, n - 1);
      }
    }
  }

  lemma {:induction false} AtMost(a: set<int>, n: nat)
    requires forall x :: x in a ==> 0 <= x < n
    ensures |a| <= n
  {
    if n > 0 {
      AtMost(a - {n - 1}, n - 1);
    } else {
      assert forall x :: x !in a;
      assert a == {};
    }
  }

  /** Full period: from any start, every 64-bit state comes up exactly once in 2^64 steps. */
  lemma FullPeriod(s: u64, v: u64)
    ensures exists n: nat :: n < TWO64 && State(n, s) == v
    ensures forall i: nat, j: nat :: i < TWO64 && j < TWO64 && State(i, s) == v && State(j, s) == v ==> i == j
  {
    VisitedSize(TWO64, s);
    forall x | x in Visited(TWO64, s) ensures 0 <= x < TWO64 {
      VisitedAre(TWO64, s, x);
    }
    Pigeonhole(Visited(TWO64, s), TWO64);
    VisitedAre(TWO64, s, v);
    forall i: nat, j: nat | i < TWO64 && j < TWO64 && State(i, s) == v && State(j, s) == v
      ensures i == j
    {
      if i < j { StatesDistinct(i, j, s); }
      if j < i { StatesDistinct(j, i, s); }
    }
  }

  /** Reads of one file at two offsets never fall into step: their states differ at every step. */
  lemma OffsetsNeverMerge(ino: u64, o1: nat, o2: nat, n: nat)
    requires o1 < TWO64 && o2 < TWO64 && o1 != o2
    ensures State(n, Seed(o1, ino)) != State(n, Seed(o2, ino))
  {
    XorUndoes(o1, ino);
    XorUndoes(o2, ino);
    if State(n, Seed(o1, ino)) == State(n, Seed(o2, ino)) {
      StateInjective(n, Seed(o1, ino), Seed(o2, ino));
    }
  }

  /** Two files read at one offset never fall into step either. */
  lemma FilesNeverMerge(ino1: u64, ino2: u64, offset: nat, n: nat)
    requires offset < TWO64 && ino1 != ino2
    ensures State(n, Seed(offset, ino1)) != State(n, Seed(offset, ino2))
  {
    XorCommutes(offset, ino1);
    XorCommutes(offset, ino2);
    OffsetsNeverMerge(offset, ino1, ino2, n);
  }
}
