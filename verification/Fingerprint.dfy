/**
 How much of a random read gives its stream away. A read shows only the top byte of each 64-bit
 state, so different states can look alike for a while: nine bytes may agree. Ten never do. The proof
 is the lattice argument behind the spectral test (Knuth, The Art of Computer Programming, volume 2,
 section 3.3.4): ten integer relations with small coefficients hold, modulo 2^64, between ten
 successive differences of any two streams, and small differences cannot satisfy them all.
 */
module Fingerprint {
  import opened MachineInts
  import opened Generator

  datatype Ten = Ten(x0: int, x1: int, x2: int, x3: int, x4: int, x5: int, x6: int, x7: int, x8: int, x9: int)

  function Dot(c: Ten, d: Ten): int {
    c.x0 * d.x0 + c.x1 * d.x1 + c.x2 * d.x2 + c.x3 * d.x3 + c.x4 * d.x4 + c.x5 * d.x5 + c.x6 * d.x6 +
    c.x7 * d.x7 + c.x8 * d.x8 + c.x9 * d.x9
  }

  // Relations between the powers of K: the dot product of each with 1, K, ..., K^9 is a multiple of 2^64. The
  // absolute values of the coefficients add up to at most 256 in the first seven, and to less than 512 in the others.

  const R0: Ten := Ten(11, 15, -11, -38, -23, 30, -12, 12, -6, -14)
  const R1: Ten := Ten(43, -23, -19, -5, -3, 39, 19, -9, -12, 2)
  const R2: Ten := Ten(5, 4, 23, -81, -17, 4, -27, 2, 19, 16)
  const R3: Ten := Ten(28, 4, -43, -5, -36, 9, 65, 11, 18, -3)
  const R4: Ten := Ten(31, 12, -8, -1, -14, -3, -126, 5, 24, 20)
  const R5: Ten := Ten(13, -20, 39, -12, 5, -5, -10, 75, -50, 25)
  const R6: Ten := Ten(7, 3, 37, -26, 42, 1, 26, 24, 40, -50)
  const R7: Ten := Ten(42, 66, 15, -19, 5, 3, -17, -28, -71, 4)
  const R8: Ten := Ten(8, -55, -11, 23, -22, -10, 2, -28, -1, -114)
  const R9: Ten := Ten(9, 0, 91, 63, 0, 0, 0, -28, 15, 78)

  /** Each component of d is the one before it times K, modulo 2^64: d.x0 times the powers of K, reduced. */
  predicate Follows(d: Ten, r: Ten) {
    && d.x1 == 6364136223846793005 * d.x0 + TWO64 * r.x1
    && d.x2 == 7520897724310334953 * d.x0 + TWO64 * r.x2
    && d.x3 == 793875393913628917 * d.x0 + TWO64 * r.x3
    && d.x4 == -338549647893938671 * d.x0 + TWO64 * r.x4
    && d.x5 == 7596774164172298237 * d.x0 + TWO64 * r.x5
    && d.x6 == -1113230577661674887 * d.x0 + TWO64 * r.x6
    && d.x7 == 8758975453663301189 * d.x0 + TWO64 * r.x7
    && d.x8 == -5359887879000474335 * d.x0 + TWO64 * r.x8
    && d.x9 == 6584243485182795213 * d.x0 + TWO64 * r.x9
  }

  /** Every component is a difference of two numbers with the same top byte. */
  predicate Small(d: Ten) {
    -TWO56 < d.x0 < TWO56 && -TWO56 < d.x1 < TWO56 && -TWO56 < d.x2 < TWO56 && -TWO56 < d.x3 < TWO56 &&
    -TWO56 < d.x4 < TWO56 && -TWO56 < d.x5 < TWO56 && -TWO56 < d.x6 < TWO56 && -TWO56 < d.x7 < TWO56 &&
    -TWO56 < d.x8 < TWO56 && -TWO56 < d.x9 < TWO56
  }

  function Abs(x: int): nat {
    if x < 0 then -x else x
  }

  function Norm(c: Ten): nat {
    Abs(c.x0) + Abs(c.x1) + Abs(c.x2) + Abs(c.x3) + Abs(c.x4) + Abs(c.x5) + Abs(c.x6) + Abs(c.x7) + Abs(c.x8) +
    Abs(c.x9)
  }

  lemma ProductSign(x: int, y: int)
    requires x >= 0 && y >= 0
    ensures x * y >= 0
  {
  }

  lemma TermBounded(c: int, x: int)
    requires -TWO56 < x < TWO56
    ensures -(Abs(c) * (TWO56 - 1)) <= c * x <= Abs(c) * (TWO56 - 1)
  {
    ProductSign(Abs(c), TWO56 - 1 - x);
    ProductSign(Abs(c), TWO56 - 1 + x);
  }

  lemma DotBounded(c: Ten, d: Ten)
    requires Small(d)
    ensures -(Norm(c) * (TWO56 - 1)) <= Dot(c, d) <= Norm(c) * (TWO56 - 1)
  {
    TermBounded(c.x0, d.x0);
    TermBounded(c.x1, d.x1);
    TermBounded(c.x2, d.x2);
    TermBounded(c.x3, d.x3);
    TermBounded(c.x4, d.x4);
    TermBounded(c.x5, d.x5);
    TermBounded(c.x6, d.x6);
    TermBounded(c.x7, d.x7);
    TermBounded(c.x8, d.x8);
    TermBounded(c.x9, d.x9);
  }

  lemma Relation0(d: Ten, r: Ten) returns (m: int)
    requires Follows(d, r) && Small(d)
    ensures Dot(R0, d) == TWO64 * m && m == 0
  {
    m := 15 * d.x0 + 15 * r.x1 - 11 * r.x2 - 38 * r.x3 - 23 * r.x4 + 30 * r.x5 - 12 * r.x6
        + 12 * r.x7 - 6 * r.x8 - 14 * r.x9;
    DotBounded(R0, d);
  }

  lemma Relation1(d: Ten, r: Ten) returns (m: int)
    requires Follows(d, r) && Small(d)
    ensures Dot(R1, d) == TWO64 * m && m == 0
  {
    m := -1 * d.x0 - 23 * r.x1 - 19 * r.x2 - 5 * r.x3 - 3 * r.x4 + 39 * r.x5 + 19 * r.x6 - 9 * r.x7
        - 12 * r.x8 + 2 * r.x9;
    DotBounded(R1, d);
  }

  lemma Relation2(d: Ten, r: Ten) returns (m: int)
    requires Follows(d, r) && Small(d)
    ensures Dot(R2, d) == TWO64 * m && m == 0
  {
    m := 12 * d.x0 + 4 * r.x1 + 23 * r.x2 - 81 * r.x3 - 17 * r.x4 + 4 * r.x5 - 27 * r.x6 + 2 * r.x7
        + 19 * r.x8 + 16 * r.x9;
    DotBounded(R2, d);
  }

  lemma Relation3(d: Ten, r: Ten) returns (m: int)
    requires Follows(d, r) && Small(d)
    ensures Dot(R3, d) == TWO64 * m && m == 0
  {
    m := -17 * d.x0 + 4 * r.x1 - 43 * r.x2 - 5 * r.x3 - 36 * r.x4 + 9 * r.x5 + 65 * r.x6
        + 11 * r.x7 + 18 * r.x8 - 3 * r.x9;
    DotBounded(R3, d);
  }

  lemma Relation4(d: Ten, r: Ten) returns (m: int)
    requires Follows(d, r) && Small(d)
    ensures Dot(R4, d) == TWO64 * m && m == 0
  {
    m := 10 * d.x0 + 12 * r.x1 - 8 * r.x2 - r.x3 - 14 * r.x4 - 3 * r.x5 - 126 * r.x6 + 5 * r.x7
        + 24 * r.x8 + 20 * r.x9;
    DotBounded(R4, d);
  }

  lemma Relation5(d: Ten, r: Ten) returns (m: int)
    requires Follows(d, r) && Small(d)
    ensures Dot(R5, d) == TWO64 * m && m == 0
  {
    m := 66 * d.x0 - 20 * r.x1 + 39 * r.x2 - 12 * r.x3 + 5 * r.x4 - 5 * r.x5 - 10 * r.x6
        + 75 * r.x7 - 50 * r.x8 + 25 * r.x9;
    DotBounded(R5, d);
  }

  lemma Relation6(d: Ten, r: Ten) returns (m: int)
    requires Follows(d, r) && Small(d)
    ensures Dot(R6, d) == TWO64 * m && m == 0
  {
    m := -5 * d.x0 + 3 * r.x1 + 37 * r.x2 - 26 * r.x3 + 42 * r.x4 + r.x5 + 26 * r.x6 + 24 * r.x7
        + 40 * r.x8 - 50 * r.x9;
    DotBounded(R6, d);
  }

  lemma Relation7(d: Ten, r: Ten) returns (m: int)
    requires Follows(d, r) && Small(d)
    ensures Dot(R7, d) == TWO64 * m && -1 <= m <= 1
  {
    m := 39 * d.x0 + 66 * r.x1 + 15 * r.x2 - 19 * r.x3 + 5 * r.x4 + 3 * r.x5 - 17 * r.x6
        - 28 * r.x7 - 71 * r.x8 + 4 * r.x9;
    DotBounded(R7, d);
  }

  lemma Relation8(d: Ten, r: Ten) returns (m: int)
    requires Follows(d, r) && Small(d)
    ensures Dot(R8, d) == TWO64 * m && -1 <= m <= 1
  {
    m := -80 * d.x0 - 55 * r.x1 - 11 * r.x2 + 23 * r.x3 - 22 * r.x4 - 10 * r.x5 + 2 * r.x6
        - 28 * r.x7 - r.x8 - 114 * r.x9;
    DotBounded(R8, d);
  }

  lemma Relation9(d: Ten, r: Ten) returns (m: int)
    requires Follows(d, r) && Small(d)
    ensures Dot(R9, d) == TWO64 * m && -1 <= m <= 1
  {
    m := 50 * d.x0 + 91 * r.x2 + 63 * r.x3 - 28 * r.x7 + 15 * r.x8 + 78 * r.x9;
    DotBounded(R9, d);
  }

  // The relations form a basis, so they can be solved for the components of d.

  lemma Solve0(d: Ten)
    ensures TWO64 * d.x0 ==
        -223438898239970506 * Dot(R0, d) + 143228942065058021 * Dot(R1, d) + 42636854413512988 * Dot(R2, d)
        + 166850942779137282 * Dot(R3, d) + 120423662715831495 * Dot(R4, d) + 48518253469400220 * Dot(R5, d)
        + 88660359421626761 * Dot(R6, d) + 106786058393576805 * Dot(R7, d) + 36012397511229672 * Dot(R8, d)
        + 11456643089321525 * Dot(R9, d)
  {
  }

  lemma Solve1(d: Ten)
    ensures TWO64 * d.x1 ==
        184047019717540478 * Dot(R0, d) - 178224377473039551 * Dot(R1, d) - 116894322885974548 * Dot(R2, d)
        + 71438319079462746 * Dot(R3, d) + 22751276911235067 * Dot(R4, d) - 61257318060962964 * Dot(R5, d)
        + 71101315438453781 * Dot(R6, d) + 98194441813028289 * Dot(R7, d) - 65025514930241336 * Dot(R8, d)
        + 23634844491385425 * Dot(R9, d)
  {
  }

  lemma Solve4(d: Ten)
    ensures TWO64 * d.x4 ==
        -218626978259719530 * Dot(R0, d) + 172396825024120117 * Dot(R1, d) - 49172739678262564 * Dot(R2, d)
        - 152116957433861854 * Dot(R3, d) + 4468524232508215 * Dot(R4, d) - 34526945206727076 * Dot(R5, d)
        + 129455347144478745 * Dot(R6, d) + 16141532183966133 * Dot(R7, d) - 106396765043622040 * Dot(R8, d)
        - 102851092616673403 * Dot(R9, d)
  {
  }

  predicate Related(d: Ten, a: int, b: int, c: int) {
    && Dot(R0, d) == 0 && Dot(R1, d) == 0 && Dot(R2, d) == 0 && Dot(R3, d) == 0
    && Dot(R4, d) == 0 && Dot(R5, d) == 0 && Dot(R6, d) == 0
    && Dot(R7, d) == TWO64 * a && Dot(R8, d) == TWO64 * b && Dot(R9, d) == TWO64 * c
  }

  lemma VanishingRelations(d: Ten, r: Ten)
    requires Follows(d, r) && Small(d)
    ensures Dot(R0, d) == 0 && Dot(R1, d) == 0 && Dot(R2, d) == 0 && Dot(R3, d) == 0
  {
    var m0 := Relation0(d, r);
    var m1 := Relation1(d, r);
    var m2 := Relation2(d, r);
    var m3 := Relation3(d, r);
  }

  lemma MoreVanishingRelations(d: Ten, r: Ten)
    requires Follows(d, r) && Small(d)
    ensures Dot(R4, d) == 0 && Dot(R5, d) == 0 && Dot(R6, d) == 0
  {
    var m4 := Relation4(d, r);
    var m5 := Relation5(d, r);
    var m6 := Relation6(d, r);
  }

  lemma AllRelated(d: Ten, r: Ten) returns (a: int, b: int, c: int)
    requires Follows(d, r) && Small(d)
    ensures Related(d, a, b, c) && -1 <= a <= 1 && -1 <= b <= 1 && -1 <= c <= 1
  {
    VanishingRelations(d, r);
    MoreVanishingRelations(d, r);
    a := Relation7(d, r);
    b := Relation8(d, r);
    c := Relation9(d, r);
  }

  lemma Components(d: Ten, a: int, b: int, c: int)
    requires Related(d, a, b, c)
    ensures d.x0 == 106786058393576805 * a + 36012397511229672 * b + 11456643089321525 * c
    ensures d.x1 == 98194441813028289 * a - 65025514930241336 * b + 23634844491385425 * c
    ensures d.x4 == 16141532183966133 * a - 106396765043622040 * b - 102851092616673403 * c
  {
    Solve0(d);
    Solve1(d);
    Solve4(d);
  }

  /** What is left when seven relations vanish and three are -1, 0 or 1 times 2^64. */
  lemma NoneSmall(d: Ten, a: int, b: int, c: int)
    requires Small(d) && -1 <= a <= 1 && -1 <= b <= 1 && -1 <= c <= 1
    requires d.x0 == 106786058393576805 * a + 36012397511229672 * b + 11456643089321525 * c
    requires d.x1 == 98194441813028289 * a - 65025514930241336 * b + 23634844491385425 * c
    requires d.x4 == 16141532183966133 * a - 106396765043622040 * b - 102851092616673403 * c
    ensures d.x0 == 0
  {
  }

  lemma SmallMultiplesVanish(d: Ten, r: Ten)
    requires Follows(d, r) && Small(d)
    ensures d.x0 == 0
  {
    var a, b, c := AllRelated(d, r);
    Components(d, a, b, c);
    NoneSmall(d, a, b, c);
  }

  // ---------------------------------------------------------------- the generator

  /** Two states drift apart by a factor K at each step, modulo 2^64. */
  lemma NextDifference(x: u64, y: u64, a: int, b: int, q: int, z: int, r: int) returns (r': int)
    requires y - x == a * z + TWO64 * r && a * K == b + TWO64 * q
    ensures Next(y) - Next(x) == b * z + TWO64 * r'
  {
    var carry := (x * K + C) / TWO64 - (y * K + C) / TWO64;
    assert Next(y) - Next(x) == (y - x) * K + TWO64 * carry;
    Term(K, a, z, r);
    Distribute(b, TWO64 * q, z);
    r' := q * z + K * r + carry;
  }

  lemma Term(c: int, a: int, s: int, r: int)
    ensures (a * s + TWO64 * r) * c == (a * c) * s + TWO64 * (c * r)
  {
  }

  lemma Distribute(x: int, y: int, s: int)
    ensures (x + y) * s == x * s + y * s
  {
  }

  /** How far apart two streams are after n steps. */
  function Apart(s: u64, t: u64, n: nat): int {
    State(n, t) - State(n, s)
  }

  lemma ApartNext(s: u64, t: u64, n: nat, a: int, b: int, q: int, z: int, r: int) returns (r': int)
    requires Apart(s, t, n) == a * z + TWO64 * r && a * K == b + TWO64 * q
    ensures Apart(s, t, n + 1) == b * z + TWO64 * r'
  {
    r' := NextDifference(State(n, s), State(n, t), a, b, q, z, r);
  }

  /** The same, for ten steps from n. */
  function Differences(s: u64, t: u64, n: nat): Ten {
    Ten(Apart(s, t, n), Apart(s, t, n + 1), Apart(s, t, n + 2), Apart(s, t, n + 3), Apart(s, t, n + 4),
        Apart(s, t, n + 5), Apart(s, t, n + 6), Apart(s, t, n + 7), Apart(s, t, n + 8), Apart(s, t, n + 9))
  }

  lemma DifferencesFollow(s: u64, t: u64, n: nat) returns (r: Ten)
    ensures Follows(Differences(s, t, n), r)
  {
    var z := Apart(s, t, n);
    var r1 := ApartNext(s, t, n, 1, 6364136223846793005, 0, z, 0);
    var r2 := ApartNext(s, t, n + 1, 6364136223846793005, 7520897724310334953, 2195630281085919242, z, r1);
    var r3 := ApartNext(s, t, n + 2, 7520897724310334953, 793875393913628917, 2594713595628320003, z, r2);
    var r4 := ApartNext(s, t, n + 3, 793875393913628917, -338549647893938671, 273887420535474916, z, r3);
    var r5 := ApartNext(s, t, n + 4, -338549647893938671, 7596774164172298237, -116799803213137837, z, r4);
    var r6 := ApartNext(s, t, n + 5, 7596774164172298237, -1113230577661674887, 2620891006532516867, z, r5);
    var r7 := ApartNext(s, t, n + 6, -1113230577661674887, 8758975453663301189, -384065123714043389, z, r6);
    var r8 := ApartNext(s, t, n + 7, 8758975453663301189, -5359887879000474335, 3021851051096292455, z, r7);
    var r9 := ApartNext(s, t, n + 8, -5359887879000474335, 6584243485182795213, -1849164083927397693, z, r8);
    r := Ten(0, r1, r2, r3, r4, r5, r6, r7, r8, r9);
  }

  /** The streams from both states put out the same byte at step n. */
  predicate SameByte(s: u64, t: u64, n: nat) {
    TopByte(State(n, s)) == TopByte(State(n, t))
  }

  lemma SameByteIsClose(s: u64, t: u64, n: nat)
    requires SameByte(s, t, n)
    ensures -TWO56 < Apart(s, t, n) < TWO56
  {
  }

  lemma SmallDifferences(s: u64, t: u64, n: nat)
    requires forall i :: n <= i < n + 10 ==> SameByte(s, t, i)
    ensures Small(Differences(s, t, n))
  {
    forall i | n <= i < n + 10 ensures -TWO56 < Apart(s, t, i) < TWO56 {
      SameByteIsClose(s, t, i);
    }
  }

  /** Ten successive bytes, wherever they are taken, tell one stream from every other. */
  lemma TenBytesTell(s: u64, t: u64, n: nat)
    ensures (forall i :: n <= i < n + 10 ==> SameByte(s, t, i)) <==> s == t
  {
    if forall i :: n <= i < n + 10 ==> SameByte(s, t, i) {
      SmallDifferences(s, t, n);
      var r := DifferencesFollow(s, t, n);
      SmallMultiplesVanish(Differences(s, t, n), r);
      StateInjective(n, s, t);
    }
  }

  const LOOKALIKE1: u64 := 9675814779826185343
  const LOOKALIKE2: u64 := 12691217775406023384

  /** Nine bytes do not: these two streams differ first in their tenth byte. */
  lemma NineBytesDoNotTell()
    ensures forall i :: 1 <= i < 10 ==> SameByte(LOOKALIKE1, LOOKALIKE2, i)
    ensures !SameByte(LOOKALIKE1, LOOKALIKE2, 10)
  {
    assert State(1, LOOKALIKE1) == 13261152800073673890;
    assert State(2, LOOKALIKE1) == 16789279347392772041;
    assert State(3, LOOKALIKE1) == 2436764289281672868;
    assert State(4, LOOKALIKE1) == 7482303693388433443;
    assert State(5, LOOKALIKE1) == 4291179722241281142;
    assert State(6, LOOKALIKE1) == 7943779120189488141;
    assert State(7, LOOKALIKE1) == 12839083469974831768;
    assert State(8, LOOKALIKE1) == 16830413128703401479;
    assert State(9, LOOKALIKE1) == 6884089984287637898;
    assert State(10, LOOKALIKE1) == 14444405686232104081;
    assert State(1, LOOKALIKE2) == 13330286955833862471;
    assert State(2, LOOKALIKE2) == 16717897534256446410;
    assert State(3, LOOKALIKE2) == 2383482319377660369;
    assert State(4, LOOKALIKE2) == 7428556930711296524;
    assert State(5, LOOKALIKE2) == 4262364503290939755;
    assert State(6, LOOKALIKE2) == 7977569239516069406;
    assert State(7, LOOKALIKE2) == 12860111160898834069;
    assert State(8, LOOKALIKE2) == 16838710944621083776;
    assert State(9, LOOKALIKE2) == 6904922475569128399;
    assert State(10, LOOKALIKE2) == 10757026765785988530;
  }
}
