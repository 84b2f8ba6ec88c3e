/** The write throttle: how long a write sleeps to imitate a configured speed. */
module Throttle {

  /** Bytes per microsecond for a speed in MiB per second; 0 means unlimited. */
  function Rate(speedMiBs: nat): real {
    if speedMiBs > 0 then speedMiBs as real * 1048576.0 / 1000000.0 else 0.0
  }

  /** The sleep of one write, in whole microseconds, rounded down. */
  function DelayUs(rate: real, blen: nat): int {
    if rate > 0.0 then (blen as real / rate).Floor else 0
  }

  /**
   At the configured speed a write sleeps for the whole microseconds that its bytes take: d is the greatest
   number with d * speed * 2^20 bytes a million times no more than the bytes written; and not at all without one.
   */
  lemma SleepAtSpeed(speedMiBs: nat, blen: nat)
    ensures var d := DelayUs(Rate(speedMiBs), blen);
            && (speedMiBs == 0 ==> d == 0)
            && (speedMiBs > 0 ==>
                  d >= 0 && d * (speedMiBs * 1048576) <= blen * 1000000 < (d + 1) * (speedMiBs * 1048576))
  {
    if speedMiBs > 0 {
      var rate := Rate(speedMiBs);
      FloorAtRate(blen as real, rate);
      var d := DelayUs(rate, blen);
      InBytes(d, speedMiBs);
      InBytes(d + 1, speedMiBs);
    }
  }

  lemma FloorAtRate(x: real, rate: real)
    requires x >= 0.0 && rate > 0.0
    ensures var d := (x / rate).Floor; d >= 0 && d as real * rate <= x < (d + 1) as real * rate
  {
    var q := x / rate;
    Quotient(x, rate);
    var d := q.Floor;
    Between(x, rate, q, d as real, (d + 1) as real);
    if d < 0 {
      Between(x, rate, q, d as real, 0.0);
    }
  }

  lemma Quotient(x: real, rate: real)
    requires rate > 0.0
    ensures x / rate * rate == x
  {
  }

  lemma Between(x: real, rate: real, q: real, low: real, high: real)
    requires rate > 0.0 && q * rate == x && low <= q < high
    ensures low * rate <= x < high * rate
  {
    Scale(low, q, rate);
    Scale(q, high, rate);
  }

  lemma Scale(x: real, y: real, rate: real)
    requires rate > 0.0
    ensures x <= y ==> x * rate <= y * rate
    ensures x < y ==> x * rate < y * rate
  {
  }

  /** d microseconds at the configured speed, in millionths of a byte. */
  lemma InBytes(d: int, speedMiBs: nat)
    requires speedMiBs > 0
    ensures d as real * Rate(speedMiBs) * 1000000.0 == (d * (speedMiBs * 1048576)) as real
  {
    var n := speedMiBs * 1048576;
    assert Rate(speedMiBs) * 1000000.0 == n as real;
    assert d as real * Rate(speedMiBs) * 1000000.0 == d as real * n as real;
    ProductOfInts(d, n);
  }

  lemma ProductOfInts(a: int, b: int)
    ensures a as real * b as real == (a * b) as real
  {
  }

  function Bytes(writes: seq<nat>): nat {
    if writes == [] then 0 else Bytes(writes[..|writes| - 1]) + writes[|writes| - 1]
  }

  function TotalDelayUs(rate: real, writes: seq<nat>): int {
    if writes == [] then 0 else TotalDelayUs(rate, writes[..|writes| - 1]) + DelayUs(rate, writes[|writes| - 1])
  }

  lemma DivideSum(a: real, b: real, rate: real)
    requires rate > 0.0
    ensures (a + b) / rate == a / rate + b / rate
  {
  }

  /** A sequence of n writes sleeps for its bytes at the configured rate, less under n microseconds. */
  lemma {:induction false} ThrottleBound(rate: real, writes: seq<nat>)
    requires rate > 0.0
    ensures TotalDelayUs(rate, writes) as real <= Bytes(writes) as real / rate
    ensures writes != [] ==> Bytes(writes) as real / rate < (TotalDelayUs(rate, writes) + |writes|) as real
  {
    if writes != [] {
      var front, last := writes[..|writes| - 1], writes[|writes| - 1];
      ThrottleBound(rate, front);
      DivideSum(Bytes(front) as real, last as real, rate);
    }
  }

  /** The pieces of one write. */
  lemma {:induction false} PiecesNotSlower(rate: real, pieces: seq<nat>)
    ensures TotalDelayUs(rate, pieces) <= DelayUs(rate, Bytes(pieces))
  {
    if pieces == [] {
      assert rate > 0.0 ==> 0.0 / rate == 0.0;
    } else {
      var front, last := pieces[..|pieces| - 1], pieces[|pieces| - 1];
      PiecesNotSlower(rate, front);
      if rate > 0.0 {
        DivideSum(Bytes(front) as real, last as real, rate);
        FloorsAdd(Bytes(front) as real / rate, last as real / rate);
      }
    }
  }

  lemma FloorsAdd(x: real, y: real)
    ensures x.Floor + y.Floor <= (x + y).Floor
  {
  }

  /** The writes that were cut: each is all of its pieces. */
  function Wholes(cuts: seq<seq<nat>>): seq<nat> {
    if cuts == [] then [] else Wholes(cuts[..|cuts| - 1]) + [Bytes(cuts[|cuts| - 1])]
  }

  function Pieces(cuts: seq<seq<nat>>): seq<nat> {
    if cuts == [] then [] else Pieces(cuts[..|cuts| - 1]) + cuts[|cuts| - 1]
  }

  lemma {:induction false} DelayOfBoth(rate: real, a: seq<nat>, b: seq<nat>)
    ensures TotalDelayUs(rate, a + b) == TotalDelayUs(rate, a) + TotalDelayUs(rate, b)
    ensures Bytes(a + b) == Bytes(a) + Bytes(b)
  {
    if b == [] {
      assert a + b == a;
    } else {
      assert (a + b)[..|a + b| - 1] == a + b[..|b| - 1];
      DelayOfBoth(rate, a, b[..|b| - 1]);
    }
  }

  /** Cutting any or all of a sequence of writes into smaller ones writes as much and is never slower. */
  lemma {:induction false} SplittingNeverSlower(rate: real, cuts: seq<seq<nat>>)
    ensures Bytes(Pieces(cuts)) == Bytes(Wholes(cuts))
    ensures TotalDelayUs(rate, Pieces(cuts)) <= TotalDelayUs(rate, Wholes(cuts))
  {
    if cuts != [] {
      var front, last := cuts[..|cuts| - 1], cuts[|cuts| - 1];
      SplittingNeverSlower(rate, front);
      PiecesNotSlower(rate, last);
      DelayOfBoth(rate, Pieces(front), last);
      DelayOfBoth(rate, Wholes(front), [Bytes(last)]);
    }
  }
}
