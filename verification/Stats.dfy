/** Per-transfer statistics and the server-wide totals they are folded into. */
module Stats {
  import opened MachineInts

  datatype Transfer = Transfer(
    path: string,
    durationUs: s64,
    bytesWritten: s64,
    bytesRead: s64,
    writeOps: u32,
    writeAioOps: u32,
    readOps: u32,
    errors: u32,
    wasWrite: bool
  )

  datatype Snapshot = Snapshot(
    transfers: u64,
    writeTransfers: u64,
    readTransfers: u64,
    bytesWritten: s64,
    bytesRead: s64,
    errors: u64,
    sumWriteMiBs: real,
    sumReadMiBs: real
  )

  const Zero: Snapshot := Snapshot(0, 0, 0, 0, 0, 0, 0.0, 0.0)

  function ThroughputMiBs(bytes: s64, durationUs: s64): real {
    if durationUs <= 0 || bytes <= 0 then 0.0
    else bytes as real / durationUs as real * 1000000.0 / 1048576.0
  }

  /** Bytes over time: MiB per second, but none for a transfer of no time or no bytes. */
  lemma ThroughputIs(bytes: s64, durationUs: s64)
    ensures bytes > 0 && durationUs > 0 ==>
              ThroughputMiBs(bytes, durationUs) * (durationUs as real / 1000000.0) == bytes as real / 1048576.0
    ensures bytes <= 0 || durationUs <= 0 ==> ThroughputMiBs(bytes, durationUs) == 0.0
  {
    if bytes > 0 && durationUs > 0 {
      DivideBack(bytes as real, durationUs as real);
      var q := bytes as real / durationUs as real;
      Regroup(q, durationUs as real);
    }
  }

  lemma DivideBack(x: real, y: real)
    requires y > 0.0
    ensures x / y * y == x
  {
  }

  lemma Regroup(q: real, d: real)
    ensures q * 1000000.0 / 1048576.0 * (d / 1000000.0) == q * d / 1048576.0
  {
  }

  function Count(x: u64, n: nat): u64 {
    U64(x + n)
  }

  function CountIf(x: u64, c: bool): u64 {
    if c then U64(x + 1) else x
  }

  function Total(x: s64, n: s64): s64 {
    S64(x + n)
  }

  /** One transfer's contribution: bytes written and read, errors, and the two rates. */
  function Add(s: Snapshot, written: s64, read: s64, errors: nat, writeMiBs: real, readMiBs: real): Snapshot {
    Snapshot(
      Count(s.transfers, 1),
      CountIf(s.writeTransfers, written > 0),
      CountIf(s.readTransfers, read > 0),
      Total(s.bytesWritten, written),
      Total(s.bytesRead, read),
      Count(s.errors, errors),
      if written > 0 then s.sumWriteMiBs + writeMiBs else s.sumWriteMiBs,
      if read > 0 then s.sumReadMiBs + readMiBs else s.sumReadMiBs)
  }

  function Record(s: Snapshot, t: Transfer): Snapshot {
    Add(s, t.bytesWritten, t.bytesRead, t.errors,
        ThroughputMiBs(t.bytesWritten, t.durationUs), ThroughputMiBs(t.bytesRead, t.durationUs))
  }

  /** The totals after a sequence of transfers, oldest first. */
  function Fold(s: Snapshot, ts: seq<Transfer>): Snapshot
    decreases ts
  {
    if ts == [] then s else Fold(Record(s, ts[0]), ts[1..])
  }

  class StatsManager {
    var transfers: u64
    var writeTransfers: u64
    var readTransfers: u64
    var bytesWritten: s64
    var bytesRead: s64
    var errors: u64
    var sumWriteMiBs: real
    var sumReadMiBs: real
    /** Every transfer recorded so far. */
    ghost var log: seq<Transfer>

    ghost predicate Valid()
      reads this
    {
      Value() == Fold(Zero, log)
    }

    function Value(): Snapshot
      reads this
    {
      Snapshot(transfers, writeTransfers, readTransfers, bytesWritten, bytesRead, errors, sumWriteMiBs, sumReadMiBs)
    }

    constructor ()
      ensures Valid() && log == []
    {
      transfers, writeTransfers, readTransfers, bytesWritten, bytesRead, errors := 0, 0, 0, 0, 0, 0;
      sumWriteMiBs, sumReadMiBs, log := 0.0, 0.0, [];
    }

    method RecordTransfer(t: Transfer)
      requires Valid()
      modifies this
      ensures Valid() && log == old(log) + [t]
      ensures Value() == Record(old(Value()), t)
    {
      var writeMiBs := ThroughputMiBs(t.bytesWritten, t.durationUs);
      var readMiBs := ThroughputMiBs(t.bytesRead, t.durationUs);
      transfers := Count(transfers, 1);
      bytesWritten := Total(bytesWritten, t.bytesWritten);
      bytesRead := Total(bytesRead, t.bytesRead);
      errors := Count(errors, t.errors);
      if t.bytesWritten > 0 {
        sumWriteMiBs := sumWriteMiBs + writeMiBs;
        writeTransfers := Count(writeTransfers, 1);
      }
      if t.bytesRead > 0 {
        sumReadMiBs := sumReadMiBs + readMiBs;
        readTransfers := Count(readTransfers, 1);
      }
      assert Value() == Record(old(Value()), t);
      FoldLast(Zero, log, t);
      log := log + [t];
    }

    method GetSnapshot() returns (s: Snapshot)
      requires Valid()
      ensures s == Fold(Zero, log)
    {
      s := Snapshot(transfers, writeTransfers, readTransfers, bytesWritten, bytesRead, errors,
                    sumWriteMiBs, sumReadMiBs);
    }
  }

  lemma {:induction false} FoldSplit(s: Snapshot, a: seq<Transfer>, b: seq<Transfer>)
    ensures Fold(s, a + b) == Fold(Fold(s, a), b)
    decreases a
  {
    if a == [] {
      assert a + b == b;
    } else {
      assert (a + b)[1..] == a[1..] + b;
      FoldSplit(Record(s, a[0]), a[1..], b);
    }
  }

  lemma FoldLast(s: Snapshot, ts: seq<Transfer>, t: Transfer)
    ensures Fold(s, ts + [t]) == Record(Fold(s, ts), t)
  {
    FoldSplit(s, ts, [t]);
    assert [t][1..] == [];
  }

  lemma CountsCommute(x: u64, a: nat, b: nat)
    ensures Count(Count(x, a), b) == Count(Count(x, b), a)
  {
    WrapU64(x + a, b);
    WrapU64(x + b, a);
  }

  lemma CountIfsCommute(x: u64, c: bool, d: bool)
    ensures CountIf(CountIf(x, c), d) == CountIf(CountIf(x, d), c)
  {
  }

  lemma TotalsCommute(x: s64, a: s64, b: s64)
    ensures Total(Total(x, a), b) == Total(Total(x, b), a)
  {
    WrapS64(x + a, b);
    WrapS64(x + b, a);
  }

  lemma AddsCommute(s: Snapshot, w1: s64, r1: s64, e1: nat, x1: real, y1: real,
                    w2: s64, r2: s64, e2: nat, x2: real, y2: real)
    ensures Add(Add(s, w1, r1, e1, x1, y1), w2, r2, e2, x2, y2) == Add(Add(s, w2, r2, e2, x2, y2), w1, r1, e1, x1, y1)
  {
    CountsCommute(s.errors, e1, e2);
    CountIfsCommute(s.writeTransfers, w1 > 0, w2 > 0);
    CountIfsCommute(s.readTransfers, r1 > 0, r2 > 0);
    TotalsCommute(s.bytesWritten, w1, w2);
    TotalsCommute(s.bytesRead, r1, r2);
  }

  lemma RecordsCommute(s: Snapshot, x: Transfer, y: Transfer)
    ensures Record(Record(s, x), y) == Record(Record(s, y), x)
  {
    AddsCommute(s, x.bytesWritten, x.bytesRead, x.errors,
                ThroughputMiBs(x.bytesWritten, x.durationUs), ThroughputMiBs(x.bytesRead, x.durationUs),
                y.bytesWritten, y.bytesRead, y.errors,
                ThroughputMiBs(y.bytesWritten, y.durationUs), ThroughputMiBs(y.bytesRead, y.durationUs));
  }

  lemma {:induction false} RecordLate(s: Snapshot, x: Transfer, ts: seq<Transfer>)
    ensures Fold(Record(s, x), ts) == Record(Fold(s, ts), x)
    decreases ts
  {
    if ts != [] {
      RecordsCommute(s, x, ts[0]);
      RecordLate(Record(s, ts[0]), x, ts[1..]);
    }
  }

  /** A transfer may be moved to the front. */
  lemma MoveToFront(s: Snapshot, front: seq<Transfer>, x: Transfer, back: seq<Transfer>)
    ensures Fold(s, front + [x] + back) == Fold(Record(s, x), front + back)
  {
    FoldSplit(s, front, [x] + back);
    assert front + ([x] + back) == front + [x] + back;
    assert ([x] + back)[1..] == back;
    RecordLate(s, x, front);
    FoldSplit(Record(s, x), front, back);
  }

  lemma SplitAt(b: seq<Transfer>, x: Transfer) returns (front: seq<Transfer>, back: seq<Transfer>)
    requires x in b
    ensures b == front + [x] + back
    ensures multiset(b) == multiset{x} + multiset(front + back)
  {
    var k :| 0 <= k < |b| && b[k] == x;
    front, back := b[..k], b[k + 1..];
    assert b == front + [x] + back;
  }

  /** The totals do not depend on the order in which transfers finish. */
  lemma {:induction false} OrderIndependent(s: Snapshot, a: seq<Transfer>, b: seq<Transfer>)
    requires multiset(a) == multiset(b)
    ensures Fold(s, a) == Fold(s, b)
    decreases a
  {
    if a == [] {
      assert |multiset(b)| == 0;
      assert b == [];
    } else {
      var x := a[0];
      assert x in multiset(a);
      var front, back := SplitAt(b, x);
      assert multiset(a) == multiset{x} + multiset(a[1..]) by { assert a == [x] + a[1..]; }
      assert multiset(a[1..]) == multiset(a) - multiset{x};
      assert multiset(front + back) == multiset(b) - multiset{x};
      OrderIndependent(Record(s, x), a[1..], front + back);
      MoveToFront(s, front, x, back);
    }
  }

  function SumWritten(ts: seq<Transfer>): int {
    if ts == [] then 0 else SumWritten(ts[..|ts| - 1]) + ts[|ts| - 1].bytesWritten
  }

  function SumRead(ts: seq<Transfer>): int {
    if ts == [] then 0 else SumRead(ts[..|ts| - 1]) + ts[|ts| - 1].bytesRead
  }

  /** How many of the transfers moved any bytes, by direction. */
  function Writing(ts: seq<Transfer>): nat {
    if ts == [] then 0 else Writing(ts[..|ts| - 1]) + if ts[|ts| - 1].bytesWritten > 0 then 1 else 0
  }

  function Reading(ts: seq<Transfer>): nat {
    if ts == [] then 0 else Reading(ts[..|ts| - 1]) + if ts[|ts| - 1].bytesRead > 0 then 1 else 0
  }

  /** What the byte totals count: every byte of every transfer, as a signed 64-bit integer. */
  lemma {:induction false} BytesAreSums(ts: seq<Transfer>)
    ensures Fold(Zero, ts).bytesWritten == S64(SumWritten(ts))
    ensures Fold(Zero, ts).bytesRead == S64(SumRead(ts))
  {
    if ts != [] {
      var before, t := ts[..|ts| - 1], ts[|ts| - 1];
      BytesAreSums(before);
      assert ts == before + [t];
      FoldLast(Zero, before, t);
      WrapS64(SumWritten(before), t.bytesWritten);
      WrapS64(SumRead(before), t.bytesRead);
    }
  }

  /** What the transfer counts count: all transfers, and those that moved bytes in a direction. */
  lemma {:induction false} CountsAreSizes(ts: seq<Transfer>)
    ensures Fold(Zero, ts).transfers == U64(|ts|)
    ensures Fold(Zero, ts).writeTransfers == U64(Writing(ts))
    ensures Fold(Zero, ts).readTransfers == U64(Reading(ts))
  {
    if ts != [] {
      var before, t := ts[..|ts| - 1], ts[|ts| - 1];
      CountsAreSizes(before);
      assert ts == before + [t];
      FoldLast(Zero, before, t);
      WrapU64(|before|, 1);
      WrapU64(Writing(before), 1);
      WrapU64(Reading(before), 1);
    }
  }

  function SumErrors(ts: seq<Transfer>): nat {
    if ts == [] then 0 else SumErrors(ts[..|ts| - 1]) + ts[|ts| - 1].errors
  }

  /** MiB per second of some bytes in some microseconds, if both are positive. */
  function Speed(bytes: s64, us: s64): real {
    if bytes > 0 && us > 0 then (bytes as real / 1048576.0) / (us as real / 1000000.0) else 0.0
  }

  function SumSpeeds(ts: seq<Transfer>, written: bool): real {
    if ts == [] then 0.0
    else
      var t := ts[|ts| - 1];
      SumSpeeds(ts[..|ts| - 1], written) + Speed(if written then t.bytesWritten else t.bytesRead, t.durationUs)
  }

  lemma SpeedIsThroughput(bytes: s64, us: s64)
    ensures Speed(bytes, us) == ThroughputMiBs(bytes, us)
  {
    if bytes > 0 && us > 0 {
      ThroughputIs(bytes, us);
      var seconds := us as real / 1000000.0;
      QuotientIs(bytes as real / 1048576.0, seconds, ThroughputMiBs(bytes, us));
    }
  }

  lemma QuotientIs(x: real, y: real, q: real)
    requires y > 0.0 && q * y == x
    ensures x / y == q
  {
  }

  /** What the error count and the rates are: sums over the transfers, of errors and of MiB per second. */
  lemma {:induction false} RatesAreSums(ts: seq<Transfer>)
    ensures Fold(Zero, ts).errors == U64(SumErrors(ts))
    ensures Fold(Zero, ts).sumWriteMiBs == SumSpeeds(ts, true)
    ensures Fold(Zero, ts).sumReadMiBs == SumSpeeds(ts, false)
  {
    if ts != [] {
      var before, t := ts[..|ts| - 1], ts[|ts| - 1];
      RatesAreSums(before);
      assert ts == before + [t];
      FoldLast(Zero, before, t);
      WrapU64(SumErrors(before), t.errors);
      SpeedIsThroughput(t.bytesWritten, t.durationUs);
      SpeedIsThroughput(t.bytesRead, t.durationUs);
    }
  }
}
