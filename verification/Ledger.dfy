/**
 Conservation of bytes. Whatever reads return and writes accept ends up in the server's totals or
 is still counted by an open handle; what is lost on the way is exactly what a handle had counted
 when it was opened again without a Close, and what was written through a handle with no file.
 */
module Ledger {
  import opened MachineInts
  import opened Session
  import opened World
  import opened ReadEngine
  import opened Invariants
  import N = Namespace
  import Stats

  datatype Direction = Reading | Writing

  function Recorded(s: Stats.Snapshot, d: Direction): int {
    if d.Reading? then s.bytesRead else s.bytesWritten
  }

  /** A handle whose counters will be reported by its Close. */
  predicate Live(hd: Handle) {
    hd.pc.Resting? && hd.stub.Some?
  }

  function Pending(hd: Handle, d: Direction): int {
    if !Live(hd) then 0 else if d.Reading? then hd.readBytes else hd.writeBytes + hd.writeBytesAio
  }

  function SumPending(hs: seq<Handle>, d: Direction): int {
    if hs == [] then 0 else SumPending(hs[..|hs| - 1], d) + Pending(hs[|hs| - 1], d)
  }

  function Balance(w: World, d: Direction): int {
    Recorded(w.stats, d) + SumPending(w.handles, d)
  }

  /**
   Bytes this event hands to, or takes from, the caller, as its result says; a write's result is the
   size_t that was asked for, as a signed number.
   */
  ghost function Moved(w: World, e: Event, d: Direction): nat
    requires Sound(w)
  {
    if !(e.Do? && e.h < |w.handles| && w.handles[e.h].pc.Resting?) then 0
    else match (d, e.call)
      case (Reading, Read(_, _)) => if Result(w, e) > 0 then Result(w, e) else 0
      case (Reading, ReadV(_)) => if Result(w, e) > 0 then Result(w, e) else 0
      case (Writing, Write(_)) => U64(Result(w, e))
      case (Writing, WriteAio(_)) => U64(Result(w, e))
      case _ => 0
  }

  /** Bytes that this event makes sure no total will ever show. */
  ghost function Lost(w: World, e: Event, d: Direction): int
    requires Sound(w)
  {
    if !(e.Do? && e.h < |w.handles| && w.handles[e.h].pc.Resting?) then 0
    else if e.call.OpenCall? && Result(w, e) >= 0 then Pending(w.handles[e.h], d)
    else if w.handles[e.h].stub.None? then Moved(w, e, d)
    else 0
  }

  ghost function TotalMoved(w: World, es: seq<Event>, d: Direction): nat
    requires Sound(w)
    decreases es
  {
    if es == [] then 0 else Moved(w, es[0], d) + TotalMoved(Step(w, es[0]), es[1..], d)
  }

  ghost function TotalLost(w: World, es: seq<Event>, d: Direction): int
    requires Sound(w)
    decreases es
  {
    if es == [] then 0 else Lost(w, es[0], d) + TotalLost(Step(w, es[0]), es[1..], d)
  }

  predicate Solvent(hd: Handle, d: Direction) {
    Live(hd) ==> if d.Reading? then hd.readBytes >= 0 else hd.writeBytes >= 0 && hd.writeBytesAio >= 0
  }

  /** No counter has gone negative, as a signed counter does when it overflows. */
  predicate AllSolvent(w: World, d: Direction) {
    Recorded(w.stats, d) >= 0 && forall h :: 0 <= h < |w.handles| ==> Solvent(w.handles[h], d)
  }

  lemma {:induction false} SumUpdate(hs: seq<Handle>, h: nat, hd: Handle, d: Direction)
    requires h < |hs|
    ensures SumPending(hs[h := hd], d) == SumPending(hs, d) - Pending(hs[h], d) + Pending(hd, d)
  {
    var front := hs[..|hs| - 1];
    if h == |hs| - 1 {
      assert hs[h := hd][..|hs| - 1] == front;
    } else {
      assert hs[h := hd][..|hs| - 1] == front[h := hd];
      SumUpdate(front, h, hd, d);
    }
  }

  lemma {:induction false} SumHoldsEach(hs: seq<Handle>, h: nat, d: Direction)
    requires h < |hs| && forall i :: 0 <= i < |hs| ==> Solvent(hs[i], d)
    ensures 0 <= Pending(hs[h], d) <= SumPending(hs, d)
  {
    var front := hs[..|hs| - 1];
    assert forall i :: 0 <= i < |front| ==> front[i] == hs[i];
    SumSolvent(front, d);
    if h < |hs| - 1 {
      SumHoldsEach(front, h, d);
      assert Solvent(hs[|hs| - 1], d);
    }
  }

  lemma {:induction false} SumSolvent(hs: seq<Handle>, d: Direction)
    requires forall i :: 0 <= i < |hs| ==> Solvent(hs[i], d)
    ensures SumPending(hs, d) >= 0
  {
    if hs != [] {
      var front := hs[..|hs| - 1];
      assert forall i :: 0 <= i < |front| ==> front[i] == hs[i];
      SumSolvent(front, d);
      assert Solvent(hs[|hs| - 1], d);
    }
  }

  lemma SmallStays(x: int)
    requires 0 <= x < TWO63
    ensures S64(x) == x
  {
  }

  /** One call, seen from its handle: what it had pending and what it moves is pending, recorded or lost. */
  lemma CallBalances(w: World, h: nat, c: Call, d: Direction)
    requires Sound(w) && h < |w.handles| && Solvent(w.handles[h], d) && Recorded(w.stats, d) >= 0
    requires Recorded(w.stats, d) + Pending(w.handles[h], d) + Moved(w, Do(h, c), d) < TWO63
    ensures var hd, after := w.handles[h], DoStep(w, h, c).after;
            && Recorded(after.stats, d) + Pending(after.hd, d) + Lost(w, Do(h, c), d)
               == Recorded(w.stats, d) + Pending(hd, d) + Moved(w, Do(h, c), d)
            && Solvent(after.hd, d) && Recorded(after.stats, d) >= 0
  {
    var hd := w.handles[h];
    if hd.pc.Resting? {
      match c
      case Read(offset, blen) => ReadBalances(w, h, c, d);
      case ReadV(segs) => ReadBalances(w, h, c, d);
      case Write(blen) => WriteBalances(w, h, c, d);
      case WriteAio(blen) => WriteBalances(w, h, c, d);
      case CloseUpdate(durationUs) => CloseBalances(w, h, c, d);
      case _ =>
    }
  }

  lemma ReadBalances(w: World, h: nat, c: Call, d: Direction)
    requires Sound(w) && h < |w.handles| && (c.Read? || c.ReadV?) && w.handles[h].pc.Resting?
    requires Solvent(w.handles[h], d) && Recorded(w.stats, d) >= 0
    requires Recorded(w.stats, d) + Pending(w.handles[h], d) + Moved(w, Do(h, c), d) < TWO63
    ensures var hd, after := w.handles[h], DoStep(w, h, c).after;
            && after.stats == w.stats && Solvent(after.hd, d)
            && Pending(after.hd, d) + Lost(w, Do(h, c), d) == Pending(hd, d) + Moved(w, Do(h, c), d)
  {
    var hd := w.handles[h];
    IoIs(At(w, h), c);
    if d.Reading? && hd.stub.Some? {
      if c.ReadV? {
        TotalFits(hd.view, c.segs);
      }
      SmallStays(hd.readBytes + Moved(w, Do(h, c), d));
    }
  }

  lemma WriteBalances(w: World, h: nat, c: Call, d: Direction)
    requires Sound(w) && h < |w.handles| && (c.Write? || c.WriteAio?) && w.handles[h].pc.Resting?
    requires Solvent(w.handles[h], d) && Recorded(w.stats, d) >= 0
    requires Recorded(w.stats, d) + Pending(w.handles[h], d) + Moved(w, Do(h, c), d) < TWO63
    ensures var hd, after := w.handles[h], DoStep(w, h, c).after;
            && after.stats == w.stats && Solvent(after.hd, d)
            && Pending(after.hd, d) + Lost(w, Do(h, c), d) == Pending(hd, d) + Moved(w, Do(h, c), d)
  {
    var hd := w.handles[h];
    IoIs(At(w, h), c);
    ThereAndBack(c.blen);
    if d.Writing? && hd.stub.Some? {
      SmallStays(c.blen);
      SmallStays((if c.Write? then hd.writeBytes else hd.writeBytesAio) + c.blen);
    }
  }

  lemma CloseBalances(w: World, h: nat, c: Call, d: Direction)
    requires Sound(w) && h < |w.handles| && c.CloseUpdate? && w.handles[h].pc.Resting?
    requires Solvent(w.handles[h], d) && Recorded(w.stats, d) >= 0
    requires Recorded(w.stats, d) + Pending(w.handles[h], d) < TWO63
    ensures var hd, after := w.handles[h], DoStep(w, h, c).after;
            && Recorded(after.stats, d) == Recorded(w.stats, d) + Pending(hd, d)
            && Pending(after.hd, d) == 0
  {
    var hd := w.handles[h];
    if hd.stub.Some? {
      SmallStays(Pending(hd, d));
      SmallStays(Recorded(w.stats, d) + Pending(hd, d));
    }
  }

  lemma StepBalances(w: World, e: Event, d: Direction)
    requires Sound(w) && AllSolvent(w, d) && Balance(w, d) + Moved(w, e, d) < TWO63
    ensures AllSolvent(Step(w, e), d) && Lost(w, e, d) >= 0
    ensures Balance(Step(w, e), d) + Lost(w, e, d) == Balance(w, d) + Moved(w, e, d)
  {
    if e.NewFile? {
      assert (w.handles + [Fresh])[..|w.handles|] == w.handles;
    } else if e.Do? && e.h < |w.handles| {
      SumHoldsEach(w.handles, e.h, d);
      CallBalances(w, e.h, e.call, d);
      SumUpdate(w.handles, e.h, DoStep(w, e.h, e.call).after.hd, d);
    }
  }

  /** Over any run that moves less than 2^63 bytes, every byte is recorded, pending or lost. */
  lemma {:induction false} RunBalances(w: World, es: seq<Event>, d: Direction)
    requires Sound(w) && AllSolvent(w, d) && Balance(w, d) + TotalMoved(w, es, d) < TWO63
    ensures AllSolvent(Run(w, es), d) && TotalLost(w, es, d) >= 0
    ensures Balance(Run(w, es), d) + TotalLost(w, es, d) == Balance(w, d) + TotalMoved(w, es, d)
    decreases es
  {
    if es != [] {
      StepBalances(w, es[0], d);
      RunBalances(Step(w, es[0]), es[1..], d);
    }
  }

  /** A client that closes a handle before reusing it, and writes only through open ones. */
  predicate Careful(w: World, e: Event) {
    e.Do? && e.h < |w.handles| && w.handles[e.h].pc.Resting? ==>
      && (e.call.OpenCall? ==> w.handles[e.h].stub.None?)
      && (e.call.Write? || e.call.WriteAio? ==> w.handles[e.h].stub.Some?)
  }

  ghost predicate AllCareful(w: World, es: seq<Event>)
    requires Sound(w)
    decreases es
  {
    es == [] || (Careful(w, es[0]) && AllCareful(Step(w, es[0]), es[1..]))
  }

  lemma CarefulLosesNothing(w: World, e: Event, d: Direction)
    requires Sound(w) && Careful(w, e)
    ensures Lost(w, e, d) == 0
  {
    if e.Do? && e.h < |w.handles| && w.handles[e.h].pc.Resting? && w.handles[e.h].stub.None? {
      if e.call.Read? || e.call.ReadV? {
        IoIs(At(w, e.h), e.call);
      }
    }
  }

  lemma {:induction false} CarefulRunLosesNothing(w: World, es: seq<Event>, d: Direction)
    requires Sound(w) && AllCareful(w, es)
    ensures TotalLost(w, es, d) == 0
    decreases es
  {
    if es != [] {
      CarefulLosesNothing(w, es[0], d);
      CarefulRunLosesNothing(Step(w, es[0]), es[1..], d);
    }
  }

  /** A careful run adds to the balance exactly the bytes it moves. */
  lemma CarefulRunBalances(w: World, es: seq<Event>, d: Direction)
    requires Sound(w) && AllSolvent(w, d) && AllCareful(w, es) && Balance(w, d) + TotalMoved(w, es, d) < TWO63
    ensures Balance(Run(w, es), d) == Balance(w, d) + TotalMoved(w, es, d)
  {
    RunBalances(w, es, d);
    CarefulRunLosesNothing(w, es, d);
  }

  /** A server that has moved nothing yet, whatever files it has. */
  ghost predicate Unused(w: World) {
    Sound(w) && w.stats == Stats.Zero && w.handles == []
  }

  /** A server that has just started is one. */
  lemma StartIsUnused()
    ensures Unused(Start)
  {
  }

  /**
   Byte conservation: over any careful run of an unused server that moves less than 2^63 bytes in a
   direction, the bytes all calls returned or accepted are the recorded total plus what open
   handles have counted.
   */
  lemma BytesConserved(w: World, es: seq<Event>, d: Direction)
    requires Unused(w) && AllCareful(w, es) && TotalMoved(w, es, d) < TWO63
    ensures var w' := Run(w, es);
            TotalMoved(w, es, d) == Recorded(w'.stats, d) + SumPending(w'.handles, d)
  {
    assert Balance(w, d) == 0;
    CarefulRunBalances(w, es, d);
  }

  // ---------------------------------------------------------------- operation counts

  datatype Kind = SyncWrite | AioWrite | AnyRead

  function Ops(hd: Handle, k: Kind): u32 {
    match k case SyncWrite => hd.writeOps case AioWrite => hd.writeAioOps case AnyRead => hd.readOps
  }

  /** How many operations of a kind the event makes handle h count: a read of no bytes is none. */
  function OpsBy(w: World, e: Event, h: nat, k: Kind): nat
    requires h < |w.handles|
  {
    if !(e.Do? && e.h == h) then 0
    else match (k, e.call)
      case (SyncWrite, Write(_)) => 1
      case (AioWrite, WriteAio(_)) => 1
      case (AnyRead, Read(offset, blen)) => if S64(Clamp(w.handles[h].view, offset, blen)) > 0 then 1 else 0
      case (AnyRead, ReadV(segs)) => PositiveSegments(segs)
      case _ => 0
  }

  ghost function TotalOps(w: World, es: seq<Event>, h: nat, k: Kind): nat
    requires Sound(w) && h < |w.handles|
    decreases es
  {
    if es == [] then 0 else OpsBy(w, es[0], h, k) + TotalOps(Step(w, es[0]), es[1..], h, k)
  }

  lemma StepCountsOps(w: World, e: Event, h: nat, k: Kind)
    requires Sound(w) && h < |w.handles| && Live(w.handles[h]) && LeavesOpen(e, h)
    ensures Live(Step(w, e).handles[h])
    ensures Ops(Step(w, e).handles[h], k) == U32(Ops(w.handles[h], k) + OpsBy(w, e, h, k))
  {
    if e.Do? && e.h == h {
      IoIs(At(w, h), e.call);
    }
  }

  /** Handle h is open and has counted n operations of the kind, modulo 2^32. */
  ghost predicate Counted(w: World, h: nat, k: Kind, n: nat) {
    h < |w.handles| && Live(w.handles[h]) && Ops(w.handles[h], k) == U32(n)
  }

  lemma CountedStep(w: World, e: Event, h: nat, k: Kind, n: nat)
    requires Sound(w) && Counted(w, h, k, n) && LeavesOpen(e, h)
    ensures Counted(Step(w, e), h, k, n + OpsBy(w, e, h, k))
  {
    StepCountsOps(w, e, h, k);
    WrapU32(n, OpsBy(w, e, h, k));
  }

  /** An open handle goes on counting from where it is. */
  lemma {:induction false} RunCountsOps(w: World, es: seq<Event>, h: nat, k: Kind, n: nat, sum: nat)
    requires Sound(w) && Counted(w, h, k, n) && sum == n + TotalOps(w, es, h, k)
    requires forall i :: 0 <= i < |es| ==> LeavesOpen(es[i], h)
    ensures Counted(Run(w, es), h, k, sum)
    decreases es
  {
    if es != [] {
      assert LeavesOpen(es[0], h);
      CountedStep(w, es[0], h, k, n);
      RunCountsOps(Step(w, es[0]), es[1..], h, k, n + OpsBy(w, es[0], h, k), sum);
    }
  }

  function ReportedOps(t: Stats.Transfer, k: Kind): u32 {
    match k case SyncWrite => t.writeOps case AioWrite => t.writeAioOps case AnyRead => t.readOps
  }

  /** From its open on, what a handle's Close would report is the number of operations of each kind. */
  lemma SessionReportsOps(w: World, h: nat, es: seq<Event>, k: Kind, durationUs: s64)
    requires Sound(w) && h < |w.handles| && w.handles[h].pc.Found? && w.handles[h].stub.Some?
    requires forall i :: 0 <= i < |es| ==> LeavesOpen(es[i], h)
    ensures var w1 := Step(w, Do(h, OpenCache));
            ReportedOps(Report(Run(w1, es).handles[h], durationUs), k) == U32(TotalOps(w1, es, h, k))
  {
    var w1 := Step(w, Do(h, OpenCache));
    assert Counted(w1, h, k, 0);
    RunCountsOps(w1, es, h, k, 0, TotalOps(w1, es, h, k));
  }

  /** What an open handle will report besides its counters; a handle with a record makes no errors. */
  ghost predicate Labelled(w: World, h: nat, path: string, wasWrite: bool) {
    && h < |w.handles| && Live(w.handles[h])
    && w.handles[h].reportPath == path && w.handles[h].wasWrite == wasWrite && w.handles[h].errors == 0
  }

  lemma LabelledStep(w: World, e: Event, h: nat, path: string, wasWrite: bool)
    requires Sound(w) && Labelled(w, h, path, wasWrite) && LeavesOpen(e, h)
    ensures Labelled(Step(w, e), h, path, wasWrite)
  {
  }

  lemma {:induction false} LabelStays(w: World, es: seq<Event>, h: nat, path: string, wasWrite: bool)
    requires Sound(w) && Labelled(w, h, path, wasWrite) && forall i :: 0 <= i < |es| ==> LeavesOpen(es[i], h)
    ensures Labelled(Run(w, es), h, path, wasWrite)
    decreases es
  {
    if es != [] {
      assert LeavesOpen(es[0], h);
      LabelledStep(w, es[0], h, path, wasWrite);
      LabelStays(Step(w, es[0]), es[1..], h, path, wasWrite);
    }
  }

  lemma CacheLabels(w: World, h: nat, w1: World)
    requires Sound(w) && h < |w.handles| && w.handles[h].pc.Found? && w.handles[h].stub.Some?
    requires w1 == Step(w, Do(h, OpenCache))
    ensures Sound(w1) && Labelled(w1, h, w.handles[h].path, !N.IsReadOnly(w.handles[h].pc.flags))
  {
  }

  /** The report names the path that was opened, says whether it was for writing, gives the time and no errors. */
  lemma SessionReportsItself(w: World, h: nat, w1: World, es: seq<Event>, durationUs: s64)
    requires Sound(w) && h < |w.handles| && w.handles[h].pc.Found? && w.handles[h].stub.Some?
    requires w1 == Step(w, Do(h, OpenCache)) && forall i :: 0 <= i < |es| ==> LeavesOpen(es[i], h)
    ensures Sound(w1) && h < |Run(w1, es).handles|
    ensures var t := Report(Run(w1, es).handles[h], durationUs);
            && t.path == w.handles[h].path && (t.wasWrite <==> !N.IsReadOnly(w.handles[h].pc.flags))
            && t.durationUs == durationUs && t.errors == 0
  {
    CacheLabels(w, h, w1);
    LabelStays(w1, es, h, w.handles[h].path, !N.IsReadOnly(w.handles[h].pc.flags));
  }

  // ---------------------------------------------------------------- snapshots

  ghost predicate Reporting(w: World, e: Event) {
    e.Do? && e.h < |w.handles| && Live(w.handles[e.h]) && e.call.CloseUpdate?
  }

  /** The transfers reported during a run, in order. */
  ghost function Reports(w: World, es: seq<Event>): seq<Stats.Transfer>
    requires Sound(w)
    decreases es
  {
    if es == [] then []
    else
      var rest := Reports(Step(w, es[0]), es[1..]);
      if Reporting(w, es[0]) then [Report(w.handles[es[0].h], es[0].call.durationUs)] + rest else rest
  }

  lemma OnlyCloseReports(w: World, e: Event)
    requires Sound(w)
    ensures Step(w, e).stats == if Reporting(w, e) then Stats.Record(w.stats, Report(w.handles[e.h], e.call.durationUs))
                                else w.stats
  {
  }

  lemma FoldFirst(s: Stats.Snapshot, t: Stats.Transfer, ts: seq<Stats.Transfer>)
    ensures Stats.Fold(s, [t] + ts) == Stats.Fold(Stats.Record(s, t), ts)
  {
    assert ([t] + ts)[1..] == ts;
  }

  /** At any moment the totals are the fold of the transfers reported so far. */
  lemma {:induction false} TotalsAreReports(w: World, es: seq<Event>)
    requires Sound(w)
    ensures Run(w, es).stats == Stats.Fold(w.stats, Reports(w, es))
    decreases es
  {
    if es != [] {
      var w' := Step(w, es[0]);
      TotalsAreReports(w', es[1..]);
      OnlyCloseReports(w, es[0]);
      if Reporting(w, es[0]) {
        FoldFirst(w.stats, Report(w.handles[es[0].h], es[0].call.durationUs), Reports(w', es[1..]));
      }
    }
  }

  // ---------------------------------------------------------------- the error count

  /** Errors are only counted while a handle has no record, and opening starts from zero. */
  predicate ErrorFree(hd: Handle) {
    hd.stub.Some? && !hd.pc.Found? ==> hd.errors == 0
  }

  ghost predicate NoErrors(w: World) {
    w.stats.errors == 0 && forall h :: 0 <= h < |w.handles| ==> ErrorFree(w.handles[h])
  }

  lemma CallCountsNoErrors(l: Local, c: Call)
    requires Good(l) && ErrorFree(l.hd) && l.stats.errors == 0
    ensures ErrorFree(Perform(l, c).after.hd) && Perform(l, c).after.stats.errors == 0
  {
    if c.CloseUpdate? && Live(l.hd) {
      assert Report(l.hd, c.durationUs).errors == 0;
    }
  }

  lemma {:induction false} RunCountsNoErrors(w: World, es: seq<Event>)
    requires Sound(w) && NoErrors(w)
    ensures NoErrors(Run(w, es))
    decreases es
  {
    if es != [] {
      var e := es[0];
      if e.Do? && e.h < |w.handles| {
        CallCountsNoErrors(At(w, e.h), e.call);
      }
      RunCountsNoErrors(Step(w, e), es[1..]);
    }
  }

  /**
   The server's error total stays zero: a call counts an error only when the handle has no record,
   and a handle without a record never reports.
   */
  lemma ErrorsAreNeverReported(w: World, es: seq<Event>)
    requires Unused(w)
    ensures Run(w, es).stats.errors == 0
  {
    RunCountsNoErrors(w, es);
  }
}
