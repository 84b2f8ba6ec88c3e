/**
 The write flag of a record, over any run and without any assumption on who interferes: what puts it up
 and down, when the close of a session stores the session's bytes, and how a reader can spoil both.
 */
module WriteFlag {
  import opened MachineInts
  import opened Session
  import opened World
  import opened Invariants
  import opened RoundTrip
  import N = Namespace

  predicate Up(w: World, i: nat) {
    i < |w.fs.heap| && w.fs.heap[i].isOpenWrite
  }

  /** The second step of some handle's close, when that handle's path names record i. */
  predicate Clears(w: World, e: Event, i: nat) {
    && e.Do? && e.h < |w.handles| && e.call.CloseClear? && w.handles[e.h].pc.Closing?
    && N.GetStub(w.fs, w.handles[e.h].path) == N.Some(i)
  }

  /** The flag goes down at exactly these steps, whichever handle takes them, a reader's included. */
  lemma FlagClearedOnlyByClose(w: World, e: Event, i: nat)
    requires Sound(w) && Up(w, i)
    ensures !Up(Step(w, e), i) <==> Clears(w, e, i)
  {
  }

  ghost predicate NeverCleared(w: World, es: seq<Event>, i: nat)
    requires Sound(w)
    decreases es
  {
    es == [] || (!Clears(w, es[0], i) && NeverCleared(Step(w, es[0]), es[1..], i))
  }

  /** After k events the record counts as open for writing: it was to begin with, or the k-th reopened it. */
  ghost predicate OpenedAt(w: World, es: seq<Event>, k: nat, i: nat)
    requires Sound(w) && k <= |es|
  {
    if k == 0 then Up(w, i) else Reopens(Run(w, es[..k - 1]), es[k - 1], i)
  }

  /** No close has cleared the record since the last write open of it. */
  ghost predicate OpenSince(w: World, es: seq<Event>, k: nat, i: nat)
    requires Sound(w) && k <= |es|
  {
    OpenedAt(w, es, k, i) && NeverCleared(Run(w, es[..k]), es[k..], i)
  }

  ghost predicate StillOpen(w: World, es: seq<Event>, i: nat)
    requires Sound(w)
  {
    exists k :: 0 <= k <= |es| && OpenSince(w, es, k, i)
  }

  lemma UpOneStepOn(w: World, e: Event, i: nat)
    requires Sound(w) && i < |w.fs.heap|
    ensures Up(Step(w, e), i) <==> Reopens(w, e, i) || (Up(w, i) && !Clears(w, e, i))
  {
    if Up(w, i) {
      FlagClearedOnlyByClose(w, e, i);
    } else {
      FlagSetOnlyByReopening(w, e, i);
    }
  }

  lemma RunFrom(w: World, es: seq<Event>, k: nat)
    requires Sound(w) && 0 < k <= |es|
    ensures Run(w, es[..k]) == Run(Step(w, es[0]), es[1..][..k - 1])
  {
    assert es[..k][1..] == es[1..][..k - 1];
  }

  /** The same history, seen one event later. */
  lemma OneEventLater(w: World, es: seq<Event>, k: nat, i: nat)
    requires Sound(w) && 1 < k <= |es|
    ensures OpenSince(w, es, k, i) <==> OpenSince(Step(w, es[0]), es[1..], k - 1, i)
  {
    RunFrom(w, es, k);
    RunFrom(w, es, k - 1);
    assert es[k..] == es[1..][k - 1..];
  }

  lemma FirstEvent(w: World, es: seq<Event>, i: nat)
    requires Sound(w) && es != []
    ensures OpenSince(w, es, 1, i) <==> Reopens(w, es[0], i) && NeverCleared(Step(w, es[0]), es[1..], i)
  {
    RunFrom(w, es, 1);
    assert Run(w, es[..0]) == w;
  }

  lemma NothingYet(w: World, es: seq<Event>, i: nat)
    requires Sound(w)
    ensures OpenSince(w, es, 0, i) <==> Up(w, i) && NeverCleared(w, es, i)
  {
    assert es[..0] == [] && es[0..] == es;
  }

  lemma StillOpenStep(w: World, es: seq<Event>, i: nat)
    requires Sound(w) && i < |w.fs.heap| && es != []
    ensures StillOpen(w, es, i) <==> StillOpen(Step(w, es[0]), es[1..], i)
  {
    var w', rest := Step(w, es[0]), es[1..];
    UpOneStepOn(w, es[0], i);
    NothingYet(w, es, i);
    NothingYet(w', rest, i);
    FirstEvent(w, es, i);
    if StillOpen(w, es, i) {
      var k :| 0 <= k <= |es| && OpenSince(w, es, k, i);
      if k > 1 { OneEventLater(w, es, k, i); }
      assert OpenSince(w', rest, if k > 0 then k - 1 else 0, i);
    }
    if StillOpen(w', rest, i) {
      var k :| 0 <= k <= |rest| && OpenSince(w', rest, k, i);
      if k > 0 {
        OneEventLater(w, es, k + 1, i);
        assert OpenSince(w, es, k + 1, i);
      } else if Reopens(w, es[0], i) {
        assert OpenSince(w, es, 1, i);
      } else {
        assert OpenSince(w, es, 0, i);
      }
    }
  }

  /** After any run the flag is up exactly if no close has cleared the record since it was last opened for writing. */
  lemma {:induction false} FlagAfterRun(w: World, es: seq<Event>, i: nat)
    requires Sound(w) && i < |w.fs.heap|
    ensures Up(Run(w, es), i) <==> StillOpen(w, es, i)
    decreases es
  {
    if es == [] {
      NothingYet(w, es, i);
    } else {
      StillOpenStep(w, es, i);
      FlagAfterRun(Step(w, es[0]), es[1..], i);
    }
  }

  // ---------------------------------------------------------------- what a session's close does

  /** Handle h is open on the record and has counted `total` bytes written, modulo 2^64. */
  ghost predicate OpenOn(w: World, h: nat, id: nat, total: nat) {
    && h < |w.handles| && w.handles[h].pc.Resting? && w.handles[h].stub == N.Some(id)
    && WrittenBytes(w.handles[h]) == S64(total)
  }

  lemma CountsOn(w: World, e: Event, h: nat, id: nat, total: nat)
    requires Sound(w) && OpenOn(w, h, id, total) && LeavesOpen(e, h)
    ensures OpenOn(Step(w, e), h, id, total + WritesBy(w, e, h))
    ensures Step(w, e).handles[h].path == w.handles[h].path
  {
    StepKeepsSession(w, e, h);
    if e.Do? && e.h == h {
      IoIs(At(w, h), e.call);
      if e.call.Write? || e.call.WriteAio? {
        WritesAll(w, e.call, h);
      }
      if e.call.Write? {
        WriteAdds(w.handles[h], e.call.blen, total);
      } else if e.call.WriteAio? {
        WriteAioAdds(w.handles[h], e.call.blen, total);
      }
    }
  }

  /** An open handle counts all it writes, whatever anyone does to the file or its path. */
  lemma SessionCountsBytes(w: World, es: seq<Event>, h: nat, id: nat, total: nat)
    requires Sound(w) && OpenOn(w, h, id, total)
    requires forall i :: 0 <= i < |es| ==> LeavesOpen(es[i], h)
    ensures OpenOn(Run(w, es), h, id, total + TotalWrites(w, es, h))
    ensures Run(w, es).handles[h].path == w.handles[h].path
  {
    CountsTo(w, es, h, id, total, total + TotalWrites(w, es, h));
  }

  lemma {:induction false} CountsTo(w: World, es: seq<Event>, h: nat, id: nat, total: nat, sum: nat)
    requires Sound(w) && OpenOn(w, h, id, total) && sum == total + TotalWrites(w, es, h)
    requires forall i :: 0 <= i < |es| ==> LeavesOpen(es[i], h)
    ensures OpenOn(Run(w, es), h, id, sum)
    ensures Run(w, es).handles[h].path == w.handles[h].path
    decreases es
  {
    if es != [] {
      assert LeavesOpen(es[0], h);
      CountsOn(w, es[0], h, id, total);
      CountsTo(Step(w, es[0]), es[1..], h, id, total + WritesBy(w, es[0], h), sum);
    }
  }

  /** The record holds this many bytes, in both its sizes. */
  ghost predicate HasSize(w: World, id: nat, size: u64, statSize: s64) {
    id < |w.fs.heap| && w.fs.heap[id].size == size && w.fs.heap[id].stat.size == statSize
  }

  lemma CloseStoresIfUp(w: World, h: nat, id: nat, total: nat, durationUs: s64)
    requires Sound(w) && OpenOn(w, h, id, total)
    ensures var w' := Stored(w, h, durationUs);
            && (Up(w, id) ==> HasSize(w', id, U64(total), S64(total)))
            && (!Up(w, id) ==> w'.fs == w.fs)
            && ClosingOn(w', h, w.handles[h].path) && w'.handles[h].stub == N.Some(id)
  {
    ThereAndBack(total);
  }

  /**
   When a close stores its session's bytes, over any interleaving: it does if no close of anyone has
   cleared the record since it was last opened for writing; otherwise it changes nothing.
   */
  lemma CloseStoresExactlyIf(w: World, es: seq<Event>, h: nat, id: nat, total: nat, durationUs: s64)
    requires Sound(w) && OpenOn(w, h, id, total)
    requires forall i :: 0 <= i < |es| ==> LeavesOpen(es[i], h)
    ensures var w1 := Run(w, es);
            var w2 := Stored(w1, h, durationUs);
            var sum := total + TotalWrites(w, es, h);
            && (StillOpen(w, es, id) ==> HasSize(w2, id, U64(sum), S64(sum)))
            && (!StillOpen(w, es, id) ==> w2.fs == w1.fs)
            && ClosingOn(w2, h, w.handles[h].path)
  {
    SessionCountsBytes(w, es, h, id, total);
    FlagAfterRun(w, es, id);
    CloseStoresIfUp(Run(w, es), h, id, total + TotalWrites(w, es, h), durationUs);
  }

  lemma {:induction false} StaysClosing(w: World, es: seq<Event>, h: nat, path: string)
    requires Sound(w) && ClosingOn(w, h, path) && forall i :: 0 <= i < |es| ==> es[i] != Do(h, CloseClear)
    ensures ClosingOn(Run(w, es), h, path)
    decreases es
  {
    if es != [] {
      assert es[0] != Do(h, CloseClear);
      StaysClosing(Step(w, es[0]), es[1..], h, path);
    }
  }

  ghost predicate NeverOverwritten(w: World, es: seq<Event>, id: nat)
    requires Sound(w)
    decreases es
  {
    es == [] || (!OverwritesSize(w, es[0], id) && NeverOverwritten(Step(w, es[0]), es[1..], id))
  }

  lemma {:induction false} SizeStays(w: World, es: seq<Event>, id: nat, size: u64, statSize: s64)
    requires Sound(w) && HasSize(w, id, size, statSize) && NeverOverwritten(w, es, id)
    ensures HasSize(Run(w, es), id, size, statSize)
    decreases es
  {
    if es != [] {
      NotOverwritten(w, es[0], id);
      SizeStays(Step(w, es[0]), es[1..], id, size, statSize);
    }
  }

  lemma NotOverwritten(w: World, e: Event, id: nat)
    requires Sound(w) && id < |w.fs.heap| && !OverwritesSize(w, e, id)
    ensures Step(w, e).fs.heap[id].size == w.fs.heap[id].size && Step(w, e).fs.heap[id].stat == w.fs.heap[id].stat
  {
    if e.Do? && e.h < |w.handles| {
      PerformSizes(At(w, e.h), e.call, id);
    }
  }

  /** And if it does not stay, it is the byte count of the last close that overwrote it. */
  lemma {:induction false} LastCloseWins(w: World, es: seq<Event>, id: nat) returns (k: nat)
    requires Sound(w) && id < |w.fs.heap| && !NeverOverwritten(w, es, id)
    ensures k < |es| && OverwritesSize(Run(w, es[..k]), es[k], id)
    ensures var bytes := WrittenBytes(Run(w, es[..k]).handles[es[k].h]);
            HasSize(Run(w, es), id, U64(bytes), bytes)
    decreases es
  {
    var w', rest := Step(w, es[0]), es[1..];
    if NeverOverwritten(w', rest, id) {
      k := 0;
      assert Run(w, es[..0]) == w;
      var bytes := WrittenBytes(w.handles[es[0].h]);
      Overwritten(w, es[0], id);
      SizeStays(w', rest, id, U64(bytes), bytes);
    } else {
      var j := LastCloseWins(w', rest, id);
      k := j + 1;
      RunFrom(w, es, k);
    }
  }

  lemma Overwritten(w: World, e: Event, id: nat)
    requires Sound(w) && OverwritesSize(w, e, id)
    ensures var bytes := WrittenBytes(w.handles[e.h]); HasSize(Step(w, e), id, U64(bytes), bytes)
  {
  }

  /** The second step of a close lowers the flag exactly if its path still names the record. */
  lemma CloseLowersExactlyIf(w: World, h: nat, path: string, id: nat)
    requires Sound(w) && ClosingOn(w, h, path) && Up(w, id)
    ensures !Up(Cleared(w, h), id) <==> N.GetStub(w.fs, path) == N.Some(id)
  {
    FlagClearedOnlyByClose(w, Do(h, CloseClear), id);
  }

  /** From the first step of a close to the second. */
  lemma CloseEnds(w: World, closing: seq<Event>, h: nat, path: string, id: nat)
    requires Sound(w) && ClosingOn(w, h, path) && id < |w.fs.heap|
    requires forall i :: 0 <= i < |closing| ==> closing[i] != Do(h, CloseClear)
    ensures var w3 := Run(w, closing);
            var w4 := Cleared(w3, h);
            && (NeverOverwritten(w, closing, id) ==> HasSize(w4, id, w.fs.heap[id].size, w.fs.heap[id].stat.size))
            && (!Up(w4, id) <==> N.GetStub(w3.fs, path) == N.Some(id) || !StillOpen(w, closing, id))
  {
    StaysClosing(w, closing, h, path);
    FlagAfterRun(w, closing, id);
    if NeverOverwritten(w, closing, id) {
      SizeStays(w, closing, id, w.fs.heap[id].size, w.fs.heap[id].stat.size);
    }
    LastStep(Run(w, closing), h, path, id);
  }

  /** Handle h goes on from w to w1 without closing, and closes: its first step, other events, its second step. */
  ghost predicate Closes(w: World, h: nat, during: seq<Event>, durationUs: s64, closing: seq<Event>,
                         w1: World, w2: World, w3: World, w4: World)
    requires Sound(w)
  {
    && (forall i :: 0 <= i < |during| ==> LeavesOpen(during[i], h))
    && (forall i :: 0 <= i < |closing| ==> closing[i] != Do(h, CloseClear))
    && w1 == Run(w, during) && w2 == Stored(w1, h, durationUs) && w3 == Run(w2, closing) && w4 == Cleared(w3, h)
  }

  /**
   The whole close, with anything interleaved before, within and after its first step. Its bytes are
   stored exactly if the record is still open, and they stay unless another close overwrites them; the flag
   is down in the end if the path still names the record, or if somebody else took the flag down.
   */
  lemma SessionOutcome(w: World, h: nat, id: nat, total: nat, during: seq<Event>, durationUs: s64, closing: seq<Event>,
                       w1: World, w2: World, w3: World, w4: World)
    requires Sound(w) && OpenOn(w, h, id, total) && Closes(w, h, during, durationUs, closing, w1, w2, w3, w4)
    ensures Sound(w1) && Sound(w2) && Sound(w3) && Sound(w4)
    ensures var sum := total + TotalWrites(w, during, h);
            && (StillOpen(w, during, id) ==> HasSize(w2, id, U64(sum), S64(sum)))
            && (!StillOpen(w, during, id) ==> w2.fs == w1.fs)
            && (NeverOverwritten(w2, closing, id) ==>
                  HasSize(w4, id, w2.fs.heap[id].size, w2.fs.heap[id].stat.size))
    ensures !Up(w4, id) <==> N.GetStub(w3.fs, w.handles[h].path) == N.Some(id) || !StillOpen(w2, closing, id)
  {
    CloseStoresExactlyIf(w, during, h, id, total, durationUs);
    CloseEnds(w2, closing, h, w.handles[h].path, id);
  }

  lemma LastStep(w: World, h: nat, path: string, id: nat)
    requires Sound(w) && ClosingOn(w, h, path) && id < |w.fs.heap|
    ensures var w' := Cleared(w, h);
            && (!Up(w', id) <==> N.GetStub(w.fs, path) == N.Some(id) || !Up(w, id))
            && w'.fs.heap[id].size == w.fs.heap[id].size && w'.fs.heap[id].stat == w.fs.heap[id].stat
  {
    NotOverwritten(w, Do(h, CloseClear), id);
    UpOneStepOn(w, Do(h, CloseClear), id);
  }

  // ---------------------------------------------------------------- how a reader spoils a session

  /** A reader opens the path and closes it again, without reading. */
  ghost function Visited(w: World, r: nat, path: string, flags: s32, mode: s32, durationUs: s64): World
    requires Sound(w)
  {
    var found := Step(Opening(w, r, path, flags, mode), Do(r, OpenLookup));
    Cleared(Stored(Step(found, Do(r, OpenCache)), r, durationUs), r)
  }

  /** Reader r has the record open and has, of course, written nothing. */
  lemma ReaderArrives(w: World, r: nat, path: string, id: nat, flags: s32, mode: s32) returns (w': World)
    requires Sound(w) && Bound(w, path, id) && Up(w, id)
    requires N.IsReadOnly(flags) && r < |w.handles| && w.handles[r].pc.Resting?
    requires Result(w, Do(r, OpenCall(path, flags, mode))) >= 0
    ensures w' == Step(Step(Opening(w, r, path, flags, mode), Do(r, OpenLookup)), Do(r, OpenCache)) && Sound(w')
    ensures OpenOn(w', r, id, 0) && w'.handles[r].path == path && Bound(w', path, id) && Up(w', id)
    ensures w'.handles == w.handles[r := w'.handles[r]]
  {
    var w1 := Opening(w, r, path, flags, mode);
    assert Bound(w1, path, id) && w1.handles[r].pc == Opened(flags);
    var w2 := Step(w1, Do(r, OpenLookup));
    assert w2.fs == w1.fs && w2.handles[r].stub == N.Some(id);
    w' := Step(w2, Do(r, OpenCache));
  }

  lemma ReaderLeaves(w: World, r: nat, path: string, id: nat, durationUs: s64)
    requires Sound(w) && OpenOn(w, r, id, 0) && w.handles[r].path == path && Bound(w, path, id) && Up(w, id)
    ensures var w' := Cleared(Stored(w, r, durationUs), r);
            Settled(w', path, id, 0) && w'.handles == w.handles[r := w'.handles[r]]
  {
    CloseStoresIfUp(w, r, id, 0, durationUs);
    var w' := Stored(w, r, durationUs);
    assert Bound(w', path, id);
    CloseClears(w', r, path, id, 0);
  }

  /** Whoever opens a file that is being written, even only to read, empties it and ends its writing by closing. */
  lemma VisitEmpties(w: World, r: nat, path: string, id: nat, flags: s32, mode: s32, durationUs: s64)
    requires Sound(w) && Bound(w, path, id) && Up(w, id)
    requires N.IsReadOnly(flags) && r < |w.handles| && w.handles[r].pc.Resting?
    requires Result(w, Do(r, OpenCall(path, flags, mode))) >= 0
    ensures var w' := Visited(w, r, path, flags, mode, durationUs);
            && Settled(w', path, id, 0)
            && w'.handles == w.handles[r := w'.handles[r]]
  {
    var w1 := ReaderArrives(w, r, path, id, flags, mode);
    ReaderLeaves(w1, r, path, id, durationUs);
  }

  ghost predicate Emptied(w: World, id: nat) {
    HasSize(w, id, 0, 0) && !Up(w, id)
  }

  lemma StaysEmpty(w: World, es: seq<Event>, id: nat)
    requires Sound(w) && Emptied(w, id) && NeverReopened(w, es, id)
    ensures Emptied(Run(w, es), id)
  {
    ClosedKeepsSize(w, es, id);
  }

  lemma NoMore(w: World, e: Event, id: nat)
    requires Sound(w) && Emptied(w, id) && !Reopens(w, e, id)
    ensures Emptied(Step(w, e), id)
  {
    NotOverwritten(w, e, id);
    UpOneStepOn(w, e, id);
  }

  lemma StaysEmptied(w: World, h: nat, id: nat, during: seq<Event>, durationUs: s64, closing: seq<Event>,
                     w1: World, w2: World, w3: World, w4: World)
    requires Sound(w) && Emptied(w, id) && Closes(w, h, during, durationUs, closing, w1, w2, w3, w4)
    requires NeverReopened(w, during, id) && NeverReopened(w2, closing, id)
    ensures Emptied(w4, id)
  {
    StaysEmpty(w, during, id);
    NoMore(w1, Do(h, CloseUpdate(durationUs)), id);
    StaysEmpty(w2, closing, id);
    NoMore(w3, Do(h, CloseClear), id);
  }

  lemma CloseSucceeds(w: World, h: nat, durationUs: s64)
    requires Sound(w) && h < |w.handles| && w.handles[h].pc.Resting? && w.handles[h].stub.Some?
    ensures Result(w, Do(h, CloseUpdate(durationUs))) == 0
  {
  }

  /**
   A reader that closes before the writer does: the writer's own close then reports success but stores nothing,
   however much was written before or after the visit, and the file is empty until it is opened for writing again.
   */
  lemma ReaderClosesFirst(w: World, h: nat, path: string, id: nat, total: nat, r: nat, flags: s32, mode: s32,
                          visitUs: s64, w0: World, during: seq<Event>, durationUs: s64, closing: seq<Event>,
                          w1: World, w2: World, w3: World, w4: World)
    requires Sound(w) && OpenOn(w, h, id, total) && Bound(w, path, id) && Up(w, id)
    requires N.IsReadOnly(flags) && r < |w.handles| && r != h && w.handles[r].pc.Resting?
    requires Result(w, Do(r, OpenCall(path, flags, mode))) >= 0
    requires w0 == Visited(w, r, path, flags, mode, visitUs)
    requires Closes(w0, h, during, durationUs, closing, w1, w2, w3, w4)
    requires NeverReopened(w0, during, id) && NeverReopened(w2, closing, id)
    ensures Sound(w1) && OpenOn(w1, h, id, total + TotalWrites(w0, during, h))
    ensures Result(w1, Do(h, CloseUpdate(durationUs))) == 0
    ensures Emptied(w4, id)
  {
    VisitEmpties(w, r, path, id, flags, mode, visitUs);
    SessionCountsBytes(w0, during, h, id, total);
    StaysEmptied(w0, h, id, during, durationUs, closing, w1, w2, w3, w4);
    CloseSucceeds(w1, h, durationUs);
  }

  /**
   After a rename during the session, the close leaves the file in this state, its bytes stored and its flag up
   (RenameWhileWriting); the next reader of the new name empties it, and lowers the flag.
   */
  lemma RenamedThenVisited(w: World, h: nat, from: string, to: string, id: nat, total: nat, durationUs: s64,
                           r: nat, flags: s32, mode: s32, visitUs: s64)
    requires Sound(w) && InSession(w, h, from, id, total) && w.handles[h].pc.Resting? && from != to
    requires var w' := Cleared(Stored(Step(w, Rename(from, to)), h, durationUs), h);
             && N.IsReadOnly(flags) && r < |w'.handles| && w'.handles[r].pc.Resting?
             && Result(w', Do(r, OpenCall(to, flags, mode))) >= 0
    ensures var w' := Cleared(Stored(Step(w, Rename(from, to)), h, durationUs), h);
            && Holds(w', to, id, total) && Up(w', id)
            && Settled(Visited(w', r, to, flags, mode, visitUs), to, id, 0)
  {
    var w1 := Step(w, Rename(from, to));
    RenameWhileWriting(w, h, from, to, id, total, durationUs, w1);
    VisitEmpties(Cleared(Stored(w1, h, durationUs), h), r, to, id, flags, mode, visitUs);
  }
}
