/**
 The promise a client relies on: what one session writes is what later sessions find, as long as
 nobody else interferes with that path. Interference is spelled out event by event; every other
 event, on this path or elsewhere, may be interleaved freely.
 */
module RoundTrip {
  import opened MachineInts
  import opened Session
  import opened World
  import opened ReadEngine
  import opened Invariants
  import N = Namespace
  import G = Generator

  // ---------------------------------------------------------------- interference

  /** A resting handle's write open of an existing path, not refused by O_EXCL. */
  predicate OpensForWrite(w: World, e: Event, path: string) {
    && e.Do? && e.h < |w.handles| && w.handles[e.h].pc.Resting?
    && e.call.OpenCall? && e.call.path == path && path in w.fs.files
    && !N.IsReadOnly(e.call.flags) && !N.HasExcl(e.call.flags)
  }

  predicate Truncates(w: World, e: Event, path: string) {
    OpensForWrite(w, e, path) && N.HasTrunc(e.call.flags)
  }

  /** The path gets another record or none: unlink, rename from or onto it, truncation. */
  predicate Rebinds(w: World, e: Event, path: string) {
    || e == Unlink(path)
    || (e.Rename? && e.from in w.fs.files && e.from != e.to && (e.from == path || e.to == path))
    || Truncates(w, e, path)
  }

  /** Another handle's close of the path clears the write flag early. */
  predicate ClearsFlag(w: World, e: Event, h: nat, path: string) {
    && e.Do? && e.h != h && e.h < |w.handles| && e.call.CloseClear?
    && w.handles[e.h].pc.Closing? && w.handles[e.h].path == path
  }

  /** Another handle's close of the same record overwrites the size while the flag is up. */
  predicate OverwritesSize(w: World, e: Event, id: nat) {
    && id < |w.fs.heap| && w.fs.heap[id].isOpenWrite
    && e.Do? && e.h < |w.handles| && e.call.CloseUpdate?
    && w.handles[e.h].pc.Resting? && w.handles[e.h].stub == N.Some(id)
  }

  /** From the open to the storing of the size. */
  ghost predicate QuietWhileWriting(w: World, es: seq<Event>, h: nat, path: string)
    requires Sound(w)
    decreases es
  {
    es == [] ||
    (&& !Rebinds(w, es[0], path) && !ClearsFlag(w, es[0], h, path) && LeavesOpen(es[0], h)
     && QuietWhileWriting(Step(w, es[0]), es[1..], h, path))
  }

  /** Between the two steps of the close. */
  ghost predicate QuietWhileClosing(w: World, es: seq<Event>, h: nat, path: string, id: nat)
    requires Sound(w)
    decreases es
  {
    es == [] ||
    (&& !Rebinds(w, es[0], path) && !OverwritesSize(w, es[0], id) && es[0] != Do(h, CloseClear)
     && QuietWhileClosing(Step(w, es[0]), es[1..], h, path, id))
  }

  /** After the close: the path keeps its record and nobody opens it for writing. */
  ghost predicate QuietAfterwards(w: World, es: seq<Event>, path: string)
    requires Sound(w)
    decreases es
  {
    es == [] ||
    (&& !Rebinds(w, es[0], path) && !OpensForWrite(w, es[0], path)
     && QuietAfterwards(Step(w, es[0]), es[1..], path))
  }

  // ---------------------------------------------------------------- the writing session

  /** Bytes that a write through handle h reports as written, its result read as the size_t it came from. */
  ghost function WritesBy(w: World, e: Event, h: nat): nat
    requires Sound(w)
  {
    if e.Do? && e.h == h && h < |w.handles| && w.handles[h].pc.Resting? && (e.call.Write? || e.call.WriteAio?)
    then U64(Result(w, e)) else 0
  }

  lemma WritesAll(w: World, c: Call, h: nat)
    requires Sound(w) && h < |w.handles| && w.handles[h].pc.Resting? && (c.Write? || c.WriteAio?)
    ensures Result(w, Do(h, c)) == S64(c.blen) && WritesBy(w, Do(h, c), h) == c.blen
  {
    ThereAndBack(c.blen);
  }

  ghost function TotalWrites(w: World, es: seq<Event>, h: nat): nat
    requires Sound(w)
    decreases es
  {
    if es == [] then 0 else WritesBy(w, es[0], h) + TotalWrites(Step(w, es[0]), es[1..], h)
  }

  ghost predicate Bound(w: World, path: string, id: nat) {
    id < |w.fs.heap| && N.GetStub(w.fs, path) == N.Some(id) && w.fs.heap[id].readtype == "zeros"
  }

  /** Handle h has the record open for writing under this path and has written `total` bytes so far. */
  ghost predicate InSession(w: World, h: nat, path: string, id: nat, total: nat) {
    && Bound(w, path, id) && w.fs.heap[id].isOpenWrite
    && h < |w.handles| && w.handles[h].path == path
    && match w.handles[h].pc
       case Opened(_) => total == 0
       case Found(_) => total == 0 && w.handles[h].stub == N.Some(id)
       case Resting => w.handles[h].stub == N.Some(id) && WrittenBytes(w.handles[h]) == S64(total)
       case Closing => false
  }

  /** The event opens the path for writing with a record of its own, and the caller sees it succeed. */
  ghost predicate StartsFresh(w: World, h: nat, path: string, flags: s32, mode: s32)
    requires Sound(w)
  {
    && h < |w.handles| && w.handles[h].pc.Resting?
    && !N.IsReadOnly(flags) && (path in w.fs.files ==> N.HasTrunc(flags))
    && Result(w, Do(h, OpenCall(path, flags, mode))) >= 0
  }

  lemma SessionStarts(w: World, h: nat, path: string, flags: s32, mode: s32)
    requires Sound(w) && StartsFresh(w, h, path, flags, mode)
    ensures InSession(Step(w, Do(h, OpenCall(path, flags, mode))), h, path, |w.fs.heap|, 0)
  {
  }

  /** One more write adds its length to the session's bytes, modulo 2^64. */
  lemma WriteAdds(hd: Handle, blen: u64, total: nat)
    requires WrittenBytes(hd) == S64(total)
    ensures WrittenBytes(DoWrite(hd, blen).0) == S64(total + blen)
  {
    WrapS64(hd.writeBytes + blen, hd.writeBytesAio);
    SameSum(hd.writeBytes + hd.writeBytesAio, total, blen);
  }

  lemma WriteAioAdds(hd: Handle, blen: u64, total: nat)
    requires WrittenBytes(hd) == S64(total)
    ensures WrittenBytes(DoWriteAio(hd, blen).0) == S64(total + blen)
  {
    WrapS64(blen, hd.writeBytesAio);
    WrapS64(hd.writeBytesAio + blen, hd.writeBytes);
    SameSum(hd.writeBytes + hd.writeBytesAio, total, blen);
  }

  lemma SameSum(x: int, y: int, a: int)
    requires S64(x) == S64(y)
    ensures S64(x + a) == S64(y + a)
  {
    WrapS64(x, a);
    WrapS64(y, a);
  }

  lemma OwnStep(w: World, c: Call, h: nat, path: string, id: nat, total: nat)
    requires Sound(w) && InSession(w, h, path, id, total) && LeavesOpen(Do(h, c), h)
    ensures InSession(Step(w, Do(h, c)), h, path, id, total + WritesBy(w, Do(h, c), h))
  {
    if w.handles[h].pc.Resting? {
      IoIs(At(w, h), c);
      if c.Write? || c.WriteAio? {
        WritesAll(w, c, h);
      }
      if c.Write? {
        WriteAdds(w.handles[h], c.blen, total);
      } else if c.WriteAio? {
        WriteAioAdds(w.handles[h], c.blen, total);
      }
    }
  }

  /** Another handle's call leaves the record under its path and open for writing. */
  lemma OthersCall(w: World, g: nat, c: Call, h: nat, path: string, id: nat)
    requires Sound(w) && Bound(w, path, id) && w.fs.heap[id].isOpenWrite && g < |w.handles| && g != h
    requires !Rebinds(w, Do(g, c), path) && !ClearsFlag(w, Do(g, c), h, path)
    ensures var fs := DoStep(w, g, c).after.fs;
            && N.GetStub(fs, path) == N.Some(id) && id < |fs.heap|
            && fs.heap[id].isOpenWrite && fs.heap[id].readtype == "zeros"
  {
  }

  lemma OthersStep(w: World, e: Event, h: nat, path: string, id: nat, total: nat)
    requires Sound(w) && InSession(w, h, path, id, total) && !(e.Do? && e.h == h)
    requires !Rebinds(w, e, path) && !ClearsFlag(w, e, h, path)
    ensures InSession(Step(w, e), h, path, id, total)
  {
    if e.Do? && e.h < |w.handles| {
      OthersCall(w, e.h, e.call, h, path, id);
    }
  }

  lemma SessionStep(w: World, e: Event, h: nat, path: string, id: nat, total: nat)
    requires Sound(w) && InSession(w, h, path, id, total)
    requires !Rebinds(w, e, path) && !ClearsFlag(w, e, h, path) && LeavesOpen(e, h)
    ensures InSession(Step(w, e), h, path, id, total + WritesBy(w, e, h))
  {
    if e.Do? && e.h == h {
      OwnStep(w, e.call, h, path, id, total);
    } else {
      OthersStep(w, e, h, path, id, total);
    }
  }

  lemma {:induction false} SessionCountsTo(w: World, es: seq<Event>, h: nat, path: string, id: nat, total: nat,
                                           sum: nat)
    requires Sound(w) && InSession(w, h, path, id, total) && QuietWhileWriting(w, es, h, path)
    requires sum == total + TotalWrites(w, es, h)
    ensures InSession(Run(w, es), h, path, id, sum)
    decreases es
  {
    if es != [] {
      SessionStep(w, es[0], h, path, id, total);
      SessionCountsTo(Step(w, es[0]), es[1..], h, path, id, total + WritesBy(w, es[0], h), sum);
    }
  }

  /** In an undisturbed session the handle stays on the path's record and counts what it writes. */
  lemma SessionCounts(w: World, es: seq<Event>, h: nat, path: string, id: nat, total: nat)
    requires Sound(w) && InSession(w, h, path, id, total) && QuietWhileWriting(w, es, h, path)
    ensures InSession(Run(w, es), h, path, id, total + TotalWrites(w, es, h))
  {
    SessionCountsTo(w, es, h, path, id, total, total + TotalWrites(w, es, h));
  }

  // ---------------------------------------------------------------- the close

  /** The record holds this many bytes, in both its sizes. */
  ghost predicate Holds(w: World, path: string, id: nat, total: nat) {
    && Bound(w, path, id)
    && w.fs.heap[id].size == U64(total) && w.fs.heap[id].stat.size == S64(total)
  }

  ghost predicate ClosingOn(w: World, h: nat, path: string) {
    h < |w.handles| && w.handles[h].pc.Closing? && w.handles[h].path == path
  }

  lemma CloseStores(w: World, h: nat, path: string, id: nat, total: nat, durationUs: s64)
    requires Sound(w) && InSession(w, h, path, id, total) && w.handles[h].pc.Resting?
    ensures var w' := Step(w, Do(h, CloseUpdate(durationUs)));
            Holds(w', path, id, total) && ClosingOn(w', h, path)
  {
    ThereAndBack(total);
  }

  lemma StaysWhileClosing(w: World, e: Event, h: nat, path: string, id: nat, total: nat)
    requires Sound(w) && Holds(w, path, id, total) && ClosingOn(w, h, path)
    requires !Rebinds(w, e, path) && !OverwritesSize(w, e, id) && e != Do(h, CloseClear)
    ensures Holds(Step(w, e), path, id, total) && ClosingOn(Step(w, e), h, path)
  {
    SizeChangesOnlyInClose(w, e, id);
  }

  lemma {:induction false} ClosingRun(w: World, es: seq<Event>, h: nat, path: string, id: nat, total: nat)
    requires Sound(w) && Holds(w, path, id, total) && ClosingOn(w, h, path)
    requires QuietWhileClosing(w, es, h, path, id)
    ensures Holds(Run(w, es), path, id, total) && ClosingOn(Run(w, es), h, path)
    decreases es
  {
    if es != [] {
      StaysWhileClosing(w, es[0], h, path, id, total);
      ClosingRun(Step(w, es[0]), es[1..], h, path, id, total);
    }
  }

  ghost predicate Settled(w: World, path: string, id: nat, total: nat) {
    Holds(w, path, id, total) && !w.fs.heap[id].isOpenWrite
  }

  lemma CloseClears(w: World, h: nat, path: string, id: nat, total: nat)
    requires Sound(w) && Holds(w, path, id, total) && ClosingOn(w, h, path)
    ensures Settled(Step(w, Do(h, CloseClear)), path, id, total)
  {
  }

  // The states a writing session goes through.

  ghost function Opening(w: World, h: nat, path: string, flags: s32, mode: s32): World
    requires Sound(w)
  {
    Step(w, Do(h, OpenCall(path, flags, mode)))
  }

  ghost function Stored(w: World, h: nat, durationUs: s64): World
    requires Sound(w)
  {
    Step(w, Do(h, CloseUpdate(durationUs)))
  }

  ghost function Cleared(w: World, h: nat): World
    requires Sound(w)
  {
    Step(w, Do(h, CloseClear))
  }

  lemma SessionWrites(w: World, h: nat, path: string, flags: s32, mode: s32, during: seq<Event>)
    requires Sound(w) && StartsFresh(w, h, path, flags, mode)
    requires QuietWhileWriting(Opening(w, h, path, flags, mode), during, h, path)
    ensures var w1 := Opening(w, h, path, flags, mode);
            InSession(Run(w1, during), h, path, |w.fs.heap|, TotalWrites(w1, during, h))
  {
    SessionStarts(w, h, path, flags, mode);
    SessionCounts(Opening(w, h, path, flags, mode), during, h, path, |w.fs.heap|, 0);
  }

  lemma CloseSettles(w: World, h: nat, path: string, id: nat, total: nat, durationUs: s64, closing: seq<Event>)
    requires Sound(w) && InSession(w, h, path, id, total) && w.handles[h].pc.Resting?
    requires QuietWhileClosing(Stored(w, h, durationUs), closing, h, path, id)
    ensures Settled(Cleared(Run(Stored(w, h, durationUs), closing), h), path, id, total)
  {
    CloseStores(w, h, path, id, total, durationUs);
    ClosingRun(Stored(w, h, durationUs), closing, h, path, id, total);
    CloseClears(Run(Stored(w, h, durationUs), closing), h, path, id, total);
  }

  /**
   From w to w3, handle h runs one writing session on a fresh record of the path, start to end, and
   writes `total` bytes: the open; events that do not disturb it, its own writes among them; the
   first step of its close; more such events; the second step.
   */
  ghost predicate WritesUndisturbed(w: World, h: nat, path: string, total: nat, w3: World)
    requires Sound(w)
  {
    exists flags, mode, during, durationUs, closing ::
      WritingSession(w, h, path, flags, mode, during, durationUs, closing, total, w3)
  }

  ghost predicate WritingSession(w: World, h: nat, path: string, flags: s32, mode: s32, during: seq<Event>,
                                 durationUs: s64, closing: seq<Event>, total: nat, w3: World)
    requires Sound(w)
  {
    && StartsFresh(w, h, path, flags, mode)
    && var w1 := Opening(w, h, path, flags, mode);
    && QuietWhileWriting(w1, during, h, path)
    && total == TotalWrites(w1, during, h)
    && var w2 := Run(w1, during);
    && w2.handles[h].pc.Resting?
    && QuietWhileClosing(Stored(w2, h, durationUs), closing, h, path, |w.fs.heap|)
    && w3 == Cleared(Run(Stored(w2, h, durationUs), closing), h)
  }

  /**
   The session's bytes are the file's size: if a handle opens a path with a fresh record and nobody
   interferes until its close is done, then afterwards the path holds exactly the bytes of all
   the session's synchronous and asynchronous writes, and is not open for writing.
   */
  lemma SessionIsStored(w: World, h: nat, path: string, total: nat, w3: World)
    requires Sound(w) && WritesUndisturbed(w, h, path, total, w3)
    ensures Sound(w3) && Settled(w3, path, |w.fs.heap|, total)
  {
    var flags, mode, during, durationUs, closing :|
      WritingSession(w, h, path, flags, mode, during, durationUs, closing, total, w3);
    SessionWrites(w, h, path, flags, mode, during);
    CloseSettles(Run(Opening(w, h, path, flags, mode), during), h, path, |w.fs.heap|, total, durationUs, closing);
  }

  lemma QuietStep(w: World, e: Event, es: seq<Event>, h: nat, path: string)
    requires Sound(w) && !Rebinds(w, e, path) && !ClearsFlag(w, e, h, path) && LeavesOpen(e, h)
    requires QuietWhileWriting(Step(w, e), es, h, path)
    ensures QuietWhileWriting(w, [e] + es, h, path)
    ensures Run(w, [e] + es) == Run(Step(w, e), es)
    ensures TotalWrites(w, [e] + es, h) == WritesBy(w, e, h) + TotalWrites(Step(w, e), es, h)
  {
    assert ([e] + es)[1..] == es;
  }

  /** What a handle does from its open to its close when it writes once. */
  function OneWrite(h: nat, blen: u64): seq<Event> {
    [Do(h, OpenLookup)] + ([Do(h, OpenCache)] + ([Do(h, Write(blen))] + []))
  }

  lemma OneWriteSession(w: World, h: nat, path: string, id: nat, blen: u64)
    requires Sound(w) && InSession(w, h, path, id, 0) && w.handles[h].pc.Opened?
    ensures var es := OneWrite(h, blen);
            QuietWhileWriting(w, es, h, path) && TotalWrites(w, es, h) == blen && Run(w, es).handles[h].pc.Resting?
  {
    var w1 := Step(w, Do(h, OpenLookup));
    assert w1.handles[h].pc.Found?;
    var w2 := Step(w1, Do(h, OpenCache));
    assert w2.handles[h].pc.Resting? && h < |w2.handles|;
    WritesAll(w2, Write(blen), h);
    QuietStep(w2, Do(h, Write(blen)), [], h, path);
    assert Step(w2, Do(h, Write(blen))).handles[h].pc.Resting?;
    QuietStep(w1, Do(h, OpenCache), [Do(h, Write(blen))] + [], h, path);
    QuietStep(w, Do(h, OpenLookup), [Do(h, OpenCache)] + ([Do(h, Write(blen))] + []), h, path);
  }

  lemma UninterruptedClose(w: World, h: nat, path: string, flags: s32, mode: s32, during: seq<Event>, durationUs: s64,
                           w1: World, w2: World, total: nat)
    requires Sound(w) && StartsFresh(w, h, path, flags, mode) && w1 == Opening(w, h, path, flags, mode)
    requires QuietWhileWriting(w1, during, h, path) && w2 == Run(w1, during) && w2.handles[h].pc.Resting?
    requires total == TotalWrites(w1, during, h)
    ensures WritesUndisturbed(w, h, path, total, Cleared(Stored(w2, h, durationUs), h))
  {
    var stored := Stored(w2, h, durationUs);
    assert QuietWhileClosing(stored, [], h, path, |w.fs.heap|) && Run(stored, []) == stored;
    assert WritingSession(w, h, path, flags, mode, during, durationUs, [], total, Cleared(stored, h));
  }

  /** Undisturbed sessions are there to be had: from any state, one that nothing interrupts. */
  lemma UninterruptedSession(w: World, h: nat, path: string, flags: s32, mode: s32, blen: u64, durationUs: s64)
    requires Sound(w) && StartsFresh(w, h, path, flags, mode)
    ensures exists w3 :: WritesUndisturbed(w, h, path, blen, w3)
  {
    var w1 := Opening(w, h, path, flags, mode);
    SessionStarts(w, h, path, flags, mode);
    OneWriteSession(w1, h, path, |w.fs.heap|, blen);
    UninterruptedClose(w, h, path, flags, mode, OneWrite(h, blen), durationUs, w1, Run(w1, OneWrite(h, blen)), blen);
  }

  /** Below 2^63 bytes the stored size is the number of bytes written, exactly. */
  lemma SettledSizeIsExact(w: World, path: string, id: nat, total: nat)
    requires Settled(w, path, id, total) && total < TWO63
    ensures w.fs.heap[id].size == w.fs.heap[id].stat.size == total
  {
  }

  // ---------------------------------------------------------------- later sessions

  /** The path names record id, which is closed for writing and has this size, stat and kind. */
  ghost predicate Frozen(w: World, path: string, id: nat, size: u64, stat: N.Stat, readtype: string) {
    && id < |w.fs.heap| && N.GetStub(w.fs, path) == N.Some(id) && !w.fs.heap[id].isOpenWrite
    && w.fs.heap[id].size == size && w.fs.heap[id].stat == stat && w.fs.heap[id].readtype == readtype
  }

  lemma StaysFrozen(w: World, e: Event, path: string, id: nat, size: u64, stat: N.Stat, readtype: string)
    requires Sound(w) && Frozen(w, path, id, size, stat, readtype)
    requires !Rebinds(w, e, path) && !OpensForWrite(w, e, path)
    ensures Frozen(Step(w, e), path, id, size, stat, readtype)
  {
    SizeChangesOnlyInClose(w, e, id);
    FlagSetOnlyByReopening(w, e, id);
    if e.Do? && e.h < |w.handles| {
      PerformSizes(At(w, e.h), e.call, id);
    }
  }

  lemma {:induction false} FrozenRun(w: World, es: seq<Event>, path: string, id: nat,
                                     size: u64, stat: N.Stat, readtype: string)
    requires Sound(w) && Frozen(w, path, id, size, stat, readtype) && QuietAfterwards(w, es, path)
    ensures Frozen(Run(w, es), path, id, size, stat, readtype)
    decreases es
  {
    if es != [] {
      StaysFrozen(w, es[0], path, id, size, stat, readtype);
      FrozenRun(Step(w, es[0]), es[1..], path, id, size, stat, readtype);
    }
  }

  /** Handle r is opening the record, or has opened it and cached its size, kind and inode. */
  ghost predicate ReaderOf(w: World, r: nat, path: string, id: nat, size: u64, ino: u64, readtype: string) {
    && r < |w.handles| && w.handles[r].path == path
    && match w.handles[r].pc
       case Opened(_) => true
       case Found(_) => w.handles[r].stub == N.Some(id)
       case Resting => && w.handles[r].stub == N.Some(id) && w.handles[r].view.size == size
                       && (w.handles[r].view.isRandom <==> readtype == "random") && w.handles[r].view.ino == ino
       case Closing => false
  }

  lemma ReaderStep(w: World, e: Event, r: nat, path: string, id: nat, size: u64, stat: N.Stat, readtype: string)
    requires Sound(w) && Frozen(w, path, id, size, stat, readtype)
    requires ReaderOf(w, r, path, id, size, stat.ino, readtype) && LeavesOpen(e, r)
    ensures ReaderOf(Step(w, e), r, path, id, size, stat.ino, readtype)
  {
  }

  lemma {:induction false} ReaderRun(w: World, es: seq<Event>, r: nat, path: string, id: nat,
                                     size: u64, stat: N.Stat, readtype: string)
    requires Sound(w) && Frozen(w, path, id, size, stat, readtype)
    requires ReaderOf(w, r, path, id, size, stat.ino, readtype)
    requires QuietAfterwards(w, es, path) && forall i :: 0 <= i < |es| ==> LeavesOpen(es[i], r)
    ensures ReaderOf(Run(w, es), r, path, id, size, stat.ino, readtype)
    decreases es
  {
    if es != [] {
      assert LeavesOpen(es[0], r);
      ReaderStep(w, es[0], r, path, id, size, stat, readtype);
      StaysFrozen(w, es[0], path, id, size, stat, readtype);
      ReaderRun(Step(w, es[0]), es[1..], r, path, id, size, stat, readtype);
    }
  }

  lemma ReaderEnters(w: World, r: nat, path: string, flags: s32, mode: s32, id: nat,
                     size: u64, stat: N.Stat, readtype: string)
    requires Sound(w) && Frozen(w, path, id, size, stat, readtype)
    requires N.IsReadOnly(flags) && r < |w.handles| && w.handles[r].pc.Resting?
    requires Result(w, Do(r, OpenCall(path, flags, mode))) >= 0
    ensures Frozen(Opening(w, r, path, flags, mode), path, id, size, stat, readtype)
    ensures ReaderOf(Opening(w, r, path, flags, mode), r, path, id, size, stat.ino, readtype)
  {
    StaysFrozen(w, Do(r, OpenCall(path, flags, mode)), path, id, size, stat, readtype);
  }

  /** Handle r has opened the settled file: a zero file of its size. */
  ghost predicate ReaderOn(w: World, r: nat, path: string, id: nat, total: nat) {
    && r < |w.handles| && w.handles[r].path == path && w.handles[r].pc.Resting?
    && w.handles[r].stub == N.Some(id) && !w.handles[r].view.isRandom && w.handles[r].view.size == U64(total)
  }

  predicate AllZero(bytes: seq<byte>, n: nat) {
    |bytes| == n && forall j :: 0 <= j < n ==> bytes[j] == 0
  }

  lemma ZeroFileRead(v: View, offset: s64, blen: u64)
    requires !v.isRandom && v.size < TWO63
    ensures var n := if 0 <= offset < v.size then Min(blen, v.size - offset) else 0;
            S64(Clamp(v, offset, blen)) == n && AllZero(Content(v, offset, blen), n)
  {
    assert S64(Clamp(v, offset, blen)) == Clamp(v, offset, blen);
  }

  /**
   From w to w2, handle r opens the path read-only and stays open: events that neither rebind nor
   write-open the path; the open; more such events, none of them r's own close or reopening.
   */
  ghost predicate ReadsUndisturbed(w: World, r: nat, path: string, w2: World)
    requires Sound(w)
  {
    exists before, flags, mode, during :: ReadingSession(w, before, r, path, flags, mode, during, w2)
  }

  ghost predicate ReadingSession(w: World, before: seq<Event>, r: nat, path: string, flags: s32, mode: s32,
                                 during: seq<Event>, w2: World)
    requires Sound(w)
  {
    && QuietAfterwards(w, before, path)
    && var w1 := Run(w, before);
    && N.IsReadOnly(flags) && r < |w1.handles| && w1.handles[r].pc.Resting?
    && Result(w1, Do(r, OpenCall(path, flags, mode))) >= 0
    && QuietAfterwards(Opening(w1, r, path, flags, mode), during, path)
    && (forall i :: 0 <= i < |during| ==> LeavesOpen(during[i], r))
    && w2 == Run(Opening(w1, r, path, flags, mode), during) && w2.handles[r].pc.Resting?
  }

  /**
   What a reader has to do with the file: from a state where the file is closed for writing on, whatever happens
   that does not rebind or write-open the path, a session that opens the path read-only reads by the
   size, the kind and the inode that the file has there.
   */
  lemma ReaderSees(w: World, r: nat, path: string, w2: World, id: nat, size: u64, stat: N.Stat, readtype: string)
    requires Sound(w) && Frozen(w, path, id, size, stat, readtype) && ReadsUndisturbed(w, r, path, w2)
    ensures Sound(w2) && r < |w2.handles| && w2.handles[r].pc.Resting?
    ensures ReaderOf(w2, r, path, id, size, stat.ino, readtype)
  {
    var before, flags, mode, during :| ReadingSession(w, before, r, path, flags, mode, during, w2);
    var w1 := Run(w, before);
    FrozenRun(w, before, path, id, size, stat, readtype);
    ReaderEnters(w1, r, path, flags, mode, id, size, stat, readtype);
    ReaderRun(Opening(w1, r, path, flags, mode), during, r, path, id, size, stat, readtype);
  }

  /** In particular every later reader of a settled file reads a zero file of its size. */
  lemma SettledIsRead(w: World, r: nat, path: string, w2: World, id: nat, total: nat)
    requires Sound(w) && Settled(w, path, id, total) && ReadsUndisturbed(w, r, path, w2)
    ensures Sound(w2) && ReaderOn(w2, r, path, id, total)
  {
    ReaderSees(w, r, path, w2, id, U64(total), w.fs.heap[id].stat, "zeros");
  }

  lemma SeedFreezes(w: World, path: string, size: u64, readtype: string, stat: N.Stat, w1: World)
    requires Sound(w) && path !in w.fs.files && w1 == Step(w, Seed(path, size, readtype))
    requires stat == N.Stat(1, (w.fs.fdLast + 1) % TWO64, S64(size))
    ensures Sound(w1) && Frozen(w1, path, |w.fs.heap|, size, stat, readtype)
  {
  }

  lemma SeededView(w: World, path: string, size: u64, readtype: string, r: nat, w2: World)
    requires Sound(w) && path !in w.fs.files
    requires ReadsUndisturbed(Step(w, Seed(path, size, readtype)), r, path, w2)
    ensures Sound(w2) && r < |w2.handles| && w2.handles[r].pc.Resting? && w2.handles[r].stub.Some?
    ensures w2.handles[r].view == View(size, readtype == "random", (w.fs.fdLast + 1) % TWO64)
  {
    var w1 := Step(w, Seed(path, size, readtype));
    var stat := N.Stat(1, (w.fs.fdLast + 1) % TWO64, S64(size));
    SeedFreezes(w, path, size, readtype, stat, w1);
    ReaderSees(w1, r, path, w2, |w.fs.heap|, size, stat, readtype);
  }

  lemma ResultIs(w: World, r: nat, v: View, offset: s64, blen: u64)
    requires Sound(w) && r < |w.handles| && w.handles[r].pc.Resting? && w.handles[r].stub.Some?
    requires w.handles[r].view == v
    ensures Result(w, Do(r, Read(offset, blen))) == S64(|Content(v, offset, blen)|)
  {
    ReadResult(w, r, offset, blen);
  }

  /**
   Seeding and reading back: a file seeded at a free path is read by every undisturbed reader as so many
   bytes, from the offset on, as the file was given: for a random file the top bytes of the generator's
   states from offset XOR inode, the inode being the number that came after the last one; else zeros.
   */
  lemma SeededIsRead(w: World, path: string, size: u64, readtype: string, r: nat, w2: World, offset: s64, blen: u64)
    requires Sound(w) && path !in w.fs.files
    requires ReadsUndisturbed(Step(w, Seed(path, size, readtype)), r, path, w2)
    ensures Sound(w2) && r < |w2.handles|
    ensures var ino := (w.fs.fdLast + 1) % TWO64;
            var n := if 0 <= offset < size then (if blen <= size - offset then blen else size - offset) else 0;
            var bytes := Content(w2.handles[r].view, offset, blen);
            && Result(w2, Do(r, Read(offset, blen))) == (if n < TWO63 then n else n - TWO64)
            && |bytes| == n
            && forall j :: 0 <= j < n ==>
                 bytes[j] == if readtype == "random" then G.TopByte(G.State(j + 1, G.Seed(offset, ino))) else 0
  {
    SeededView(w, path, size, readtype, r, w2);
    var ino: u64 := (w.fs.fdLast + 1) % TWO64;
    ContentIs(size, readtype == "random", ino, offset, blen);
    ResultIs(w2, r, w2.handles[r].view, offset, blen);
  }

  /** Undisturbed readers are there to be had too: any resting handle that opens the path and waits. */
  lemma UninterruptedReader(w: World, r: nat, path: string, flags: s32, mode: s32)
    requires Sound(w) && N.IsReadOnly(flags) && r < |w.handles| && w.handles[r].pc.Resting?
    requires Result(w, Do(r, OpenCall(path, flags, mode))) >= 0
    ensures exists w2 :: ReadsUndisturbed(w, r, path, w2)
  {
    var w1 := Opening(w, r, path, flags, mode);
    var during := [Do(r, OpenLookup)] + ([Do(r, OpenCache)] + []);
    OpenReader(w1, r, path);
    assert QuietAfterwards(w, [], path);
    assert ReadingSession(w, [], r, path, flags, mode, during, Run(w1, during));
    assert ReadsUndisturbed(w, r, path, Run(w1, during));
  }

  lemma OpenReader(w: World, r: nat, path: string)
    requires Sound(w) && r < |w.handles| && w.handles[r].pc.Opened?
    ensures var es := [Do(r, OpenLookup)] + ([Do(r, OpenCache)] + []);
            QuietAfterwards(w, es, path) && Run(w, es).handles[r].pc.Resting?
  {
    var w1 := Step(w, Do(r, OpenLookup));
    assert w1.handles[r].pc.Found?;
    var w2 := Step(w1, Do(r, OpenCache));
    assert w2.handles[r].pc.Resting?;
    QuietFirst(w1, Do(r, OpenCache), [], path);
    QuietFirst(w, Do(r, OpenLookup), [Do(r, OpenCache)] + [], path);
  }

  lemma QuietFirst(w: World, e: Event, es: seq<Event>, path: string)
    requires Sound(w) && !Rebinds(w, e, path) && !OpensForWrite(w, e, path) && QuietAfterwards(Step(w, e), es, path)
    ensures QuietAfterwards(w, [e] + es, path) && Run(w, [e] + es) == Run(Step(w, e), es)
  {
    assert ([e] + es)[1..] == es;
  }

  lemma ReaderReads(w: World, r: nat, path: string, id: nat, total: nat, offset: s64, blen: u64)
    requires Sound(w) && ReaderOn(w, r, path, id, total) && total < TWO63
    ensures var n := if 0 <= offset < total then Min(blen, total - offset) else 0;
            Result(w, Do(r, Read(offset, blen))) == n && AllZero(Content(w.handles[r].view, offset, blen), n)
  {
    assert U64(total) == total;
    ReadResult(w, r, offset, blen);
    ZeroFileRead(w.handles[r].view, offset, blen);
  }

  /**
   The whole round trip, for any interleaving with events that do not disturb it: after a session
   that wrote `written` bytes, the file's size is that number, and every reading session gets zeros,
   exactly as many as the file has.
   */
  lemma WriteThenRead(w: World, h: nat, path: string, written: nat, w3: World, r: nat, w5: World,
                      offset: s64, blen: u64)
    requires Sound(w) && WritesUndisturbed(w, h, path, written, w3)
    requires Sound(w3) && ReadsUndisturbed(w3, r, path, w5) && written < TWO63
    ensures Settled(w3, path, |w.fs.heap|, written)
    ensures w3.fs.heap[|w.fs.heap|].size == w3.fs.heap[|w.fs.heap|].stat.size == written
    ensures Sound(w5) && r < |w5.handles|
    ensures var n := if 0 <= offset < written then Min(blen, written - offset) else 0;
            && Result(w5, Do(r, Read(offset, blen))) == n
            && AllZero(Content(w5.handles[r].view, offset, blen), n)
  {
    SessionIsStored(w, h, path, written, w3);
    SettledSizeIsExact(w3, path, |w.fs.heap|, written);
    SettledIsRead(w3, r, path, w5, |w.fs.heap|, written);
    ReaderReads(w5, r, path, |w.fs.heap|, written, offset, blen);
  }

  /** A settled file can be renamed, onto another file too: what it holds goes with it. */
  lemma SettledMoves(w: World, from: string, to: string, id: nat, total: nat)
    requires Sound(w) && Settled(w, from, id, total)
    ensures Settled(Step(w, Rename(from, to)), to, id, total)
  {
  }

  // ---------------------------------------------------------------- why rename counts as interference

  /** A session that wrote nothing zeroes the size when it closes, exactly if the write flag is up. */
  lemma EmptySessionErases(w: World, r: nat, id: nat, durationUs: s64)
    requires Sound(w) && r < |w.handles| && w.handles[r].pc.Resting?
    requires w.handles[r].stub == N.Some(id) && WrittenBytes(w.handles[r]) == 0
    ensures Stored(w, r, durationUs).fs.heap[id].size == if w.fs.heap[id].isOpenWrite then 0 else w.fs.heap[id].size
  {
  }

  /** Handle h is writing, under a path that is no longer its file's. */
  ghost predicate Renamed(w: World, h: nat, from: string, to: string, id: nat, total: nat) {
    && Bound(w, to, id) && from !in w.fs.files && w.fs.heap[id].isOpenWrite
    && h < |w.handles| && w.handles[h].path == from && w.handles[h].stub == N.Some(id)
    && w.handles[h].pc.Resting? && WrittenBytes(w.handles[h]) == S64(total)
  }

  lemma RenameDetaches(w: World, h: nat, from: string, to: string, id: nat, total: nat)
    requires Sound(w) && InSession(w, h, from, id, total) && w.handles[h].pc.Resting? && from != to
    ensures Renamed(Step(w, Rename(from, to)), h, from, to, id, total)
  {
  }

  lemma RenamedStores(w: World, h: nat, from: string, to: string, id: nat, total: nat, durationUs: s64)
    requires Sound(w) && Renamed(w, h, from, to, id, total)
    ensures var w' := Stored(w, h, durationUs);
            Holds(w', to, id, total) && w'.fs.heap[id].isOpenWrite && ClosingOn(w', h, from) && from !in w'.fs.files
  {
    ThereAndBack(total);
  }

  /**
   Renaming a file that is being written moves it, and its size is stored under the new name; but
   the close looks for the old name, so the write flag is still up when it is done. What becomes of the
   file then is in module WriteFlag.
   */
  lemma RenameWhileWriting(w: World, h: nat, from: string, to: string, id: nat, total: nat, durationUs: s64, w1: World)
    requires Sound(w) && InSession(w, h, from, id, total) && w.handles[h].pc.Resting? && from != to
    requires w1 == Step(w, Rename(from, to))
    ensures var w' := Cleared(Stored(w1, h, durationUs), h);
            Holds(w', to, id, total) && w'.fs.heap[id].isOpenWrite && w'.handles[h].stub == N.None
  {
    RenameDetaches(w, h, from, to, id, total);
    RenamedStores(w1, h, from, to, id, total, durationUs);
    ClearFindsNothing(Stored(w1, h, durationUs), h, from);
  }

  lemma ClearFindsNothing(w: World, h: nat, path: string)
    requires Sound(w) && ClosingOn(w, h, path) && path !in w.fs.files
    ensures Cleared(w, h).fs == w.fs && Cleared(w, h).handles[h].stub == N.None
  {
  }
}
