/** What every run keeps: inode numbers, sizes of closed files, and what an open handle reads. */
module Invariants {
  import opened MachineInts
  import opened Session
  import opened World
  import opened ReadEngine
  import N = Namespace

  // ---------------------------------------------------------------- inode numbers

  lemma OpenNumbered(fs: N.Fs, path: string, flags: s32, mode: s32)
    requires N.Consistent(fs) && N.Numbered(fs) && fs.fdLast + 1 < TWO64
    ensures var r := N.Open(fs, path, flags, mode).fs;
            N.Numbered(r) && r.fdLast <= fs.fdLast + 1
  {
  }

  lemma SeedNumbered(fs: N.Fs, path: string, size: u64, readtype: string)
    requires N.Numbered(fs) && fs.fdLast + 1 < TWO64
    ensures N.Numbered(N.SeedFile(fs, path, size, readtype))
  {
  }

  lemma PerformNumbered(l: Local, c: Call)
    requires Good(l) && N.Consistent(l.fs) && N.Numbered(l.fs) && l.fs.fdLast + 1 < TWO64
    ensures var r := Perform(l, c).after.fs;
            N.Numbered(r) && r.fdLast <= l.fs.fdLast + 1
  {
    if c.OpenCall? && l.hd.pc.Resting? {
      OpenNumbered(l.fs, c.path, c.flags, c.mode);
    }
  }

  lemma StepNumbered(w: World, e: Event)
    requires Sound(w) && N.Numbered(w.fs) && w.fs.fdLast + 1 < TWO64
    ensures N.Numbered(Step(w, e).fs) && Step(w, e).fs.fdLast <= w.fs.fdLast + 1
  {
    if e.Seed? {
      SeedNumbered(w.fs, e.path, e.size, e.readtype);
    } else if e.Do? && e.h < |w.handles| {
      PerformNumbered(At(w, e.h), e.call);
    }
  }

  lemma {:induction false} RunNumbered(w: World, es: seq<Event>)
    requires Sound(w) && N.Numbered(w.fs) && w.fs.fdLast + |es| < TWO64
    ensures N.Numbered(Run(w, es).fs) && Run(w, es).fs.fdLast <= w.fs.fdLast + |es|
    decreases es
  {
    if es != [] {
      StepNumbered(w, es[0]);
      RunNumbered(Step(w, es[0]), es[1..]);
    }
  }

  /**
   In every state a server reaches in fewer than 2^64 events, no two paths share a record, every
   record ever made has an inode number of its own, never zero, device 1, and two sizes that agree.
   */
  lemma ReachableNamespace(es: seq<Event>)
    requires |es| < TWO64
    ensures var fs := Run(Start, es).fs;
            && (forall p, q :: p in fs.files && q in fs.files && p != q ==> fs.files[p] != fs.files[q])
            && (forall i, j :: 0 <= i < j < |fs.heap| ==> fs.heap[i].stat.ino != fs.heap[j].stat.ino)
            && (forall i :: 0 <= i < |fs.heap| ==>
                  && 0 < fs.heap[i].stat.ino <= fs.fdLast && fs.heap[i].stat.dev == 1
                  && fs.heap[i].stat.size == S64(fs.heap[i].size))
  {
    StartSound();
    RunNumbered(Start, es);
  }

  /** Below 2^63 bytes the two sizes are the same number, and so is the size a fresh Open reads by. */
  lemma SizesSeenAlike(w: World, path: string, h: nat)
    requires Sound(w) && path in w.fs.files && h < |w.handles|
    requires w.handles[h].pc.Found? && w.handles[h].stub == N.GetStub(w.fs, path)
    requires w.fs.heap[w.fs.files[path]].size < TWO63
    ensures var stub := w.fs.heap[w.fs.files[path]];
            Step(w, Do(h, OpenCache)).handles[h].view.size == stub.size == stub.stat.size
  {
  }

  // ---------------------------------------------------------------- sizes

  /** Records agree but for size, mode and the write flag. */
  predicate SameKind(a: N.StubValue, b: N.StubValue) {
    b.stat.ino == a.stat.ino && b.stat.dev == a.stat.dev && b.readtype == a.readtype && b.special == a.special
  }

  lemma PerformSizes(l: Local, c: Call, i: nat)
    requires Good(l) && i < |l.fs.heap|
    ensures var stub, stub' := l.fs.heap[i], Perform(l, c).after.fs.heap[i];
            && SameKind(stub, stub')
            && (stub'.size != stub.size ==>
                  && c.CloseUpdate? && l.hd.stub == N.Some(i) && stub.isOpenWrite
                  && stub'.size == U64(WrittenBytes(l.hd)))
            && (!(c.CloseUpdate? && l.hd.pc.Resting? && l.hd.stub == N.Some(i)) ==> stub'.stat == stub.stat)
  {
  }

  /** The only event that changes a record's size, and what it changes it to. */
  lemma SizeChangesOnlyInClose(w: World, e: Event, i: nat)
    requires Sound(w) && i < |w.fs.heap|
    ensures var w', stub, stub' := Step(w, e), w.fs.heap[i], Step(w, e).fs.heap[i];
            && SameKind(stub, stub')
            && (stub'.size != stub.size ==>
                  && e.Do? && e.call.CloseUpdate? && e.h < |w.handles|
                  && w.handles[e.h].stub == N.Some(i) && stub.isOpenWrite
                  && stub'.size == U64(WrittenBytes(w.handles[e.h])))
  {
    if e.Do? && e.h < |w.handles| {
      PerformSizes(At(w, e.h), e.call, i);
    }
  }

  /** The event marks record i as open for writing: a write open, without truncation, of its path. */
  ghost predicate Reopens(w: World, e: Event, i: nat) {
    && e.Do? && e.call.OpenCall? && e.h < |w.handles| && w.handles[e.h].pc.Resting?
    && !N.IsReadOnly(e.call.flags) && !N.HasExcl(e.call.flags) && !N.HasTrunc(e.call.flags)
    && N.GetStub(w.fs, e.call.path) == N.Some(i)
  }

  ghost predicate NeverReopened(w: World, es: seq<Event>, i: nat)
    requires Sound(w)
    decreases es
  {
    es == [] || (!Reopens(w, es[0], i) && NeverReopened(Step(w, es[0]), es[1..], i))
  }

  lemma FlagSetOnlyByReopening(w: World, e: Event, i: nat)
    requires Sound(w) && i < |w.fs.heap| && !w.fs.heap[i].isOpenWrite
    ensures Step(w, e).fs.heap[i].isOpenWrite <==> Reopens(w, e, i)
  {
  }

  /** A file not open for writing keeps its size, whoever reads, closes, renames or unlinks, until it is reopened. */
  lemma {:induction false} ClosedKeepsSize(w: World, es: seq<Event>, i: nat)
    requires Sound(w) && i < |w.fs.heap| && !w.fs.heap[i].isOpenWrite
    requires NeverReopened(w, es, i)
    ensures var stub, stub' := w.fs.heap[i], Run(w, es).fs.heap[i];
            && !stub'.isOpenWrite && stub'.size == stub.size && stub'.stat == stub.stat
            && stub'.readtype == stub.readtype
    decreases es
  {
    if es != [] {
      SizeChangesOnlyInClose(w, es[0], i);
      FlagSetOnlyByReopening(w, es[0], i);
      ClosedKeepsSize(Step(w, es[0]), es[1..], i);
    }
  }

  /** In particular a seeded file has the size and kind it was configured with. */
  lemma SeededKeepsSize(w: World, path: string, size: u64, readtype: string, es: seq<Event>)
    requires Sound(w) && path !in w.fs.files
    requires NeverReopened(Step(w, Seed(path, size, readtype)), es, |w.fs.heap|)
    ensures var w1 := Step(w, Seed(path, size, readtype));
            var w2 := Run(w1, es);
            var id := |w.fs.heap|;
            && w1.fs.files[path] == id < |w2.fs.heap|
            && w2.fs.heap[id].size == size && w2.fs.heap[id].stat.size == S64(size)
            && w2.fs.heap[id].readtype == readtype && !w2.fs.heap[id].isOpenWrite
  {
    ClosedKeepsSize(Step(w, Seed(path, size, readtype)), es, |w.fs.heap|);
  }

  // ---------------------------------------------------------------- reading

  /** The event is not one that ends or replaces handle h's session. */
  predicate LeavesOpen(e: Event, h: nat) {
    !(e.Do? && e.h == h && (e.call.OpenCall? || e.call.CloseUpdate?))
  }

  /** What reads depend on. */
  ghost predicate SameSession(hd: Handle, hd': Handle) {
    hd'.pc == hd.pc && hd'.path == hd.path && hd'.stub == hd.stub && hd'.view == hd.view
  }

  lemma StepKeepsSession(w: World, e: Event, h: nat)
    requires Sound(w) && h < |w.handles| && w.handles[h].pc.Resting?
    requires LeavesOpen(e, h)
    ensures SameSession(w.handles[h], Step(w, e).handles[h])
  {
  }

  lemma {:induction false} RunKeepsSession(w: World, es: seq<Event>, h: nat)
    requires Sound(w) && h < |w.handles| && w.handles[h].pc.Resting?
    requires forall i :: 0 <= i < |es| ==> LeavesOpen(es[i], h)
    ensures SameSession(w.handles[h], Run(w, es).handles[h])
    decreases es
  {
    if es != [] {
      assert LeavesOpen(es[0], h);
      StepKeepsSession(w, es[0], h);
      RunKeepsSession(Step(w, es[0]), es[1..], h);
    }
  }

  lemma ReadResult(w: World, h: nat, offset: s64, blen: u64)
    requires Sound(w) && h < |w.handles| && w.handles[h].pc.Resting?
    ensures Result(w, Do(h, Read(offset, blen))) ==
            if w.handles[h].stub.None? then -N.EINVAL else S64(Clamp(w.handles[h].view, offset, blen))
  {
  }

  /**
   While a handle stays open, nothing anyone does changes what it reads: not writes, closes,
   truncations, renames or unlinks of the same file.
   */
  lemma ReadsAreStable(w: World, es: seq<Event>, h: nat, offset: s64, blen: u64)
    requires Sound(w) && h < |w.handles| && w.handles[h].pc.Resting?
    requires forall i :: 0 <= i < |es| ==> LeavesOpen(es[i], h)
    ensures var w' := Run(w, es);
            && Result(w', Do(h, Read(offset, blen))) == Result(w, Do(h, Read(offset, blen)))
            && Content(w'.handles[h].view, offset, blen) == Content(w.handles[h].view, offset, blen)
  {
    RunKeepsSession(w, es, h);
    ReadResult(w, h, offset, blen);
    ReadResult(Run(w, es), h, offset, blen);
  }

  // ---------------------------------------------------------------- independence

  predicate IsIo(c: Call) {
    c.Read? || c.ReadV? || c.Preposition? || c.Write? || c.WriteAio?
  }

  /** What an I/O call makes of its handle, and its result: a matter of the handle alone. */
  function AfterIo(hd: Handle, c: Call): (Handle, s64)
    requires IsIo(c)
  {
    if !hd.pc.Resting? then (hd, 0)
    else match c
      case Read(offset, blen) => DoRead(hd, offset, blen)
      case ReadV(segs) => DoReadV(hd, segs)
      case Preposition => if hd.stub.None? then (Failed(hd), -N.EINVAL) else (hd, 0)
      case Write(blen) => DoWrite(hd, blen)
      case _ => DoWriteAio(hd, c.blen)
  }

  lemma IoIsPrivate(w: World, g: nat, c: Call)
    requires Sound(w) && g < |w.handles| && IsIo(c)
    ensures Step(w, Do(g, c)) == w.(handles := w.handles[g := AfterIo(w.handles[g], c).0])
    ensures Result(w, Do(g, c)) == AfterIo(w.handles[g], c).1
  {
  }

  /** The event, seen without handle g. */
  lemma OthersIgnore(w: World, e: Event, g: nat, hd: Handle)
    requires Sound(w) && g < |w.handles| && !(e.Do? && e.h == g) && Linked(w.fs, hd)
    ensures var w' := w.(handles := w.handles[g := hd]);
            && Sound(w') && Result(w', e) == Result(w, e)
            && Step(w', e) == Step(w, e).(handles := Step(w, e).handles[g := hd])
            && Step(w, e).handles[g] == w.handles[g]
  {
    var w' := w.(handles := w.handles[g := hd]);
    match e
    case NewFile => assert w'.handles + [Fresh] == (w.handles + [Fresh])[g := hd];
    case Do(h, c) =>
      if h < |w.handles| {
        assert At(w', h) == At(w, h);
        var l := DoStep(w, h, c).after;
        assert w.handles[g := hd][h := l.hd] == w.handles[h := l.hd][g := hd];
      }
    case _ =>
  }

  /**
   Reads and writes need no lock: an I/O call on one handle and any event that is not on that handle, another
   handle's close of the same file included, can be exchanged without either of them noticing.
   */
  lemma IoCommutes(w: World, g: nat, c: Call, e: Event)
    requires Sound(w) && g < |w.handles| && IsIo(c) && !(e.Do? && e.h == g)
    ensures Step(Step(w, Do(g, c)), e) == Step(Step(w, e), Do(g, c))
    ensures Result(Step(w, e), Do(g, c)) == Result(w, Do(g, c))
    ensures Result(Step(w, Do(g, c)), e) == Result(w, e)
  {
    var hd := AfterIo(w.handles[g], c).0;
    assert Linked(w.fs, hd);
    IoIsPrivate(w, g, c);
    OthersIgnore(w, e, g, hd);
    IoIsPrivate(Step(w, e), g, c);
  }
}
