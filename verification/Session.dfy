/**
 One file handle as a value, and its calls as atomic steps. Open is three steps: the namespace
 open, the look-up of the record, and the copying of what reads will need. Close is two: storing
 the size and reporting the statistics, then clearing the write flag by path. Between the steps of
 one call anything may happen elsewhere; calls on one handle do not overlap.
 */
module Session {
  import opened MachineInts
  import opened Namespace
  import opened ReadEngine
  import opened Stats

  /** Where a handle is: between calls, or inside Open or Close. */
  datatype Pc = Resting | Opened(flags: s32) | Found(flags: s32) | Closing

  /**
   `path` is the path of the last Open, even a failed one; it is what Close clears the flag of.
   `reportPath` is that of the last Open that succeeded; it is what the statistics report.
   */
  datatype Handle = Handle(
    pc: Pc,
    path: string,
    stub: Option<nat>,
    view: View,
    writeBytes: s64,
    writeBytesAio: s64,
    readBytes: s64,
    writeOps: u32,
    writeAioOps: u32,
    readOps: u32,
    errors: u32,
    reportPath: string,
    wasWrite: bool
  )

  const Fresh: Handle := Handle(Resting, "", None, View(0, false, 0), 0, 0, 0, 0, 0, 0, 0, "", false)

  /** One segment of a vectored read: where in the file, how much, and where in memory. */
  datatype Segment = Segment(offset: s64, size: s32, at: nat)

  /** The argument of a vectored read: the count is an `int`. */
  type Segments = segs: seq<Segment> | |segs| < TWO31

  datatype Call =
    | OpenCall(path: string, flags: s32, mode: s32)
    | OpenLookup
    | OpenCache
    | Read(offset: s64, blen: u64)
    | ReadV(segs: Segments)
    | Preposition
    | Write(blen: u64)
    | WriteAio(blen: u64)
    | CloseUpdate(durationUs: s64)
    | CloseClear

  /** What one call can see and change. */
  datatype Local = Local(fs: Fs, stats: Snapshot, hd: Handle)

  datatype Reply = Reply(after: Local, rc: s64)

  predicate Linked(fs: Fs, hd: Handle) {
    && (hd.stub.Some? ==> hd.stub.value < |fs.heap|)
    && (hd.pc.Closing? ==> hd.stub.Some?)
  }

  ghost predicate Good(l: Local) {
    Linked(l.fs, l.hd) && forall p :: p in l.fs.files ==> l.fs.files[p] < |l.fs.heap|
  }

  predicate Enabled(hd: Handle, c: Call) {
    match c
    case OpenLookup => hd.pc.Opened?
    case OpenCache => hd.pc.Found?
    case CloseClear => hd.pc.Closing?
    case _ => hd.pc.Resting?
  }

  function Failed(hd: Handle): Handle {
    hd.(errors := U32(hd.errors + 1))
  }

  /** The handle after a run of reads that returned these bytes in this many counted operations. */
  function AfterReads(hd: Handle, bytes: nat, ops: nat): Handle {
    hd.(readBytes := S64(hd.readBytes + bytes), readOps := U32(hd.readOps + ops))
  }

  function DoRead(hd: Handle, offset: s64, blen: u64): (Handle, s64) {
    if hd.stub.None? then (Failed(hd), -EINVAL)
    else
      var n := S64(Clamp(hd.view, offset, blen));
      if n > 0 then (AfterReads(hd, n, 1), n) else (hd, n)
  }

  /** Bytes that the positive-size segments yield together. */
  function SegmentBytes(v: View, segs: seq<Segment>): nat {
    if segs == [] then 0
    else
      var s := segs[|segs| - 1];
      SegmentBytes(v, segs[..|segs| - 1]) + if s.size > 0 then Clamp(v, s.offset, s.size) else 0
  }

  function PositiveSegments(segs: seq<Segment>): nat {
    if segs == [] then 0
    else PositiveSegments(segs[..|segs| - 1]) + if segs[|segs| - 1].size > 0 then 1 else 0
  }

  /** With no segments nothing is even checked. */
  function DoReadV(hd: Handle, segs: seq<Segment>): (Handle, s64) {
    if segs == [] then (hd, 0)
    else if hd.stub.None? then (Failed(hd), -EINVAL)
    else
      var total := SegmentBytes(hd.view, segs);
      (AfterReads(hd, total, PositiveSegments(segs)), S64(total))
  }

  function DoWrite(hd: Handle, blen: u64): (Handle, s64) {
    (hd.(writeBytes := S64(hd.writeBytes + blen), writeOps := U32(hd.writeOps + 1)), S64(blen))
  }

  function DoWriteAio(hd: Handle, blen: u64): (Handle, s64) {
    (hd.(writeBytesAio := S64(hd.writeBytesAio + S64(blen)), writeAioOps := U32(hd.writeAioOps + 1)), S64(blen))
  }

  function WrittenBytes(hd: Handle): s64 {
    S64(hd.writeBytes + hd.writeBytesAio)
  }

  function Report(hd: Handle, durationUs: s64): Transfer {
    Transfer(hd.reportPath, durationUs, WrittenBytes(hd), hd.readBytes, hd.writeOps, hd.writeAioOps, hd.readOps,
             hd.errors, hd.wasWrite)
  }

  function ViewOf(stub: StubValue): View {
    View(stub.size, stub.readtype == "random", stub.stat.ino)
  }

  function CacheView(fs: Fs, hd: Handle, flags: s32): Handle
    requires Linked(fs, hd)
  {
    Handle(Resting, hd.path, hd.stub, if hd.stub.Some? then ViewOf(fs.heap[hd.stub.value]) else View(0, false, 0),
           0, 0, 0, 0, 0, 0, 0, hd.path, !IsReadOnly(flags))
  }

  /** One step of a handle. A call on a handle that is inside another one does not happen. */
  function Perform(l: Local, c: Call): (r: Reply)
    requires Good(l)
    ensures Good(r.after) && |r.after.fs.heap| >= |l.fs.heap|
  {
    var hd := l.hd;
    if !Enabled(hd, c) then Reply(l, 0)
    else match c
      case OpenCall(path, flags, mode) =>
        var r := Namespace.Open(l.fs, path, flags, mode);
        Reply(l.(fs := r.fs, hd := hd.(path := path, pc := if r.rc < 0 then Resting else Opened(flags))),
              if r.rc < 0 then r.rc else 0)
      case OpenLookup =>
        Reply(l.(hd := hd.(stub := GetStub(l.fs, hd.path), pc := Found(hd.pc.flags))), 0)
      case OpenCache => Reply(l.(hd := CacheView(l.fs, hd, hd.pc.flags)), 0)
      case Read(offset, blen) =>
        var r := DoRead(hd, offset, blen);
        Reply(l.(hd := r.0), r.1)
      case ReadV(segs) =>
        var r := DoReadV(hd, segs);
        Reply(l.(hd := r.0), r.1)
      case Preposition => if hd.stub.None? then Reply(l.(hd := Failed(hd)), -EINVAL) else Reply(l, 0)
      case Write(blen) =>
        var r := DoWrite(hd, blen);
        Reply(l.(hd := r.0), r.1)
      case WriteAio(blen) =>
        var r := DoWriteAio(hd, blen);
        Reply(l.(hd := r.0), r.1)
      case CloseUpdate(durationUs) =>
        if hd.stub.None? then Reply(l, -ENOENT)
        else Reply(Local(StoreSize(l.fs, hd.stub.value, WrittenBytes(hd)), Record(l.stats, Report(hd, durationUs)),
                         hd.(pc := Closing)), 0)
      case CloseClear =>
        Reply(l.(fs := Namespace.Close(l.fs, hd.path), hd := hd.(stub := None, pc := Resting)), 0)
  }

  /** Open without anything happening between its steps. */
  function PerformOpen(l: Local, path: string, flags: s32, mode: s32): Reply
    requires Good(l)
  {
    var r := Perform(l, OpenCall(path, flags, mode));
    if r.rc < 0 then r else Perform(Perform(r.after, OpenLookup).after, OpenCache)
  }

  /** Close without anything happening between its steps. */
  function PerformClose(l: Local, durationUs: s64): Reply
    requires Good(l)
  {
    var r := Perform(l, CloseUpdate(durationUs));
    if r.rc < 0 then r else Perform(r.after, CloseClear)
  }

  // The same, for a resting handle, without the steps.

  /** What an uninterrupted Open does to the namespace and to the handle. */
  function WholeOpen(fs: Fs, hd: Handle, path: string, flags: s32, mode: s32): (Fs, Handle, s64)
    requires forall p :: p in fs.files ==> fs.files[p] < |fs.heap|
  {
    var r := Namespace.Open(fs, path, flags, mode);
    if r.rc < 0 then (r.fs, hd.(path := path), r.rc)
    else (r.fs, CacheView(r.fs, hd.(pc := Found(flags), path := path, stub := GetStub(r.fs, path)), flags), 0)
  }

  lemma IoIs(l: Local, c: Call)
    requires Good(l) && l.hd.pc.Resting?
    ensures c.Read? ==> Perform(l, c) == var r := DoRead(l.hd, c.offset, c.blen); Reply(l.(hd := r.0), r.1)
    ensures c.ReadV? ==> Perform(l, c) == var r := DoReadV(l.hd, c.segs); Reply(l.(hd := r.0), r.1)
    ensures c.Write? ==> Perform(l, c) == var r := DoWrite(l.hd, c.blen); Reply(l.(hd := r.0), r.1)
    ensures c.WriteAio? ==> Perform(l, c) == var r := DoWriteAio(l.hd, c.blen); Reply(l.(hd := r.0), r.1)
  {
  }

  lemma OpenIs(l: Local, path: string, flags: s32, mode: s32)
    requires Good(l) && l.hd.pc.Resting?
    ensures var (fs, hd, rc) := WholeOpen(l.fs, l.hd, path, flags, mode);
            PerformOpen(l, path, flags, mode) == Reply(Local(fs, l.stats, hd), rc)
  {
    var r1 := Perform(l, OpenCall(path, flags, mode));
    if r1.rc >= 0 {
      var r2 := Perform(r1.after, OpenLookup);
      assert r2.after.hd == l.hd.(pc := Found(flags), path := path, stub := GetStub(r1.after.fs, path));
    }
  }

  lemma CloseIs(l: Local, durationUs: s64)
    requires Good(l) && l.hd.pc.Resting? && l.hd.stub.Some?
    ensures PerformClose(l, durationUs) ==
            Reply(Local(Namespace.Close(StoreSize(l.fs, l.hd.stub.value, WrittenBytes(l.hd)), l.hd.path),
                        Record(l.stats, Report(l.hd, durationUs)),
                        l.hd.(stub := None)), 0)
  {
    var r := Perform(l, CloseUpdate(durationUs));
    assert r.after.hd == l.hd.(pc := Closing);
  }

  // ---------------------------------------------------------------- vectored reads

  /** One read per positive-size segment, left to right: the handle after them, and the sum of the results. */
  function ReadEach(hd: Handle, segs: seq<Segment>): (Handle, int) {
    if segs == [] then (hd, 0)
    else
      var s := segs[|segs| - 1];
      var before := ReadEach(hd, segs[..|segs| - 1]);
      if s.size <= 0 then before
      else
        var r := DoRead(before.0, s.offset, s.size);
        (r.0, before.1 + r.1)
  }

  /** Positive-size segments that lie wholly past the end of the file. */
  function EmptySegments(v: View, segs: seq<Segment>): nat {
    if segs == [] then 0
    else
      var s := segs[|segs| - 1];
      EmptySegments(v, segs[..|segs| - 1]) + if s.size > 0 && Clamp(v, s.offset, s.size) == 0 then 1 else 0
  }

  /** No vectored read overflows its total: 2^31 segments of 2^31 bytes fit. */
  lemma {:induction false} TotalFits(v: View, segs: seq<Segment>)
    ensures SegmentBytes(v, segs) <= |segs| * TWO31
    ensures |segs| < TWO31 ==> S64(SegmentBytes(v, segs)) == SegmentBytes(v, segs)
  {
    if segs != [] {
      TotalFits(v, segs[..|segs| - 1]);
    }
  }

  lemma AfterReadsAgain(hd: Handle, bytes: nat, ops: nat, moreBytes: nat, moreOps: nat)
    ensures AfterReads(AfterReads(hd, bytes, ops), moreBytes, moreOps)
         == AfterReads(hd, bytes + moreBytes, ops + moreOps)
  {
    WrapS64(hd.readBytes + bytes, moreBytes);
    WrapU32(hd.readOps + ops, moreOps);
  }

  function CountedReads(v: View, segs: seq<Segment>): nat {
    if segs == [] then 0
    else
      var s := segs[|segs| - 1];
      CountedReads(v, segs[..|segs| - 1]) + if s.size > 0 && Clamp(v, s.offset, s.size) > 0 then 1 else 0
  }

  lemma {:induction false} CountedAndEmpty(v: View, segs: seq<Segment>)
    ensures PositiveSegments(segs) == CountedReads(v, segs) + EmptySegments(v, segs)
  {
    if segs != [] {
      CountedAndEmpty(v, segs[..|segs| - 1]);
    }
  }

  lemma OneRead(hd: Handle, offset: s64, size: s32)
    requires hd.stub.Some? && size > 0
    ensures var n := Clamp(hd.view, offset, size);
            DoRead(hd, offset, size) == (if n > 0 then AfterReads(hd, n, 1) else hd, n)
  {
    var n := Clamp(hd.view, offset, size);
    assert S64(n) == n;
  }

  lemma {:induction false} ReadEachIs(hd: Handle, segs: seq<Segment>)
    requires hd.stub.Some?
    ensures ReadEach(hd, segs)
         == (AfterReads(hd, SegmentBytes(hd.view, segs), CountedReads(hd.view, segs)), SegmentBytes(hd.view, segs))
  {
    if segs == [] {
      NothingRead(hd);
    } else {
      var front, s := segs[..|segs| - 1], segs[|segs| - 1];
      ReadEachIs(hd, front);
      if s.size > 0 {
        var bytes, ops := SegmentBytes(hd.view, front), CountedReads(hd.view, front);
        OneRead(AfterReads(hd, bytes, ops), s.offset, s.size);
        AfterReadsAgain(hd, bytes, ops, Clamp(hd.view, s.offset, s.size), 1);
      }
    }
  }

  /**
   A vectored read is one read per positive-size segment, except that it counts a read operation
   even for a segment past the end of the file, which a single read does not.
   */
  lemma ReadVIsReads(hd: Handle, segs: Segments)
    requires hd.stub.Some?
    ensures DoReadV(hd, segs).1 == ReadEach(hd, segs).1 >= 0
    ensures DoReadV(hd, segs).0 == AfterReads(ReadEach(hd, segs).0, 0, EmptySegments(hd.view, segs))
  {
    var bytes, ops, empty := SegmentBytes(hd.view, segs), CountedReads(hd.view, segs), EmptySegments(hd.view, segs);
    assert ReadEach(hd, segs) == (AfterReads(hd, bytes, ops), bytes) by { ReadEachIs(hd, segs); }
    assert AfterReads(AfterReads(hd, bytes, ops), 0, empty) == AfterReads(hd, bytes, ops + empty) by {
      AfterReadsAgain(hd, bytes, ops, 0, empty);
    }
    assert ops + empty == PositiveSegments(segs) by { CountedAndEmpty(hd.view, segs); }
    ReadVIs(hd, segs);
  }

  lemma NothingRead(hd: Handle)
    ensures AfterReads(hd, 0, 0) == hd
  {
  }

  lemma ReadVIs(hd: Handle, segs: Segments)
    requires hd.stub.Some?
    ensures DoReadV(hd, segs)
         == (AfterReads(hd, SegmentBytes(hd.view, segs), PositiveSegments(segs)), SegmentBytes(hd.view, segs))
  {
    TotalFits(hd.view, segs);
    NothingRead(hd);
  }
}
