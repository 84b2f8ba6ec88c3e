/** The file handle class. Its methods are the steps of module Session, run without interruption. */
module OssFile {
  import opened MachineInts
  import opened Generator
  import opened ReadEngine
  import opened Session
  import opened Throttle
  import opened Stats
  import opened BlackholeFS
  import N = Namespace

  /** st_mode of every file: a regular file, readable and writable by all (0100666). */
  const REGULAR_FILE: u32 := 0x81B6

  class OssFile {
    const fs: BlackholeFS
    const statsManager: StatsManager
    const speedMiBs: nat
    var stub: Stub?
    var path: string
    var size: u64
    var isRandom: bool
    var ino: u64
    var throttleBytesPerUs: real
    var writeBytes: s64
    var writeBytesAio: s64
    var readBytes: s64
    var writeOps: u32
    var writeAioOps: u32
    var readOps: u32
    var errors: u32
    var reportPath: string
    var wasWrite: bool

    /** The handle's record, if any, is one of the namespace's. */
    ghost predicate Valid()
      reads this, fs, fs.heap
    {
      fs.Valid() && (stub != null ==> stub.place < |fs.heap| && fs.heap[stub.place] == stub)
    }

    ghost function Value(): Handle
      reads this
    {
      Handle(Resting, path, if stub == null then N.None else N.Some(stub.place), View(size, isRandom, ino),
             writeBytes, writeBytesAio, readBytes, writeOps, writeAioOps, readOps, errors, reportPath, wasWrite)
    }

    constructor (fs: BlackholeFS, statsManager: StatsManager, speedMiBs: nat)
      requires fs.Valid()
      ensures Valid() && Value() == Fresh
      ensures this.fs == fs && this.statsManager == statsManager && this.speedMiBs == speedMiBs
    {
      this.fs, this.statsManager, this.speedMiBs := fs, statsManager, speedMiBs;
      stub, path, size, isRandom, ino, throttleBytesPerUs := null, "", 0, false, 0, 0.0;
      writeBytes, writeBytesAio, readBytes := 0, 0, 0;
      writeOps, writeAioOps, readOps, errors, reportPath, wasWrite := 0, 0, 0, 0, "", false;
    }

    method Open(path: string, flags: s32, mode: s32) returns (rc: s32)
      requires Valid()
      modifies this, fs, fs.heap
      ensures Valid() && old(fs.heap) <= fs.heap && fresh(fs.heap[|old(fs.heap)|..])
      ensures (fs.Value(), Value(), rc as int) == WholeOpen(old(fs.Value()), old(Value()), path, flags, mode)
      ensures rc == 0 ==> throttleBytesPerUs == Rate(speedMiBs)
    {
      rc := Enter(path, flags, mode);
      if rc < 0 {
        return;
      }
      Attach(flags);
      rc := 0;
    }

    /** Open after the namespace has agreed: find the record, then start a session on it. */
    method Attach(flags: s32)
      requires Valid()
      modifies this
      ensures Valid() && throttleBytesPerUs == Rate(speedMiBs)
      ensures Value() == CacheView(
                fs.Value(), old(Value()).(pc := Found(flags), stub := N.GetStub(fs.Value(), old(path))), flags)
    {
      stub := fs.GetStub(path);
      Begin(flags);
    }

    method Begin(flags: s32)
      modifies this
      ensures path == old(path) && stub == old(stub) && throttleBytesPerUs == Rate(speedMiBs)
      ensures View(size, isRandom, ino) == if stub == null then View(0, false, 0) else ViewOf(stub.Value())
      ensures writeBytes == writeBytesAio == readBytes == 0 && reportPath == path && wasWrite == !N.IsReadOnly(flags)
      ensures writeOps == writeAioOps == readOps == errors == 0
    {
      ResetCounters();
      CopyView();
      throttleBytesPerUs := Rate(speedMiBs);
      reportPath := path;
      wasWrite := !N.IsReadOnly(flags);
    }

    /** The namespace's part of Open. */
    method Enter(path: string, flags: s32, mode: s32) returns (rc: s32)
      requires Valid()
      modifies this`path, fs, fs.heap
      ensures Valid() && old(fs.heap) <= fs.heap && fresh(fs.heap[|old(fs.heap)|..])
      ensures this.path == path
      ensures N.Outcome(fs.Value(), rc) == N.Open(old(fs.Value()), path, flags, mode)
    {
      this.path := path;
      rc := fs.Open(path, flags, mode);
      assert stub != null ==> fs.heap[stub.place] == old(fs.heap)[stub.place];
    }

    method ResetCounters()
      modifies this`writeBytes, this`writeBytesAio, this`readBytes,
               this`writeOps, this`writeAioOps, this`readOps, this`errors
      ensures writeBytes == writeBytesAio == readBytes == 0
      ensures writeOps == writeAioOps == readOps == errors == 0
    {
      writeBytes, writeBytesAio, readBytes := 0, 0, 0;
      writeOps, writeAioOps, readOps, errors := 0, 0, 0, 0;
    }

    /** Copies what reads will need from the record. */
    method CopyView()
      modifies this`size, this`isRandom, this`ino
      ensures View(size, isRandom, ino) == if stub == null then View(0, false, 0) else ViewOf(stub.Value())
    {
      size := if stub != null then stub.size else 0;
      isRandom := stub != null && stub.readtype == "random";
      ino := if stub != null then stub.stat.ino else 0;
    }

    method Close(durationUs: s64) returns (rc: s32)
      requires Valid() && statsManager.Valid()
      modifies this, fs`records, fs.heap, statsManager
      ensures Valid() && statsManager.Valid()
      ensures old(stub) == null ==>
                rc == -N.ENOENT && unchanged(this) && unchanged(fs) && unchanged(fs.heap) && unchanged(statsManager)
      ensures old(stub) != null ==>
                && rc == 0
                && Value() == old(Value()).(stub := N.None)
                && statsManager.log == old(statsManager.log) + [Report(old(Value()), durationUs)]
                && fs.Value() == N.Close(N.StoreSize(old(fs.Value()), old(stub.place), WrittenBytes(old(Value()))),
                                         old(path))
    {
      if stub == null {
        return -N.ENOENT;
      }
      var wb := S64(writeBytes + writeBytesAio);
      var transfer :=
        Transfer(reportPath, durationUs, wb, readBytes, writeOps, writeAioOps, readOps, errors, wasWrite);
      assert transfer == Report(Value(), durationUs);
      UpdateSize(wb);
      ghost var updated := fs.Value();
      statsManager.RecordTransfer(transfer);
      assert fs.Value() == updated;
      fs.Close(path);
      stub := null;
      rc := 0;
    }

    method UpdateSize(wb: s64)
      requires Valid() && stub != null
      modifies fs`records, stub
      ensures Valid()
      ensures fs.Value() == N.StoreSize(old(fs.Value()), stub.place, wb)
    {
      if stub.isOpenWrite {
        stub.size := U64(wb);
        stub.stat := stub.stat.(size := wb);
        fs.records := fs.records[stub.place := stub.Value()];
      }
    }

    /** The generator's bytes, unrolled: eight bytes a turn while it can, then one at a time. */
    static method FillRandom(mem: array<byte>, at: nat, seed: u64, count: nat)
      requires at + count <= mem.Length
      modifies mem
      ensures forall k :: at <= k < at + count ==> mem[k] == TopByte(State(k - at + 1, seed))
      ensures forall k :: 0 <= k < at || at + count <= k < mem.Length ==> mem[k] == old(mem[k])
    {
      var state := seed;
      var i := 0;
      while i + 8 <= count
        invariant 0 <= i <= count
        invariant state == State(i, seed)
        invariant forall k :: at <= k < at + i ==> mem[k] == TopByte(State(k - at + 1, seed))
        invariant forall k :: 0 <= k < at || at + i <= k < mem.Length ==> mem[k] == old(mem[k])
      {
        ghost var done := mem[..];
        state := Next(state); var b0 := TopByte(state);
        state := Next(state); var b1 := TopByte(state);
        state := Next(state); var b2 := TopByte(state);
        state := Next(state); var b3 := TopByte(state);
        state := Next(state); var b4 := TopByte(state);
        state := Next(state); var b5 := TopByte(state);
        state := Next(state); var b6 := TopByte(state);
        state := Next(state); var b7 := TopByte(state);
        EightBytes(i, seed, state, [b0, b1, b2, b3, b4, b5, b6, b7]);
        mem[at + i], mem[at + i + 1], mem[at + i + 2], mem[at + i + 3] := b0, b1, b2, b3;
        mem[at + i + 4], mem[at + i + 5], mem[at + i + 6], mem[at + i + 7] := b4, b5, b6, b7;
        forall k | at <= k < at + i + 8 ensures mem[k] == TopByte(State(k - at + 1, seed)) {
          if k < at + i {
            assert mem[k] == done[k];
          } else {
            assert mem[k] == [b0, b1, b2, b3, b4, b5, b6, b7][k - at - i];
          }
        }
        i := i + 8;
      }
      while i < count
        invariant 0 <= i <= count
        invariant state == State(i, seed)
        invariant forall k :: at <= k < at + i ==> mem[k] == TopByte(State(k - at + 1, seed))
        invariant forall k :: 0 <= k < at || at + i <= k < mem.Length ==> mem[k] == old(mem[k])
      {
        state := Next(state);
        assert state == State(i + 1, seed);
        mem[at + i] := TopByte(state);
        i := i + 1;
      }
    }

    /** Fills memory from the virtual file. */
    method ReadInner(mem: array<byte>, at: nat, offset: s64, blen: u64) returns (n: s64)
      requires at + Clamp(View(size, isRandom, ino), offset, blen) <= mem.Length
      modifies mem
      ensures mem[..] == Patch(old(mem[..]), at, Content(View(size, isRandom, ino), offset, blen))
      ensures n == S64(Clamp(View(size, isRandom, ino), offset, blen))
    {
      if offset < 0 || offset >= size {
        return 0;
      }
      var count := Min(blen, size - offset);
      if isRandom {
        FillRandom(mem, at, Seed(offset, ino), count);
      } else {
        forall j | at <= j < at + count {
          mem[j] := 0;
        }
      }
      n := S64(count);
    }

    method Read(mem: array<byte>, at: nat, offset: s64, blen: u64) returns (n: s64)
      requires at + blen <= mem.Length
      modifies this, mem
      ensures (Value(), n) == DoRead(old(Value()), offset, blen)
      ensures mem[..] == if stub == null then old(mem[..])
                         else Patch(old(mem[..]), at, Content(Value().view, offset, blen))
    {
      if stub == null {
        errors := U32(errors + 1);
        return -N.EINVAL;
      }
      n := ReadInner(mem, at, offset, blen);
      if n > 0 {
        readBytes := S64(readBytes + n);
        readOps := U32(readOps + 1);
      }
    }

    method Write(blen: u64) returns (n: s64, delayUs: int)
      modifies this
      ensures (Value(), n) == DoWrite(old(Value()), blen)
      ensures delayUs == DelayUs(throttleBytesPerUs, blen)
    {
      delayUs := 0;
      if throttleBytesPerUs > 0.0 {
        delayUs := (blen as real / throttleBytesPerUs).Floor;
      }
      writeBytes := S64(writeBytes + blen);
      writeOps := U32(writeOps + 1);
      n := S64(blen);
    }

    method WriteAio(nbytes: u64) returns (result: s64, delayUs: int)
      modifies this
      ensures (Value(), result) == DoWriteAio(old(Value()), nbytes)
      ensures delayUs == DelayUs(throttleBytesPerUs, nbytes)
    {
      delayUs := 0;
      if throttleBytesPerUs > 0.0 {
        delayUs := (nbytes as real / throttleBytesPerUs).Floor;
      }
      result := S64(nbytes);
      writeBytesAio := S64(writeBytesAio + S64(nbytes));
      writeAioOps := U32(writeAioOps + 1);
    }

    /** The read that moves no data: it only checks that the file is open. */
    method ReadPreposition() returns (rc: s64)
      modifies this`errors
      ensures old(stub) == null ==> rc == -N.EINVAL && Value() == Failed(old(Value()))
      ensures old(stub) != null ==> rc == 0 && Value() == old(Value())
    {
      if stub == null {
        errors := U32(errors + 1);
        return -N.EINVAL;
      }
      rc := 0;
    }

    method Fstat() returns (rc: s32, stat: N.Stat, mode: u32)
      requires Valid()
      ensures stub == null ==> rc == -N.ENOENT
      ensures stub != null ==> rc == 0 && stat == fs.Value().heap[stub.place].stat && mode == REGULAR_FILE
    {
      if stub == null {
        return -N.ENOENT, N.Stat(0, 0, 0), 0;
      }
      return 0, stub.stat, REGULAR_FILE;
    }

    method ReadV(mem: array<byte>, segs: seq<Segment>, n: s32) returns (total: s64)
      requires n <= |segs| && Fit(segs, mem.Length)
      modifies this, mem
      ensures (Value(), total) == DoReadV(old(Value()), if n <= 0 then [] else segs[..n])
      ensures mem[..] == if stub == null || n <= 0 then old(mem[..])
                         else Deliver(old(mem[..]), Value().view, segs[..n])
    {
      if n <= 0 {
        return 0;
      }
      if stub == null {
        errors := U32(errors + 1);
        return -N.EINVAL;
      }
      var ops;
      total, ops := ReadSegments(mem, segs[..n]);
      TotalFits(View(size, isRandom, ino), segs[..n]);
      readBytes := S64(readBytes + total);
      readOps := U32(readOps + ops);
    }

    /** The loop of a vectored read. */
    method ReadSegments(mem: array<byte>, segs: seq<Segment>) returns (total: s64, ops: nat)
      requires |segs| < TWO31 && Fit(segs, mem.Length)
      modifies mem
      ensures total == SegmentBytes(View(size, isRandom, ino), segs) && ops == PositiveSegments(segs)
      ensures mem[..] == Deliver(old(mem[..]), View(size, isRandom, ino), segs)
    {
      ghost var view, before := View(size, isRandom, ino), mem[..];
      total, ops := 0, 0;
      for i := 0 to |segs|
        invariant Delivered(before, view, segs[..i], mem[..], total, ops)
      {
        SegmentStep(before, view, segs, i, mem[..], total, ops);
        if segs[i].size <= 0 {
          continue;
        }
        var rc := ReadInner(mem, segs[i].at, segs[i].offset, segs[i].size);
        SmallRead(view, segs[i].offset, segs[i].size);
        if rc < 0 {
          return rc, ops;
        }
        total := total + rc;
        ops := ops + 1;
      }
      assert segs[..|segs|] == segs;
    }
  }

  /** Eight turns of the generator from State(i), and the bytes they put out. */
  lemma EightBytes(i: nat, seed: u64, state: u64, bytes: seq<byte>)
    requires var s1 := Next(State(i, seed)); var s2 := Next(s1); var s3 := Next(s2); var s4 := Next(s3);
             var s5 := Next(s4); var s6 := Next(s5); var s7 := Next(s6);
             && bytes == [TopByte(s1), TopByte(s2), TopByte(s3), TopByte(s4),
                          TopByte(s5), TopByte(s6), TopByte(s7), TopByte(state)]
             && state == Next(s7)
    ensures state == State(i + 8, seed)
    ensures forall j :: 0 <= j < 8 ==> bytes[j] == TopByte(State(i + j + 1, seed))
  {
    assert State(i + 1, seed) == Next(State(i, seed)) && State(i + 2, seed) == Next(State(i + 1, seed));
    assert State(i + 3, seed) == Next(State(i + 2, seed)) && State(i + 4, seed) == Next(State(i + 3, seed));
    assert State(i + 5, seed) == Next(State(i + 4, seed)) && State(i + 6, seed) == Next(State(i + 5, seed));
    assert State(i + 7, seed) == Next(State(i + 6, seed)) && State(i + 8, seed) == Next(State(i + 7, seed));
  }

  /** Every segment that asks for bytes has room for them. */
  predicate Fit(segs: seq<Segment>, length: nat) {
    forall i :: 0 <= i < |segs| && segs[i].size > 0 ==> segs[i].at + segs[i].size <= length
  }

  /** Memory after the segments have been filled one after another. */
  ghost function Deliver(mem: seq<byte>, view: View, segs: seq<Segment>): (r: seq<byte>)
    requires Fit(segs, |mem|)
    ensures |r| == |mem|
  {
    if segs == [] then mem
    else
      var s := segs[|segs| - 1];
      var before := Deliver(mem, view, segs[..|segs| - 1]);
      if s.size <= 0 then before else Patch(before, s.at, Content(view, s.offset, s.size))
  }

  lemma SmallRead(view: View, offset: s64, size: s32)
    requires size > 0
    ensures S64(Clamp(view, offset, size)) == Clamp(view, offset, size)
  {
  }

  /** The segments have been filled, which came to this total and this count. */
  ghost predicate Delivered(before: seq<byte>, view: View, segs: seq<Segment>, mem: seq<byte>, total: int, ops: int)
    requires Fit(segs, |before|)
  {
    mem == Deliver(before, view, segs) && total == SegmentBytes(view, segs) && ops == PositiveSegments(segs)
  }

  /** What one more segment adds to the memory, the total and the count. */
  lemma SegmentStep(before: seq<byte>, view: View, segs: seq<Segment>, i: nat, mem: seq<byte>, total: int, ops: int)
    requires Fit(segs, |before|) && i < |segs| < TWO31 && Delivered(before, view, segs[..i], mem, total, ops)
    ensures var s, n := segs[i], Clamp(view, segs[i].offset, if segs[i].size > 0 then segs[i].size else 0);
            && |mem| == |before|
            && (s.size <= 0 ==> Delivered(before, view, segs[..i + 1], mem, total, ops))
            && (s.size > 0 ==>
                  && total + n < TWO63
                  && Delivered(before, view, segs[..i + 1], Patch(mem, s.at, Content(view, s.offset, s.size)),
                               total + n, ops + 1))
  {
    assert segs[..i + 1][..i] == segs[..i];
    TotalFits(view, segs[..i + 1]);
  }

  // ---------------------------------------------------------------- vectored reads as reads

  /** What Read does, for one segment: to memory, to the handle, and its result. */
  ghost function ReadInto(mem: seq<byte>, hd: Handle, s: Segment): (seq<byte>, Handle, int)
    requires s.size > 0 && s.at + s.size <= |mem|
  {
    var r := DoRead(hd, s.offset, s.size);
    (if hd.stub.None? then mem else Patch(mem, s.at, Content(hd.view, s.offset, s.size)), r.0, r.1)
  }

  /** One Read for each positive-size segment, from left to right, and the sum of their results. */
  ghost function ReadsInto(mem: seq<byte>, hd: Handle, segs: seq<Segment>): (r: (seq<byte>, Handle, int))
    requires Fit(segs, |mem|)
    ensures |r.0| == |mem|
  {
    if segs == [] then (mem, hd, 0)
    else
      var s := segs[|segs| - 1];
      var (before, hd', sum) := ReadsInto(mem, hd, segs[..|segs| - 1]);
      if s.size <= 0 then (before, hd', sum)
      else
        var (after, hd'', n) := ReadInto(before, hd', s);
        (after, hd'', sum + n)
  }

  lemma {:induction false} ReadsIntoIs(mem: seq<byte>, hd: Handle, segs: seq<Segment>)
    requires Fit(segs, |mem|) && hd.stub.Some?
    ensures ReadsInto(mem, hd, segs) == (Deliver(mem, hd.view, segs), ReadEach(hd, segs).0, ReadEach(hd, segs).1)
    ensures ReadEach(hd, segs).0.stub == hd.stub && ReadEach(hd, segs).0.view == hd.view
  {
    if segs != [] {
      ReadsIntoIs(mem, hd, segs[..|segs| - 1]);
    }
  }

  /**
   A vectored read is one Read per positive-size segment, left to right: the same memory, even where segments
   overlap, the same total and the same counters, but that it counts an operation for a segment past the end.
   */
  lemma VectoredReadIsReads(mem: seq<byte>, hd: Handle, segs: Segments)
    requires Fit(segs, |mem|) && hd.stub.Some?
    ensures var (after, hd', sum) := ReadsInto(mem, hd, segs);
            && Deliver(mem, hd.view, segs) == after
            && DoReadV(hd, segs) == (AfterReads(hd', 0, EmptySegments(hd.view, segs)), sum)
  {
    ReadsIntoIs(mem, hd, segs);
    ReadVIsReads(hd, segs);
  }
}
