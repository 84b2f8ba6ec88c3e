/**
 What every call answers and what it changes, spelled out over the whole server: the result as a number, the
 records, the paths and the handle, and that nothing else moves. The flags are those of open(2) on Linux.
 */
module Answers {
  import opened MachineInts
  import opened Session
  import opened World
  import G = Generator
  import N = Namespace
  import ReadEngine
  import Stats

  /** Handle h exists and is between calls. */
  predicate Free(w: World, h: nat) {
    h < |w.handles| && w.handles[h].pc.Resting?
  }

  /** The access mode is the low two bits, O_EXCL is 0200 and O_TRUNC is 01000, whatever the other bits are. */
  lemma FlagBits(flags: s32, access: nat, a: nat, excl: nat, b: nat, trunc: nat, c: int)
    requires access < 4 && a < 32 && excl < 2 && b < 2 && trunc < 2
    requires flags == access + 4 * a + 128 * excl + 256 * b + 512 * trunc + 1024 * c
    ensures N.IsReadOnly(flags) <==> access == 0
    ensures N.HasExcl(flags) <==> excl == 1
    ensures N.HasTrunc(flags) <==> trunc == 1
  {
    Quotient(flags, 4, a + 32 * excl + 64 * b + 128 * trunc + 256 * c, access);
    Quotient(flags, 128, excl + 2 * (b + 2 * trunc + 4 * c), access + 4 * a);
    Quotient(flags, 512, trunc + 2 * c, access + 4 * a + 128 * excl + 256 * b);
    Quotient(flags / 128, 2, b + 2 * trunc + 4 * c, excl);
    Quotient(flags / 512, 2, c, trunc);
  }

  lemma Quotient(x: int, d: int, q: int, r: int)
    requires 0 <= r < d && x == d * q + r
    ensures x / d == q && x % d == r
  {
    G.RemainderUnique(d, q, r);
    Cancel(d, x / d, q);
  }

  lemma Cancel(d: int, a: int, b: int)
    requires d > 0 && d * a == d * b
    ensures a == b
  {
    if a > b { G.MulAtLeast(d, a - b); }
    if a < b { G.MulAtLeast(d, b - a); }
  }

  // ---------------------------------------------------------------- open

  /** The open has got the next number n: it succeeds if n, as an int, is not negative, and answers n if it is. */
  ghost predicate GotNumber(w: World, h: nat, path: string, flags: s32, rc: int, w': World)
    requires h < |w.handles|
  {
    var n := (w.fs.fdLast + 1) % TWO64;
    && w'.fs.fdLast == n && w'.stats == w.stats
    && (n % TWO32 < TWO31 ==>
          rc == 0 && w'.handles == w.handles[h := w.handles[h].(path := path, pc := Opened(flags))])
    && (n % TWO32 >= TWO31 ==> rc == n % TWO32 - TWO32 && w'.handles == w.handles[h := w.handles[h].(path := path)])
  }

  /** All records but record id are as before. */
  ghost predicate OthersSame(w: World, id: nat, w': World) {
    |w'.fs.heap| == |w.fs.heap| && forall i :: 0 <= i < |w.fs.heap| && i != id ==> w'.fs.heap[i] == w.fs.heap[i]
  }

  /** To read what does not exist is ENOENT; to write, with O_EXCL, what does is EEXIST. The handle's path is set. */
  lemma OpenRefused(w: World, h: nat, path: string, flags: s32, mode: s32)
    requires Sound(w) && Free(w, h)
    requires if N.IsReadOnly(flags) then path !in w.fs.files else path in w.fs.files && N.HasExcl(flags)
    ensures Result(w, Do(h, OpenCall(path, flags, mode))) == if N.IsReadOnly(flags) then -2 else -17
    ensures Step(w, Do(h, OpenCall(path, flags, mode))) == w.(handles := w.handles[h := w.handles[h].(path := path)])
  {
  }

  /** Opening an existing file, to read or to write on: no path and no content changes; a write open raises the flag. */
  lemma OpenFinds(w: World, h: nat, path: string, flags: s32, mode: s32)
    requires Sound(w) && Free(w, h) && path in w.fs.files
    requires N.IsReadOnly(flags) || (!N.HasExcl(flags) && !N.HasTrunc(flags))
    ensures var e := Do(h, OpenCall(path, flags, mode));
            GotNumber(w, h, path, flags, Result(w, e), Step(w, e))
    ensures var w', id := Step(w, Do(h, OpenCall(path, flags, mode))), w.fs.files[path];
            && w'.fs.files == w.fs.files && OthersSame(w, id, w')
            && var s, s' := w.fs.heap[id], w'.fs.heap[id];
            && s'.size == s.size && s'.stat == s.stat && s'.readtype == s.readtype && s'.special == s.special
            && s'.flags == flags && s'.mode == mode
            && (s'.isOpenWrite <==> s.isOpenWrite || !N.IsReadOnly(flags))
  {
    NarrowAgain(w.fs.fdLast + 1);
  }

  /** Creating or truncating: the path gets a new record, empty, of zeros, open for writing, with the next inode. */
  lemma OpenMakes(w: World, h: nat, path: string, flags: s32, mode: s32)
    requires Sound(w) && Free(w, h) && !N.IsReadOnly(flags)
    requires path in w.fs.files ==> !N.HasExcl(flags) && N.HasTrunc(flags)
    ensures var e := Do(h, OpenCall(path, flags, mode));
            GotNumber(w, h, path, flags, Result(w, e), Step(w, e))
    ensures var w', n := Step(w, Do(h, OpenCall(path, flags, mode))), (w.fs.fdLast + 1) % TWO64;
            && w'.fs.files == w.fs.files[path := |w.fs.heap|]
            && w'.fs.heap == w.fs.heap + [N.StubValue(true, flags, mode, 0, N.Stat(1, n, 0), false, "zeros")]
  {
    NarrowAgain(w.fs.fdLast + 1);
  }

  lemma NarrowAgain(x: int)
    ensures S32(x % TWO64) == if x % TWO32 < TWO31 then x % TWO32 else x % TWO32 - TWO32
    ensures x % TWO64 % TWO32 == x % TWO32
  {
    var q := x / TWO64;
    assert x % TWO64 == x + TWO32 * (-TWO32 * q);
    G.AddMultiple(TWO32, x, -TWO32 * q);
  }

  /** The second step of Open looks the record up by path, as the path is now. */
  lemma OpenLooksUp(w: World, h: nat)
    requires Sound(w) && h < |w.handles| && w.handles[h].pc.Opened?
    ensures Result(w, Do(h, OpenLookup)) == 0
    ensures var hd := w.handles[h];
            Step(w, Do(h, OpenLookup)) == w.(handles := w.handles[h := hd.(
              pc := Found(hd.pc.flags),
              stub := if hd.path in w.fs.files then N.Some(w.fs.files[hd.path]) else N.None)])
  {
  }

  /** The third caches the record's size, kind and inode as they are now, and starts all counters from zero. */
  lemma OpenCaches(w: World, h: nat)
    requires Sound(w) && h < |w.handles| && w.handles[h].pc.Found?
    ensures Result(w, Do(h, OpenCache)) == 0
    ensures var hd, w' := w.handles[h], Step(w, Do(h, OpenCache));
            var hd' := w'.handles[h];
            && w' == w.(handles := w.handles[h := hd'])
            && hd'.pc.Resting? && hd'.path == hd.path == hd'.reportPath && hd'.stub == hd.stub
            && (hd.stub.Some? ==>
                  var s := w.fs.heap[hd.stub.value];
                  && hd'.view.size == s.size && hd'.view.ino == s.stat.ino
                  && (hd'.view.isRandom <==> s.readtype == "random"))
            && (hd.stub.None? ==> hd'.view.size == hd'.view.ino == 0 && !hd'.view.isRandom)
            && hd'.writeBytes == hd'.writeBytesAio == hd'.readBytes == 0
            && hd'.writeOps == hd'.writeAioOps == hd'.readOps == hd'.errors == 0
            && (hd'.wasWrite <==> !N.IsReadOnly(hd.pc.flags))
  {
  }

  // ---------------------------------------------------------------- reading and writing

  /** Without a record every read is EINVAL, and counted as an error. A vectored read of no segments is not. */
  lemma ReadRefused(w: World, h: nat, c: Call)
    requires Sound(w) && Free(w, h) && w.handles[h].stub.None?
    requires c.Read? || c.Preposition? || (c.ReadV? && c.segs != [])
    ensures Result(w, Do(h, c)) == -22
    ensures var hd := w.handles[h];
            Step(w, Do(h, c)) == w.(handles := w.handles[h := hd.(errors := (hd.errors + 1) % TWO32)])
  {
  }

  /** A read returns as many bytes as asked for or left, and counts them, if there are any. */
  lemma ReadAnswers(w: World, h: nat, offset: s64, blen: u64)
    requires Sound(w) && Free(w, h) && w.handles[h].stub.Some?
    ensures var hd := w.handles[h];
            var size, rc := hd.view.size, Result(w, Do(h, Read(offset, blen)));
            var n := if 0 <= offset < size then (if blen <= size - offset then blen else size - offset) else 0;
            && rc == (if n < TWO63 then n else n - TWO64)
            && Step(w, Do(h, Read(offset, blen))) == w.(handles := w.handles[h :=
                 if rc > 0 then hd.(readBytes := S64(hd.readBytes + rc), readOps := (hd.readOps + 1) % TWO32) else hd])
  {
  }

  /** Reads of nothing: the check alone, and the empty vector. */
  lemma NothingToRead(w: World, h: nat, c: Call)
    requires Sound(w) && Free(w, h)
    requires (c.Preposition? && w.handles[h].stub.Some?) || (c.ReadV? && c.segs == [])
    ensures Result(w, Do(h, c)) == 0 && Step(w, Do(h, c)) == w
  {
    assert w.handles[h := w.handles[h]] == w.handles;
  }

  function Wrote(hd: Handle, c: Call): Handle
    requires c.Write? || c.WriteAio?
  {
    if c.Write? then hd.(writeBytes := S64(hd.writeBytes + c.blen), writeOps := (hd.writeOps + 1) % TWO32)
    else hd.(writeBytesAio := S64(hd.writeBytesAio + c.blen), writeAioOps := (hd.writeAioOps + 1) % TWO32)
  }

  lemma WroteIs(hd: Handle, c: Call, n: s64)
    requires (c.Write? || c.WriteAio?) && n == if c.blen < TWO63 then c.blen else c.blen - TWO64
    ensures c.Write? ==> DoWrite(hd, c.blen) == (Wrote(hd, c), n)
    ensures c.WriteAio? ==> DoWriteAio(hd, c.blen) == (Wrote(hd, c), n)
  {
    assert S64(c.blen) == n;
    WrapS64(c.blen, hd.writeBytesAio);
  }

  /** A write takes everything, with a record or without, and says so; the two kinds have counters of their own. */
  lemma WriteAnswers(w: World, h: nat, c: Call)
    requires Sound(w) && Free(w, h) && (c.Write? || c.WriteAio?)
    ensures Result(w, Do(h, c)) == if c.blen < TWO63 then c.blen else c.blen - TWO64
    ensures Step(w, Do(h, c)) == w.(handles := w.handles[h := Wrote(w.handles[h], c)])
  {
    WroteIs(w.handles[h], c, if c.blen < TWO63 then c.blen else c.blen - TWO64);
    IoIs(At(w, h), c);
  }

  // ---------------------------------------------------------------- close

  /** A handle without a record cannot be closed, and nothing is reported for it. */
  lemma CloseRefused(w: World, h: nat, durationUs: s64)
    requires Sound(w) && Free(w, h) && w.handles[h].stub.None?
    ensures Result(w, Do(h, CloseUpdate(durationUs))) == -2 && Step(w, Do(h, CloseUpdate(durationUs))) == w
  {
    assert w.handles[h := w.handles[h]] == w.handles;
  }

  /** The first step of Close: both sizes become the bytes written if the flag is up, and one transfer is reported. */
  lemma CloseUpdates(w: World, h: nat, durationUs: s64)
    requires Sound(w) && Free(w, h) && w.handles[h].stub.Some?
    ensures Result(w, Do(h, CloseUpdate(durationUs))) == 0
    ensures var hd, id, w' := w.handles[h], w.handles[h].stub.value, Step(w, Do(h, CloseUpdate(durationUs)));
            var s, sum := w.fs.heap[id], hd.writeBytes + hd.writeBytesAio;
            && w'.handles == w.handles[h := hd.(pc := Closing)]
            && w'.fs == w.fs.(heap := w.fs.heap[id :=
                 if s.isOpenWrite then s.(size := sum % TWO64, stat := s.stat.(size := S64(sum))) else s])
            && w'.stats == Stats.Record(w.stats, Stats.Transfer(hd.reportPath, durationUs, S64(sum), hd.readBytes,
                 hd.writeOps, hd.writeAioOps, hd.readOps, hd.errors, hd.wasWrite))
  {
    var hd := w.handles[h];
    ThereAndBack(hd.writeBytes + hd.writeBytesAio);
    var id := hd.stub.value;
    assert w.fs.heap[id := w.fs.heap[id]] == w.fs.heap;
  }

  /** The second: the flag of the record the path names now goes down, if there is one, and the record is let go. */
  lemma CloseClears(w: World, h: nat)
    requires Sound(w) && h < |w.handles| && w.handles[h].pc.Closing?
    ensures Result(w, Do(h, CloseClear)) == 0
    ensures var hd, w' := w.handles[h], Step(w, Do(h, CloseClear));
            && w'.handles == w.handles[h := hd.(stub := N.None, pc := Resting)] && w'.stats == w.stats
            && (hd.path !in w.fs.files ==> w'.fs == w.fs)
            && (hd.path in w.fs.files ==>
                  var id := w.fs.files[hd.path];
                  w'.fs == w.fs.(heap := w.fs.heap[id := w.fs.heap[id].(isOpenWrite := false)]))
  {
  }

  // ---------------------------------------------------------------- paths

  lemma UnlinkAnswers(w: World, path: string)
    requires Sound(w)
    ensures Result(w, Unlink(path)) == if path in w.fs.files then 0 else -2
    ensures var w' := Step(w, Unlink(path));
            && w' == w.(fs := w.fs.(files := w'.fs.files))
            && forall p :: N.GetStub(w'.fs, p) == if p == path then N.None else N.GetStub(w.fs, p)
  {
  }

  lemma RenameAnswers(w: World, from: string, to: string)
    requires Sound(w)
    ensures Result(w, Rename(from, to)) == if from in w.fs.files then 0 else -2
    ensures var w' := Step(w, Rename(from, to));
            && w' == w.(fs := w.fs.(files := w'.fs.files))
            && forall p :: N.GetStub(w'.fs, p) ==
                 if from !in w.fs.files then N.GetStub(w.fs, p)
                 else if p == to then N.Some(w.fs.files[from])
                 else if p == from then N.None
                 else N.GetStub(w.fs, p)
  {
  }

  /** Seeding always makes a record, closed, of this size and kind and the next inode; a taken path keeps its own. */
  lemma SeedAnswers(w: World, path: string, size: u64, readtype: string)
    requires Sound(w)
    ensures var w', n := Step(w, Seed(path, size, readtype)), (w.fs.fdLast + 1) % TWO64;
            && w'.handles == w.handles && w'.stats == w.stats && w'.fs.fdLast == n
            && w'.fs.files == (if path in w.fs.files then w.fs.files else w.fs.files[path := |w.fs.heap|])
            && w'.fs.heap == w.fs.heap + [N.StubValue(false, 0, 0, size, N.Stat(1, n, S64(size)), true, readtype)]
  {
  }

  /** A new file object has no record, no path and nothing counted. */
  lemma NewFileAnswers(w: World)
    requires Sound(w)
    ensures Step(w, NewFile) == w.(handles := w.handles + [Handle(
              Resting, "", N.None, ReadEngine.View(0, false, 0), 0, 0, 0, 0, 0, 0, 0, "", false)])
  {
  }

  /** A call on a handle that is inside another one does not happen: calls on one handle do not overlap. */
  lemma BusyWaits(w: World, h: nat, c: Call)
    requires Sound(w) && h < |w.handles|
    requires match w.handles[h].pc
             case Resting => c.OpenLookup? || c.OpenCache? || c.CloseClear?
             case Opened(_) => !c.OpenLookup?
             case Found(_) => !c.OpenCache?
             case Closing => !c.CloseClear?
    ensures Result(w, Do(h, c)) == 0 && Step(w, Do(h, c)) == w
  {
    assert w.handles[h := w.handles[h]] == w.handles;
  }
}
