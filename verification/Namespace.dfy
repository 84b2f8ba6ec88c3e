/**
 The in-memory namespace as a value: which path names which file record, and every record ever
 created. Records outlive their paths, because open handles share them; a record is known by its
 index in `heap`. Each function is one method of the namespace class, which holds its mutex from
 start to end, so each is one atomic step.
 */
module Namespace {
  import opened MachineInts

  const ENOENT: int := 2
  const EEXIST: int := 17
  const EINVAL: int := 22
  const ENAMETOOLONG: int := 36

  datatype Option<+T> = None | Some(value: T)

  datatype Stat = Stat(dev: u64, ino: u64, size: s64)

  datatype StubValue = StubValue(
    isOpenWrite: bool,
    flags: s32,
    mode: s32,
    size: u64,
    stat: Stat,
    special: bool,
    readtype: string
  )

  datatype Fs = Fs(files: map<string, nat>, heap: seq<StubValue>, fdLast: u64)

  const EmptyFs: Fs := Fs(map[], [], 0)

  datatype Outcome = Outcome(fs: Fs, rc: s32)

  // The bits of open(2)'s flags, with Linux values. `%` and `/` round towards minus infinity
  // here, so they also read the bits of a negative int correctly.

  predicate IsReadOnly(flags: s32) {
    flags % 4 == 0
  }

  predicate HasExcl(flags: s32) {
    flags / 128 % 2 == 1
  }

  predicate HasTrunc(flags: s32) {
    flags / 512 % 2 == 1
  }

  function GetStub(fs: Fs, path: string): Option<nat> {
    if path in fs.files then Some(fs.files[path]) else None
  }

  function NewStub(flags: s32, mode: s32, ino: u64): StubValue {
    StubValue(true, flags, mode, 0, Stat(1, ino, 0), false, "zeros")
  }

  function SeededStub(size: u64, readtype: string, ino: u64): StubValue {
    StubValue(false, 0, 0, size, Stat(1, ino, S64(size)), true, readtype)
  }

  /** An open of an existing record: a new number is handed out, the record remembers the mode. */
  function OpenExisting(fs: Fs, path: string, write: bool, flags: s32, mode: s32): Outcome
    requires path in fs.files && fs.files[path] < |fs.heap|
  {
    var fd := U64(fs.fdLast + 1);
    var id := fs.files[path];
    var stub := fs.heap[id];
    Outcome(fs.(fdLast := fd,
                heap := fs.heap[id := stub.(isOpenWrite := write || stub.isOpenWrite, flags := flags, mode := mode)]),
            S32(fd))
  }

  /** An open that makes a new record, dropping the path's old one if there is one. */
  function Create(fs: Fs, path: string, flags: s32, mode: s32): Outcome {
    var fd := U64(fs.fdLast + 1);
    Outcome(Fs(fs.files[path := |fs.heap|], fs.heap + [NewStub(flags, mode, fd)], fd), S32(fd))
  }

  function Open(fs: Fs, path: string, flags: s32, mode: s32): Outcome
    requires path in fs.files ==> fs.files[path] < |fs.heap|
  {
    if IsReadOnly(flags) then
      if path !in fs.files then Outcome(fs, -ENOENT)
      else OpenExisting(fs, path, false, flags, mode)
    else if path in fs.files && HasExcl(flags) then Outcome(fs, -EEXIST)
    else if path in fs.files && !HasTrunc(flags) then OpenExisting(fs, path, true, flags, mode)
    else Create(fs, path, flags, mode)
  }

  function Close(fs: Fs, path: string): Fs
    requires path in fs.files ==> fs.files[path] < |fs.heap|
  {
    if path !in fs.files then fs
    else
      var id := fs.files[path];
      fs.(heap := fs.heap[id := fs.heap[id].(isOpenWrite := false)])
  }

  function Rename(fs: Fs, from: string, to: string): Outcome {
    if from !in fs.files then Outcome(fs, -ENOENT)
    else
      var moved := fs.files[to := fs.files[from]];
      Outcome(fs.(files := if from != to then moved - {from} else moved), 0)
  }

  function Unlink(fs: Fs, path: string): Outcome {
    if path !in fs.files then Outcome(fs, -ENOENT)
    else Outcome(fs.(files := fs.files - {path}), 0)
  }

  /** A record is always made; it gets the path only if the path was free. */
  function SeedFile(fs: Fs, path: string, size: u64, readtype: string): Fs {
    var fd := U64(fs.fdLast + 1);
    Fs(if path in fs.files then fs.files else fs.files[path := |fs.heap|],
       fs.heap + [SeededStub(size, readtype, fd)], fd)
  }

  /** What Close on a handle stores in the record it is attached to: this session's byte count. */
  function StoreSize(fs: Fs, id: nat, bytes: s64): Fs
    requires id < |fs.heap|
  {
    var stub := fs.heap[id];
    if !stub.isOpenWrite then fs
    else fs.(heap := fs.heap[id := stub.(size := U64(bytes), stat := stub.stat.(size := bytes))])
  }

  // ---------------------------------------------------------------- invariants

  /** No two paths share a record, and each record's two sizes agree. */
  ghost predicate Consistent(fs: Fs) {
    && (forall p :: p in fs.files ==> fs.files[p] < |fs.heap|)
    && (forall p, q :: p in fs.files && q in fs.files && p != q ==> fs.files[p] != fs.files[q])
    && (forall i :: 0 <= i < |fs.heap| ==>
          fs.heap[i].stat.dev == 1 && fs.heap[i].stat.size == S64(fs.heap[i].size))
  }

  /** Records carry increasing, hence distinct, inode numbers from 1 to the last number handed out. */
  ghost predicate Numbered(fs: Fs) {
    && (forall i :: 0 <= i < |fs.heap| ==> 1 <= fs.heap[i].stat.ino <= fs.fdLast)
    && (forall i, j :: 0 <= i < j < |fs.heap| ==> fs.heap[i].stat.ino < fs.heap[j].stat.ino)
  }

  lemma EraseThenInsert(m: map<string, nat>, k: string, v: nat)
    ensures (m - {k})[k := v] == m[k := v]
  {
  }

  lemma CreateForgets(fs: Fs, path: string, flags: s32, mode: s32)
    ensures Create(fs.(files := fs.files - {path}), path, flags, mode) == Create(fs, path, flags, mode)
  {
    EraseThenInsert(fs.files, path, |fs.heap|);
  }

  lemma SizesAgree(x: s64)
    ensures S64(U64(x)) == x
  {
  }
}
