/** The namespace class: a map from paths to shared, mutable file records. */
module BlackholeFS {
  import opened MachineInts
  import opened N = Namespace
  import P = Paths

  class Stub {
    var isOpenWrite: bool
    var flags: s32
    var mode: s32
    var size: u64
    var stat: Stat
    var special: bool
    var readtype: string
    /** The place of this record among all ever created. */
    ghost const place: nat

    /** A record made by a write open: empty, open for writing. */
    constructor ForWrite(flags: s32, mode: s32, ino: u64, ghost place: nat)
      ensures this.place == place && Value() == NewStub(flags, mode, ino)
    {
      isOpenWrite, size, special, readtype := true, 0, false, "zeros";
      this.flags, this.mode := flags, mode;
      stat := Stat(1, ino, 0);
      this.place := place;
    }

    /** A record made by seeding: complete from the start. */
    constructor Seeded(size: u64, readtype: string, ino: u64, ghost place: nat)
      ensures this.place == place && Value() == SeededStub(size, readtype, ino)
    {
      isOpenWrite, flags, mode, special := false, 0, 0, true;
      this.size, this.readtype := size, readtype;
      stat := Stat(1, ino, S64(size));
      this.place := place;
    }

    method Reopen(write: bool, flags: s32, mode: s32)
      modifies this
      ensures Value() == old(Value()).(isOpenWrite := write || old(isOpenWrite), flags := flags, mode := mode)
    {
      if write {
        isOpenWrite := true;
      }
      this.flags := flags;
      this.mode := mode;
    }

    function Value(): StubValue
      reads this
    {
      StubValue(isOpenWrite, flags, mode, size, stat, special, readtype)
    }
  }

  class BlackholeFS {
    var files: map<string, Stub>
    var fdLast: u64
    /** Every record ever created, oldest first, and what each of them holds. */
    ghost var heap: seq<Stub>
    ghost var records: seq<StubValue>
    /** For each path, the place of its record. */
    ghost var ids: map<string, nat>

    ghost predicate Valid()
      reads this, heap
    {
      && (forall p :: p in files <==> p in ids)
      && (forall p :: p in files ==> ids[p] < |heap| && heap[ids[p]] == files[p])
      && |records| == |heap|
      && (forall i :: 0 <= i < |heap| ==> heap[i].place == i && heap[i].Value() == records[i])
    }

    ghost function Value(): Fs
      reads this
    {
      Fs(ids, records, fdLast)
    }

    constructor ()
      ensures Valid() && Value() == EmptyFs
    {
      files, fdLast, heap, records, ids := map[], 0, [], [], map[];
    }

    method GetStub(fname: string) returns (stub: Stub?)
      requires Valid()
      ensures stub == null <==> N.GetStub(Value(), fname) == None
      ensures stub != null ==> stub == heap[N.GetStub(Value(), fname).value]
    {
      if fname in files {
        stub := files[fname];
      } else {
        stub := null;
      }
    }

    /** Insertion into the map: a path that is already there keeps its record. */
    method Insert(path: string, stub: Stub)
      requires Valid() && stub in heap
      modifies this`files, this`ids
      ensures Valid()
      ensures ids == if path in old(ids) then old(ids) else old(ids)[path := stub.place]
    {
      if path !in files {
        files, ids := files[path := stub], ids[path := stub.place];
      }
    }

    method Erase(path: string)
      requires Valid()
      modifies this`files, this`ids
      ensures Valid() && ids == old(ids) - {path}
    {
      files, ids := files - {path}, ids - {path};
    }

    method Rename(from: string, to: string) returns (rc: s32)
      requires Valid()
      modifies this`files, this`ids
      ensures Valid()
      ensures Outcome(Value(), rc) == N.Rename(old(Value()), from, to)
    {
      if from !in files {
        return -ENOENT;
      }
      var stub := files[from];
      EraseThenInsert(ids, to, ids[from]);
      Erase(to);
      Insert(to, stub);
      if from != to {
        Erase(from);
      }
      rc := 0;
    }

    method Unlink(fname: string) returns (rc: s32)
      requires Valid()
      modifies this`files, this`ids
      ensures Valid()
      ensures Outcome(Value(), rc) == N.Unlink(old(Value()), fname)
    {
      if fname !in files {
        return -ENOENT;
      }
      Erase(fname);
      rc := 0;
    }

    /** Adds a new record to the list of all ever created. */
    ghost method Enrol(stub: Stub)
      requires Valid() && stub !in heap && stub.place == |heap|
      modifies this`heap, this`records
      ensures Valid() && heap == old(heap) + [stub] && records == old(records) + [stub.Value()]
    {
      heap, records := heap + [stub], records + [stub.Value()];
    }

    method OpenExisting(fname: string, write: bool, flags: s32, mode: s32) returns (rc: s32)
      requires Valid() && fname in files
      modifies this`fdLast, this`records, heap
      ensures Valid()
      ensures Outcome(Value(), rc) == N.OpenExisting(old(Value()), fname, write, flags, mode)
    {
      var stub := files[fname];
      fdLast := U64(fdLast + 1);
      stub.Reopen(write, flags, mode);
      records := records[stub.place := stub.Value()];
      rc := S32(fdLast);
    }

    method Create(fname: string, flags: s32, mode: s32) returns (rc: s32)
      requires Valid() && fname !in files
      modifies this
      ensures Valid() && old(heap) <= heap && fresh(heap[|old(heap)|..])
      ensures Outcome(Value(), rc) == N.Create(old(Value()), fname, flags, mode)
    {
      fdLast := U64(fdLast + 1);
      var stub := new Stub.ForWrite(flags, mode, fdLast, |heap|);
      Enrol(stub);
      Insert(fname, stub);
      rc := S32(fdLast);
    }

    method Open(fname: string, flags: s32, mode: s32) returns (rc: s32)
      requires Valid()
      modifies this, heap
      ensures Valid() && old(heap) <= heap && fresh(heap[|old(heap)|..])
      ensures Outcome(Value(), rc) == N.Open(old(Value()), fname, flags, mode)
    {
      var fileExists := fname in files;
      if IsReadOnly(flags) {
        if !fileExists {
          return -ENOENT;
        }
        rc := OpenExisting(fname, false, flags, mode);
        return;
      }
      if fileExists {
        if HasExcl(flags) {
          return -EEXIST;
        }
        if HasTrunc(flags) {
          CreateForgets(Value(), fname, flags, mode);
          Erase(fname);
        } else {
          rc := OpenExisting(fname, true, flags, mode);
          return;
        }
      }
      rc := Create(fname, flags, mode);
    }

    method Close(fname: string)
      requires Valid()
      modifies this`records, heap
      ensures Valid() && Value() == N.Close(old(Value()), fname)
    {
      if fname !in files {
        return;
      }
      var stub := files[fname];
      stub.isOpenWrite := false;
      records := records[stub.place := stub.Value()];
    }

    /** Appends the names of the directory's files to `entries`. */
    method Readdir(path: string, entries: seq<string>) returns (listed: seq<string>)
      requires Valid()
      ensures listed == entries + P.Directory(Value().files.Keys, path)
    {
      var prefix := P.Normalise(path);
      var found := P.Select(P.SortedKeys(files.Keys), prefix);
      assert files.Keys == ids.Keys;
      listed := entries + found;
    }

    method Seed(path: string, size: u64, readtype: string)
      requires Valid()
      modifies this
      ensures Valid() && old(heap) <= heap && fresh(heap[|old(heap)|..])
      ensures Value() == SeedFile(old(Value()), path, size, readtype)
    {
      fdLast := U64(fdLast + 1);
      var stub := new Stub.Seeded(size, readtype, fdLast, |heap|);
      Enrol(stub);
      Insert(path, stub);
    }
  }
}
