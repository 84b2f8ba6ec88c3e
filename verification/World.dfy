/**
 The whole server as a transition system: the namespace, the statistics and any number of handles,
 changed by any interleaving of handle steps and namespace operations.
 */
module World {
  import opened MachineInts
  import opened Session
  import N = Namespace
  import Stats

  datatype World = World(fs: N.Fs, stats: Stats.Snapshot, handles: seq<Handle>)

  datatype Event =
    | NewFile
    | Do(h: nat, call: Call)
    | Rename(from: string, to: string)
    | Unlink(path: string)
    | Seed(path: string, size: u64, readtype: string)

  const Start: World := World(N.EmptyFs, Stats.Zero, [])

  /** The namespace is consistent, and every handle's record exists. */
  ghost predicate Sound(w: World) {
    && N.Consistent(w.fs)
    && forall h :: 0 <= h < |w.handles| ==> Linked(w.fs, w.handles[h])
  }

  function At(w: World, h: nat): Local
    requires h < |w.handles|
  {
    Local(w.fs, w.stats, w.handles[h])
  }

  lemma OpenConsistent(fs: N.Fs, path: string, flags: s32, mode: s32)
    requires N.Consistent(fs)
    ensures N.Consistent(N.Open(fs, path, flags, mode).fs)
  {
  }

  lemma StoreConsistent(fs: N.Fs, id: nat, bytes: s64)
    requires N.Consistent(fs) && id < |fs.heap|
    ensures N.Consistent(N.StoreSize(fs, id, bytes))
  {
    N.SizesAgree(bytes);
  }

  lemma NamespaceConsistent(fs: N.Fs, e: Event)
    requires N.Consistent(fs)
    ensures e.Rename? ==> N.Consistent(N.Rename(fs, e.from, e.to).fs)
    ensures e.Unlink? ==> N.Consistent(N.Unlink(fs, e.path).fs)
    ensures e.Seed? ==> N.Consistent(N.SeedFile(fs, e.path, e.size, e.readtype))
  {
  }

  lemma PerformConsistent(l: Local, c: Call)
    requires Good(l) && N.Consistent(l.fs)
    ensures N.Consistent(Perform(l, c).after.fs)
  {
    if Enabled(l.hd, c) {
      if c.OpenCall? {
        OpenConsistent(l.fs, c.path, c.flags, c.mode);
      } else if c.CloseUpdate? && l.hd.stub.Some? {
        StoreConsistent(l.fs, l.hd.stub.value, WrittenBytes(l.hd));
      }
    }
  }

  /** What a call on a handle does: its step, seen from the whole. */
  ghost function DoStep(w: World, h: nat, c: Call): (r: Reply)
    requires Sound(w) && h < |w.handles|
    ensures N.Consistent(r.after.fs)
  {
    PerformConsistent(At(w, h), c);
    Perform(At(w, h), c)
  }

  /** Every step keeps the world sound, and no record or handle is ever forgotten. */
  ghost function Step(w: World, e: Event): (r: World)
    requires Sound(w)
    ensures Sound(r) && |r.fs.heap| >= |w.fs.heap| && |r.handles| >= |w.handles|
  {
    NamespaceConsistent(w.fs, e);
    match e
    case NewFile => w.(handles := w.handles + [Fresh])
    case Do(h, c) =>
      if h >= |w.handles| then w
      else
        var l := DoStep(w, h, c).after;
        World(l.fs, l.stats, w.handles[h := l.hd])
    case Rename(from, to) => w.(fs := N.Rename(w.fs, from, to).fs)
    case Unlink(path) => w.(fs := N.Unlink(w.fs, path).fs)
    case Seed(path, size, readtype) => w.(fs := N.SeedFile(w.fs, path, size, readtype))
  }

  /** What the caller gets back. */
  ghost function Result(w: World, e: Event): s64
    requires Sound(w)
  {
    match e
    case NewFile => 0
    case Do(h, c) => if h >= |w.handles| then 0 else DoStep(w, h, c).rc
    case Rename(from, to) => N.Rename(w.fs, from, to).rc
    case Unlink(path) => N.Unlink(w.fs, path).rc
    case Seed(_, _, _) => 0
  }

  ghost function Run(w: World, es: seq<Event>): (r: World)
    requires Sound(w)
    ensures Sound(r) && |r.fs.heap| >= |w.fs.heap| && |r.handles| >= |w.handles|
    decreases es
  {
    if es == [] then w else Run(Step(w, es[0]), es[1..])
  }

  lemma StartSound()
    ensures Sound(Start)
  {
  }
}
