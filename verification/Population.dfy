/** Which files exist: exclusive creation, replacement by rename, and how many files there are. */
module Population {
  import opened MachineInts
  import opened Session
  import opened World
  import N = Namespace

  // ---------------------------------------------------------------- exclusive creation

  /** A write open of the path that the caller sees succeed. */
  ghost predicate WriteOpened(w: World, e: Event, path: string)
    requires Sound(w)
  {
    && e.Do? && e.h < |w.handles| && w.handles[e.h].pc.Resting?
    && e.call.OpenCall? && e.call.path == path && !N.IsReadOnly(e.call.flags)
    && Result(w, e) >= 0
  }

  ghost predicate ExclusivelyOpened(w: World, e: Event, path: string)
    requires Sound(w)
  {
    WriteOpened(w, e, path) && N.HasExcl(e.call.flags)
  }

  /** The event takes the path's file away: an unlink that succeeds, or a rename to another path. */
  predicate Removes(w: World, e: Event, path: string) {
    && path in w.fs.files
    && (e == Unlink(path) || (e.Rename? && e.from == path && e.to != path))
  }

  lemma OnlyRemovalRemoves(w: World, e: Event, path: string)
    requires Sound(w) && path in w.fs.files
    ensures path !in Step(w, e).fs.files <==> Removes(w, e, path)
  {
  }

  lemma OpeningLeavesFile(w: World, e: Event, path: string)
    requires Sound(w) && WriteOpened(w, e, path)
    ensures path in Step(w, e).fs.files
    ensures N.HasExcl(e.call.flags) ==> path !in w.fs.files
  {
  }

  /**
   A write open that the namespace carries out is reported as failed exactly when the number handed
   out, narrowed to an int, is negative; the file is there all the same, and open for writing.
   */
  lemma OpenedThoughReportedFailed(fs: N.Fs, path: string, flags: s32, mode: s32)
    requires N.Consistent(fs) && !N.IsReadOnly(flags) && (path in fs.files ==> !N.HasExcl(flags))
    ensures var r := N.Open(fs, path, flags, mode);
            && (r.rc < 0 <==> U32(fs.fdLast + 1) >= TWO31)
            && path in r.fs.files && r.fs.heap[r.fs.files[path]].isOpenWrite
  {
    assert U64(fs.fdLast + 1) % TWO32 == (fs.fdLast + 1) % TWO32;
  }

  lemma RunFirst(w: World, e: Event, es: seq<Event>)
    requires Sound(w)
    ensures Run(w, [e] + es) == Run(Step(w, e), es)
  {
    assert ([e] + es)[1..] == es;
  }

  lemma SeedCounts(w: World, path: string)
    requires Sound(w)
    ensures Step(w, Seed(path, 0, "zeros")).fs.fdLast == U64(w.fs.fdLast + 1)
  {
  }

  lemma {:induction false} CounterRises(w: World, n: nat, last: u64) returns (es: seq<Event>)
    requires Sound(w) && last == U64(w.fs.fdLast + n)
    ensures |es| == n && Run(w, es).fs.fdLast == last
    decreases n
  {
    if n == 0 {
      es := [];
      assert U64(w.fs.fdLast) == w.fs.fdLast;
    } else {
      var e := Seed("/f", 0, "zeros");
      SeedCounts(w, "/f");
      WrapU64(w.fs.fdLast + 1, n - 1);
      var rest := CounterRises(Step(w, e), n - 1, last);
      RunFirst(w, e, rest);
      es := [e] + rest;
    }
  }

  lemma FailsAtTheLimit(fs: N.Fs, path: string, flags: s32, mode: s32)
    requires N.Consistent(fs) && !N.IsReadOnly(flags) && !N.HasExcl(flags) && fs.fdLast == TWO31 - 1
    ensures var r := N.Open(fs, path, flags, mode);
            r.rc == -TWO31 && path in r.fs.files && r.fs.heap[r.fs.files[path]].isOpenWrite
  {
    OpenedThoughReportedFailed(fs, path, flags, mode);
  }

  /** It happens: 2^31 - 1 files into its life, a server opens the next one and reports a failure. */
  lemma FailureReported(path: string, flags: s32, mode: s32) returns (es: seq<Event>, fs: N.Fs)
    requires !N.IsReadOnly(flags) && !N.HasExcl(flags)
    ensures |es| == TWO31 - 1 && fs == Run(Start, es).fs && N.Consistent(fs)
    ensures var r := N.Open(fs, path, flags, mode);
            r.rc == -TWO31 && path in r.fs.files && r.fs.heap[r.fs.files[path]].isOpenWrite
  {
    StartSound();
    var n: nat :| n == TWO31 - 1;
    es := CounterRises(Start, n, n);
    fs := Run(Start, es).fs;
    FailsAtTheLimit(fs, path, flags, mode);
  }

  lemma {:induction false} FindRemoval(w: World, es: seq<Event>, path: string) returns (k: nat)
    requires Sound(w) && path in w.fs.files && path !in Run(w, es).fs.files
    ensures k < |es| && Removes(Run(w, es[..k]), es[k], path)
    decreases es
  {
    OnlyRemovalRemoves(w, es[0], path);
    if Removes(w, es[0], path) {
      k := 0;
      assert Run(w, es[..0]) == w;
    } else {
      var j := FindRemoval(Step(w, es[0]), es[1..], path);
      k := j + 1;
      assert es[..k][1..] == es[1..][..j];
    }
  }

  /** A path that has a file can be opened exclusively only after that file was removed. */
  lemma ExclusiveNeedsRemoval(w: World, es: seq<Event>, e: Event, path: string) returns (k: nat)
    requires Sound(w) && path in w.fs.files && ExclusivelyOpened(Run(w, es), e, path)
    ensures k < |es| && Removes(Run(w, es[..k]), es[k], path)
  {
    OpeningLeavesFile(Run(w, es), e, path);
    k := FindRemoval(w, es, path);
  }

  /** Between two successful write opens of a path, the second exclusive, its file was removed. */
  lemma RemovalBetweenOpens(w: World, first: Event, between: seq<Event>, second: Event, path: string) returns (k: nat)
    requires Sound(w) && WriteOpened(w, first, path)
    requires ExclusivelyOpened(Run(Step(w, first), between), second, path)
    ensures k < |between| && Removes(Run(Step(w, first), between[..k]), between[k], path)
  {
    assert path in Step(w, first).fs.files by { OpeningLeavesFile(w, first, path); }
    k := ExclusiveNeedsRemoval(Step(w, first), between, second, path);
  }

  ghost predicate Survives(w: World, es: seq<Event>, path: string)
    requires Sound(w)
    decreases es
  {
    es == [] || (!Removes(w, es[0], path) && Survives(Step(w, es[0]), es[1..], path))
  }

  ghost function ExclusiveOpens(w: World, es: seq<Event>, path: string): nat
    requires Sound(w)
    decreases es
  {
    if es == [] then 0
    else (if ExclusivelyOpened(w, es[0], path) then 1 else 0) + ExclusiveOpens(Step(w, es[0]), es[1..], path)
  }

  /** However many handles race for a path that is never removed, at most one exclusive open succeeds. */
  lemma {:induction false} OneExclusiveWinner(w: World, es: seq<Event>, path: string)
    requires Sound(w) && Survives(w, es, path)
    ensures ExclusiveOpens(w, es, path) <= if path in w.fs.files then 0 else 1
    decreases es
  {
    if es != [] {
      OneExclusiveWinner(Step(w, es[0]), es[1..], path);
      if ExclusivelyOpened(w, es[0], path) {
        OpeningLeavesFile(w, es[0], path);
      } else if path in w.fs.files {
        OnlyRemovalRemoves(w, es[0], path);
      }
    }
  }

  // ---------------------------------------------------------------- rename

  /**
   A rename that finds its source moves that very record to the destination, in one step and
   whatever was there; no record changes, and no third path is affected. To itself it does nothing.
   */
  lemma RenameReplaces(w: World, from: string, to: string, other: string)
    requires Sound(w) && other != from && other != to
    ensures var w' := Step(w, Rename(from, to));
            && (Result(w, Rename(from, to)) == 0 <==> from in w.fs.files)
            && w'.fs.heap == w.fs.heap && w'.handles == w.handles
            && N.GetStub(w'.fs, other) == N.GetStub(w.fs, other)
            && (from !in w.fs.files ==> w' == w)
            && (from in w.fs.files ==> N.GetStub(w'.fs, to) == N.GetStub(w.fs, from))
            && (from in w.fs.files && from != to ==> N.GetStub(w'.fs, from) == N.None)
            && (from == to ==> w' == w)
  {
    if from == to && from in w.fs.files {
      assert w.fs.files[to := w.fs.files[from]] == w.fs.files;
    }
  }

  predicate Mentions(e: Event, path: string) {
    match e
    case NewFile => false
    case Do(_, c) => c.OpenCall? && c.path == path
    case Rename(from, to) => path == from || path == to
    case Unlink(p) => p == path
    case Seed(p, _, _) => p == path
  }

  /** An event binds only paths it mentions. */
  lemma OthersKeepTheirFiles(w: World, e: Event, path: string)
    requires Sound(w) && !Mentions(e, path)
    ensures N.GetStub(Step(w, e).fs, path) == N.GetStub(w.fs, path)
  {
  }

  // ---------------------------------------------------------------- counting files

  /** The event makes a file where there was none. */
  predicate Creates(w: World, e: Event) {
    || (e.Seed? && e.path !in w.fs.files)
    || (&& e.Do? && e.h < |w.handles| && w.handles[e.h].pc.Resting? && e.call.OpenCall?
        && !N.IsReadOnly(e.call.flags) && e.call.path !in w.fs.files)
  }

  /** The event unlinks a file, or renames one over a different one. */
  predicate Destroys(w: World, e: Event) {
    || (e.Unlink? && e.path in w.fs.files)
    || (e.Rename? && e.from in w.fs.files && e.to in w.fs.files && e.from != e.to)
  }

  ghost function Created(w: World, es: seq<Event>): nat
    requires Sound(w)
    decreases es
  {
    if es == [] then 0 else (if Creates(w, es[0]) then 1 else 0) + Created(Step(w, es[0]), es[1..])
  }

  ghost function Destroyed(w: World, es: seq<Event>): nat
    requires Sound(w)
    decreases es
  {
    if es == [] then 0 else (if Destroys(w, es[0]) then 1 else 0) + Destroyed(Step(w, es[0]), es[1..])
  }

  lemma InsertSize(m: map<string, nat>, k: string, v: nat)
    ensures |m[k := v]| == |m| + if k in m then 0 else 1
  {
    assert m[k := v].Keys == m.Keys + {k};
  }

  lemma EraseSize(m: map<string, nat>, k: string)
    ensures |m - {k}| == |m| - if k in m then 1 else 0
  {
    assert (m - {k}).Keys == m.Keys - {k};
  }

  lemma OpenCount(fs: N.Fs, path: string, flags: s32, mode: s32)
    requires N.Consistent(fs)
    ensures |N.Open(fs, path, flags, mode).fs.files| ==
            |fs.files| + if !N.IsReadOnly(flags) && path !in fs.files then 1 else 0
  {
    InsertSize(fs.files, path, |fs.heap|);
  }

  lemma RenameCount(fs: N.Fs, from: string, to: string)
    ensures |N.Rename(fs, from, to).fs.files| ==
            |fs.files| - if from in fs.files && to in fs.files && from != to then 1 else 0
  {
    if from in fs.files {
      var moved := fs.files[to := fs.files[from]];
      InsertSize(fs.files, to, fs.files[from]);
      EraseSize(moved, from);
    }
  }

  lemma OnlyOpenBinds(l: Local, c: Call)
    requires Good(l)
    ensures Perform(l, c).after.fs.files ==
            if c.OpenCall? && l.hd.pc.Resting? then N.Open(l.fs, c.path, c.flags, c.mode).fs.files else l.fs.files
  {
  }

  lemma StepCount(w: World, e: Event)
    requires Sound(w)
    ensures |Step(w, e).fs.files| ==
            |w.fs.files| + (if Creates(w, e) then 1 else 0) - (if Destroys(w, e) then 1 else 0)
  {
    match e
    case NewFile =>
    case Do(h, c) =>
      if h < |w.handles| {
        OnlyOpenBinds(At(w, h), c);
      }
      if c.OpenCall? {
        OpenCount(w.fs, c.path, c.flags, c.mode);
      }
    case Rename(from, to) => RenameCount(w.fs, from, to);
    case Unlink(path) => EraseSize(w.fs.files, path);
    case Seed(path, _, _) => InsertSize(w.fs.files, path, |w.fs.heap|);
  }

  /** Files are conserved: creations less removals and replacements; truncating opens count nothing. */
  lemma {:induction false} FilesAreCounted(w: World, es: seq<Event>)
    requires Sound(w)
    ensures |Run(w, es).fs.files| == |w.fs.files| + Created(w, es) - Destroyed(w, es)
    decreases es
  {
    if es != [] {
      StepCount(w, es[0]);
      FilesAreCounted(Step(w, es[0]), es[1..]);
    }
  }
}
