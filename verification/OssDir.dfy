/** The directory handle: a snapshot of a directory's names and a cursor into it. */
module OssDir {
  import opened MachineInts
  import opened Namespace
  import opened BlackholeFS
  import Paths

  /** What one call of Readdir tells its caller; the empty name means the end. */
  datatype Entry = Delivered(name: string) | TooLong

  /** The length check, which narrows the length to an int. */
  predicate Fits(name: string, blen: s32) {
    S32(|name|) < blen
  }

  /** The cursor's next place and the entry it yields, for a buffer of blen characters. */
  function Next(entries: seq<string>, pos: nat, blen: s32): (nat, Entry) {
    if pos >= |entries| then (pos, Delivered(""))
    else if !Fits(entries[pos], blen) then (pos + 1, TooLong)
    else (pos + 1, Delivered(entries[pos]))
  }

  /**
   What a call finds: the end, for ever; a name with its terminating zero, if both fit in blen; or a name too
   long, which is skipped. That is for names that an int can count.
   */
  lemma NextIs(entries: seq<string>, pos: nat, blen: s32)
    ensures pos >= |entries| ==> Next(entries, pos, blen) == (pos, Delivered(""))
    ensures pos < |entries| && |entries[pos]| < TWO31 ==>
              Next(entries, pos, blen)
              == (pos + 1, if |entries[pos]| + 1 <= blen then Delivered(entries[pos]) else TooLong)
  {
  }

  class OssDir {
    const fs: BlackholeFS
    var entries: seq<string>
    var pos: nat

    constructor (fs: BlackholeFS)
      ensures this.fs == fs && entries == [] && pos == 0
    {
      this.fs, entries, pos := fs, [], 0;
    }

    method Opendir(path: string) returns (rc: s32)
      requires fs.Valid()
      modifies this
      ensures rc == 0 && pos == 0
      ensures entries == Paths.Directory(fs.Value().files.Keys, path)
      ensures Paths.Shown(fs.Value().files.Keys, path, entries)
    {
      entries, pos := [], 0;
      entries := fs.Readdir(path, entries);
      rc := 0;
      Paths.DirectoryIsShown(fs.Value().files.Keys, path);
    }

    method Close() returns (rc: s32)
      modifies this
      ensures rc == 0 && entries == [] && pos == 0
    {
      entries, pos := [], 0;
      rc := 0;
    }

    /**
     A name comes with a terminating zero; a name that does not fit leaves the buffer alone. The caller
     must have room for what is copied, which is at most blen characters unless the narrowing misleads.
     */
    method Readdir(buff: array<char>, blen: s32) returns (rc: s32)
      requires match Next(entries, pos, blen).1 case TooLong => true case Delivered(name) => |name| < buff.Length
      modifies this`pos, buff
      ensures pos == Next(entries, old(pos), blen).0
      ensures match Next(entries, old(pos), blen).1
              case TooLong => rc == -36 && buff[..] == old(buff[..])
              case Delivered(name) =>
                && rc == 0 && |name| < buff.Length
                && buff[..] == name + ['\0'] + old(buff[|name| + 1..])
    {
      if pos >= |entries| {
        buff[0] := '\0';
        assert buff[..] == "" + ['\0'] + old(buff[1..]);
        return 0;
      }
      var name := entries[pos];
      pos := pos + 1;
      if S32(|name|) >= blen {
        return -ENAMETOOLONG;
      }
      forall i | 0 <= i < |name| {
        buff[i] := name[i];
      }
      buff[|name|] := '\0';
      assert buff[..] == name + ['\0'] + old(buff[|name| + 1..]);
      rc := 0;
    }
  }

  // ---------------------------------------------------------------- draining

  /** What the next n calls yield, all with the same buffer. */
  function Drain(entries: seq<string>, pos: nat, blen: s32, n: nat): seq<Entry>
    decreases n
  {
    if n == 0 then []
    else
      var (next, entry) := Next(entries, pos, blen);
      [entry] + Drain(entries, next, blen, n - 1)
  }

  function Fitting(entries: seq<string>, blen: s32): seq<string> {
    if entries == [] then []
    else (if Fits(entries[0], blen) then [entries[0]] else []) + Fitting(entries[1..], blen)
  }

  /** The names a caller has collected, the end marks aside. */
  function Collected(out: seq<Entry>): seq<string> {
    if out == [] then []
    else (if out[0].Delivered? && out[0].name != "" then [out[0].name] else []) + Collected(out[1..])
  }

  function Errors(out: seq<Entry>): nat {
    if out == [] then 0 else (if out[0].TooLong? then 1 else 0) + Errors(out[1..])
  }

  lemma {:induction false} DrainFrom(entries: seq<string>, pos: nat, blen: s32, n: nat)
    requires pos <= |entries| && forall i :: 0 <= i < |entries| ==> entries[i] != ""
    requires n >= |entries| - pos
    ensures var out := Drain(entries, pos, blen, n);
            && |out| == n
            && Collected(out) == Fitting(entries[pos..], blen)
            && Errors(out) == |entries| - pos - |Fitting(entries[pos..], blen)|
            && forall k :: |entries| - pos <= k < n ==> out[k] == Delivered("")
    decreases n
  {
    if n > 0 {
      var (next, entry) := Next(entries, pos, blen);
      var out := Drain(entries, pos, blen, n);
      assert out[1..] == Drain(entries, next, blen, n - 1);
      DrainFrom(entries, next, blen, n - 1);
      if pos < |entries| {
        assert entries[pos..][1..] == entries[next..];
      } else {
        assert entries[pos..] == [];
      }
    }
  }

  /**
   Reading a directory to the end: one call per entry, then end marks for ever. The caller gets
   exactly the names that fit the buffer, in order, and one error for each that does not.
   */
  lemma DrainDeliversAll(entries: seq<string>, blen: s32, n: nat)
    requires n >= |entries| && forall i :: 0 <= i < |entries| ==> entries[i] != ""
    ensures var out := Drain(entries, 0, blen, n);
            && Collected(out) == Fitting(entries, blen)
            && Errors(out) == |entries| - |Fitting(entries, blen)|
            && forall k :: |entries| <= k < |out| ==> out[k] == Delivered("")
  {
    DrainFrom(entries, 0, blen, n);
    assert entries[0..] == entries;
  }

  // ---------------------------------------------------------------- what a client makes of it

  /** A client stops at the first empty name, which it takes for the end. */
  function Seen(out: seq<Entry>): seq<string> {
    if out == [] || out[0] == Delivered("") then []
    else (if out[0].Delivered? then [out[0].name] else []) + Seen(out[1..])
  }

  lemma {:induction false} SeenFrom(entries: seq<string>, pos: nat, blen: s32, n: nat)
    requires pos <= |entries| && n > |entries| - pos
    requires forall i :: pos <= i < |entries| ==> entries[i] != ""
    ensures Seen(Drain(entries, pos, blen, n)) == Fitting(entries[pos..], blen)
    decreases n
  {
    var (next, entry) := Next(entries, pos, blen);
    var out := Drain(entries, pos, blen, n);
    assert out[0] == entry && out[1..] == Drain(entries, next, blen, n - 1);
    if pos < |entries| {
      assert entries[pos..][1..] == entries[next..];
      SeenFrom(entries, next, blen, n - 1);
    } else {
      assert entries[pos..] == [];
    }
  }

  lemma {:induction false} FittingHas(entries: seq<string>, blen: s32, name: string)
    ensures name in Fitting(entries, blen) <==> name in entries && Fits(name, blen)
  {
    if entries != [] {
      FittingHas(entries[1..], blen, name);
    }
  }

  /** The empty name sorts first. */
  lemma EmptyNameLeads(names: seq<string>)
    requires Paths.Ascending(names) && "" in names
    ensures names[0] == ""
  {
    var i :| 0 <= i < |names| && names[i] == "";
    assert i > 0 ==> Paths.LexLess(names[0], names[i]);
  }

  /** The listing reaches the client: every file of the directory whose name is short enough, nothing else, in order. */
  ghost predicate SeenExactly(files: set<string>, dir: string, blen: s32, seen: seq<string>) {
    && (forall name :: name in seen <==> '/' !in name && Paths.Join(dir, name) in files && S32(|name|) < blen)
    && Paths.Ascending(seen)
  }

  lemma {:induction false} FittingAscending(entries: seq<string>, blen: s32)
    requires Paths.Ascending(entries)
    ensures Paths.Ascending(Fitting(entries, blen))
  {
    if entries != [] {
      var rest, kept := entries[1..], Fitting(entries[1..], blen);
      assert forall i, j :: 0 <= i < j < |rest| ==> rest[i] == entries[i + 1] && rest[j] == entries[j + 1];
      FittingAscending(rest, blen);
      forall k | 0 <= k < |kept| ensures Paths.LexLess(entries[0], kept[k]) {
        FittingHas(rest, blen, kept[k]);
      }
    }
  }

  /**
   From the map to the client: with absolute paths, and in a directory whose listing is exact, draining the
   directory shows a client exactly its files, unless the map has a file that is the directory with a slash
   at the end. That file's name is empty and sorts first, so the client stops there and sees nothing.
   */
  lemma ClientSeesListing(files: set<string>, dir: string, blen: s32, n: nat)
    requires forall k :: k in files ==> Paths.Absolute(k)
    requires Paths.Absolute(dir) && Paths.Unambiguous(files, dir)
    requires blen >= 1 && n > |Paths.Listing(files, dir)|
    ensures var seen := Seen(Drain(Paths.Listing(files, dir), 0, blen, n));
            && (SeenExactly(files, dir, blen, seen) <==> Paths.Join(dir, "") !in files)
            && (Paths.Join(dir, "") in files ==> seen == [])
  {
    var names := Paths.Listing(files, dir);
    var seen := Seen(Drain(names, 0, blen, n));
    Paths.ListingIsExact(files, dir);
    if Paths.Join(dir, "") in files {
      assert "" in names;
      EmptyNameLeads(names);
      assert Drain(names, 0, blen, n)[0] == Delivered("");
      assert Fits("", blen) && "" !in seen;
    } else {
      assert "" !in names;
      SeenFrom(names, 0, blen, n);
      assert names[0..] == names;
      FittingAscending(names, blen);
      forall name ensures name in seen <==> '/' !in name && Paths.Join(dir, name) in files && S32(|name|) < blen {
        FittingHas(names, blen, name);
      }
    }
  }
}
