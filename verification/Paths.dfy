/** Path strings: their order in the map, splitting at the last slash, and directory listings. */
module Paths {

  // ---------------------------------------------------------------- the map's order

  /** Strict lexicographic order, as std::string compares. */
  predicate LexLess(a: string, b: string) {
    b != [] && (a == [] || a[0] < b[0] || (a[0] == b[0] && LexLess(a[1..], b[1..])))
  }

  lemma {:induction false} LexIrreflexive(a: string)
    ensures !LexLess(a, a)
  {
    if a != [] {
      LexIrreflexive(a[1..]);
    }
  }

  lemma {:induction false} LexTransitive(a: string, b: string, c: string)
    requires LexLess(a, b) && LexLess(b, c)
    ensures LexLess(a, c)
  {
    if a != [] && a[0] == b[0] == c[0] {
      LexTransitive(a[1..], b[1..], c[1..]);
    }
  }

  lemma {:induction false} LexTotal(a: string, b: string)
    ensures a == b || LexLess(a, b) || LexLess(b, a)
  {
    if a != [] && b != [] && a[0] == b[0] {
      LexTotal(a[1..], b[1..]);
      assert a == [a[0]] + a[1..] && b == [b[0]] + b[1..];
    }
  }

  /** Stripping a common prefix keeps the order. */
  lemma {:induction false} LexStrip(p: string, a: string, b: string)
    ensures LexLess(p + a, p + b) <==> LexLess(a, b)
  {
    if p == [] {
      assert p + a == a && p + b == b;
    } else {
      LexStrip(p[1..], a, b);
      assert (p + a)[1..] == p[1..] + a && (p + b)[1..] == p[1..] + b;
    }
  }

  predicate Ascending(s: seq<string>) {
    forall i, j :: 0 <= i < j < |s| ==> LexLess(s[i], s[j])
  }

  predicate IsLeast(m: string, s: set<string>) {
    m in s && forall k :: k in s && k != m ==> LexLess(m, k)
  }

  lemma {:induction false} LeastExists(s: set<string>)
    requires s != {}
    ensures exists m :: IsLeast(m, s)
  {
    var x :| x in s;
    var rest := s - {x};
    if rest == {} {
      assert s == {x};
      assert IsLeast(x, s);
    } else {
      LeastExists(rest);
      var m :| IsLeast(m, rest);
      LexTotal(x, m);
      if LexLess(x, m) {
        forall k | k in s && k != x ensures LexLess(x, k) {
          if k != m { LexTransitive(x, m, k); }
        }
        assert IsLeast(x, s);
      } else {
        assert IsLeast(m, s);
      }
    }
  }

  lemma LeastUnique(s: set<string>, m: string, n: string)
    requires IsLeast(m, s) && IsLeast(n, s)
    ensures m == n
  {
    if m != n {
      LexTransitive(m, n, m);
      LexIrreflexive(m);
    }
  }

  function Least(s: set<string>): (m: string)
    requires s != {}
    ensures IsLeast(m, s)
  {
    LeastExists(s);
    assert forall m, n :: IsLeast(m, s) && IsLeast(n, s) ==> m == n by {
      forall m, n | IsLeast(m, s) && IsLeast(n, s) ensures m == n { LeastUnique(s, m, n); }
    }
    var m :| IsLeast(m, s);
    m
  }

  /** The order in which the map is walked. */
  function SortedKeys(s: set<string>): (r: seq<string>)
    ensures Ascending(r)
    ensures forall k :: k in r <==> k in s
  {
    if s == {} then []
    else
      var m := Least(s);
      [m] + SortedKeys(s - {m})
  }

  // ---------------------------------------------------------------- splitting and joining

  /** The place of the last slash, or -1. */
  function LastSlash(s: string): (k: int)
    ensures -1 <= k < |s|
  {
    if s == [] then -1
    else if s[|s| - 1] == '/' then |s| - 1
    else LastSlash(s[..|s| - 1])
  }

  lemma {:induction false} LastSlashIsLast(s: string)
    ensures var k := LastSlash(s);
            (k >= 0 ==> s[k] == '/') && forall i :: k < i < |s| ==> s[i] != '/'
  {
    if s != [] && s[|s| - 1] != '/' {
      var front := s[..|s| - 1];
      LastSlashIsLast(front);
      forall i | LastSlash(s) < i < |s| ensures s[i] != '/' {
        if i < |front| { assert front[i] == s[i]; }
      }
    }
  }

  function Parent(file: string): string {
    var k := LastSlash(file);
    if k == 0 then "/" else if k < 0 then file else file[..k]
  }

  function Name(file: string): string {
    file[LastSlash(file) + 1..]
  }

  /** One trailing slash is dropped, except from the root. */
  function Normalise(path: string): string {
    if |path| > 1 && path[|path| - 1] == '/' then path[..|path| - 1] else path
  }

  function Join(dir: string, name: string): string {
    if dir == "/" then "/" + name else dir + "/" + name
  }

  predicate Absolute(path: string) {
    path != [] && path[0] == '/'
  }

  lemma LastSlashIs(s: string, k: int)
    requires 0 <= k < |s| && s[k] == '/' && forall i :: k < i < |s| ==> s[i] != '/'
    ensures LastSlash(s) == k
  {
    LastSlashIsLast(s);
    assert LastSlash(s) >= k;
  }

  /** Splitting a joined path gives the parts back. */
  lemma JoinThenSplit(dir: string, name: string)
    requires Absolute(dir) && '/' !in name
    ensures Parent(Join(dir, name)) == dir && Name(Join(dir, name)) == name
  {
    LastSlashIs(Join(dir, name), if dir == "/" then 0 else |dir|);
  }

  /** The files whose parent reads "/" though they lie one level below it, in a directory named "". */
  predicate DoubleRoot(file: string) {
    |file| >= 2 && file[0] == '/' && LastSlash(file) == 1
  }

  /** Joining a split path gives it back, but for files of that kind. */
  lemma SplitThenJoin(file: string)
    requires Absolute(file)
    ensures '/' !in Name(file)
    ensures Join(Parent(file), Name(file)) == file <==> !DoubleRoot(file)
  {
    var k := LastSlash(file);
    LastSlashIsLast(file);
    if k == 0 {
      assert "/" + file[1..] == file;
    } else if k == 1 {
      assert file[..1] == "/";
      assert |Join("/", file[2..])| == |file| - 1;
    } else {
      assert |file[..k]| == k;
      assert file[..k] + "/" + file[k + 1..] == file;
    }
  }

  // ---------------------------------------------------------------- listing

  /** The names of those keys that are files of the directory. */
  function Listed(keys: seq<string>, dir: string): seq<string> {
    if keys == [] then []
    else
      var k := keys[|keys| - 1];
      Listed(keys[..|keys| - 1], dir) + if Parent(k) == dir then [Name(k)] else []
  }

  /** The names of a directory's files, in the map's order. */
  function Listing(files: set<string>, dir: string): seq<string> {
    Listed(SortedKeys(files), dir)
  }

  /** The walk over the map. */
  method Select(keys: seq<string>, dir: string) returns (found: seq<string>)
    ensures found == Listed(keys, dir)
  {
    found := [];
    for i := 0 to |keys|
      invariant found == Listed(keys[..i], dir)
    {
      assert keys[..i + 1][..i] == keys[..i];
      var slash := LastSlash(keys[i]);
      var parent := if slash == 0 then "/" else if slash < 0 then keys[i] else keys[i][..slash];
      if parent != dir {
        continue;
      }
      found := found + [keys[i][slash + 1..]];
    }
    assert keys[..|keys|] == keys;
  }

  predicate IsFile(file: string, dir: string, name: string) {
    Parent(file) == dir && Name(file) == name
  }

  lemma {:induction false} ListedHas(keys: seq<string>, dir: string, file: string, name: string)
    requires file in keys && IsFile(file, dir, name)
    ensures name in Listed(keys, dir)
  {
    if file != keys[|keys| - 1] {
      ListedHas(keys[..|keys| - 1], dir, file, name);
    }
  }

  lemma {:induction false} ListedFrom(keys: seq<string>, dir: string, name: string) returns (file: string)
    requires name in Listed(keys, dir)
    ensures file in keys && IsFile(file, dir, name)
  {
    var front, last := keys[..|keys| - 1], keys[|keys| - 1];
    if IsFile(last, dir, name) {
      file := last;
    } else {
      assert name in Listed(front, dir);
      file := ListedFrom(front, dir, name);
    }
  }

  lemma AscendingAppend(s: seq<string>, x: string)
    requires Ascending(s) && forall y :: y in s ==> LexLess(y, x)
    ensures Ascending(s + [x])
  {
  }

  /** Names of one directory come in the order of their paths. */
  lemma {:induction false} ListedAscending(keys: seq<string>, dir: string, base: string)
    requires Ascending(keys)
    requires forall k :: k in keys && Parent(k) == dir ==> k == base + Name(k)
    ensures Ascending(Listed(keys, dir))
  {
    if keys != [] {
      var front, last := keys[..|keys| - 1], keys[|keys| - 1];
      assert Ascending(front);
      ListedAscending(front, dir, base);
      if Parent(last) == dir {
        forall y | y in Listed(front, dir) ensures LexLess(y, Name(last)) {
          var file := ListedFrom(front, dir, y);
          LexStrip(base, y, Name(last));
        }
        AscendingAppend(Listed(front, dir), Name(last));
      }
    }
  }

  lemma RepeatAtEnd(s: seq<string>, x: string)
    requires x in s
    ensures !Ascending(s + [x])
  {
    var i :| 0 <= i < |s| && s[i] == x;
    var t := s + [x];
    assert t[i] == x && t[|s|] == x;
    LexIrreflexive(x);
  }

  lemma DisorderStays(s: seq<string>, t: seq<string>)
    requires !Ascending(s)
    ensures !Ascending(s + t)
  {
    var i, j :| 0 <= i < j < |s| && !LexLess(s[i], s[j]);
    var u := s + t;
    assert u[i] == s[i] && u[j] == s[j];
  }

  /** Two files of one name spoil the listing. */
  lemma {:induction false} ListedTwice(keys: seq<string>, dir: string, f: string, g: string, name: string)
    requires f in keys && g in keys && f != g
    requires IsFile(f, dir, name) && IsFile(g, dir, name)
    ensures !Ascending(Listed(keys, dir))
  {
    var front, last := keys[..|keys| - 1], keys[|keys| - 1];
    if last == f {
      ListedHas(front, dir, g, name);
      RepeatAtEnd(Listed(front, dir), name);
    } else if last == g {
      ListedHas(front, dir, f, name);
      RepeatAtEnd(Listed(front, dir), name);
    } else {
      ListedTwice(front, dir, f, g, name);
      DisorderStays(Listed(front, dir), if Parent(last) == dir then [Name(last)] else []);
    }
  }

  /** These are the names of the directory's files: each of them, and nothing else, once, in order. */
  ghost predicate Names(files: set<string>, dir: string, names: seq<string>) {
    && (forall name :: name in names <==> '/' !in name && Join(dir, name) in files)
    && Ascending(names)
  }

  /** The listing is what it should be. */
  ghost predicate Exact(files: set<string>, dir: string) {
    Names(files, dir, Listing(files, dir))
  }

  /** No file is of the kind that the listing mistakes for one of this directory. */
  predicate Unambiguous(files: set<string>, dir: string) {
    dir != "/" || forall k :: k in files ==> !DoubleRoot(k)
  }

  lemma NotDoubleRoot(files: set<string>, dir: string, file: string)
    requires Unambiguous(files, dir) && file in files && Absolute(file) && Parent(file) == dir
    ensures '/' !in Name(file) && Join(dir, Name(file)) == file
  {
    SplitThenJoin(file);
    assert file[..1] == "/";
  }

  lemma ListingMembers(files: set<string>, dir: string, name: string)
    requires forall k :: k in files ==> Absolute(k)
    requires Absolute(dir) && Unambiguous(files, dir)
    ensures name in Listing(files, dir) <==> '/' !in name && Join(dir, name) in files
  {
    var keys := SortedKeys(files);
    if name in Listing(files, dir) {
      var file := ListedFrom(keys, dir, name);
      NotDoubleRoot(files, dir, file);
    }
    if '/' !in name && Join(dir, name) in files {
      JoinThenSplit(dir, name);
      ListedHas(keys, dir, Join(dir, name), name);
    }
  }

  lemma ListingAscending(files: set<string>, dir: string)
    requires forall k :: k in files ==> Absolute(k)
    requires Unambiguous(files, dir)
    ensures Ascending(Listing(files, dir))
  {
    var keys := SortedKeys(files);
    var base := if dir == "/" then "/" else dir + "/";
    forall k | k in keys && Parent(k) == dir ensures k == base + Name(k) {
      NotDoubleRoot(files, dir, k);
    }
    ListedAscending(keys, dir, base);
  }

  lemma AmbiguityShows(files: set<string>, file: string)
    requires file in files && DoubleRoot(file)
    ensures !Exact(files, "/")
  {
    var name, keys := Name(file), SortedKeys(files);
    assert Parent(file) == "/" by { assert file[..1] == "/"; }
    ListedHas(keys, "/", file, name);
    if Join("/", name) in files {
      SplitThenJoin(file);
      JoinThenSplit("/", name);
      ListedTwice(keys, "/", file, Join("/", name), name);
    }
  }

  /**
   With absolute paths, every directory is listed exactly and in order, but for one case: the root
   of a map that has a file "//name", which the listing takes for a file of the root.
   */
  lemma ListingIsExact(files: set<string>, dir: string)
    requires forall k :: k in files ==> Absolute(k)
    requires Absolute(dir)
    ensures Exact(files, dir) <==> Unambiguous(files, dir)
  {
    if Unambiguous(files, dir) {
      forall name ensures name in Listing(files, dir) <==> '/' !in name && Join(dir, name) in files {
        ListingMembers(files, dir, name);
      }
      ListingAscending(files, dir);
    } else {
      var k :| k in files && DoubleRoot(k);
      AmbiguityShows(files, k);
    }
  }

  /** What the namespace returns for a directory as the caller names it. */
  function Directory(files: set<string>, path: string): seq<string> {
    Listing(files, Normalise(path))
  }

  /**
   With or without a slash at the end, a caller gets the directory's files; and the root's, which is all
   slash, unless there is a file "//name".
   */
  lemma DirectoryIsExact(files: set<string>, dir: string)
    requires forall k :: k in files ==> Absolute(k)
    ensures Absolute(dir) && dir[|dir| - 1] != '/' ==>
              Names(files, dir, Directory(files, dir)) && Names(files, dir, Directory(files, dir + "/"))
    ensures Names(files, "/", Directory(files, "/")) <==> forall k :: k in files ==> !DoubleRoot(k)
  {
    ListingIsExact(files, "/");
    assert Normalise("/") == "/";
    if Absolute(dir) && dir[|dir| - 1] != '/' {
      ListingIsExact(files, dir);
      assert (dir + "/")[..|dir|] == dir;
    }
  }

  /** The names are those of the directory that the caller's path means: that path, but for a slash at its end. */
  ghost predicate Shown(files: set<string>, path: string, names: seq<string>) {
    (forall k :: k in files ==> Absolute(k)) ==>
      && (path == "/" && (forall k :: k in files ==> !DoubleRoot(k)) ==> Names(files, "/", names))
      && (forall dir :: Absolute(dir) && dir[|dir| - 1] != '/' && (path == dir || path == dir + "/") ==>
            Names(files, dir, names))
  }

  lemma DirectoryIsShown(files: set<string>, path: string)
    ensures Shown(files, path, Directory(files, path))
  {
    if forall k :: k in files ==> Absolute(k) {
      DirectoryIsExact(files, "/");
      forall dir | Absolute(dir) && dir[|dir| - 1] != '/' && (path == dir || path == dir + "/")
        ensures Names(files, dir, Directory(files, path))
      {
        DirectoryIsExact(files, dir);
      }
    }
  }

  /** The file's path is the directory, a slash and the name; or a bare name, taken for a directory of one file. */
  predicate FileOf(file: string, dir: string, name: string) {
    && '/' !in name
    && (|| (dir == "/" && file == "/" + name)
        || (dir != "" && file == dir + "/" + name)
        || (dir == name && file == name))
  }

  lemma SplitIsFileOf(file: string)
    ensures FileOf(file, Parent(file), Name(file))
  {
    LastSlashIsLast(file);
    var k := LastSlash(file);
    if k >= 0 {
      assert file == file[..k] + "/" + file[k + 1..];
    } else {
      assert file[k + 1..] == file;
    }
  }

  lemma BareName(file: string)
    requires '/' !in file
    ensures Parent(file) == file && Name(file) == file
  {
    LastSlashIsLast(file);
    assert forall i :: 0 <= i < |file| ==> file[i] in file;
    assert LastSlash(file) == -1;
    assert file[0..] == file;
  }

  lemma FileOfIsFile(file: string, dir: string, name: string)
    requires FileOf(file, dir, name)
    ensures IsFile(file, dir, name)
  {
    if dir == "/" && file == "/" + name {
      LastSlashIs(file, 0);
    } else if dir != "" && file == dir + "/" + name {
      LastSlashIs(file, |dir|);
    } else {
      BareName(file);
    }
  }

  lemma IsFileMeans(file: string, dir: string, name: string)
    ensures IsFile(file, dir, name) <==> FileOf(file, dir, name)
  {
    SplitIsFileOf(file);
    if FileOf(file, dir, name) {
      FileOfIsFile(file, dir, name);
    }
  }

  /** What a listing names in any map at all, absolute paths or not. */
  lemma ListingNames(files: set<string>, dir: string, name: string)
    ensures name in Listing(files, dir) <==> exists file :: file in files && FileOf(file, dir, name)
  {
    var keys := SortedKeys(files);
    if name in Listing(files, dir) {
      var file := ListedFrom(keys, dir, name);
      IsFileMeans(file, dir, name);
    }
    if exists file :: file in files && FileOf(file, dir, name) {
      var file :| file in files && FileOf(file, dir, name);
      IsFileMeans(file, dir, name);
      ListedHas(keys, dir, file, name);
    }
  }

  /** And for a directory as the caller names it: one slash at the end makes no difference, but to the root. */
  lemma DirectoryNames(files: set<string>, dir: string, name: string)
    requires dir == "/" || dir == "" || dir[|dir| - 1] != '/'
    ensures name in Directory(files, dir) <==> exists file :: file in files && FileOf(file, dir, name)
    ensures dir != "" && dir != "/" ==> Directory(files, dir + "/") == Directory(files, dir)
  {
    ListingNames(files, dir, name);
    assert (dir + "/")[..|dir|] == dir;
  }
}
