/** What searches of fs/fs.c find after unlink and rmdir. */
module Removals {
  import opened Disks
  import opened DirEntries
  import opened Directory
  import opened Searches
  import opened Tree
  import opened TreeOps
  import opened Wrappers
  import Paths

  // ---------------------------------------------------------------- after unlink

  /** The same search, when file ino is not there. */
  function WithoutFile(w: Found, ino: u32): Found {
    if w.File? && w.ino == ino then Missing(w.parent, w.searched) else w
  }

  /** One name after the entry of a file was taken out of directory p. */
  lemma FindWithoutFile(dirs: Dirs, home: map<u32, u32>, depth: map<u32, nat>, p: u32, ino: u32, d: u32, c: string)
    requires GoodTree(dirs, home, depth) && p in dirs && ino in home && home[ino] == p && d in dirs && c != ""
    ensures var e := Find(dirs[d], c);
            Find(WithoutLink(dirs, p, ino)[d], c) ==
            if e.Some? && e.value.kind != FT_DIRECTORY && e.value.ino == ino then None else e
  {
    Apart(dirs, home, depth);
    LinksAt(dirs, home, depth, p);
    hide GoodTree, GoodDir, Find, Delete;
    FindDelete(dirs[p], p, ino, c);
    if Find(dirs[d], c).Some? {
      var e := Find(dirs[d], c).value;
      if e.kind == FT_DIRECTORY {
        StepDown(dirs, home, depth, d, c);
      } else {
        FileHome(dirs, home, depth, d, c);
        FoundIsLink(dirs, home, depth, d, c);
      }
    }
  }

  lemma FoundIsLink(dirs: Dirs, home: map<u32, u32>, depth: map<u32, nat>, d: u32, c: string)
    requires GoodTree(dirs, home, depth) && d in dirs && c != "" && Find(dirs[d], c).Some? && Find(dirs[d], c).value.kind != FT_DIRECTORY
    ensures IsLink(Find(dirs[d], c).value, Find(dirs[d], c).value.ino)
  {
    LinksAt(dirs, home, depth, d);
    hide GoodTree, GoodDir, Find;
    FindDots(dirs[d], d);
    DotsAreDirs(dirs[d], d);
    FindOther(dirs[d], d, c);
  }

  /** After unlink a search that had found the file misses it, at the same place, and every other search goes as before. */
  lemma {:induction false} WalkWithoutFile(dirs: Dirs, home: map<u32, u32>, depth: map<u32, nat>, p: u32, ino: u32,
                                           d: u32, up: u32, cs: seq<string>, done: seq<string>)
    requires GoodTree(dirs, home, depth) && p in dirs && ino in home && home[ino] == p && d in dirs && "" !in cs
    ensures Walk(WithoutLink(dirs, p, ino), d, up, cs, done) == WithoutFile(Walk(dirs, d, up, cs, done), ino)
    decreases |cs|
  {
    hide GoodTree, Find, Delete;
    if cs != [] {
      var c := cs[0];
      assert cs == [c] + cs[1..] && c in cs;
      FindWithoutFile(dirs, home, depth, p, ino, d, c);
      WalkStep(dirs, d, up, cs, done);
      WalkStep(WithoutLink(dirs, p, ino), d, up, cs, done);
      if Find(dirs[d], c).Some? && Find(dirs[d], c).value.kind == FT_DIRECTORY {
        StepDown(dirs, home, depth, d, c);
        WalkWithoutFile(dirs, home, depth, p, ino, Find(dirs[d], c).value.ino, d, cs[1..], done + [c]);
      }
    }
  }

  lemma UnlinkedIsGone(dirs: Dirs, home: map<u32, u32>, depth: map<u32, nat>, p: u32, ino: u32, path: string)
    requires GoodTree(dirs, home, depth) && p in dirs && ino in home && home[ino] == p
    ensures Lookup(WithoutLink(dirs, p, ino), path) == WithoutFile(Lookup(dirs, path), ino)
  {
    hide GoodTree, Paths.Split, Walk, WithoutLink, PathTo;
    NamesOf(path);
    RootPath(dirs, home, depth);
    WalkWithoutFile(dirs, home, depth, p, ino, 0, 0, Paths.Split(path), []);
  }

  // ---------------------------------------------------------------- after rmdir

  /** The first k names lead to directory d0. */
  predicate LeadsTo(dirs: Dirs, d: u32, up: u32, cs: seq<string>, done: seq<string>, d0: u32, k: nat) {
    k <= |cs| && Walk(dirs, d, up, cs[..k], done).Directory? && Walk(dirs, d, up, cs[..k], done).ino == d0
  }

  /** k is the least number of names that lead to it. */
  ghost predicate FirstLeadsTo(dirs: Dirs, d: u32, up: u32, cs: seq<string>, done: seq<string>, d0: u32, k: nat) {
    LeadsTo(dirs, d, up, cs, done, d0, k) && forall j: nat | j < k :: !LeadsTo(dirs, d, up, cs, done, d0, j)
  }

  function WithoutDir(dirs: Dirs, d0: u32): Dirs
    requires d0 in dirs && |dirs[d0]| == PLACES && Up(dirs, d0) in dirs
  {
    WithoutLink(dirs, Up(dirs, d0), d0) - {d0}
  }

  lemma FindWithoutDir(dirs: Dirs, home: map<u32, u32>, depth: map<u32, nat>, d0: u32, d: u32, c: string)
    requires GoodTree(dirs, home, depth) && CanRemove(dirs, d0) && Up(dirs, d0) in dirs && d in dirs && d != d0 && c != ""
    ensures var e := Find(dirs[d], c);
            && d in WithoutDir(dirs, d0)
            && Find(WithoutDir(dirs, d0)[d], c) == (if e.Some? && e.value.kind == FT_DIRECTORY && e.value.ino == d0 then None else e)
            && (e.Some? && e.value.kind == FT_DIRECTORY && e.value.ino == d0 ==> d == Up(dirs, d0))
  {
    Apart(dirs, home, depth);
    LinksAt(dirs, home, depth, Up(dirs, d0));
    hide GoodTree, GoodDir, Find, Delete, CanRemove;
    FindDelete(dirs[Up(dirs, d0)], Up(dirs, d0), d0, c);
    if Find(dirs[d], c).Some? {
      var e := Find(dirs[d], c).value;
      if e.kind == FT_DIRECTORY {
        DirStep(dirs, home, depth, d0, d, c);
      } else {
        FileHome(dirs, home, depth, d, c);
      }
    }
  }

  /** A name leads to an empty directory only from its parent, and then by its entry there. */
  lemma DirStep(dirs: Dirs, home: map<u32, u32>, depth: map<u32, nat>, d0: u32, d: u32, c: string)
    requires GoodTree(dirs, home, depth) && CanRemove(dirs, d0) && d in dirs && d != d0 && c != ""
    requires Find(dirs[d], c).Some? && Find(dirs[d], c).value.kind == FT_DIRECTORY
    ensures var e := Find(dirs[d], c).value; |dirs[d0]| == PLACES && (e.ino == d0 ==> d == Up(dirs, d0) && IsLink(e, d0))
  {
    StepDown(dirs, home, depth, d, c);
    AtDir(dirs, home, depth, d);
    NotTheParent(dirs, home, depth, d, d0);
    LinksAt(dirs, home, depth, d);
    hide GoodTree, GoodDir, Find;
    if !IsDots(c) {
      FindOther(dirs[d], d, c);
    }
  }

  /** After rmdir a search that passes through the directory misses it where it first came to it, and every other search goes
      as before. */
  lemma {:induction false} WalkWithoutDir(dirs: Dirs, home: map<u32, u32>, depth: map<u32, nat>, d0: u32,
                                          d: u32, up: u32, cs: seq<string>, done: seq<string>)
    requires GoodTree(dirs, home, depth) && CanRemove(dirs, d0) && Up(dirs, d0) in dirs && d in dirs && d != d0 && "" !in cs
    ensures (forall k: nat :: !LeadsTo(dirs, d, up, cs, done, d0, k)) ==>
              Walk(WithoutDir(dirs, d0), d, up, cs, done) == Walk(dirs, d, up, cs, done)
    ensures forall k: nat | FirstLeadsTo(dirs, d, up, cs, done, d0, k) ::
              Walk(WithoutDir(dirs, d0), d, up, cs, done) == Missing(Up(dirs, d0), done + cs[..k])
    decreases |cs|
  {
    hide GoodTree, Find, CanRemove, WithoutDir;
    EmptyIsThere(dirs, d0);
    assert cs[..0] == [];
    assert !LeadsTo(dirs, d, up, cs, done, d0, 0);
    if cs != [] {
      var c := cs[0];
      assert cs == [c] + cs[1..] && c in cs;
      FindWithoutDir(dirs, home, depth, d0, d, c);
      WalkStep(dirs, d, up, cs, done);
      WalkStep(WithoutDir(dirs, d0), d, up, cs, done);
      if Find(dirs[d], c).Some? && Find(dirs[d], c).value.kind == FT_DIRECTORY {
        var e := Find(dirs[d], c).value;
        StepDown(dirs, home, depth, d, c);
        LeadsLater(dirs, d, up, cs, done, d0, e);
        if e.ino == d0 {
          LeadsNow(dirs, d, up, cs, done, d0, e);
        } else {
          WalkWithoutDir(dirs, home, depth, d0, e.ino, d, cs[1..], done + [c]);
          Later(dirs, d, up, cs, done, d0, e, WithoutDir(dirs, d0), Up(dirs, d0));
        }
      } else {
        LeadsNowhere(dirs, d, up, cs, done, d0);
      }
    }
  }

  lemma EmptyIsThere(dirs: Dirs, d0: u32)
    requires CanRemove(dirs, d0)
    ensures d0 in dirs && d0 != 0 && |dirs[d0]| == PLACES
  {
  }

  lemma LeadsLater(dirs: Dirs, d: u32, up: u32, cs: seq<string>, done: seq<string>, d0: u32, e: Entry)
    requires cs != [] && d in dirs && Find(dirs[d], cs[0]) == Some(e) && e.kind == FT_DIRECTORY
    ensures forall k: nat | k >= 1 :: LeadsTo(dirs, d, up, cs, done, d0, k) <==> LeadsTo(dirs, e.ino, d, cs[1..], done + [cs[0]], d0, k - 1)
  {
    hide Find;
    forall k: nat | 1 <= k <= |cs| ensures Walk(dirs, d, up, cs[..k], done) == Walk(dirs, e.ino, d, cs[1..][..k - 1], done + [cs[0]]) {
      assert cs[..k][1..] == cs[1..][..k - 1] && cs[..k][0] == cs[0];
      WalkStep(dirs, d, up, cs[..k], done);
    }
  }

  lemma LeadsNow(dirs: Dirs, d: u32, up: u32, cs: seq<string>, done: seq<string>, d0: u32, e: Entry)
    requires cs != [] && d in dirs && Find(dirs[d], cs[0]) == Some(e) && e.kind == FT_DIRECTORY && e.ino == d0
    ensures LeadsTo(dirs, d, up, cs, done, d0, 1) && cs[..1] == [cs[0]]
  {
    assert cs[..1][0] == cs[0] && cs[..1][1..] == [];
    WalkStep(dirs, d, up, cs[..1], done);
  }

  lemma LeadsNowhere(dirs: Dirs, d: u32, up: u32, cs: seq<string>, done: seq<string>, d0: u32)
    requires cs != [] && d in dirs && (Find(dirs[d], cs[0]).Some? ==> Find(dirs[d], cs[0]).value.kind != FT_DIRECTORY)
    ensures forall k: nat | k >= 1 :: !LeadsTo(dirs, d, up, cs, done, d0, k)
  {
    hide Find;
    forall k: nat | 1 <= k <= |cs| ensures !Walk(dirs, d, up, cs[..k], done).Directory? {
      assert cs[..k][0] == cs[0];
      WalkStep(dirs, d, up, cs[..k], done);
    }
  }

  /** What is so behind the first name is so from the first name on. */
  lemma Later(dirs: Dirs, d: u32, up: u32, cs: seq<string>, done: seq<string>, d0: u32, e: Entry, dirs1: Dirs, p: u32)
    requires cs != [] && !LeadsTo(dirs, d, up, cs, done, d0, 0)
    requires forall k: nat | k >= 1 :: LeadsTo(dirs, d, up, cs, done, d0, k) <==> LeadsTo(dirs, e.ino, d, cs[1..], done + [cs[0]], d0, k - 1)
    requires Walk(dirs, d, up, cs, done) == Walk(dirs, e.ino, d, cs[1..], done + [cs[0]])
    requires Walk(dirs1, d, up, cs, done) == Walk(dirs1, e.ino, d, cs[1..], done + [cs[0]])
    requires (forall k: nat :: !LeadsTo(dirs, e.ino, d, cs[1..], done + [cs[0]], d0, k)) ==>
               Walk(dirs1, e.ino, d, cs[1..], done + [cs[0]]) == Walk(dirs, e.ino, d, cs[1..], done + [cs[0]])
    requires forall k: nat | FirstLeadsTo(dirs, e.ino, d, cs[1..], done + [cs[0]], d0, k) ::
               Walk(dirs1, e.ino, d, cs[1..], done + [cs[0]]) == Missing(p, done + [cs[0]] + cs[1..][..k])
    ensures (forall k: nat :: !LeadsTo(dirs, d, up, cs, done, d0, k)) ==> Walk(dirs1, d, up, cs, done) == Walk(dirs, d, up, cs, done)
    ensures forall k: nat | FirstLeadsTo(dirs, d, up, cs, done, d0, k) :: Walk(dirs1, d, up, cs, done) == Missing(p, done + cs[..k])
  {
    hide LeadsTo, Walk;
    if forall k: nat :: !LeadsTo(dirs, d, up, cs, done, d0, k) {
      forall k: nat ensures !LeadsTo(dirs, e.ino, d, cs[1..], done + [cs[0]], d0, k) {
        assert !LeadsTo(dirs, d, up, cs, done, d0, k + 1);
        assert k + 1 - 1 == k;
      }
    }
    forall k: nat | FirstLeadsTo(dirs, d, up, cs, done, d0, k) ensures k <= |cs| {
      LeadsWithin(dirs, d, up, cs, done, d0, k);
    }
    forall k: nat | FirstLeadsTo(dirs, d, up, cs, done, d0, k) ensures Walk(dirs1, d, up, cs, done) == Missing(p, done + cs[..k]) {
      assert k >= 1;
      forall j: nat | j < k - 1 ensures !LeadsTo(dirs, e.ino, d, cs[1..], done + [cs[0]], d0, j) {
        assert !LeadsTo(dirs, d, up, cs, done, d0, j + 1);
        assert j + 1 - 1 == j;
      }
      assert FirstLeadsTo(dirs, e.ino, d, cs[1..], done + [cs[0]], d0, k - 1);
      assert done + [cs[0]] + cs[1..][..k - 1] == done + cs[..k];
    }
  }

  lemma LeadsWithin(dirs: Dirs, d: u32, up: u32, cs: seq<string>, done: seq<string>, d0: u32, k: nat)
    requires LeadsTo(dirs, d, up, cs, done, d0, k)
    ensures k <= |cs|
  {
  }

  lemma {:induction false} First(dirs: Dirs, cs: seq<string>, d0: u32, k: nat) returns (j: nat)
    requires LeadsTo(dirs, 0, 0, cs, [], d0, k)
    ensures FirstLeadsTo(dirs, 0, 0, cs, [], d0, j) && j <= k
  {
    hide LeadsTo;
    j := 0;
    while !LeadsTo(dirs, 0, 0, cs, [], d0, j)
      invariant j <= k && forall i: nat | i < j :: !LeadsTo(dirs, 0, 0, cs, [], d0, i)
      decreases k - j
    {
      j := j + 1;
    }
  }

  /** Some names of the path lead to directory d0. */
  ghost predicate Through(dirs: Dirs, cs: seq<string>, d0: u32) {
    exists k: nat :: LeadsTo(dirs, 0, 0, cs, [], d0, k)
  }

  lemma WalkIsGone(dirs: Dirs, home: map<u32, u32>, depth: map<u32, nat>, d0: u32, cs: seq<string>)
    requires GoodTree(dirs, home, depth) && CanRemove(dirs, d0) && Up(dirs, d0) in dirs && 0 in dirs && d0 != 0 && "" !in cs
    ensures if Through(dirs, cs, d0) then Walk(WithoutDir(dirs, d0), 0, 0, cs, []).Missing?
            else Walk(WithoutDir(dirs, d0), 0, 0, cs, []) == Walk(dirs, 0, 0, cs, [])
  {
    hide GoodTree, Walk, CanRemove, LeadsTo, WithoutDir, FirstLeadsTo;
    EmptyIsThere(dirs, d0);
    WalkWithoutDir(dirs, home, depth, d0, 0, 0, cs, []);
    if Through(dirs, cs, d0) {
      var k: nat :| LeadsTo(dirs, 0, 0, cs, [], d0, k);
      var j := First(dirs, cs, d0, k);
    }
  }

  /** After rmdir of a directory its path, and every path through it, is not found; every other leads where it did. */
  lemma RemovedIsGone(dirs: Dirs, home: map<u32, u32>, depth: map<u32, nat>, d0: u32, path: string)
    requires GoodTree(dirs, home, depth) && CanRemove(dirs, d0) && Up(dirs, d0) in dirs
    ensures if Through(dirs, Paths.Split(path), d0) then Lookup(WithoutDir(dirs, d0), path).Missing?
            else Lookup(WithoutDir(dirs, d0), path) == Lookup(dirs, path)
    ensures Lookup(dirs, path).Directory? && Lookup(dirs, path).ino == d0 ==> Lookup(WithoutDir(dirs, d0), path).Missing?
  {
    hide GoodTree, Paths.Split, Walk, CanRemove, WithoutDir, PathTo, Through;
    EmptyIsThere(dirs, d0);
    NamesOf(path);
    RootPath(dirs, home, depth);
    WalkIsGone(dirs, home, depth, d0, Paths.Split(path));
    AllLead(dirs, Paths.Split(path), d0);
  }

  lemma AllLead(dirs: Dirs, cs: seq<string>, d0: u32)
    ensures Walk(dirs, 0, 0, cs, []).Directory? && Walk(dirs, 0, 0, cs, []).ino == d0 ==> Through(dirs, cs, d0)
  {
    hide Walk;
    assert cs[..|cs|] == cs;
    if Walk(dirs, 0, 0, cs, []).Directory? && Walk(dirs, 0, 0, cs, []).ino == d0 {
      assert LeadsTo(dirs, 0, 0, cs, [], d0, |cs|);
    }
  }

  // ---------------------------------------------------------------- unlink behind a file

  lemma NamesToF()
    ensures Paths.Split("/f") == ["f"] && Paths.Split("/f/x") == ["f", "x"]
  {
    var f, x := "f", "x";
    assert "" + "/" + f == "/f" && "/f" + "/" + x == "/f/x" && f + "" == f && x + "" == x;
    Paths.SplitAt("", f);
    Paths.SplitAt("/f", x);
    Paths.SplitName(f, "");
    Paths.SplitName(x, "");
    Paths.SplitEmpty();
    hide Paths.Split;
    assert [] + ["f"] == ["f"] && ["f"] + ["x"] == ["f", "x"];
  }

  lemma PathsToF()
    ensures GoodPath("/f") && GoodPath("/f/x") && LastName("/f") == "f" && "/f" + "/" + "x" == "/f/x"
  {
    hide Paths.Split;
    NamesToF();
  }

  lemma NotYetF(dirs: Dirs)
    requires dirs == map[0 := NewDir(0, 0)]
    ensures CanMakeAt(Lookup(dirs, "/f"), "/f", dirs) && Lookup(dirs, "/f").parent == 0
  {
    NamesToF();
    hide Paths.Split;
    assert NewDir(0, 0)[2] == NO_ENTRY && FreePlace(NewDir(0, 0)) <= 2;
    assert Find(NewDir(0, 0), "f") == None;
    WalkStep(dirs, 0, 0, ["f"], []);
  }

  lemma FileF(dirs: Dirs, home: map<u32, u32>, depth: map<u32, nat>)
    requires GoodTree(dirs, home, depth) && dirs == map[0 := NewDir(0, 0)] && home == map[]
    ensures CanMakeAt(Lookup(dirs, "/f"), "/f", dirs) && Lookup(dirs, "/f").parent == 0
    ensures var dirs1 := WithFile(dirs, 0, "f", 1); Lookup(dirs1, "/f") == Lookup(dirs1, "/f/x") == File(1, 0, ["f"])
  {
    hide Paths.Split, GoodTree, GoodPath, LastName, CanMakeAt, Walk, WithFile;
    PathsToF();
    NotYetF(dirs);
    NamesToF();
    MadeIsFound(dirs, home, depth, "/f", 1);
    SearchStopsAtFile(WithFile(dirs, 0, "f", 1), "/f", "x");
  }

  /** open of "/f" with O_CREAT, then unlink of "/f/x": both succeed, and "/f" is gone. */
  method UnlinkBehindFile() returns (t: FileTree, made: Result, gone: Result)
    ensures made == Ok && gone == Ok && Lookup(t.dirs, "/f").Missing? && Lookup(t.dirs, "/f/x").Missing?
  {
    hide GoodTree, Walk, Find, GoodPath, Paths.Split, IsTree, WithFile, WithoutLink, CanMakeAt, LastName, AllShort, StrictWalk, NoFileOnTheWay;
    t := new FileTree();
    PathsToF();
    FileF(t.dirs, t.home, t.depth);
    made := t.Create("/f", Some(1), true);
    ghost var dirs, home, depth := t.dirs, t.home, t.depth;
    gone := t.Unlink("/f/x", false);
    UnlinkedIsGone(dirs, home, depth, 0, 1, "/f");
    UnlinkedIsGone(dirs, home, depth, 0, 1, "/f/x");
  }

  // ---------------------------------------------------------------- paths that are too long

  /** "/a" and then n times "/." */
  function Dotted(n: nat): (s: string)
    ensures |s| == 2 + 2 * n
  {
    if n == 0 then "/a" else Dotted(n - 1) + "/" + "."
  }

  lemma {:induction false} DottedNames(n: nat)
    ensures AllBytes(Dotted(n)) && Dotted(n)[0] == '/'
    ensures Paths.Split(Dotted(n)) == ["a"] + seq(n, i => ".")
    decreases n
  {
    if n == 0 {
      NamesToA();
    } else {
      hide Paths.Split;
      DottedNames(n - 1);
      Paths.SplitAt(Dotted(n - 1), ".");
      JustDot();
      assert seq(n, i => ".") == seq(n - 1, i => ".") + ["."];
    }
  }

  lemma JustDot()
    ensures Paths.Split(".") == ["."]
  {
    assert "." + "" == ".";
    Paths.SplitName(".", "");
    Paths.SplitEmpty();
  }

  /** Such paths are good, whatever their length: the longer ones lead nowhere but to a panic. */
  lemma DottedIsGood(n: nat)
    ensures GoodPath(Dotted(n)) && (|Dotted(n)| >= MAX_PATH <==> n >= 255)
  {
    hide Paths.Split, Dotted;
    DottedNames(n);
  }

  /** mkdir of "/a", then rmdir of "/a" with 255 dots behind it: the path names a directory that is there, and rmdir panics. */
  method RmdirOfLongPath() returns (t: FileTree, made: Result, gone: Result)
    ensures made == Ok && gone == Panicked
  {
    hide GoodTree, Walk, Find, GoodPath, Paths.Split, IsTree, WithDir, CanRemove, CanMakeAt, LastName, AllShort, Dotted;
    t := new FileTree();
    PathsToA();
    DirectoryA(t.dirs, t.home, t.depth);
    made := t.Mkdir("/a", Some(1), true);
    DottedIsGood(255);
    gone := t.Rmdir(Dotted(255));
  }
}
