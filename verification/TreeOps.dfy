/** mkdir, rmdir, open with O_CREAT and unlink of fs/fs.c, on the directory tree. */
module TreeOps {
  import opened Disks
  import opened DirEntries
  import opened Directory
  import opened Searches
  import opened Tree
  import opened Wrappers
  import Paths

  // ---------------------------------------------------------------- what the operations do to the tree

  /** A directory with its two dots. */
  function NewDir(no: u32, parent: u32): (es: seq<Entry>)
    ensures |es| == PLACES && es[0] == Entry(".", no, FT_DIRECTORY) && es[1] == Entry("..", parent, FT_DIRECTORY)
    ensures forall s | 2 <= s < PLACES :: es[s] == NO_ENTRY
  {
    [Entry(".", no, FT_DIRECTORY), Entry("..", parent, FT_DIRECTORY)] + seq(PLACES - 2, i => NO_ENTRY)
  }

  function WithDir(dirs: Dirs, p: u32, name: string, no: u32): Dirs
    requires p in dirs
  {
    dirs[p := Insert(dirs[p], Entry(name, no, FT_DIRECTORY))][no := NewDir(no, p)]
  }

  function WithFile(dirs: Dirs, p: u32, name: string, no: u32): Dirs
    requires p in dirs
  {
    dirs[p := Insert(dirs[p], Entry(name, no, FT_REGULAR))]
  }

  function WithoutLink(dirs: Dirs, p: u32, ino: u32): Dirs
    requires p in dirs
  {
    dirs[p := Delete(dirs[p], ino)]
  }

  /** Making something takes no directory away. */
  lemma DirStays(dirs: Dirs, p: u32, name: string, no: u32, d: u32)
    requires p in dirs && d in dirs
    ensures d in WithDir(dirs, p, name, no) && d in WithFile(dirs, p, name, no) && d in WithoutLink(dirs, p, no)
    ensures d in WithoutLink(dirs, p, no) - {no} <==> d != no
  {
    hide Insert, Delete, NewDir;
  }

  /** Some choice of homes and depths makes the directories a tree. */
  ghost predicate IsTree(dirs: Dirs) {
    exists home: map<u32, u32>, depth: map<u32, nat> :: GoodTree(dirs, home, depth)
  }

  /** A name that can be added to directory p, for an inode number that is nowhere in the tree. */
  ghost predicate CanMake(dirs: Dirs, home: map<u32, u32>, p: u32, name: string, no: u32) {
    && p in dirs && GoodName(name) && Find(dirs[p], name) == None && FreePlace(dirs[p]) < PLACES
    && no != 0 && no !in dirs && no !in home
  }

  lemma CanMakeAdds(dirs: Dirs, home: map<u32, u32>, depth: map<u32, nat>, p: u32, name: string, no: u32, kind: u32)
    requires GoodTree(dirs, home, depth) && CanMake(dirs, home, p, name, no) && (kind == FT_REGULAR || kind == FT_DIRECTORY)
    ensures GoodDir(dirs[p], p) && CanAdd(dirs[p], Entry(name, no, kind))
  {
    hide GoodTree, GoodDir, Find;
    LinksAt(dirs, home, depth, p);
    var es := dirs[p];
    forall t | 0 <= t < |es| && IsLive(es[t]) ensures es[t].name != name && es[t].ino != no {
      NameIsNew(dirs, home, depth, p, name, no, t);
    }
  }

  lemma NameIsNew(dirs: Dirs, home: map<u32, u32>, depth: map<u32, nat>, p: u32, name: string, no: u32, t: nat)
    requires GoodTree(dirs, home, depth) && CanMake(dirs, home, p, name, no) && t < |dirs[p]| && IsLive(dirs[p][t])
    ensures dirs[p][t].name != name && dirs[p][t].ino != no
  {
    hide GoodTree, GoodDir, Find;
    LinksAt(dirs, home, depth, p);
    AtDir(dirs, home, depth, p);
    FindIsExact(dirs[p], p, name, dirs[p][t]);
    if t >= 2 {
      assert GoodLink(dirs, home, p, dirs[p][t]);
    }
  }

  /** Directories that are not touched keep their good links, when nothing they lead to goes away. */
  lemma LinksKept(dirs: Dirs, home: map<u32, u32>, dirs1: Dirs, home1: map<u32, u32>, d: u32, fs: seq<Entry>)
    requires (forall c | c in dirs :: |dirs[c]| == PLACES) && (forall c | c in dirs1 :: |dirs1[c]| == PLACES)
    requires d in dirs && d in dirs1 && GoodLinks(dirs, home, d)
    requires forall c | c in dirs && c in dirs1 :: Up(dirs1, c) == Up(dirs, c)
    requires forall s | 2 <= s < PLACES && IsLive(dirs1[d][s]) ::
               GoodLink(dirs1, home1, d, dirs1[d][s])
               || (dirs1[d][s] == dirs[d][s] && (dirs[d][s].ino in dirs ==> dirs[d][s].ino in dirs1)
                   && (dirs[d][s].ino in home ==> dirs[d][s].ino in home1 && home1[dirs[d][s].ino] == home[dirs[d][s].ino]))
    ensures GoodLinks(dirs1, home1, d)
  {
    forall s | 2 <= s < PLACES && IsLive(dirs1[d][s]) ensures GoodLink(dirs1, home1, d, dirs1[d][s]) {
      if dirs1[d][s] == dirs[d][s] {
        assert GoodLink(dirs, home, d, dirs[d][s]);
      }
    }
  }

  /** A tree is good when each of its directories is. */
  lemma GoodParts(dirs: Dirs, home: map<u32, u32>, depth: map<u32, nat>)
    requires 0 in dirs && dirs.Keys !! home.Keys && forall c | c in dirs :: |dirs[c]| == PLACES
    requires forall d | d in dirs :: GoodDir(dirs[d], d) && GoodLinks(dirs, home, d) && GoodUp(dirs, depth, d)
    ensures GoodTree(dirs, home, depth)
  {
  }

  lemma Apart(dirs: Dirs, home: map<u32, u32>, depth: map<u32, nat>)
    requires GoodTree(dirs, home, depth)
    ensures 0 in dirs && dirs.Keys !! home.Keys && forall c | c in dirs :: |dirs[c]| == PLACES
  {
    hide GoodLinks, GoodUp;
  }

  lemma AddFileAt(dirs: Dirs, home: map<u32, u32>, depth: map<u32, nat>, p: u32, name: string, no: u32, d: u32)
    requires GoodTree(dirs, home, depth) && CanMake(dirs, home, p, name, no) && d in dirs
    ensures var dirs1 := WithFile(dirs, p, name, no);
            && (forall c | c in dirs1 :: |dirs1[c]| == PLACES)
            && GoodDir(dirs1[d], d) && GoodLinks(dirs1, home[no := p], d) && GoodUp(dirs1, depth, d)
  {
    hide GoodTree, GoodDir, Insert;
    var e := Entry(name, no, FT_REGULAR);
    var dirs1, home1 := WithFile(dirs, p, name, no), home[no := p];
    Apart(dirs, home, depth);
    CanMakeAdds(dirs, home, depth, p, name, no, FT_REGULAR);
    InsertIsGood(dirs[p], p, e);
    InsertKeeps(dirs[p], p, e);
    AtDir(dirs, home, depth, d);
    LinksAt(dirs, home, depth, d);
    LinksKept(dirs, home, dirs1, home1, d, dirs1[d]);
  }

  /** A file is put into a directory. */
  lemma AddFileKeeps(dirs: Dirs, home: map<u32, u32>, depth: map<u32, nat>, p: u32, name: string, no: u32)
    requires GoodTree(dirs, home, depth) && CanMake(dirs, home, p, name, no)
    ensures GoodTree(WithFile(dirs, p, name, no), home[no := p], depth)
  {
    hide GoodTree, GoodDir, GoodLinks, GoodUp, Insert;
    var dirs1 := WithFile(dirs, p, name, no);
    Apart(dirs, home, depth);
    forall d | d in dirs1
      ensures (forall c | c in dirs1 :: |dirs1[c]| == PLACES) && GoodDir(dirs1[d], d) && GoodLinks(dirs1, home[no := p], d) && GoodUp(dirs1, depth, d)
    {
      AddFileAt(dirs, home, depth, p, name, no, d);
    }
    GoodParts(dirs1, home[no := p], depth);
  }

  lemma AddDirAt(dirs: Dirs, home: map<u32, u32>, depth: map<u32, nat>, p: u32, name: string, no: u32, d: u32)
    requires GoodTree(dirs, home, depth) && CanMake(dirs, home, p, name, no) && (d in dirs || d == no) && p in depth
    ensures var dirs1 := WithDir(dirs, p, name, no);
            && (forall c | c in dirs1 :: |dirs1[c]| == PLACES)
            && GoodDir(dirs1[d], d) && GoodLinks(dirs1, home, d) && GoodUp(dirs1, depth[no := depth[p] + 1], d)
  {
    hide GoodTree, GoodDir, Insert;
    var e := Entry(name, no, FT_DIRECTORY);
    var dirs1 := WithDir(dirs, p, name, no);
    Apart(dirs, home, depth);
    CanMakeAdds(dirs, home, depth, p, name, no, FT_DIRECTORY);
    InsertIsGood(dirs[p], p, e);
    InsertKeeps(dirs[p], p, e);
    if d == no {
      NewDirIsGood(no, p);
    } else {
      AtDir(dirs, home, depth, d);
      LinksAt(dirs, home, depth, d);
      LinksKept(dirs, home, dirs1, home, d, dirs1[d]);
    }
  }

  lemma NewDirIsGood(no: u32, p: u32)
    ensures GoodDir(NewDir(no, p), no)
  {
  }

  /** A directory is made in a directory. */
  lemma AddDirKeeps(dirs: Dirs, home: map<u32, u32>, depth: map<u32, nat>, p: u32, name: string, no: u32)
    requires GoodTree(dirs, home, depth) && CanMake(dirs, home, p, name, no)
    ensures p in depth && GoodTree(WithDir(dirs, p, name, no), home, depth[no := depth[p] + 1])
  {
    hide GoodTree, GoodDir, GoodLinks, Insert;
    Apart(dirs, home, depth);
    AtDir(dirs, home, depth, p);
    var dirs1, depth1 := WithDir(dirs, p, name, no), depth[no := depth[p] + 1];
    hide GoodUp;
    forall d | d in dirs1
      ensures (forall c | c in dirs1 :: |dirs1[c]| == PLACES) && GoodDir(dirs1[d], d) && GoodLinks(dirs1, home, d) && GoodUp(dirs1, depth1, d)
    {
      AddDirAt(dirs, home, depth, p, name, no, d);
    }
    GoodParts(dirs1, home, depth1);
  }

  lemma RemoveFileAt(dirs: Dirs, home: map<u32, u32>, depth: map<u32, nat>, p: u32, ino: u32, d: u32)
    requires GoodTree(dirs, home, depth) && p in dirs && ino in home && home[ino] == p && d in dirs
    ensures var dirs1 := WithoutLink(dirs, p, ino);
            && (forall c | c in dirs1 :: |dirs1[c]| == PLACES)
            && GoodDir(dirs1[d], d) && GoodLinks(dirs1, home - {ino}, d) && GoodUp(dirs1, depth, d)
  {
    hide GoodTree, GoodDir, Delete;
    var dirs1, home1 := WithoutLink(dirs, p, ino), home - {ino};
    Apart(dirs, home, depth);
    LinksAt(dirs, home, depth, p);
    DeleteIsGood(dirs[p], p, ino);
    DeleteKeeps(dirs[p], p, ino);
    AtDir(dirs, home, depth, d);
    LinksAt(dirs, home, depth, d);
    forall s | 2 <= s < PLACES && IsLive(dirs1[d][s]) ensures dirs1[d][s] == dirs[d][s] && dirs[d][s].ino != ino {
      assert GoodLink(dirs, home, d, dirs[d][s]);
    }
    LinksKept(dirs, home, dirs1, home1, d, dirs1[d]);
  }

  /** The entry of a file is taken out of its directory, and the file is gone. */
  lemma RemoveFileKeeps(dirs: Dirs, home: map<u32, u32>, depth: map<u32, nat>, p: u32, ino: u32)
    requires GoodTree(dirs, home, depth) && p in dirs && ino in home && home[ino] == p
    ensures GoodTree(WithoutLink(dirs, p, ino), home - {ino}, depth)
  {
    hide GoodTree, GoodDir, GoodLinks, GoodUp, Delete;
    var dirs1 := WithoutLink(dirs, p, ino);
    Apart(dirs, home, depth);
    forall d | d in dirs1
      ensures (forall c | c in dirs1 :: |dirs1[c]| == PLACES) && GoodDir(dirs1[d], d) && GoodLinks(dirs1, home - {ino}, d) && GoodUp(dirs1, depth, d)
    {
      RemoveFileAt(dirs, home, depth, p, ino, d);
    }
    GoodParts(dirs1, home - {ino}, depth);
  }

  /** An empty directory can go, and nothing in the tree then leads to it. */
  ghost predicate CanRemove(dirs: Dirs, d0: u32) {
    d0 in dirs && d0 != 0 && |dirs[d0]| == PLACES && forall s | 2 <= s < PLACES :: !IsLive(dirs[d0][s])
  }

  lemma RemoveDirAt(dirs: Dirs, home: map<u32, u32>, depth: map<u32, nat>, d0: u32, p: u32, d: u32)
    requires GoodTree(dirs, home, depth) && CanRemove(dirs, d0) && p in dirs && p == Up(dirs, d0) && d in dirs && d != d0
    ensures var dirs1 := WithoutLink(dirs, p, d0) - {d0};
            && (forall c | c in dirs1 :: |dirs1[c]| == PLACES)
            && GoodDir(dirs1[d], d) && GoodLinks(dirs1, home, d) && GoodUp(dirs1, depth, d)
  {
    hide GoodTree, GoodDir, Delete;
    var dirs1 := WithoutLink(dirs, p, d0) - {d0};
    Apart(dirs, home, depth);
    LinksAt(dirs, home, depth, p);
    DeleteIsGood(dirs[p], p, d0);
    DeleteKeeps(dirs[p], p, d0);
    AtDir(dirs, home, depth, d);
    AtDir(dirs, home, depth, d0);
    LinksAt(dirs, home, depth, d);
    NotTheParent(dirs, home, depth, d, d0);
    forall s | 2 <= s < PLACES && IsLive(dirs1[d][s]) ensures dirs1[d][s] == dirs[d][s] && dirs[d][s].ino != d0 {
      assert GoodLink(dirs, home, d, dirs[d][s]);
    }
    LinksKept(dirs, home, dirs1, home, d, dirs1[d]);
  }

  /** An empty directory is taken out of its parent, and is gone. */
  lemma RemoveDirKeeps(dirs: Dirs, home: map<u32, u32>, depth: map<u32, nat>, d0: u32)
    requires GoodTree(dirs, home, depth) && CanRemove(dirs, d0)
    ensures Up(dirs, d0) in dirs && GoodTree(WithoutLink(dirs, Up(dirs, d0), d0) - {d0}, home, depth)
  {
    hide GoodTree, GoodDir, GoodLinks, GoodUp, Delete;
    Apart(dirs, home, depth);
    AtDir(dirs, home, depth, d0);
    var p := Up(dirs, d0);
    var dirs1 := WithoutLink(dirs, p, d0) - {d0};
    NotTheParent(dirs, home, depth, d0, d0);
    forall d | d in dirs1
      ensures (forall c | c in dirs1 :: |dirs1[c]| == PLACES) && GoodDir(dirs1[d], d) && GoodLinks(dirs1, home, d) && GoodUp(dirs1, depth, d)
    {
      RemoveDirAt(dirs, home, depth, d0, p, d);
    }
    RootStays(dirs, home, depth, d0, p);
    GoodParts(dirs1, home, depth);
  }

  lemma RootStays(dirs: Dirs, home: map<u32, u32>, depth: map<u32, nat>, d0: u32, p: u32)
    requires GoodTree(dirs, home, depth) && d0 != 0 && p in dirs
    ensures var dirs1 := WithoutLink(dirs, p, d0) - {d0}; 0 in dirs1 && dirs1.Keys !! home.Keys
    ensures var dirs1 := WithoutLink(dirs, p, d0) - {d0}; forall c | c in dirs1 :: |dirs1[c]| == PLACES
  {
    hide GoodLinks, GoodUp;
    Apart(dirs, home, depth);
  }

  /** A directory without entries is nobody's parent. */
  lemma NotTheParent(dirs: Dirs, home: map<u32, u32>, depth: map<u32, nat>, d: u32, d0: u32)
    requires GoodTree(dirs, home, depth) && d in dirs && d0 in dirs && d0 != 0 && |dirs[d0]| == |dirs[d]| == PLACES
    requires forall s | 2 <= s < PLACES :: !IsLive(dirs[d0][s])
    ensures Up(dirs, d) != d0
  {
    AtDir(dirs, home, depth, d);
    AtDir(dirs, home, depth, d0);
    hide GoodTree;
  }

  // ---------------------------------------------------------------- what a walk says

  /** The names are those done and a non-empty beginning of the rest. */
  predicate Stopped(cs: seq<string>, done: seq<string>, names: seq<string>) {
    |done| < |names| <= |done| + |cs| && names == done + cs[..|names| - |done|]
  }

  /** The part of the rest before the last name. */
  function Before(cs: seq<string>, done: seq<string>, names: seq<string>): seq<string>
    requires Stopped(cs, done, names)
  {
    cs[..|names| - |done| - 1]
  }

  /** A walk that misses a name has found the directory the name is not in; one that ends at a file has found the file's
      home. Either way it has used up a part of the path. */
  ghost predicate Stops(dirs: Dirs, home: map<u32, u32>, d: u32, up: u32, cs: seq<string>, done: seq<string>) {
    match Walk(dirs, d, up, cs, done)
    case Missing(p, names) => p in dirs && Stopped(cs, done, names) && Find(dirs[p], names[|names| - 1]) == None
                              && Walk(dirs, d, up, Before(cs, done, names), done).Directory?
                              && Walk(dirs, d, up, Before(cs, done, names), done).ino == p
    case File(i, p, names) => p in dirs && Stopped(cs, done, names) && i in home && home[i] == p
    case Directory(i, p) => i in dirs
  }

  lemma StopsLater(dirs: Dirs, home: map<u32, u32>, d: u32, up: u32, cs: seq<string>, done: seq<string>, e: Entry)
    requires cs != [] && d in dirs && Find(dirs[d], cs[0]) == Some(e) && e.kind == FT_DIRECTORY
    requires Stops(dirs, home, e.ino, d, cs[1..], done + [cs[0]])
    ensures Stops(dirs, home, d, up, cs, done)
  {
    hide Find;
    WalkStep(dirs, d, up, cs, done);
    var c, w := cs[0], Walk(dirs, e.ino, d, cs[1..], done + [cs[0]]);
    assert cs == [c] + cs[1..];
    if w.Missing? {
      var names := w.searched;
      assert Stopped(cs, done, names);
      assert Before(cs, done, names) == [c] + Before(cs[1..], done + [c], names);
      WalkStep(dirs, d, up, Before(cs, done, names), done);
    }
  }

  lemma StopsHere(dirs: Dirs, home: map<u32, u32>, d: u32, up: u32, cs: seq<string>, done: seq<string>)
    requires d in dirs
    requires cs != [] && Find(dirs[d], cs[0]).Some? ==>
               var e := Find(dirs[d], cs[0]).value; e.kind != FT_DIRECTORY && e.ino in home && home[e.ino] == d
    ensures Stops(dirs, home, d, up, cs, done)
  {
    hide Find;
    if cs != [] {
      WalkStep(dirs, d, up, cs, done);
    }
  }

  lemma {:induction false} WalkStops(dirs: Dirs, home: map<u32, u32>, depth: map<u32, nat>, d: u32, up: u32, cs: seq<string>, done: seq<string>)
    requires GoodTree(dirs, home, depth) && d in dirs && "" !in cs
    ensures Stops(dirs, home, d, up, cs, done)
    decreases |cs|
  {
    hide GoodTree, Find, Stops, Walk;
    if cs == [] || Find(dirs[d], cs[0]).None? {
      StopsHere(dirs, home, d, up, cs, done);
    } else {
      var c := cs[0];
      assert cs == [c] + cs[1..] && c in cs;
      var e := Find(dirs[d], c).value;
      if e.kind == FT_DIRECTORY {
        StepDown(dirs, home, depth, d, c);
        WalkStops(dirs, home, depth, e.ino, d, cs[1..], done + [c]);
        StopsLater(dirs, home, d, up, cs, done, e);
      } else {
        FileHome(dirs, home, depth, d, c);
        StopsHere(dirs, home, d, up, cs, done);
      }
    }
  }

  lemma FileHome(dirs: Dirs, home: map<u32, u32>, depth: map<u32, nat>, d: u32, c: string)
    requires GoodTree(dirs, home, depth) && d in dirs && c != "" && Find(dirs[d], c).Some?
    requires Find(dirs[d], c).value.kind != FT_DIRECTORY
    ensures var e := Find(dirs[d], c).value; e.ino in home && home[e.ino] == d
  {
    LinksAt(dirs, home, depth, d);
    hide GoodTree, GoodDir, Find;
    var es := dirs[d];
    FindDots(es, d);
    DotsAreDirs(es, d);
    FindOther(es, d, c);
    assert GoodLink(dirs, home, d, es[PlaceOf(es, c)]);
  }

  lemma DotsAreDirs(es: seq<Entry>, self: u32)
    requires GoodDir(es, self)
    ensures es[0].kind == es[1].kind == FT_DIRECTORY
  {
  }

  /** Behind a file a path may go on as it likes: the search stops at the file. */
  lemma SearchStopsAtFile(dirs: Dirs, path: string, rest: string)
    requires Lookup(dirs, path).File?
    ensures Lookup(dirs, path + "/" + rest) == Lookup(dirs, path)
  {
    Paths.SplitAt(path, rest);
    WalkConcat(dirs, 0, 0, Paths.Split(path), Paths.Split(rest), []);
  }

  // ---------------------------------------------------------------- the names on the way to a directory

  /** The path of every directory fits the buffer of sys_getcwd. */
  ghost predicate AllShort(dirs: Dirs, home: map<u32, u32>, depth: map<u32, nat>)
    requires GoodTree(dirs, home, depth)
  {
    forall d | d in dirs :: ShortAt(dirs, home, depth, d)
  }

  ghost predicate ShortAt(dirs: Dirs, home: map<u32, u32>, depth: map<u32, nat>, d: u32)
    requires GoodTree(dirs, home, depth) && d in dirs
  {
    |Paths.Print(PathTo(dirs, home, depth, d))| < MAX_PATH
  }

  /** Directory d has the same parent in both trees, and the same name in it. */
  ghost predicate SameName(dirs: Dirs, dirs1: Dirs, d: u32) {
    && d in dirs && d in dirs1 && |dirs[d]| == PLACES && |dirs1[d]| == PLACES && Up(dirs1, d) == Up(dirs, d)
    && (d != 0 ==> Up(dirs, d) in dirs && Up(dirs, d) in dirs1 && NameIn(dirs1[Up(dirs, d)], d) == NameIn(dirs[Up(dirs, d)], d))
  }

  ghost predicate SameNames(dirs: Dirs, dirs1: Dirs) {
    forall d | d in dirs && d in dirs1 :: SameName(dirs, dirs1, d)
  }

  lemma {:induction false} PathSame(dirs: Dirs, home: map<u32, u32>, depth: map<u32, nat>,
                                    dirs1: Dirs, home1: map<u32, u32>, depth1: map<u32, nat>, d: u32)
    requires GoodTree(dirs, home, depth) && GoodTree(dirs1, home1, depth1) && SameNames(dirs, dirs1) && d in dirs && d in dirs1
    ensures PathTo(dirs1, home1, depth1, d) == PathTo(dirs, home, depth, d)
    decreases if d in depth then depth[d] else 0
  {
    hide GoodTree, NameIn;
    AtDir(dirs, home, depth, d);
    AtDir(dirs1, home1, depth1, d);
    assert SameName(dirs, dirs1, d);
    if d != 0 {
      PathSame(dirs, home, depth, dirs1, home1, depth1, Up(dirs, d));
    }
  }

  lemma ShortStays(dirs: Dirs, home: map<u32, u32>, depth: map<u32, nat>, dirs1: Dirs, home1: map<u32, u32>, depth1: map<u32, nat>)
    requires GoodTree(dirs, home, depth) && GoodTree(dirs1, home1, depth1) && SameNames(dirs, dirs1) && AllShort(dirs, home, depth)
    ensures forall d | d in dirs1 && d in dirs :: ShortAt(dirs1, home1, depth1, d)
  {
    hide GoodTree, PathTo, SameNames;
    forall d | d in dirs1 && d in dirs ensures ShortAt(dirs1, home1, depth1, d) {
      assert ShortAt(dirs, home, depth, d);
      PathSame(dirs, home, depth, dirs1, home1, depth1, d);
    }
  }

  lemma AllStayShort(dirs: Dirs, home: map<u32, u32>, depth: map<u32, nat>, dirs1: Dirs, home1: map<u32, u32>, depth1: map<u32, nat>)
    requires GoodTree(dirs, home, depth) && GoodTree(dirs1, home1, depth1) && SameNames(dirs, dirs1) && AllShort(dirs, home, depth)
    requires dirs1.Keys <= dirs.Keys
    ensures AllShort(dirs1, home1, depth1)
  {
    hide GoodTree, SameNames, ShortAt;
    ShortStays(dirs, home, depth, dirs1, home1, depth1);
  }

  lemma InsertedSameNames(dirs: Dirs, home: map<u32, u32>, depth: map<u32, nat>, p: u32, name: string, no: u32)
    requires GoodTree(dirs, home, depth) && CanMake(dirs, home, p, name, no)
    ensures SameNames(dirs, WithDir(dirs, p, name, no)) && SameNames(dirs, WithFile(dirs, p, name, no))
  {
    hide GoodTree, GoodDir, Insert, Find;
    CanMakeAdds(dirs, home, depth, p, name, no, FT_REGULAR);
    CanMakeAdds(dirs, home, depth, p, name, no, FT_DIRECTORY);
    InsertKeeps(dirs[p], p, Entry(name, no, FT_REGULAR));
    InsertKeeps(dirs[p], p, Entry(name, no, FT_DIRECTORY));
    forall d | d in dirs ensures SameName(dirs, WithDir(dirs, p, name, no), d) && SameName(dirs, WithFile(dirs, p, name, no), d) {
      AtDir(dirs, home, depth, d);
      LinksAt(dirs, home, depth, d);
    }
  }

  lemma DeletedSameName(dirs: Dirs, home: map<u32, u32>, depth: map<u32, nat>, p: u32, ino: u32, d: u32)
    requires GoodTree(dirs, home, depth) && p in dirs && d in dirs && d != ino
    ensures SameName(dirs, WithoutLink(dirs, p, ino), d)
  {
    hide GoodTree, GoodDir, Delete;
    LinksAt(dirs, home, depth, p);
    DeleteKeeps(dirs[p], p, ino);
    AtDir(dirs, home, depth, d);
    LinksAt(dirs, home, depth, d);
  }

  lemma UnlinkedSameNames(dirs: Dirs, home: map<u32, u32>, depth: map<u32, nat>, p: u32, ino: u32)
    requires GoodTree(dirs, home, depth) && p in dirs && ino in home
    ensures SameNames(dirs, WithoutLink(dirs, p, ino)) && WithoutLink(dirs, p, ino).Keys == dirs.Keys
  {
    Apart(dirs, home, depth);
    hide GoodTree, WithoutLink;
    forall d | d in dirs ensures d in WithoutLink(dirs, p, ino) && SameName(dirs, WithoutLink(dirs, p, ino), d) {
      assert d != ino;
      DeletedSameName(dirs, home, depth, p, ino, d);
    }
    OnlyThese(dirs, p, ino);
  }

  lemma OnlyThese(dirs: Dirs, p: u32, ino: u32)
    requires p in dirs
    ensures WithoutLink(dirs, p, ino).Keys == dirs.Keys && (WithoutLink(dirs, p, ino) - {ino}).Keys == dirs.Keys - {ino}
  {
    hide Delete;
  }

  lemma RemovedSameNames(dirs: Dirs, home: map<u32, u32>, depth: map<u32, nat>, d0: u32)
    requires GoodTree(dirs, home, depth) && CanRemove(dirs, d0) && Up(dirs, d0) in dirs
    ensures var dirs1 := WithoutLink(dirs, Up(dirs, d0), d0) - {d0}; SameNames(dirs, dirs1) && dirs1.Keys <= dirs.Keys
  {
    hide GoodTree, WithoutLink, NameIn;
    var p := Up(dirs, d0);
    var dirs1 := WithoutLink(dirs, p, d0) - {d0};
    OnlyThese(dirs, p, d0);
    forall d | d in dirs && d in dirs1 ensures SameName(dirs, dirs1, d) {
      DeletedSameName(dirs, home, depth, p, d0, d);
      AtDir(dirs, home, depth, d);
      NotTheParent(dirs, home, depth, d, d0);
    }
  }

  lemma RootIsShort(dirs: Dirs, home: map<u32, u32>, depth: map<u32, nat>)
    requires GoodTree(dirs, home, depth) && dirs.Keys == {0}
    ensures AllShort(dirs, home, depth)
  {
    hide GoodTree;
    RootPath(dirs, home, depth);
  }

  /** A directory that was just made has a path that is not longer than the one it was made under. */
  lemma MadeIsShort(dirs: Dirs, home: map<u32, u32>, depth: map<u32, nat>, path: string, no: u32, depth1: map<u32, nat>)
    requires GoodTree(dirs, home, depth) && GoodPath(path) && CanMakeAt(Lookup(dirs, path), path, dirs)
    requires no != 0 && no !in dirs && no !in home
    requires var dirs1 := WithDir(dirs, Lookup(dirs, path).parent, LastName(path), no); GoodTree(dirs1, home, depth1) && no in dirs1
    ensures var dirs1 := WithDir(dirs, Lookup(dirs, path).parent, LastName(path), no); |Paths.Print(PathTo(dirs1, home, depth1, no))| <= |path|
  {
    hide GoodTree, PathTo, Walk, WithDir, Paths.Split, Paths.ApplyAll, LastName, Paths.Fits;
    MadeIsFound(dirs, home, depth, path, no);
    LookupWashed(WithDir(dirs, Lookup(dirs, path).parent, LastName(path), no), home, depth1, path);
    Paths.WashedIsNoLonger(path);
  }

  // ---------------------------------------------------------------- the operations

  /** A path that the system calls take: from the root, with a name in it unless it is the root, of bytes, and with names
      that fit. */
  predicate GoodPath(path: string) {
    && path != "" && path[0] == '/' && Paths.Fits(path) && (Paths.Split(path) == [] ==> path == "/")
    && AllBytes(path)
  }

  /** path_depth_cnt. Without a name in the path it would look at a buffer that was never set; it is called with one only. */
  method PathDepth(path: string) returns (n: nat)
    requires Paths.Split(path) != []
    ensures n == |Paths.Split(path)|
  {
    hide Paths.Split;
    n := 0;
    var name, next := Paths.PathParse(path, 0);
    assert path[0..] == path;
    ghost var left := Paths.Split(path);
    NamesOf(path);
    assert left != [] ==> left[0] in left;
    while name != ""
      invariant -1 <= next < |path| && n + |left| == |Paths.Split(path)| && "" !in left
      invariant if left == [] then name == "" else name == left[0] != "" && Paths.Split(Paths.Rest(path, next)) == left[1..]
      decreases |left|
    {
      n := n + 1;
      assert left == [left[0]] + left[1..];
      left := left[1..];
      assert left != [] ==> left[0] in left;
      name := "";
      if next != -1 {
        name, next := Paths.PathParse(path, next);
      } else {
        Paths.SplitEmpty();
      }
    }
  }

  predicate AllBytes(s: string) {
    forall c | c in s :: 0 < c as int < 256
  }

  /** The names of a path are made of its bytes. */
  lemma {:induction false} NamesAreBytes(s: string)
    requires AllBytes(s)
    ensures forall name | name in Paths.Split(s) :: AllBytes(name)
    decreases |s|
  {
    var t := Paths.SkipSlashes(s);
    SkipKeeps(s);
    assert AllBytes(t);
    if t != "" {
      var n := Paths.NameLen(t);
      assert forall c | c in t[..n] :: c in t;
      assert forall c | c in t[n..] :: c in t;
      NamesAreBytes(t[n..]);
    }
  }

  lemma {:induction false} SkipKeeps(s: string)
    ensures forall c | c in Paths.SkipSlashes(s) :: c in s
    decreases |s|
  {
    if s != "" && s[0] == '/' {
      SkipKeeps(s[1..]);
    }
  }

  lemma NameIsGood(path: string, name: string)
    requires GoodPath(path) && name in Paths.Split(path) && !IsDots(name)
    ensures GoodName(name)
  {
    NamesOf(path);
    NamesAreBytes(path);
    hide Paths.Split;
  }

  /** The last name that a search missed can be a name in a directory. */
  lemma MissedName(dirs: Dirs, home: map<u32, u32>, depth: map<u32, nat>, path: string)
    requires GoodTree(dirs, home, depth) && GoodPath(path) && Lookup(dirs, path).Missing?
    ensures var w := Lookup(dirs, path);
            && w.parent in dirs && w.searched != [] && (forall c | c in w.searched :: Paths.IsName(c))
            && w.searched <= Paths.Split(path)
            && Find(dirs[w.parent], w.searched[|w.searched| - 1]) == None && GoodName(w.searched[|w.searched| - 1])
  {
    hide GoodTree, GoodPath, Find, GoodName, IsDots, Paths.Split, Paths.IsName, Walk;
    var cs, w := Paths.Split(path), Lookup(dirs, path);
    NamesOf(path);
    RootPath(dirs, home, depth);
    WalkStops(dirs, home, depth, 0, 0, cs, []);
    assert w.searched == cs[..|w.searched|];
    var name := w.searched[|w.searched| - 1];
    assert name == cs[|w.searched| - 1] && name in cs;
    NotDots(dirs, home, depth, w.parent, name);
    NameIsGood(path, name);
  }

  lemma NotDots(dirs: Dirs, home: map<u32, u32>, depth: map<u32, nat>, d: u32, name: string)
    requires GoodTree(dirs, home, depth) && d in dirs && Find(dirs[d], name) == None
    ensures !IsDots(name)
  {
    LinksAt(dirs, home, depth, d);
    hide GoodTree, GoodDir, Find;
    FindDots(dirs[d], d);
  }

  lemma DepthOfJoin(names: seq<string>)
    requires forall c | c in names :: Paths.IsName(c)
    ensures |Paths.Split(Paths.Join(names))| == |names|
  {
    Paths.SplitJoin(names);
  }

  /** strrchr(searched_path, '/') + 1. */
  lemma LastOfJoin(names: seq<string>, k: nat)
    requires names != [] && forall c | c in names :: Paths.IsName(c)
    requires var s := Paths.Join(names); k < |s| && s[k] == '/' && forall j | k < j < |s| :: s[j] != '/'
    ensures Paths.Join(names)[k + 1..] == names[|names| - 1]
  {
    var n := |names| - 1;
    var c, m := names[n], |Paths.Join(names[..n])|;
    var s := Paths.Join(names);
    assert s == Paths.Join(names[..n]) + "/" + c && s[m] == '/';
    assert c in names;
    assert forall j | m < j < |s| :: s[j] == c[j - m - 1] && s[j] in c;
    assert k == m;
  }

  /** rmdir of a path that ends in "." takes the directory away and leaves its entry in the parent: no choice of depths
      and homes makes what is left a tree. */
  lemma RmdirOfDotBreaksTheTree(dirs: Dirs, home: map<u32, u32>, depth: map<u32, nat>, d: u32, home1: map<u32, u32>, depth1: map<u32, nat>)
    requires GoodTree(dirs, home, depth) && CanRemove(dirs, d)
    ensures !GoodTree(WithoutLink(dirs, d, d) - {d}, home1, depth1)
  {
    AtDir(dirs, home, depth, d);
    var p := Up(dirs, d);
    var s := LinkPlace(dirs[p], d);
    NotTheParent(dirs, home, depth, d, d);
    LinksAt(dirs, home, depth, p);
    assert s >= 2;
    var dirs1 := WithoutLink(dirs, d, d) - {d};
    assert dirs1[p] == dirs[p] && d !in dirs1;
    hide GoodTree, GoodDir;
    if GoodTree(dirs1, home1, depth1) {
      LinksAt(dirs1, home1, depth1, p);
    }
  }

  lemma NoTreeLeft(dirs: Dirs, home: map<u32, u32>, depth: map<u32, nat>, d: u32)
    requires GoodTree(dirs, home, depth) && CanRemove(dirs, d)
    ensures !IsTree(WithoutLink(dirs, d, d) - {d})
  {
    hide GoodTree, WithoutLink;
    forall home1: map<u32, u32>, depth1: map<u32, nat> ensures !GoodTree(WithoutLink(dirs, d, d) - {d}, home1, depth1) {
      RmdirOfDotBreaksTheTree(dirs, home, depth, d, home1, depth1);
    }
  }

  lemma TreeNow(dirs: Dirs, home: map<u32, u32>, depth: map<u32, nat>)
    requires GoodTree(dirs, home, depth)
    ensures IsTree(dirs)
  {
    hide GoodTree;
  }

  datatype Result = Ok | Failed | Panicked

  /** The tree as the system calls change it. A number of None for a new inode stands for a full bitmap, and `room` for
      whether everything else was to be had: memory, blocks, descriptors. */
  class FileTree {
    var dirs: Dirs
    var cwd: u32
    ghost var home: map<u32, u32>
    ghost var depth: map<u32, nat>

    /** A formatted partition. */
    constructor ()
      ensures Valid() && cwd == 0 && dirs == map[0 := NewDir(0, 0)] && home == map[]
    {
      dirs := map[0 := NewDir(0, 0)];
      cwd := 0;
      home := map[];
      depth := map[0 := 0];
      new;
      NewDirIsGood(0, 0);
      RootIsShort(dirs, home, depth);
    }

    /** The directories are a tree, and the path of each fits the buffer of sys_getcwd. */
    ghost predicate Valid()
      reads this
    {
      GoodTree(dirs, home, depth) && AllShort(dirs, home, depth)
    }

    ghost predicate IsNew(no: Option<u32>)
      reads this
    {
      no.Some? ==> no.value != 0 && no.value !in dirs && no.value !in home
    }

    /** The new directory of sys_mkdir. */
    method AddDir(p: u32, name: string, no: u32, ghost path: string)
      requires Valid() && CanMake(dirs, home, p, name, no) && GoodPath(path) && |path| < MAX_PATH
      requires CanMakeAt(Lookup(dirs, path), path, dirs) && p == Lookup(dirs, path).parent && name == LastName(path)
      modifies this`dirs, this`depth
      ensures Valid() && dirs == WithDir(old(dirs), p, name, no) && (old(cwd in dirs) ==> cwd in dirs)
    {
      hide GoodTree, WithDir, AllShort, CanMake, GoodPath, CanMakeAt, LastName, Walk, SameNames;
      CanMakeIsNew(dirs, home, p, name, no);
      AddDirKeeps(dirs, home, depth, p, name, no);
      if cwd in dirs { DirStays(dirs, p, name, no, cwd); }
      ghost var depth1 := depth[no := depth[p] + 1];
      AddedAllShort(dirs, home, depth, path, no, depth1);
      depth := depth1;
      dirs := WithDir(dirs, p, name, no);
    }

    /** sys_mkdir: every name but the last has to be there, and the last must not. */
    method Mkdir(path: string, no: Option<u32>, room: bool) returns (r: Result)
      requires Valid() && GoodPath(path) && IsNew(no)
      modifies this`dirs, this`depth
      ensures Valid() && (r == Panicked <==> |path| >= MAX_PATH)
      ensures r == Ok <==> |path| < MAX_PATH && CanMakeAt(Lookup(old(dirs), path), path, old(dirs)) && no.Some? && room
      ensures r == Ok ==> dirs == WithDir(old(dirs), Lookup(old(dirs), path).parent, LastName(path), no.value)
      ensures var cs := Paths.Split(path);
              r == Ok <==> |path| < MAX_PATH && no.Some? && room && cs != []
                           && var d := Walk(old(dirs), 0, 0, cs[..|cs| - 1], []);
                              d.Directory? && d.ino in old(dirs) && Find(old(dirs)[d.ino], cs[|cs| - 1]) == None
                              && FreePlace(old(dirs)[d.ino]) < PLACES
      ensures r == Ok ==> Lookup(dirs, path).Directory? && Lookup(dirs, path).ino == no.value
      ensures r != Ok ==> dirs == old(dirs)
      ensures old(cwd in dirs) ==> cwd in dirs
    {
      hide GoodTree, Walk, Find, GoodPath, GoodName, Paths.Split, Paths.Join, WithDir, Insert, AllShort;
      WhereToMake(dirs, home, depth, path);
      MadeIsThere(dirs, home, depth, path, no);
      PathBasics(path);
      var found := SearchFile(dirs, path, home, depth);
      if found == Crashed {
        return Panicked;
      }
      if !found.NotFound? {
        return Failed;
      }
      MissedName(dirs, home, depth, path);
      ghost var w := Lookup(dirs, path);
      DepthOfJoin(w.searched);
      var pathDepth := PathDepth(path);
      var searchedDepth := PathDepth(found.at.searched);
      LastIsLast(path, w.searched);
      if pathDepth != searchedDepth {
        return Failed;
      }
      JoinHasSlash(w.searched);
      var k := Paths.LastSlash(found.at.searched);
      LastOfJoin(w.searched, k);
      var name := found.at.searched[k + 1..];
      var p := found.at.parent;
      if no == None || !room || FreePlace(dirs[p]) >= |dirs[p]| {
        SizedAt(dirs, home, depth, p);
        return Failed;
      }
      SizedAt(dirs, home, depth, p);
      AddDir(p, name, no.value, path);
      return Ok;
    }

    /** The new file of sys_open. */
    method AddFile(p: u32, name: string, no: u32)
      requires Valid() && CanMake(dirs, home, p, name, no)
      modifies this`dirs, this`home
      ensures Valid() && dirs == WithFile(old(dirs), p, name, no) && (old(cwd in dirs) ==> cwd in dirs)
      ensures home == old(home)[no := p]
    {
      hide GoodTree, WithFile, WithDir, AllShort, CanMake, SameNames;
      CanMakeIsNew(dirs, home, p, name, no);
      AddFileKeeps(dirs, home, depth, p, name, no);
      if cwd in dirs { DirStays(dirs, p, name, no, cwd); }
      InsertedSameNames(dirs, home, depth, p, name, no);
      SameKeys(dirs, p, name, no);
      AllStayShort(dirs, home, depth, WithFile(dirs, p, name, no), home[no := p], depth);
      home := home[no := p];
      dirs := WithFile(dirs, p, name, no);
    }

    /** sys_open with O_CREAT, as far as the tree goes. */
    method Create(path: string, no: Option<u32>, room: bool) returns (r: Result)
      requires Valid() && GoodPath(path) && IsNew(no)
      modifies this`dirs, this`home
      ensures Valid() && (r == Panicked <==> |path| >= MAX_PATH && path[|path| - 1] != '/')
      ensures r == Ok <==> |path| < MAX_PATH && CanMakeAt(Lookup(old(dirs), path), path, old(dirs)) && path[|path| - 1] != '/' && no.Some? && room
      ensures r == Ok ==> dirs == WithFile(old(dirs), Lookup(old(dirs), path).parent, LastName(path), no.value)
                          && home == old(home)[no.value := Lookup(old(dirs), path).parent]
      ensures var cs := Paths.Split(path);
              r == Ok <==> |path| < MAX_PATH && no.Some? && room && path[|path| - 1] != '/' && cs != []
                           && var d := Walk(old(dirs), 0, 0, cs[..|cs| - 1], []);
                              d.Directory? && d.ino in old(dirs) && Find(old(dirs)[d.ino], cs[|cs| - 1]) == None
                              && FreePlace(old(dirs)[d.ino]) < PLACES
      ensures r == Ok ==> Lookup(dirs, path).File? && Lookup(dirs, path).ino == no.value
      ensures r != Ok ==> dirs == old(dirs) && home == old(home)
      ensures old(cwd in dirs) ==> cwd in dirs
    {
      hide GoodTree, Walk, Find, GoodPath, GoodName, Paths.Split, Paths.Join, WithFile, Insert, LastName, AllShort;
      WhereToMake(dirs, home, depth, path);
      MadeIsThere(dirs, home, depth, path, no);
      PathBasics(path);
      if path[|path| - 1] == '/' {
        return Failed;
      }
      HasName(path);
      var pathDepth := PathDepth(path);
      var found := SearchFile(dirs, path, home, depth);
      if found == Crashed {
        return Panicked;
      }
      if !found.NotFound? {
        return Failed;
      }
      MissedName(dirs, home, depth, path);
      ghost var w := Lookup(dirs, path);
      DepthOfJoin(w.searched);
      var searchedDepth := PathDepth(found.at.searched);
      LastIsLast(path, w.searched);
      if pathDepth != searchedDepth {
        return Failed;
      }
      var k := Paths.LastSlash(path);
      LastOfPath(path, k);
      var name := path[k + 1..];
      var p := found.at.parent;
      SizedAt(dirs, home, depth, p);
      if no == None || !room || FreePlace(dirs[p]) >= |dirs[p]| {
        return Failed;
      }
      AddFile(p, name, no.value);
      return Ok;
    }

    /** sys_unlink: the file that the search found goes. It is the one that the whole path names exactly when the path without
        some of its last names leads to no file. */
    method Unlink(path: string, inUse: bool) returns (r: Result)
      requires Valid() && GoodPath(path)
      modifies this`dirs, this`home
      ensures Valid()
      ensures var w := Lookup(old(dirs), path);
              && (r == Panicked <==> |path| >= MAX_PATH || (w.Directory? && w.ino == 0))
              && (r == Ok <==> |path| < MAX_PATH && w.File? && !inUse)
              && (r == Ok ==> w.parent in old(dirs) && dirs == WithoutLink(old(dirs), w.parent, w.ino) && home == old(home) - {w.ino})
              && (r == Ok ==> (w == StrictLookup(old(dirs), path) <==> NoFileOnTheWay(old(dirs), path)))
              && (r != Ok ==> dirs == old(dirs))
      ensures old(cwd in dirs) ==> cwd in dirs
    {
      hide GoodTree, Walk, Find, GoodPath, Paths.Split, Paths.Join, WithoutLink, Delete, AllShort, SameNames, StrictWalk, NoFileOnTheWay;
      PathBasics(path);
      if |path| >= MAX_PATH {
        return Panicked;
      }
      var found := SearchFile(dirs, path, home, depth);
      NamesOf(path);
      RootPath(dirs, home, depth);
      WalkStops(dirs, home, depth, 0, 0, Paths.Split(path), []);
      SearchIsExactIff(dirs, path);
      if found.NotFound? {
        return Failed;
      }
      NoFileIsRoot(dirs, home, depth);
      if found.ino == 0 {
        return Panicked;
      }
      if found.at.kind == FT_DIRECTORY || inUse {
        return Failed;
      }
      var p := found.at.parent;
      RemoveFileKeeps(dirs, home, depth, p, found.ino);
      if cwd in dirs { DirStays(dirs, p, "", found.ino, cwd); }
      UnlinkedSameNames(dirs, home, depth, p, found.ino);
      AllStayShort(dirs, home, depth, WithoutLink(dirs, p, found.ino), home - {found.ino}, depth);
      dirs := WithoutLink(dirs, p, found.ino);
      home := home - {found.ino};
      return Ok;
    }

    /** sys_rmdir: an empty directory goes, and its entry in the directory that the search had come from. What is left is a
        tree unless the path ended in "."; and the current directory goes if it is the one found. */
    method Rmdir(path: string) returns (r: Result)
      requires Valid() && GoodPath(path)
      modifies this`dirs
      ensures LastName(path) != "." ==> Valid()
      ensures var w := Lookup(old(dirs), path);
              && (r == Panicked <==> |path| >= MAX_PATH || (w.Directory? && w.ino == 0))
              && (r == Ok <==> |path| < MAX_PATH && w.Directory? && CanRemove(old(dirs), w.ino))
              && (r == Ok <==> |path| < MAX_PATH && w.Directory? && w.ino != 0 && w.ino in old(dirs)
                               && forall s | 2 <= s < |old(dirs)[w.ino]| :: !IsLive(old(dirs)[w.ino][s]))
              && (r == Ok ==> w.parent in old(dirs) && dirs == WithoutLink(old(dirs), w.parent, w.ino) - {w.ino})
              && (r != Ok ==> dirs == old(dirs) && Valid())
      ensures r == Ok ==> (IsTree(dirs) <==> LastName(path) != ".")
      ensures old(cwd in dirs) ==> (cwd !in dirs <==> r == Ok && Lookup(old(dirs), path).ino == cwd)
    {
      hide GoodTree, Walk, Find, GoodPath, Paths.Split, Paths.Join, WithoutLink, Delete, CanRemove, LastName, IsTree, AllShort, SameNames;
      PathBasics(path);
      var found := SearchFile(dirs, path, home, depth);
      if found == Crashed {
        return Panicked;
      }
      NamesOf(path);
      RootPath(dirs, home, depth);
      NoFileIsRoot(dirs, home, depth);
      WalkStops(dirs, home, depth, 0, 0, Paths.Split(path), []);
      if found.NotFound? {
        return Failed;
      }
      if found.ino == 0 {
        RootCannotGo(dirs);
        return Panicked;
      }
      if found.at.kind == FT_REGULAR {
        return Failed;
      }
      EmptyIsRemovable(dirs, home, depth, found.ino);
      RemovableIsEmpty(dirs, home, depth, found.ino);
      if Count(dirs[found.ino]) != 2 {
        return Failed;
      }
      ParentIsUp(dirs, home, depth, path);
      ghost var dirs1 := WithoutLink(dirs, found.at.parent, found.ino) - {found.ino};
      if LastName(path) != "." {
        RemoveDirKeeps(dirs, home, depth, found.ino);
        RemovedSameNames(dirs, home, depth, found.ino);
        AllStayShort(dirs, home, depth, dirs1, home, depth);
        TreeNow(dirs1, home, depth);
      } else {
        NoTreeLeft(dirs, home, depth, found.ino);
      }
      if cwd in dirs { DirStays(dirs, found.at.parent, "", found.ino, cwd); }
      dirs := WithoutLink(dirs, found.at.parent, found.ino) - {found.ino};
      return Ok;
    }

    /** sys_chdir. */
    method Chdir(path: string) returns (r: Result)
      requires Valid() && GoodPath(path)
      modifies this`cwd
      ensures Valid()
      ensures var w := Lookup(dirs, path);
              && (r == Panicked <==> |path| >= MAX_PATH)
              && (r == Ok <==> |path| < MAX_PATH && w.Directory?)
              && (if r == Ok then cwd == w.ino && cwd in dirs else cwd == old(cwd))
      ensures old(cwd in dirs) ==> cwd in dirs
    {
      hide GoodTree, Walk, Find, GoodPath, Paths.Split, Paths.Join, AllShort;
      PathBasics(path);
      var found := SearchFile(dirs, path, home, depth);
      if found == Crashed {
        return Panicked;
      }
      NamesOf(path);
      RootPath(dirs, home, depth);
      WalkStops(dirs, home, depth, 0, 0, Paths.Split(path), []);
      if found.Got? && found.at.kind == FT_DIRECTORY {
        cwd := found.ino;
        return Ok;
      }
      return Failed;
    }

    /** sys_getcwd into a buffer of the usual size: it never fails, and the path leads back. */
    method Getcwd() returns (path: string)
      requires Valid() && cwd in dirs
      ensures |path| < MAX_PATH && Lookup(dirs, path).Directory? && Lookup(dirs, path).ino == cwd
      ensures path == Paths.Print(PathTo(dirs, home, depth, cwd))
    {
      assert ShortAt(dirs, home, depth, cwd);
      hide GoodTree, AllShort, PathTo, Walk, Paths.Split, Paths.Print;
      var full := GetCwd(dirs, cwd, MAX_PATH, home, depth);
      CwdLeadsBack(dirs, home, depth, cwd);
      return full.value;
    }
  }

  lemma AddedAllShort(dirs: Dirs, home: map<u32, u32>, depth: map<u32, nat>, path: string, no: u32, depth1: map<u32, nat>)
    requires GoodTree(dirs, home, depth) && AllShort(dirs, home, depth) && GoodPath(path) && |path| < MAX_PATH
    requires CanMakeAt(Lookup(dirs, path), path, dirs) && CanMake(dirs, home, Lookup(dirs, path).parent, LastName(path), no)
    requires GoodTree(WithDir(dirs, Lookup(dirs, path).parent, LastName(path), no), home, depth1)
    ensures AllShort(WithDir(dirs, Lookup(dirs, path).parent, LastName(path), no), home, depth1)
  {
    hide GoodTree, Walk, GoodPath, LastName, CanMake, SameNames, PathTo;
    var p := Lookup(dirs, path).parent;
    CanMakeIsNew(dirs, home, p, LastName(path), no);
    var dirs1 := WithDir(dirs, p, LastName(path), no);
    InsertedSameNames(dirs, home, depth, p, LastName(path), no);
    MadeIsShort(dirs, home, depth, path, no, depth1);
    ShortStays(dirs, home, depth, dirs1, home, depth1);
    forall d | d in dirs1 ensures ShortAt(dirs1, home, depth1, d) {
      assert d in dirs || d == no;
    }
  }

  lemma CanMakeIsNew(dirs: Dirs, home: map<u32, u32>, p: u32, name: string, no: u32)
    requires CanMake(dirs, home, p, name, no)
    ensures p in dirs && no != 0 && no !in dirs && no !in home
  {
  }

  lemma SameKeys(dirs: Dirs, p: u32, name: string, no: u32)
    requires p in dirs
    ensures WithFile(dirs, p, name, no).Keys == dirs.Keys
  {
    hide Insert;
  }

  /** A path that does not end in a slash has a name. */
  lemma {:induction false} HasName(path: string)
    requires path != "" && path[|path| - 1] != '/'
    ensures Paths.Split(path) != []
    decreases |path|
  {
    if path[0] == '/' {
      HasName(path[1..]);
      assert Paths.SkipSlashes(path) == Paths.SkipSlashes(path[1..]);
    }
  }

  lemma RootCannotGo(dirs: Dirs)
    ensures !CanRemove(dirs, 0)
  {
  }

  lemma NoFileIsRoot(dirs: Dirs, home: map<u32, u32>, depth: map<u32, nat>)
    requires GoodTree(dirs, home, depth)
    ensures 0 !in home
  {
    Apart(dirs, home, depth);
  }

  lemma RemovableIsEmpty(dirs: Dirs, home: map<u32, u32>, depth: map<u32, nat>, d: u32)
    requires GoodTree(dirs, home, depth) && d in dirs && d != 0
    ensures CanRemove(dirs, d) <==> forall s | 2 <= s < |dirs[d]| :: !IsLive(dirs[d][s])
  {
    SizedAt(dirs, home, depth, d);
  }

  lemma EmptyIsRemovable(dirs: Dirs, home: map<u32, u32>, depth: map<u32, nat>, d: u32)
    requires GoodTree(dirs, home, depth) && d in dirs && d != 0
    ensures CanRemove(dirs, d) <==> Count(dirs[d]) == 2
  {
    LinksAt(dirs, home, depth, d);
    EmptyIsExact(dirs[d], d);
  }

  /** strrchr(pathname, '/') + 1, for a path that does not end in a slash. */
  lemma LastOfPath(path: string, k: nat)
    requires k + 1 < |path| && path[k] == '/' && forall j | k < j < |path| :: path[j] != '/'
    ensures path[k + 1..] == LastName(path)
  {
    var c := path[k + 1..];
    assert path == path[..k] + "/" + c;
    Paths.SplitAt(path[..k], c);
    assert c + "" == c && '/' !in c;
    Paths.SplitName(c, "");
    Paths.SplitEmpty();
    assert Paths.Split(path) == Paths.Split(path[..k]) + [c];
  }

  /** The directory that a search came from is the parent of the one it found, unless the last name is "."; then it is the
      directory itself. That holds for an empty directory; a path to it cannot end in "..". */
  lemma ParentIsUp(dirs: Dirs, home: map<u32, u32>, depth: map<u32, nat>, path: string)
    requires GoodTree(dirs, home, depth) && GoodPath(path) && Lookup(dirs, path).Directory?
    ensures var w := Lookup(dirs, path);
            && w.parent in dirs && (w.ino in dirs ==> |dirs[w.ino]| == PLACES)
            && (CanRemove(dirs, w.ino) ==> w.parent == if LastName(path) == "." then w.ino else Up(dirs, w.ino))
  {
    hide GoodTree, Find, Paths.Split, GoodPath, Walk, PathTo, CanRemove, Up;
    var cs := Paths.Split(path);
    NamesOf(path);
    RootPath(dirs, home, depth);
    WalkNone(dirs);
    RootCannotGo(dirs);
    if cs == [] {
      SizedAt(dirs, home, depth, 0);
    } else {
      var init, c := cs[..|cs| - 1], cs[|cs| - 1];
      assert cs == init + [c];
      assert c in cs && forall x | x in init :: x in cs;
      WalkConcat(dirs, 0, 0, init, [c], []);
      var v := Walk(dirs, 0, 0, init, []);
      WalkStops(dirs, home, depth, 0, 0, init, []);
      LastStep(dirs, home, depth, v.ino, v.parent, c, [] + init);
    }
  }

  lemma WalkNone(dirs: Dirs)
    ensures Walk(dirs, 0, 0, [], []) == Directory(0, 0)
  {
  }

  lemma LastStep(dirs: Dirs, home: map<u32, u32>, depth: map<u32, nat>, q: u32, up: u32, c: string, done: seq<string>)
    requires GoodTree(dirs, home, depth) && q in dirs && c != "" && Walk(dirs, q, up, [c], done).Directory?
    ensures var w := Walk(dirs, q, up, [c], done);
            w.parent == q && w.ino in dirs && |dirs[w.ino]| == PLACES && (CanRemove(dirs, w.ino) ==> q == if c == "." then w.ino else Up(dirs, w.ino))
  {
    hide GoodTree, Find;
    AtDir(dirs, home, depth, q);
    WalkStep(dirs, q, up, [c], done);
    assert [c][1..] == [];
    StepDown(dirs, home, depth, q, c);
    var d := Find(dirs[q], c).value.ino;
    assert Walk(dirs, q, up, [c], done) == Directory(d, q);
    if CanRemove(dirs, d) {
      NotTheParent(dirs, home, depth, q, d);
    }
  }

  lemma SizedAt(dirs: Dirs, home: map<u32, u32>, depth: map<u32, nat>, d: u32)
    requires GoodTree(dirs, home, depth) && d in dirs
    ensures |dirs[d]| == PLACES
  {
  }

  /** The last name of a path. */
  function LastName(path: string): string {
    var cs := Paths.Split(path);
    if cs == [] then "" else cs[|cs| - 1]
  }

  /** A search missed the last name of the path only, and the directory it should be in has a place for it. */
  predicate CanMakeAt(w: Found, path: string, dirs: Dirs) {
    w.Missing? && |w.searched| == |Paths.Split(path)| && w.parent in dirs && FreePlace(dirs[w.parent]) < PLACES
  }

  /** The search misses the last name only exactly when the names before it lead to a directory that has no such entry;
      the directory it was missed in is that one. */
  lemma WhereToMake(dirs: Dirs, home: map<u32, u32>, depth: map<u32, nat>, path: string)
    requires GoodTree(dirs, home, depth) && GoodPath(path)
    ensures Paths.Split(path) == [] ==> !CanMakeAt(Lookup(dirs, path), path, dirs)
    ensures var cs := Paths.Split(path);
            cs != [] ==>
              var d := Walk(dirs, 0, 0, cs[..|cs| - 1], []);
              && (d.Directory? ==> d.ino in dirs)
              && (CanMakeAt(Lookup(dirs, path), path, dirs) <==>
                    d.Directory? && Find(dirs[d.ino], cs[|cs| - 1]) == None && FreePlace(dirs[d.ino]) < PLACES)
              && (CanMakeAt(Lookup(dirs, path), path, dirs) ==>
                    Lookup(dirs, path) == Missing(d.ino, cs) && LastName(path) == cs[|cs| - 1])
  {
    hide GoodTree, GoodPath, Find, FreePlace, PathTo, Paths.Split, Walk;
    var cs, w := Paths.Split(path), Lookup(dirs, path);
    NamesOf(path);
    RootPath(dirs, home, depth);
    WalkNone(dirs);
    if cs != [] {
      var init, c := cs[..|cs| - 1], cs[|cs| - 1];
      assert cs == init + [c] && c in cs && forall x | x in init :: x in cs;
      WalkStops(dirs, home, depth, 0, 0, cs, []);
      WalkStops(dirs, home, depth, 0, 0, init, []);
      WalkConcat(dirs, 0, 0, init, [c], []);
      var d := Walk(dirs, 0, 0, init, []);
      if d.Directory? {
        assert [] + init == init && [c][1..] == [];
        WalkStep(dirs, d.ino, d.parent, [c], init);
        WalkNothing(dirs, d.ino, init + [c]);
      }
    }
  }

  /** No name leads nowhere else. */
  lemma WalkNothing(dirs: Dirs, up: u32, done: seq<string>)
    ensures forall d: u32 :: Walk(dirs, d, up, [], done) == Directory(d, up)
  {
  }

  lemma LastIsLast(path: string, names: seq<string>)
    requires names != [] && names <= Paths.Split(path)
    ensures |names| == |Paths.Split(path)| ==> LastName(path) == names[|names| - 1]
  {
    hide Paths.Split;
  }

  lemma JoinHasSlash(names: seq<string>)
    requires names != []
    ensures '/' in Paths.Join(names)
  {
    var s := Paths.Join(names);
    assert s[|Paths.Join(names[..|names| - 1])|] == '/';
  }

  lemma PathBasics(path: string)
    requires GoodPath(path)
    ensures path != "" && path[0] == '/' && Paths.Fits(path) && (Paths.Split(path) == [] ==> path == "/")
  {
    hide Paths.Split, Paths.Fits;
  }

  // ---------------------------------------------------------------- what one finds afterwards

  /** Every name that was found is found still. */
  ghost predicate Extends(dirs: Dirs, dirs1: Dirs) {
    forall d | d in dirs :: d in dirs1 && forall name: string | name != "" && Find(dirs[d], name).Some? :: Find(dirs1[d], name) == Find(dirs[d], name)
  }

  lemma {:induction false} WalkKept(dirs: Dirs, home: map<u32, u32>, depth: map<u32, nat>, dirs1: Dirs, d: u32, up: u32, cs: seq<string>, done: seq<string>)
    requires GoodTree(dirs, home, depth) && d in dirs && Extends(dirs, dirs1) && "" !in cs && !Walk(dirs, d, up, cs, done).Missing?
    ensures Walk(dirs1, d, up, cs, done) == Walk(dirs, d, up, cs, done)
    decreases |cs|
  {
    hide GoodTree, Find;
    if cs != [] {
      var c := cs[0];
      assert cs == [c] + cs[1..] && c in cs;
      if Find(dirs[d], c).value.kind == FT_DIRECTORY {
        StepDown(dirs, home, depth, d, c);
        WalkKept(dirs, home, depth, dirs1, Find(dirs[d], c).value.ino, d, cs[1..], done + [c]);
      }
    }
  }

  /** An entry that was made is found under its path, and leads to its inode. */
  lemma MadeIsFound(dirs: Dirs, home: map<u32, u32>, depth: map<u32, nat>, path: string, no: u32)
    requires GoodTree(dirs, home, depth) && GoodPath(path) && CanMakeAt(Lookup(dirs, path), path, dirs)
    requires no != 0 && no !in dirs && no !in home
    ensures var p := Lookup(dirs, path).parent;
            && Lookup(WithDir(dirs, p, LastName(path), no), path) == Directory(no, p)
            && Lookup(WithFile(dirs, p, LastName(path), no), path) == File(no, p, Paths.Split(path))
  {
    hide GoodTree, GoodPath, Find, GoodName, GoodDir, Paths.Split, Walk, Insert, PathTo;
    var cs, w := Paths.Split(path), Lookup(dirs, path);
    NamesOf(path);
    RootPath(dirs, home, depth);
    MissedName(dirs, home, depth, path);
    LastIsLast(path, w.searched);
    assert w.searched == cs;
    WalkStops(dirs, home, depth, 0, 0, cs, []);
    var init, c, p := cs[..|cs| - 1], cs[|cs| - 1], w.parent;
    assert cs == init + [c];
    assert c in cs && forall x | x in init :: x in cs;
    var v := Walk(dirs, 0, 0, init, []);
    MadeStep(dirs, home, depth, p, v.parent, c, no, FT_DIRECTORY, init, WithDir(dirs, p, c, no));
    MadeStep(dirs, home, depth, p, v.parent, c, no, FT_REGULAR, init, WithFile(dirs, p, c, no));
    assert [] + init + [c] == cs;
  }

  lemma MadeStep(dirs: Dirs, home: map<u32, u32>, depth: map<u32, nat>, p: u32, up: u32, c: string, no: u32, kind: u32,
                 init: seq<string>, dirs1: Dirs)
    requires GoodTree(dirs, home, depth) && CanMake(dirs, home, p, c, no) && (kind == FT_REGULAR || kind == FT_DIRECTORY)
    requires Walk(dirs, 0, 0, init, []) == Directory(p, up) && "" !in init && 0 in dirs && c != ""
    requires p in dirs1 && dirs1[p] == Insert(dirs[p], Entry(c, no, kind)) && forall d | d in dirs && d != p :: d in dirs1 && dirs1[d] == dirs[d]
    ensures Walk(dirs1, 0, 0, init + [c], []) == if kind == FT_DIRECTORY then Directory(no, p) else File(no, p, [] + init + [c])
  {
    hide GoodTree, GoodDir, Find, Insert, CanAdd;
    InsertExtends(dirs, home, depth, p, c, no, kind, dirs1);
    WalkKept(dirs, home, depth, dirs1, 0, 0, init, []);
    WalkConcat(dirs1, 0, 0, init, [c], []);
    WalkStep(dirs1, p, up, [c], [] + init);
    assert [c][1..] == [];
  }

  lemma MadeIsThere(dirs: Dirs, home: map<u32, u32>, depth: map<u32, nat>, path: string, no: Option<u32>)
    requires GoodTree(dirs, home, depth) && GoodPath(path)
    requires no.Some? ==> no.value != 0 && no.value !in dirs && no.value !in home
    ensures CanMakeAt(Lookup(dirs, path), path, dirs) && no.Some? ==>
              var p := Lookup(dirs, path).parent;
              && Lookup(WithDir(dirs, p, LastName(path), no.value), path) == Directory(no.value, p)
              && Lookup(WithFile(dirs, p, LastName(path), no.value), path) == File(no.value, p, Paths.Split(path))
  {
    hide GoodTree, GoodPath, Walk, Paths.Split, WithDir, WithFile, LastName;
    if CanMakeAt(Lookup(dirs, path), path, dirs) && no.Some? {
      MadeIsFound(dirs, home, depth, path, no.value);
    }
  }

  lemma InsertExtends(dirs: Dirs, home: map<u32, u32>, depth: map<u32, nat>, p: u32, c: string, no: u32, kind: u32, dirs1: Dirs)
    requires GoodTree(dirs, home, depth) && CanMake(dirs, home, p, c, no) && (kind == FT_REGULAR || kind == FT_DIRECTORY)
    requires p in dirs1 && dirs1[p] == Insert(dirs[p], Entry(c, no, kind)) && forall d | d in dirs && d != p :: d in dirs1 && dirs1[d] == dirs[d]
    ensures Extends(dirs, dirs1) && Find(dirs1[p], c) == Some(Entry(c, no, kind))
  {
    hide GoodTree, GoodDir, Find, Insert, CanAdd;
    var e := Entry(c, no, kind);
    CanMakeAdds(dirs, home, depth, p, c, no, kind);
    assert c != "" by { NameNotEmpty(c); }
    forall name: string | name != "" ensures Find(dirs1[p], name) == if name == c then Some(e) else Find(dirs[p], name) {
      FindInsert(dirs[p], p, e, name);
    }
  }

  /** Making something takes nothing away: whatever a path led to, directory or file, it leads to still. */
  lemma MadeKeepsPaths(dirs: Dirs, home: map<u32, u32>, depth: map<u32, nat>, p: u32, name: string, no: u32, path: string)
    requires GoodTree(dirs, home, depth) && CanMake(dirs, home, p, name, no) && !Lookup(dirs, path).Missing?
    ensures Lookup(WithDir(dirs, p, name, no), path) == Lookup(WithFile(dirs, p, name, no), path) == Lookup(dirs, path)
  {
    hide GoodTree, Find, Insert, Paths.Split, Walk;
    NamesOf(path);
    RootPath(dirs, home, depth);
    InsertExtends(dirs, home, depth, p, name, no, FT_DIRECTORY, WithDir(dirs, p, name, no));
    InsertExtends(dirs, home, depth, p, name, no, FT_REGULAR, WithFile(dirs, p, name, no));
    WalkKept(dirs, home, depth, WithDir(dirs, p, name, no), 0, 0, Paths.Split(path), []);
    WalkKept(dirs, home, depth, WithFile(dirs, p, name, no), 0, 0, Paths.Split(path), []);
  }

  // ---------------------------------------------------------------- "/a/." and the current directory

  lemma OneMoreName(path: string, c: string)
    requires Paths.IsName(c)
    ensures Paths.Split(path + "/" + c) == Paths.Split(path) + [c]
  {
    hide Paths.Split;
    Paths.SplitAt(path, c);
    assert c + "" == c;
    Paths.SplitName(c, "");
    Paths.SplitEmpty();
  }

  lemma NamesToA()
    ensures Paths.Split("/a") == ["a"] && Paths.Split("/a/.") == ["a", "."]
  {
    hide Paths.Split;
    Paths.SplitEmpty();
    OneMoreName("", "a");
    OneMoreName("/a", ".");
    assert "" + "/" + "a" == "/a" && "/a" + "/" + "." == "/a/.";
    assert [] + ["a"] == ["a"] && ["a"] + ["."] == ["a", "."];
  }

  lemma PathsToA()
    ensures GoodPath("/a") && GoodPath("/a/.") && Paths.Split("/a") == ["a"] && Paths.Split("/a/.") == ["a", "."]
  {
    hide Paths.Split;
    NamesToA();
  }

  /** A first directory, found as "/a" and as "/a/.", and empty. */
  lemma DirectoryA(dirs: Dirs, home: map<u32, u32>, depth: map<u32, nat>)
    requires GoodTree(dirs, home, depth) && dirs == map[0 := NewDir(0, 0)] && home == map[]
    ensures CanMakeAt(Lookup(dirs, "/a"), "/a", dirs) && Lookup(dirs, "/a").parent == 0 && LastName("/a") == "a" && LastName("/a/.") == "."
    ensures var dirs1 := WithDir(dirs, 0, "a", 1);
            Lookup(dirs1, "/a") == Directory(1, 0) && Lookup(dirs1, "/a/.") == Directory(1, 1) && CanRemove(dirs1, 1)
  {
    hide GoodTree, GoodPath, GoodName, Paths.Split, Walk, WithDir, WithFile, NewDir, CanRemove, FreePlace, Find;
    PathsToA();
    Paths.SplitEmpty();
    RootWalk(dirs);
    GoodLetters();
    assert [] + ["a"] == ["a"];
    FirstEntry(dirs, home, depth, "", "/a", "a", 0, 0, 1);
    NewInside(dirs, 0, "a", 1);
    DotLeadsBack(WithDir(dirs, 0, "a", 1), 1, 0);
  }

  /** In a new directory "." leads to itself, and there is nothing else in it. */
  lemma DotLeadsBack(dirs: Dirs, d: u32, up: u32)
    requires d != 0 && d in dirs && dirs[d] == NewDir(d, up) && Lookup(dirs, "/a") == Directory(d, up)
    ensures Lookup(dirs, "/a/.") == Directory(d, d) && CanRemove(dirs, d)
  {
    hide Paths.Split, Find;
    NamesToA();
    NewDirIsGood(d, up);
    FindDots(dirs[d], d);
    WalkConcat(dirs, 0, 0, ["a"], ["."], []);
    assert ["a"] + ["."] == ["a", "."] && [] + ["a"] == ["a"] && ["."][1..] == [];
    WalkStep(dirs, d, up, ["."], ["a"]);
  }

  /** mkdir of "/a", then rmdir of "/a/.": both succeed, and what is left is no tree. */
  method RmdirOfDot() returns (t: FileTree, made: Result, gone: Result)
    ensures made == Ok && gone == Ok && !IsTree(t.dirs)
  {
    hide GoodTree, Walk, Find, GoodPath, Paths.Split, IsTree, WithDir, CanRemove, CanMakeAt, LastName;
    t := new FileTree();
    PathsToA();
    DirectoryA(t.dirs, t.home, t.depth);
    made := t.Mkdir("/a", Some(1), true);
    gone := t.Rmdir("/a/.");
  }

  /** mkdir of "/a", chdir to it, then rmdir of it: all succeed, and the current directory is not there any more. */
  method RmdirOfCwd() returns (t: FileTree, made: Result, there: Result, gone: Result)
    ensures made == Ok && there == Ok && gone == Ok && t.Valid() && t.cwd !in t.dirs
  {
    hide GoodTree, Walk, Find, GoodPath, Paths.Split, IsTree, WithDir, CanRemove, CanMakeAt, LastName;
    t := new FileTree();
    PathsToA();
    DirectoryA(t.dirs, t.home, t.depth);
    made := t.Mkdir("/a", Some(1), true);
    there := t.Chdir("/a");
    gone := t.Rmdir("/a");
  }

  // ---------------------------------------------------------------- below the root

  lemma NamesBelowA()
    ensures Paths.Split("/a/b") == ["a", "b"] && Paths.Split("/a/b/f") == ["a", "b", "f"]
  {
    hide Paths.Split;
    NamesToA();
    OneMoreName("/a", "b");
    OneMoreName("/a/b", "f");
    assert "/a" + "/" + "b" == "/a/b" && "/a/b" + "/" + "f" == "/a/b/f";
    assert ["a"] + ["b"] == ["a", "b"] && ["a", "b"] + ["f"] == ["a", "b", "f"];
  }

  lemma PathsBelowA()
    ensures GoodPath("/a/b") && GoodPath("/a/b/f") && Paths.Split("/a/b") == ["a", "b"] && Paths.Split("/a/b/f") == ["a", "b", "f"]
  {
    hide Paths.Split;
    NamesBelowA();
  }

  lemma NewDirHasRoom(no: u32, parent: u32, name: string)
    requires GoodName(name)
    ensures Find(NewDir(no, parent), name) == None && FreePlace(NewDir(no, parent)) < PLACES
  {
    assert NewDir(no, parent)[2] == NO_ENTRY && FreePlace(NewDir(no, parent)) <= 2;
    NewDirIsGood(no, parent);
    var e := Find(NewDir(no, parent), name);
    if e.Some? {
      NameNotEmpty(name);
      FindIsExact(NewDir(no, parent), no, name, e.value);
      assert false;
    }
  }

  lemma GoodLetters()
    ensures GoodName("a") && GoodName("b") && GoodName("f") && |"/a/b"| < MAX_PATH && |"/a/b/f"| < MAX_PATH && "/a/b/f"[|"/a/b/f"| - 1] != '/'
  {
  }

  /** A directory that is new has room for a first entry under each path that leads through it. */
  lemma FirstEntry(dirs: Dirs, home: map<u32, u32>, depth: map<u32, nat>, above: string, path: string, c: string, d: u32, up: u32, no: u32)
    requires GoodTree(dirs, home, depth) && GoodPath(path) && GoodName(c) && Paths.Split(path) == Paths.Split(above) + [c]
    requires Lookup(dirs, above) == Directory(d, up) && d in dirs && dirs[d] == NewDir(d, up)
    requires no != 0 && no !in dirs && no !in home
    ensures CanMakeAt(Lookup(dirs, path), path, dirs) && Lookup(dirs, path).parent == d && LastName(path) == c
    ensures Lookup(WithDir(dirs, d, c, no), path) == Directory(no, d)
    ensures Lookup(WithFile(dirs, d, c, no), path) == File(no, d, Paths.Split(path))
  {
    hide GoodTree, GoodPath, GoodName, Paths.Split, Walk, Find, FreePlace, NewDir, Insert, WithDir, WithFile;
    var cs := Paths.Split(path);
    assert cs[..|cs| - 1] == Paths.Split(above) && cs[|cs| - 1] == c;
    NewDirHasRoom(d, up, c);
    WhereToMake(dirs, home, depth, path);
    MadeIsFound(dirs, home, depth, path, no);
  }

  lemma NewInside(dirs: Dirs, p: u32, name: string, no: u32)
    requires p in dirs && p != no
    ensures var dirs1 := WithDir(dirs, p, name, no); no in dirs1 && dirs1[no] == NewDir(no, p) && dirs1.Keys == dirs.Keys + {no}
  {
    hide Insert, NewDir;
  }

  /** mkdir of "/a" and of "/a/b", then a new file "/a/b/f": each is made where its path says. */
  method MakeBelow() returns (t: FileTree, a: Result, b: Result, f: Result)
    ensures a == b == f == Ok && t.Valid()
    ensures Lookup(t.dirs, "/a/b/f") == File(3, 2, ["a", "b", "f"])
  {
    hide GoodTree, Walk, Find, GoodPath, Paths.Split, WithDir, WithFile, CanRemove, CanMakeAt, LastName, NewDir, GoodName, FreePlace, AllShort;
    t := new FileTree();
    PathsToA();
    PathsBelowA();
    GoodLetters();
    DirectoryA(t.dirs, t.home, t.depth);
    NewInside(t.dirs, 0, "a", 1);
    a := t.Mkdir("/a", Some(1), true);
    assert ["a", "b"] == ["a"] + ["b"] && ["a", "b", "f"] == ["a", "b"] + ["f"];
    FirstEntry(t.dirs, t.home, t.depth, "/a", "/a/b", "b", 1, 0, 2);
    NewInside(t.dirs, 1, "b", 2);
    b := t.Mkdir("/a/b", Some(2), true);
    FirstEntry(t.dirs, t.home, t.depth, "/a/b", "/a/b/f", "f", 2, 1, 3);
    f := t.Create("/a/b/f", Some(3), true);
  }
}
