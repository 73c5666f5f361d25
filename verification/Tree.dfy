/** The directory tree of fs/fs.c: walking a path, and finding the path of a directory again. */
module Tree {
  import opened Disks
  import opened DirEntries
  import opened Directory
  import opened Wrappers
  import Paths

  /** Directories by inode number, each as its list of places. */
  type Dirs = map<u32, seq<Entry>>

  /** The parent that the ".." of a directory names. */
  function Up(dirs: Dirs, d: u32): u32
    requires d in dirs && |dirs[d]| == PLACES
  {
    dirs[d][1].ino
  }

  predicate GoodName(name: string) {
    IsName(name) && Paths.IsName(name) && !IsDots(name)
  }

  /** An entry of directory d leads to a directory whose parent is d, or to a file whose home is d. */
  ghost predicate GoodLink(dirs: Dirs, home: map<u32, u32>, d: u32, e: Entry)
    requires forall c | c in dirs :: |dirs[c]| == PLACES
  {
    && GoodName(e.name) && e.ino != 0
    && (e.kind == FT_DIRECTORY ==> e.ino in dirs && Up(dirs, e.ino) == d)
    && (e.kind != FT_DIRECTORY ==> e.ino in home && home[e.ino] == d)
  }

  ghost predicate GoodLinks(dirs: Dirs, home: map<u32, u32>, d: u32)
    requires d in dirs && forall c | c in dirs :: |dirs[c]| == PLACES
  {
    forall s | 2 <= s < PLACES && IsLive(dirs[d][s]) :: GoodLink(dirs, home, d, dirs[d][s])
  }

  /** Every directory but the root has its entry in its parent, one level up. */
  ghost predicate GoodUp(dirs: Dirs, depth: map<u32, nat>, d: u32)
    requires d in dirs && forall c | c in dirs :: |dirs[c]| == PLACES
  {
    && d in depth
    && if d == 0 then Up(dirs, d) == 0 && depth[d] == 0
       else var p := Up(dirs, d);
            && p in dirs && p in depth && depth[d] == depth[p] + 1
            && LinkPlace(dirs[p], d) < PLACES && dirs[p][LinkPlace(dirs[p], d)].kind == FT_DIRECTORY
  }

  /** The directories form a tree with root 0. `home` says which directory a file is in, and `depth` how far down a
      directory is. */
  ghost predicate GoodTree(dirs: Dirs, home: map<u32, u32>, depth: map<u32, nat>) {
    && 0 in dirs && dirs.Keys !! home.Keys
    && (forall d | d in dirs :: GoodDir(dirs[d], d))
    && (forall d | d in dirs :: GoodLinks(dirs, home, d))
    && (forall d | d in dirs :: GoodUp(dirs, depth, d))
  }

  lemma AtDir(dirs: Dirs, home: map<u32, u32>, depth: map<u32, nat>, d: u32)
    requires GoodTree(dirs, home, depth) && d in dirs
    ensures (forall c | c in dirs :: |dirs[c]| == PLACES) && GoodDir(dirs[d], d) && GoodUp(dirs, depth, d) && Up(dirs, d) in dirs
  {
  }

  // ---------------------------------------------------------------- walking down

  datatype Found =
    | Missing(parent: u32, searched: seq<string>)
    | File(ino: u32, parent: u32, searched: seq<string>)
    | Directory(ino: u32, parent: u32)

  /** Where the names cs lead from directory d, in which one gets from `up` by the names in `done`. */
  function Walk(dirs: Dirs, d: u32, up: u32, cs: seq<string>, done: seq<string>): Found
    decreases |cs|
  {
    if cs == [] then Directory(d, up)
    else if d !in dirs then Missing(d, done + [cs[0]])
    else match Find(dirs[d], cs[0])
      case None => Missing(d, done + [cs[0]])
      case Some(e) =>
        if e.kind == FT_DIRECTORY then Walk(dirs, e.ino, d, cs[1..], done + [cs[0]])
        else File(e.ino, d, done + [cs[0]])
  }

  /** What search_file is for: a walk from the root. */
  function Lookup(dirs: Dirs, path: string): Found {
    Walk(dirs, 0, 0, Paths.Split(path), [])
  }

  lemma {:induction false} WalkConcat(dirs: Dirs, d: u32, up: u32, cs: seq<string>, ds: seq<string>, done: seq<string>)
    ensures var w := Walk(dirs, d, up, cs, done);
            Walk(dirs, d, up, cs + ds, done) ==
            if w.Directory? then Walk(dirs, w.ino, w.parent, ds, done + cs) else w
    decreases |cs|
  {
    if cs == [] {
      assert cs + ds == ds && done + cs == done;
    } else {
      assert (cs + ds)[1..] == cs[1..] + ds && (cs + ds)[0] == cs[0];
      if d in dirs && Find(dirs[d], cs[0]).Some? && Find(dirs[d], cs[0]).value.kind == FT_DIRECTORY {
        WalkConcat(dirs, Find(dirs[d], cs[0]).value.ino, d, cs[1..], ds, done + [cs[0]]);
        assert done + [cs[0]] + cs[1..] == done + cs;
      }
    }
  }

  // ---------------------------------------------------------------- finding the way back

  /** The name under which directory d is in directory p: what get_child_dir_name adds to the path. */
  function NameIn(es: seq<Entry>, ino: u32): string {
    var s := LinkPlace(es, ino);
    if s < |es| then es[s].name else ""
  }

  /** The names on the way from the root to directory d. */
  ghost function PathTo(dirs: Dirs, home: map<u32, u32>, depth: map<u32, nat>, d: u32): (cs: seq<string>)
    requires GoodTree(dirs, home, depth) && d in dirs
    decreases depth[d]
  {
    AtDir(dirs, home, depth, d);
    if d == 0 then [] else PathTo(dirs, home, depth, Up(dirs, d)) + [NameIn(dirs[Up(dirs, d)], d)]
  }

  /** The entry of a directory in its parent. */
  lemma EntryInParent(dirs: Dirs, home: map<u32, u32>, depth: map<u32, nat>, d: u32)
    requires GoodTree(dirs, home, depth) && d in dirs && d != 0
    ensures var p := Up(dirs, d); var c := NameIn(dirs[p], d);
            p in dirs && GoodName(c) && Find(dirs[p], c) == Some(Entry(c, d, FT_DIRECTORY))
  {
    AtDir(dirs, home, depth, d);
    var p := Up(dirs, d);
    LinksAt(dirs, home, depth, p);
    hide GoodTree, Find, GoodUp, GoodDir, GoodLinks;
    EntryHere(dirs, home, depth, p, d);
  }

  lemma EntryHere(dirs: Dirs, home: map<u32, u32>, depth: map<u32, nat>, p: u32, d: u32)
    requires d in dirs && p in dirs && d != 0 && (forall c | c in dirs :: |dirs[c]| == PLACES) && Up(dirs, d) == p && GoodUp(dirs, depth, d)
    requires GoodDir(dirs[p], p) && GoodLinks(dirs, home, p)
    ensures var c := NameIn(dirs[p], d); GoodName(c) && Find(dirs[p], c) == Some(Entry(c, d, FT_DIRECTORY))
  {
    hide Find, GoodName;
    var s := LinkPlace(dirs[p], d);
    assert s >= 2;
    var e := dirs[p][s];
    assert GoodLink(dirs, home, p, e);
    assert e.name != "" by { NameNotEmpty(e.name); }
    FindIsExact(dirs[p], p, e.name, e);
  }

  lemma NameNotEmpty(name: string)
    requires GoodName(name)
    ensures name != ""
  {
  }

  lemma WalkOneMore(dirs: Dirs, cs: seq<string>, p: u32, up: u32, c: string, d: u32)
    requires Walk(dirs, 0, 0, cs, []) == Directory(p, up) && p in dirs && Find(dirs[p], c) == Some(Entry(c, d, FT_DIRECTORY))
    ensures Walk(dirs, 0, 0, cs + [c], []) == Directory(d, p)
  {
    hide Find;
    WalkConcat(dirs, 0, 0, cs, [c], []);
    assert [c][1..] == [];
    WalkStep(dirs, p, up, [c], [] + cs);
  }

  /** Walking the names on the way to a directory leads to it, with its parent as the directory before. */
  lemma {:induction false} PathLeadsBack(dirs: Dirs, home: map<u32, u32>, depth: map<u32, nat>, d: u32)
    requires GoodTree(dirs, home, depth) && d in dirs
    ensures Walk(dirs, 0, 0, PathTo(dirs, home, depth, d), []) == Directory(d, Up(dirs, d))
    ensures forall c | c in PathTo(dirs, home, depth, d) :: GoodName(c)
    decreases depth[d]
  {
    hide GoodTree, Walk, Find, GoodName;
    AtDir(dirs, home, depth, d);
    RootWalk(dirs);
    if d != 0 {
      var p := Up(dirs, d);
      AtDir(dirs, home, depth, p);
      PathLeadsBack(dirs, home, depth, p);
      EntryInParent(dirs, home, depth, d);
      WalkOneMore(dirs, PathTo(dirs, home, depth, p), p, Up(dirs, p), NameIn(dirs[p], d), d);
    }
  }

  lemma RootWalk(dirs: Dirs)
    ensures Walk(dirs, 0, 0, [], []) == Directory(0, 0)
  {
  }

  /** What one name leads to, if it is a directory. */
  lemma StepDown(dirs: Dirs, home: map<u32, u32>, depth: map<u32, nat>, d: u32, c: string)
    requires GoodTree(dirs, home, depth) && d in dirs && c != "" && Find(dirs[d], c).Some?
    requires Find(dirs[d], c).value.kind == FT_DIRECTORY
    ensures var e := Find(dirs[d], c).value;
            && e.ino in dirs
            && (c == "." ==> e.ino == d) && (c == ".." ==> e.ino == Up(dirs, d))
            && (!IsDots(c) ==> e.ino != 0 && Up(dirs, e.ino) == d && NameIn(dirs[d], e.ino) == c)
  {
    var es := dirs[d];
    LinksAt(dirs, home, depth, d);
    hide GoodTree, GoodDir, Find;
    if IsDots(c) {
      FindDots(es, d);
    } else {
      FindOther(es, d, c);
      assert GoodLink(dirs, home, d, es[PlaceOf(es, c)]);
    }
  }

  lemma LinksAt(dirs: Dirs, home: map<u32, u32>, depth: map<u32, nat>, d: u32)
    requires GoodTree(dirs, home, depth) && d in dirs
    ensures (forall c | c in dirs :: |dirs[c]| == PLACES) && GoodDir(dirs[d], d) && GoodLinks(dirs, home, d)
    ensures dirs[d][0] == Entry(".", d, FT_DIRECTORY) && Up(dirs, d) in dirs
  {
    assert GoodUp(dirs, depth, d);
  }

  /** The kernel follows "." and ".." through the directories, the shell folds them in the string; both come to the same
      directory. */
  lemma {:induction false} WalkFolds(dirs: Dirs, home: map<u32, u32>, depth: map<u32, nat>, d: u32, up: u32, cs: seq<string>, done: seq<string>)
    requires GoodTree(dirs, home, depth) && d in dirs && "" !in cs
    requires Walk(dirs, d, up, cs, done).Directory?
    ensures var w := Walk(dirs, d, up, cs, done);
            w.ino in dirs && PathTo(dirs, home, depth, w.ino) == Paths.ApplyAll(PathTo(dirs, home, depth, d), cs)
    decreases |cs|
  {
    hide GoodTree, PathTo, Find, Paths.Apply;
    if cs != [] {
      var c := cs[0];
      assert c in cs;
      StepDown(dirs, home, depth, d, c);
      var e := Find(dirs[d], c).value;
      AtDir(dirs, home, depth, d);
      FoldStep(dirs, home, depth, d, c, e.ino);
      assert cs == [c] + cs[1..];
      WalkFolds(dirs, home, depth, e.ino, d, cs[1..], done + [c]);
    }
  }

  lemma FoldStep(dirs: Dirs, home: map<u32, u32>, depth: map<u32, nat>, d: u32, c: string, e: u32)
    requires GoodTree(dirs, home, depth) && d in dirs && e in dirs && (forall x | x in dirs :: |dirs[x]| == PLACES)
    requires (c == "." ==> e == d) && (c == ".." ==> e == Up(dirs, d))
    requires !IsDots(c) ==> e != 0 && Up(dirs, e) == d && NameIn(dirs[d], e) == c
    ensures PathTo(dirs, home, depth, e) == Paths.Apply(PathTo(dirs, home, depth, d), c)
  {
    AtDir(dirs, home, depth, d);
    AtDir(dirs, home, depth, e);
    if c == ".." && d != 0 {
      var up := PathTo(dirs, home, depth, Up(dirs, d));
      assert (up + [NameIn(dirs[Up(dirs, d)], d)])[..|up|] == up;
    }
  }

  /** A path that leads to a directory leads there washed as well, by the names on the way to it. */
  lemma LookupWashed(dirs: Dirs, home: map<u32, u32>, depth: map<u32, nat>, path: string)
    requires GoodTree(dirs, home, depth) && Lookup(dirs, path).Directory?
    ensures var d := Lookup(dirs, path).ino;
            d in dirs && Paths.Washed(path) == Paths.Print(PathTo(dirs, home, depth, d))
            && Lookup(dirs, Paths.Washed(path)) == Directory(d, Up(dirs, d))
  {
    hide GoodTree, PathTo, Walk, Paths.Split, Paths.Print, Paths.ApplyAll;
    var cs := Paths.Split(path);
    NamesOf(path);
    RootPath(dirs, home, depth);
    WalkFolds(dirs, home, depth, 0, 0, cs, []);
    var d := Lookup(dirs, path).ino;
    PathLeadsBack(dirs, home, depth, d);
    PathNames(dirs, home, depth, d);
    Paths.SplitPrint(PathTo(dirs, home, depth, d));
  }

  lemma NamesOf(path: string)
    ensures forall c | c in Paths.Split(path) :: c != "" && Paths.IsName(c)
  {
    hide Paths.Split;
  }

  lemma RootPath(dirs: Dirs, home: map<u32, u32>, depth: map<u32, nat>)
    requires GoodTree(dirs, home, depth)
    ensures 0 in dirs && PathTo(dirs, home, depth, 0) == []
  {
  }

  lemma PathNames(dirs: Dirs, home: map<u32, u32>, depth: map<u32, nat>, d: u32)
    requires GoodTree(dirs, home, depth) && d in dirs
    ensures forall c | c in PathTo(dirs, home, depth, d) :: Paths.IsName(c)
  {
    PathLeadsBack(dirs, home, depth, d);
    hide GoodTree, PathTo;
  }

  // ---------------------------------------------------------------- the source's walks

  /** MAX_PATH_LEN */
  const MAX_PATH: nat := 512

  /** What search_file returns besides the inode number. Unset is for a path of slashes only, for which it returns what
      happened to be in an entry that was never filled in; Crashed for a path that fails its assertion on the length. */
  datatype Record = Record(parent: u32, kind: u32, searched: string)

  datatype Searched = Crashed | Unset | NotFound(at: Record) | Got(ino: u32, at: Record)

  /** The search record that a walk stands for. */
  function RecordOf(w: Found): Searched {
    match w
    case Missing(p, names) => NotFound(Record(p, FT_UNKNOWN, Paths.Join(names)))
    case File(i, p, names) => Got(i, Record(p, FT_REGULAR, Paths.Join(names)))
    case Directory(i, p) => Got(i, Record(p, FT_DIRECTORY, ""))
  }

  predicate IsRootPath(path: string) {
    path == "/" || path == "/." || path == "/.."
  }

  /** Whether the search that the source made is the one a walk stands for; of a directory the searched path is not used. */
  predicate Matches(r: Searched, w: Found) {
    match w
    case Directory(i, p) => r.Got? && r.ino == i && r.at.parent == p && r.at.kind == FT_DIRECTORY
    case _ => r == RecordOf(w)
  }

  lemma {:induction false} WalkStep(dirs: Dirs, d: u32, up: u32, cs: seq<string>, done: seq<string>)
    requires cs != [] && d in dirs
    ensures Walk(dirs, d, up, cs, done) ==
            match Find(dirs[d], cs[0])
            case None => Missing(d, done + [cs[0]])
            case Some(e) => if e.kind == FT_DIRECTORY then Walk(dirs, e.ino, d, cs[1..], done + [cs[0]]) else File(e.ino, d, done + [cs[0]])
  {
  }

  lemma JoinMore(names: seq<string>, c: string)
    ensures Paths.Join(names + [c]) == Paths.Join(names) + "/" + c
  {
    assert (names + [c])[..|names|] == names;
  }

  lemma SizesOf(done: seq<string>, c: string, left: seq<string>)
    ensures |Paths.Join(done + [c])| == |Paths.Join(done)| + 1 + |c| && Paths.Size([c] + left) == 1 + |c| + Paths.Size(left)
  {
    JoinMore(done, c);
    Paths.SizeCons(c, left);
  }

  /** search_file. The assertion on the searched path holds: it is never longer than the path. */
  method SearchFile(dirs: Dirs, path: string, ghost home: map<u32, u32>, ghost depth: map<u32, nat>) returns (r: Searched)
    requires GoodTree(dirs, home, depth) && path != "" && path[0] == '/' && Paths.Fits(path)
    ensures r == Crashed <==> |path| >= MAX_PATH
    ensures |path| < MAX_PATH ==> if Paths.Split(path) == [] && path != "/" then r == Unset else Matches(r, Lookup(dirs, path))
  {
    hide GoodTree, Find, Paths.Split, Paths.Join, Paths.Fits, PathTo, Paths.Size;
    RootPath(dirs, home, depth);
    LinksAt(dirs, home, depth, 0);
    if IsRootPath(path) {
      RootPaths(dirs, home, depth, path);
      return Got(0, Record(0, FT_DIRECTORY, ""));
    }
    if |path| >= MAX_PATH {
      return Crashed;
    }
    Paths.SizeOfSplit(path);
    var parent: u32, parentNo: u32, searched := 0, 0, "";
    var last: Option<u32> := None;
    var name, next := Paths.PathParse(path, 0);
    assert path[0..] == path;
    NamesOf(path);
    ghost var left, done := Paths.Split(path), [];
    assert left != [] ==> left[0] in left;
    JoinNone();
    while name != ""
      invariant -1 <= next < |path| && parent in dirs
      invariant if left == [] then name == "" else name == left[0] != "" && Paths.Split(Paths.Rest(path, next)) == left[1..]
      invariant "" !in left
      invariant searched == Paths.Join(done) && |searched| + Paths.Size(left) <= |path|
      invariant Lookup(dirs, path) == Walk(dirs, parent, parentNo, left, done)
      invariant last == if left == Paths.Split(path) then None else Some(parent)
      invariant |left| <= |Paths.Split(path)|
      decreases |left|
    {
      assert |searched| < MAX_PATH;
      assert left == [left[0]] + left[1..];
      SizesOf(done, name, left[1..]);
      searched := searched + "/" + name;
      JoinMore(done, name);
      WalkStep(dirs, parent, parentNo, left, done);
      var found := Find(dirs[parent], name);
      if found == None {
        return NotFound(Record(parent, FT_UNKNOWN, searched));
      }
      done := done + [name];
      left := left[1..];
      var e := found.value;
      if e.kind == FT_DIRECTORY {
        StepDown(dirs, home, depth, parent, name);
      }
      name := "";
      if next != -1 {
        name, next := Paths.PathParse(path, next);
      } else {
        Paths.SplitEmpty();
      }
      assert left != [] ==> left[0] in left;
      if e.kind == FT_DIRECTORY {
        parentNo := parent;
        parent := e.ino;
        last := Some(e.ino);
      } else {
        return Got(e.ino, Record(parent, FT_REGULAR, searched));
      }
    }
    if last == None {
      return Unset;
    }
    return Got(last.value, Record(parentNo, FT_DIRECTORY, searched));
  }

  lemma JoinNone()
    ensures Paths.Join([]) == ""
  {
  }

  lemma RootPaths(dirs: Dirs, home: map<u32, u32>, depth: map<u32, nat>, path: string)
    requires GoodTree(dirs, home, depth) && IsRootPath(path)
    ensures Lookup(dirs, path) == Directory(0, 0) && (Paths.Split(path) == [] ==> path == "/")
  {
    LinksAt(dirs, home, depth, 0);
    AtDir(dirs, home, depth, 0);
    FindDots(dirs[0], 0);
    SplitRoots();
    hide GoodTree, Find, Paths.Split;
    if path != "/" {
      var cs := Paths.Split(path);
      WalkStep(dirs, 0, 0, cs, []);
    }
  }

  lemma SplitRoots()
    ensures Paths.Split("/") == [] && Paths.Split("/.") == ["."] && Paths.Split("/..") == [".."]
  {
    assert "" + "/" + "" == "/" && "" + "/" + "." == "/." && "" + "/" + ".." == "/..";
    Paths.SplitAt("", "");
    Paths.SplitAt("", ".");
    Paths.SplitAt("", "..");
    assert "." + "" == "." && ".." + "" == "..";
    Paths.SplitName(".", "");
    Paths.SplitName("..", "");
  }

  /** The place where get_child_dir_name stops: it compares inode numbers only, free places included. */
  function InoPlace(es: seq<Entry>, ino: u32): (s: nat)
    ensures s <= |es| && (s < |es| ==> es[s].ino == ino) && forall t | 0 <= t < s :: es[t].ino != ino
  {
    if es == [] || es[0].ino == ino then 0 else 1 + InoPlace(es[1..], ino)
  }

  /** That is the right place when the dots lead to other directories, as free places have number 0. */
  lemma InoIsLinkIn(es: seq<Entry>, self: u32, d: u32)
    requires GoodDir(es, self) && d != 0 && d != self && es[1].ino != d && LinkPlace(es, d) < PLACES
    ensures InoPlace(es, d) == LinkPlace(es, d)
  {
    var s, t := InoPlace(es, d), LinkPlace(es, d);
    assert s <= t;
    assert s >= 2;
    assert IsLive(es[s]);
    assert IsLink(es[s], d);
  }

  /** So it is for a directory and its parent. */
  lemma InoIsLink(dirs: Dirs, home: map<u32, u32>, depth: map<u32, nat>, d: u32)
    requires GoodTree(dirs, home, depth) && d in dirs && d != 0
    ensures var p := Up(dirs, d);
            p in dirs && depth[p] < depth[d] && InoPlace(dirs[p], d) < PLACES && dirs[p][InoPlace(dirs[p], d)].name == NameIn(dirs[p], d)
  {
    hide GoodTree, GoodDir, InoPlace, LinkPlace;
    AtDir(dirs, home, depth, d);
    var p := Up(dirs, d);
    AtDir(dirs, home, depth, p);
    AtDir(dirs, home, depth, Up(dirs, p));
    InoIsLinkIn(dirs[p], p, d);
  }

  /** What get_child_dir_name leaves in the buffer: the names from the directory up, each behind a slash. */
  function Upward(cs: seq<string>): string {
    if cs == [] then "" else "/" + cs[|cs| - 1] + Upward(cs[..|cs| - 1])
  }

  lemma Reassociate(a: string, b: string, c: string, d: string)
    ensures a + (b + c + d) == a + b + c + d
  {
  }

  lemma PathToMore(dirs: Dirs, home: map<u32, u32>, depth: map<u32, nat>, d: u32)
    requires GoodTree(dirs, home, depth) && d in dirs
    ensures d == 0 ==> PathTo(dirs, home, depth, d) == [] && Upward(PathTo(dirs, home, depth, d)) == ""
    ensures d != 0 ==>
      && (forall c | c in dirs :: |dirs[c]| == PLACES)
      && var p := Up(dirs, d);
      && p in dirs && d in depth && p in depth && depth[p] < depth[d] && InoPlace(dirs[p], d) < PLACES
      && var name := dirs[p][InoPlace(dirs[p], d)].name;
         Upward(PathTo(dirs, home, depth, d)) == "/" + name + Upward(PathTo(dirs, home, depth, p))
  {
    AtDir(dirs, home, depth, d);
    if d != 0 {
      InoIsLink(dirs, home, depth, d);
      AtDir(dirs, home, depth, Up(dirs, d));
      hide GoodTree;
      UpwardMore(PathTo(dirs, home, depth, Up(dirs, d)), NameIn(dirs[Up(dirs, d)], d));
    }
  }

  /** sys_getcwd up to the loop that turns the names around. */
  method CollectNames(dirs: Dirs, cwd: u32, ghost home: map<u32, u32>, ghost depth: map<u32, nat>) returns (reverse: string)
    requires GoodTree(dirs, home, depth) && cwd in dirs
    requires |Upward(PathTo(dirs, home, depth, cwd))| < MAX_PATH
    ensures reverse == Upward(PathTo(dirs, home, depth, cwd))
  {
    hide GoodTree, PathTo, Upward, InoPlace;
    reverse := "";
    var child := cwd;
    ghost var all := PathTo(dirs, home, depth, cwd);
    assert "" + Upward(all) == Upward(all);
    while child != 0
      invariant child in dirs
      invariant reverse + Upward(PathTo(dirs, home, depth, child)) == Upward(all)
      decreases if child in depth then depth[child] else 0
    {
      PathToMore(dirs, home, depth, child);
      var parent := Up(dirs, child);
      var name := dirs[parent][InoPlace(dirs[parent], child)].name;
      Reassociate(reverse, "/", name, Upward(PathTo(dirs, home, depth, parent)));
      reverse := reverse + "/" + name;
      assert |reverse| < MAX_PATH;
      child := parent;
    }
    PathToMore(dirs, home, depth, 0);
    assert reverse + "" == reverse;
  }

  lemma UpwardMore(cs: seq<string>, c: string)
    ensures Upward(cs + [c]) == "/" + c + Upward(cs)
  {
    assert (cs + [c])[..|cs|] == cs;
  }

  lemma {:induction false} UpwardFirst(c: string, cs: seq<string>)
    ensures Upward([c] + cs) == Upward(cs) + "/" + c
    decreases |cs|
  {
    var all := [c] + cs;
    if cs == [] {
      assert all[..0] == [];
      assert "/" + c + "" == "" + "/" + c;
    } else {
      assert all[..|all| - 1] == [c] + cs[..|cs| - 1];
      UpwardFirst(c, cs[..|cs| - 1]);
      assert "/" + cs[|cs| - 1] + (Upward(cs[..|cs| - 1]) + "/" + c) == "/" + cs[|cs| - 1] + Upward(cs[..|cs| - 1]) + "/" + c;
    }
  }

  /** The loop that turns the names around: the part behind the last slash goes to the end of the result. */
  method Reverse(reverse: string, ghost cs: seq<string>) returns (path: string)
    requires reverse == Upward(cs) && forall c | c in cs :: Paths.IsName(c)
    ensures path == Paths.Join(cs)
  {
    hide Paths.Join, Upward;
    JoinNone();
    path := "";
    var rest := reverse;
    ghost var n := 0;
    assert cs[0..] == cs && cs[..0] == [];
    UpwardEnds(cs, 0);
    while '/' in rest
      invariant n <= |cs| && rest == Upward(cs[n..]) && path == Paths.Join(cs[..n]) && ('/' in rest <==> n < |cs|)
      decreases |rest|
    {
      var k := Paths.LastSlash(rest);
      LastOfUpward(cs, n, k);
      JoinMore(cs[..n], cs[n]);
      assert cs[..n + 1] == cs[..n] + [cs[n]];
      path := path + rest[k..];
      rest := rest[..k];
      n := n + 1;
      UpwardEnds(cs, n);
    }
    assert cs[..n] == cs;
  }

  lemma UpwardEnds(cs: seq<string>, n: nat)
    requires n <= |cs|
    ensures '/' in Upward(cs[n..]) <==> n < |cs|
  {
    if n < |cs| {
      UpwardFirst(cs[n], cs[n + 1..]);
      assert cs[n..] == [cs[n]] + cs[n + 1..];
      assert Upward(cs[n..])[|Upward(cs[n + 1..])|] == '/';
    }
  }

  lemma LastOfUpward(cs: seq<string>, n: nat, k: nat)
    requires n < |cs| && forall c | c in cs :: Paths.IsName(c)
    requires var rest := Upward(cs[n..]); k < |rest| && rest[k] == '/' && forall j | k < j < |rest| :: rest[j] != '/'
    ensures Upward(cs[n..])[k..] == "/" + cs[n] && Upward(cs[n..])[..k] == Upward(cs[n + 1..])
  {
    var rest, c := Upward(cs[n..]), cs[n];
    assert c in cs;
    UpwardFirst(c, cs[n + 1..]);
    assert cs[n..] == [c] + cs[n + 1..];
    hide Upward;
    var m := |Upward(cs[n + 1..])|;
    assert rest[m] == '/' && forall j | m < j < |rest| :: rest[j] == c[j - m - 1] && rest[j] in c;
    assert k == m;
  }

  lemma {:induction false} UpwardSize(cs: seq<string>)
    ensures |Upward(cs)| == |Paths.Join(cs)|
    decreases |cs|
  {
    if cs != [] {
      UpwardSize(cs[..|cs| - 1]);
    }
  }

  /** sys_getcwd: the washed path of the current directory. A path of 512 bytes would not fit its own buffer; None stands for
      a path that is longer than the caller's. */
  method GetCwd(dirs: Dirs, cwd: u32, size: nat, ghost home: map<u32, u32>, ghost depth: map<u32, nat>) returns (path: Option<string>)
    requires GoodTree(dirs, home, depth) && cwd in dirs && |Paths.Print(PathTo(dirs, home, depth, cwd))| < MAX_PATH
    ensures var full := Paths.Print(PathTo(dirs, home, depth, cwd));
            path == if cwd != 0 && |full| > size then None else Some(full)
  {
    hide GoodTree, Paths.Join, Upward, PathTo;
    RootPath(dirs, home, depth);
    if cwd == 0 {
      return Some("/");
    }
    PathNames(dirs, home, depth, cwd);
    ghost var cs := PathTo(dirs, home, depth, cwd);
    UpwardSize(cs);
    NotAtRoot(dirs, home, depth, cwd);
    var reverse := CollectNames(dirs, cwd, home, depth);
    if |reverse| > size {
      return None;
    }
    var full := Reverse(reverse, cs);
    return Some(full);
  }

  lemma NotAtRoot(dirs: Dirs, home: map<u32, u32>, depth: map<u32, nat>, d: u32)
    requires GoodTree(dirs, home, depth) && d in dirs && d != 0
    ensures PathTo(dirs, home, depth, d) != []
  {
    AtDir(dirs, home, depth, d);
  }

  /** The path that getcwd gives leads back to the directory. */
  lemma CwdLeadsBack(dirs: Dirs, home: map<u32, u32>, depth: map<u32, nat>, cwd: u32)
    requires GoodTree(dirs, home, depth) && cwd in dirs
    ensures Lookup(dirs, Paths.Print(PathTo(dirs, home, depth, cwd))) == Directory(cwd, Up(dirs, cwd))
  {
    hide GoodTree, PathTo, Walk, Paths.Split, Paths.Print;
    PathLeadsBack(dirs, home, depth, cwd);
    PathNames(dirs, home, depth, cwd);
    Paths.SplitPrint(PathTo(dirs, home, depth, cwd));
  }
}
