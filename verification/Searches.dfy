/** Whether search_file finds what the whole path names: the search of fs/fs.c stops at the first regular file. */
module Searches {
  import opened Disks
  import opened DirEntries
  import opened Directory
  import opened Tree
  import opened Wrappers
  import Paths

  /** What a path should lead to: a file only as its last name. Behind a file there is nothing. */
  function StrictWalk(dirs: Dirs, d: u32, up: u32, cs: seq<string>, done: seq<string>): Found
    decreases |cs|
  {
    if cs == [] then Directory(d, up)
    else if d !in dirs then Missing(d, done + [cs[0]])
    else match Find(dirs[d], cs[0])
      case None => Missing(d, done + [cs[0]])
      case Some(e) =>
        if e.kind == FT_DIRECTORY then StrictWalk(dirs, e.ino, d, cs[1..], done + [cs[0]])
        else if |cs| == 1 then File(e.ino, d, done + [cs[0]])
        else Missing(d, done + [cs[0]])
  }

  function StrictLookup(dirs: Dirs, path: string): Found {
    StrictWalk(dirs, 0, 0, Paths.Split(path), [])
  }

  /** The first k names lead to a file. */
  predicate FileAt(dirs: Dirs, d: u32, up: u32, cs: seq<string>, done: seq<string>, k: nat)
    requires k <= |cs|
  {
    Walk(dirs, d, up, cs[..k], done).File?
  }

  /** The names before the last go through directories or miss; none of them leads to a file. */
  ghost predicate NoFileOnTheWay(dirs: Dirs, path: string) {
    forall k: nat | k < |Paths.Split(path)| :: !FileAt(dirs, 0, 0, Paths.Split(path), [], k)
  }

  /** A search that ends at a file has used the first n names: they lead to that file, and fewer lead to directories. */
  ghost predicate StopsAfter(dirs: Dirs, d: u32, up: u32, cs: seq<string>, done: seq<string>, n: nat) {
    && 0 < n <= |cs| && Walk(dirs, d, up, cs, done).File?
    && Walk(dirs, d, up, cs[..n], done) == Walk(dirs, d, up, cs, done)
    && Walk(dirs, d, up, cs, done).searched == done + cs[..n]
    && forall k: nat | k < n :: Walk(dirs, d, up, cs[..k], done).Directory?
  }

  lemma {:induction false} FileStopsAfter(dirs: Dirs, d: u32, up: u32, cs: seq<string>, done: seq<string>) returns (n: nat)
    requires Walk(dirs, d, up, cs, done).File?
    ensures StopsAfter(dirs, d, up, cs, done, n) && n == |Walk(dirs, d, up, cs, done).searched| - |done|
    decreases |cs|
  {
    hide Find;
    var c := cs[0];
    assert cs == [c] + cs[1..];
    WalkStep(dirs, d, up, cs, done);
    var e := Find(dirs[d], c).value;
    if e.kind == FT_DIRECTORY {
      var m := FileStopsAfter(dirs, e.ino, d, cs[1..], done + [c]);
      n := m + 1;
      OneNameMore(dirs, d, up, cs, done, e, m);
    } else {
      n := 1;
      assert cs[..1] == [c] && cs[..0] == [];
    }
  }

  lemma OneNameMore(dirs: Dirs, d: u32, up: u32, cs: seq<string>, done: seq<string>, e: Entry, m: nat)
    requires cs != [] && d in dirs && Find(dirs[d], cs[0]) == Some(e) && e.kind == FT_DIRECTORY
    requires Walk(dirs, e.ino, d, cs[1..], done + [cs[0]]).File? && StopsAfter(dirs, e.ino, d, cs[1..], done + [cs[0]], m)
    ensures Walk(dirs, d, up, cs, done).File? && StopsAfter(dirs, d, up, cs, done, m + 1)
  {
    hide Find;
    WalkStep(dirs, d, up, cs, done);
    forall k: nat | 0 < k <= m + 1
      ensures Walk(dirs, d, up, cs[..k], done) == Walk(dirs, e.ino, d, cs[1..][..k - 1], done + [cs[0]])
    {
      assert cs[..k][1..] == cs[1..][..k - 1] && cs[..k][0] == cs[0];
      WalkStep(dirs, d, up, cs[..k], done);
    }
    assert done + [cs[0]] + cs[1..][..m] == done + cs[..m + 1];
  }

  /** Some names lead to a file; then so does the search with any more names, and it stops there. */
  lemma PrefixIsFound(dirs: Dirs, d: u32, up: u32, cs: seq<string>, done: seq<string>, k: nat)
    requires k <= |cs| && FileAt(dirs, d, up, cs, done, k)
    ensures Walk(dirs, d, up, cs, done) == Walk(dirs, d, up, cs[..k], done)
    ensures |Walk(dirs, d, up, cs, done).searched| <= |done| + k
  {
    assert cs == cs[..k] + cs[k..];
    WalkConcat(dirs, d, up, cs[..k], cs[k..], done);
    var n := FileStopsAfter(dirs, d, up, cs[..k], done);
  }

  /** A search ends at a file before the last name exactly when the path without some of its last names leads to a file. */
  lemma StopsEarlyIff(dirs: Dirs, d: u32, up: u32, cs: seq<string>, done: seq<string>)
    ensures var w := Walk(dirs, d, up, cs, done);
            w.File? && |w.searched| < |done| + |cs| <==> exists k: nat :: k < |cs| && FileAt(dirs, d, up, cs, done, k)
  {
    hide Walk;
    var w := Walk(dirs, d, up, cs, done);
    if w.File? && |w.searched| < |done| + |cs| {
      var n := FileStopsAfter(dirs, d, up, cs, done);
      assert FileAt(dirs, d, up, cs, done, n);
    }
    if k: nat :| k < |cs| && FileAt(dirs, d, up, cs, done, k) {
      PrefixIsFound(dirs, d, up, cs, done, k);
    }
  }

  lemma {:induction false} StrictIsWalk(dirs: Dirs, d: u32, up: u32, cs: seq<string>, done: seq<string>)
    ensures var w, v := Walk(dirs, d, up, cs, done), StrictWalk(dirs, d, up, cs, done);
            if w.File? && |w.searched| < |done| + |cs| then v == Missing(w.parent, w.searched) else v == w
    decreases |cs|
  {
    hide Find;
    if cs != [] && d in dirs && Find(dirs[d], cs[0]).Some? && Find(dirs[d], cs[0]).value.kind == FT_DIRECTORY {
      StrictIsWalk(dirs, Find(dirs[d], cs[0]).value.ino, d, cs[1..], done + [cs[0]]);
    }
  }

  lemma WalkIsExactIff(dirs: Dirs, d: u32, up: u32, cs: seq<string>, done: seq<string>)
    ensures var w, v := Walk(dirs, d, up, cs, done), StrictWalk(dirs, d, up, cs, done);
            && (v == w <==> forall k: nat | k < |cs| :: !FileAt(dirs, d, up, cs, done, k))
            && (w.File? ==> |w.searched| <= |done| + |cs| && (v == w <==> |w.searched| == |done| + |cs|))
  {
    hide Walk, StrictWalk, FileAt;
    StopsEarlyIff(dirs, d, up, cs, done);
    StrictIsWalk(dirs, d, up, cs, done);
    if Walk(dirs, d, up, cs, done).File? {
      var n := FileStopsAfter(dirs, d, up, cs, done);
    }
  }

  /** The search finds what the whole path names exactly when no file is on the way; and a file that it finds is the one named
      exactly when it used all names. */
  lemma SearchIsExactIff(dirs: Dirs, path: string)
    ensures Lookup(dirs, path) == StrictLookup(dirs, path) <==> NoFileOnTheWay(dirs, path)
    ensures var w := Lookup(dirs, path); w.File? ==> (StrictLookup(dirs, path) == w <==> |w.searched| == |Paths.Split(path)|)
  {
    hide Paths.Split, Walk, StrictWalk, FileAt;
    WalkIsExactIff(dirs, 0, 0, Paths.Split(path), []);
  }
}
