/** What a directory means: a map from names to inodes, kept as a list of places. */
module Directory {
  import opened Disks
  import opened DirEntries
  import opened Wrappers

  predicate IsDots(name: string) {
    name == "." || name == ".."
  }

  /** The directory `self`: "." and ".." are first, free places are all zeros, and no name or inode is there twice. */
  ghost predicate GoodDir(es: seq<Entry>, self: u32) {
    && |es| == PLACES
    && es[0] == Entry(".", self, FT_DIRECTORY)
    && es[1].name == ".." && es[1].kind == FT_DIRECTORY
    && (forall s | 0 <= s < PLACES && !IsLive(es[s]) :: es[s] == NO_ENTRY)
    && (forall s | 2 <= s < PLACES && IsLive(es[s]) :: IsName(es[s].name) && !IsDots(es[s].name) && es[s].kind <= FT_DIRECTORY)
    && (forall s, t | 0 <= s < t < PLACES && IsLive(es[s]) && IsLive(es[t]) :: es[s].name != es[t].name)
    && (forall s, t | 2 <= s < t < PLACES && IsLive(es[s]) && IsLive(es[t]) :: es[s].ino != es[t].ino)
  }

  // ---------------------------------------------------------------- looking up

  /** The place where a search for a name stops, or the number of places. */
  function PlaceOf(es: seq<Entry>, name: string): (s: nat)
    ensures s <= |es| && (s < |es| ==> es[s].name == name) && forall t | 0 <= t < s :: es[t].name != name
  {
    if es == [] || es[0].name == name then 0 else 1 + PlaceOf(es[1..], name)
  }

  /** What search_dir_entry gives. */
  function Find(es: seq<Entry>, name: string): Option<Entry> {
    var s := PlaceOf(es, name);
    if s < |es| then Some(es[s]) else None
  }

  /** Looking up a name finds a live entry that has it, and there is only one. */
  lemma FindIsExact(es: seq<Entry>, self: u32, name: string, e: Entry)
    requires GoodDir(es, self) && name != ""
    ensures Find(es, name) == Some(e) <==> e in es && IsLive(e) && e.name == name
  {
    var s := PlaceOf(es, name);
    if e in es && IsLive(e) && e.name == name {
      var t :| 0 <= t < |es| && es[t] == e;
      assert s <= t;
      assert IsLive(es[s]);
    }
  }

  // ---------------------------------------------------------------- inserting

  function FreePlace(es: seq<Entry>): (s: nat)
    ensures s <= |es| && (s < |es| ==> !IsLive(es[s])) && forall t | 0 <= t < s :: IsLive(es[t])
  {
    if es == [] || !IsLive(es[0]) then 0 else 1 + FreePlace(es[1..])
  }

  /** sync_dir_entry: the first free place is taken, whether its block is there already or not. */
  function Insert(es: seq<Entry>, e: Entry): (r: seq<Entry>)
    ensures |r| == |es|
  {
    var s := FreePlace(es);
    if s < |es| then es[s := e] else es
  }

  /** A new name goes in. */
  ghost predicate CanAdd(es: seq<Entry>, e: Entry) {
    && IsName(e.name) && !IsDots(e.name) && (e.kind == FT_REGULAR || e.kind == FT_DIRECTORY)
    && forall t | 0 <= t < |es| && IsLive(es[t]) :: es[t].name != e.name && es[t].ino != e.ino
  }

  lemma InsertIsGood(es: seq<Entry>, self: u32, e: Entry)
    requires GoodDir(es, self) && CanAdd(es, e)
    ensures GoodDir(Insert(es, e), self)
    ensures FreePlace(es) < PLACES ==> Count(Insert(es, e)) == Count(es) + 1
  {
    var s := FreePlace(es);
    if s < PLACES {
      CountUpdate(es, s, e);
    }
  }

  /** After an insertion the new name is found, and every other name as before. */
  lemma FindInsert(es: seq<Entry>, self: u32, e: Entry, name: string)
    requires GoodDir(es, self) && CanAdd(es, e) && FreePlace(es) < PLACES && name != ""
    ensures Find(Insert(es, e), name) == if name == e.name then Some(e) else Find(es, name)
  {
    var s := FreePlace(es);
    var fs := Insert(es, e);
    assert fs[s] == e && forall t | 0 <= t < |es| && t != s :: fs[t] == es[t];
    assert es[s].name == "";
    var p, q := PlaceOf(fs, name), PlaceOf(es, name);
    if name == e.name {
      assert forall t | 0 <= t < |es| && t != s :: fs[t].name != name;
      assert p <= s;
    } else {
    }
  }

  /** An insertion leaves the dots and every link where they were. */
  lemma InsertKeeps(es: seq<Entry>, self: u32, e: Entry)
    requires GoodDir(es, self) && CanAdd(es, e) && FreePlace(es) < PLACES
    ensures var fs := Insert(es, e);
            && fs[0] == es[0] && fs[1] == es[1] && FreePlace(es) >= 2
            && (forall s | 0 <= s < PLACES && IsLive(fs[s]) :: fs[s] == es[s] || fs[s] == e)
            && (forall c: u32 | LinkPlace(es, c) < PLACES :: LinkPlace(fs, c) == LinkPlace(es, c) && fs[LinkPlace(es, c)] == es[LinkPlace(es, c)])
            && LinkPlace(fs, e.ino) == FreePlace(es) && fs[FreePlace(es)] == e
  {
    var fs, s := Insert(es, e), FreePlace(es);
    assert forall t | 0 <= t < |es| && t != s :: fs[t] == es[t];
    forall c: u32 | LinkPlace(es, c) < PLACES ensures LinkPlace(fs, c) == LinkPlace(es, c) {
      var t := LinkPlace(es, c);
      assert t != s && IsLink(fs[t], c) && c != e.ino;
      assert forall u | 0 <= u < t :: !IsLink(fs[u], c);
      LinkPlaceUnique(fs, c, t);
    }
    assert forall u | 0 <= u < s :: !IsLink(fs[u], e.ino);
    LinkPlaceUnique(fs, e.ino, s);
  }

  lemma LinkPlaceUnique(es: seq<Entry>, ino: u32, s: nat)
    requires s < |es| && IsLink(es[s], ino) && forall t | 0 <= t < s :: !IsLink(es[t], ino)
    ensures LinkPlace(es, ino) == s
  {
  }

  // ---------------------------------------------------------------- deleting

  predicate IsLink(e: Entry, ino: u32) {
    IsLive(e) && !IsDots(e.name) && e.ino == ino
  }

  /** The place of the entry that delete_dir_entry looks for, or the number of places. */
  function LinkPlace(es: seq<Entry>, ino: u32): (s: nat)
    ensures s <= |es| && (s < |es| ==> IsLink(es[s], ino)) && forall t | 0 <= t < s :: !IsLink(es[t], ino)
  {
    if es == [] || IsLink(es[0], ino) then 0 else 1 + LinkPlace(es[1..], ino)
  }

  function Delete(es: seq<Entry>, ino: u32): (r: seq<Entry>)
    ensures |r| == |es|
  {
    var s := LinkPlace(es, ino);
    if s < |es| then es[s := NO_ENTRY] else es
  }

  lemma DeleteIsGood(es: seq<Entry>, self: u32, ino: u32)
    requires GoodDir(es, self)
    ensures GoodDir(Delete(es, ino), self)
    ensures Count(Delete(es, ino)) == Count(es) - if LinkPlace(es, ino) < PLACES then 1 else 0
  {
    var s := LinkPlace(es, ino);
    if s < PLACES {
      assert s >= 2;
      CountUpdate(es, s, NO_ENTRY);
    }
  }

  /** A deletion leaves the dots and every other link where they were. */
  lemma DeleteKeeps(es: seq<Entry>, self: u32, ino: u32)
    requires GoodDir(es, self)
    ensures var fs := Delete(es, ino);
            && fs[0] == es[0] && fs[1] == es[1]
            && (forall s | 2 <= s < PLACES && IsLive(fs[s]) :: fs[s] == es[s] && fs[s].ino != ino)
            && (forall c: u32 | c != ino && LinkPlace(es, c) < PLACES :: LinkPlace(fs, c) == LinkPlace(es, c) && fs[LinkPlace(es, c)] == es[LinkPlace(es, c)])
  {
    var fs, s := Delete(es, ino), LinkPlace(es, ino);
    assert s < PLACES ==> s >= 2;
    assert forall t | 0 <= t < |es| && t != s :: fs[t] == es[t];
    forall t | 2 <= t < PLACES && IsLive(fs[t]) ensures fs[t].ino != ino {
      if fs[t].ino == ino {
        assert IsLink(es[t], ino);
      }
    }
    forall c: u32 | c != ino && LinkPlace(es, c) < PLACES ensures LinkPlace(fs, c) == LinkPlace(es, c) {
      var t := LinkPlace(es, c);
      assert t != s && IsLink(fs[t], c);
      assert forall u | 0 <= u < t :: !IsLink(fs[u], c);
      LinkPlaceUnique(fs, c, t);
    }
  }

  /** After a deletion the names that led to the inode are not found, and every other name as before. */
  lemma FindDelete(es: seq<Entry>, self: u32, ino: u32, name: string)
    requires GoodDir(es, self) && name != ""
    ensures Find(Delete(es, ino), name) ==
            match Find(es, name) case Some(e) => (if IsLink(e, ino) then None else Some(e)) case None => None
  {
    var s := LinkPlace(es, ino);
    var fs := Delete(es, ino);
    if s < PLACES {
      assert fs[s] == NO_ENTRY && forall t | 0 <= t < |es| && t != s :: fs[t] == es[t];
      var p, q := PlaceOf(fs, name), PlaceOf(es, name);
      if q == s {
        assert forall t | 0 <= t < |es| && t != s && IsLive(es[t]) :: es[t].name != name;
        assert p == |fs|;
      } else {
      }
    } else {
      assert Find(es, name).Some? ==> !IsLink(es[PlaceOf(es, name)], ino);
    }
  }

  /** "." and ".." are always found, and lead to the first two places. */
  lemma FindDots(es: seq<Entry>, self: u32)
    requires GoodDir(es, self)
    ensures Find(es, ".") == Some(es[0]) && Find(es, "..") == Some(es[1])
  {
    FindIsExact(es, self, ".", es[0]);
    FindIsExact(es, self, "..", es[1]);
  }

  /** Any other name leads to the one place that has its inode. */
  lemma FindOther(es: seq<Entry>, self: u32, name: string)
    requires GoodDir(es, self) && name != "" && !IsDots(name) && Find(es, name).Some?
    ensures var s := PlaceOf(es, name);
            2 <= s < PLACES && IsLive(es[s]) && Find(es, name) == Some(es[s]) && es[s].name == name && LinkPlace(es, es[s].ino) == s
  {
    var s := PlaceOf(es, name);
    FindIsExact(es, self, name, es[s]);
    assert s >= 2 && IsLink(es[s], es[s].ino);
    var t := LinkPlace(es, es[s].ino);
    assert t <= s && IsLink(es[t], es[s].ino) && t >= 2;
  }

  // ---------------------------------------------------------------- empty directories, and listing

  /** dir_is_empty compares the size with two entries; that is so exactly when there are no others. */
  lemma EmptyIsExact(es: seq<Entry>, self: u32)
    requires GoodDir(es, self)
    ensures Count(es) == 2 <==> forall s | 2 <= s < PLACES :: !IsLive(es[s])
  {
    assert es[..2] == [es[0], es[1]];
    assert [es[0], es[1]][..1] == [es[0]] && [es[0]][..0] == [];
    assert Count([es[0], es[1]]) == Count([es[0]]) + 1 && Count([es[0]]) == Count([]) + 1;
    if Count(es) == 2 {
      forall s | 2 <= s < PLACES ensures !IsLive(es[s]) {
        CountPrefix(es, s);
        CountGrows(es, 2, s);
        CountGrows(es, s + 1, PLACES);
        assert es[..PLACES] == es;
      }
    } else {
      CountSame(es, 2);
    }
  }

  lemma {:induction false} CountSame(es: seq<Entry>, s: nat)
    requires s <= |es|
    ensures (forall t | s <= t < |es| :: !IsLive(es[t])) ==> Count(es) == Count(es[..s])
    decreases |es|
  {
    if s == |es| {
      assert es[..s] == es;
    } else {
      var n := |es| - 1;
      CountSame(es[..n], s);
      assert es[..n][..s] == es[..s];
    }
  }

  /** The entries in the order of their places: what successive calls of dir_read are to return. */
  function Listing(es: seq<Entry>): (r: seq<Entry>)
    ensures |r| == Count(es)
  {
    if es == [] then [] else Listing(es[..|es| - 1]) + if IsLive(es[|es| - 1]) then [es[|es| - 1]] else []
  }

  /** A listing has every live entry, and nothing else. */
  lemma {:induction false} ListingIsExact(es: seq<Entry>, e: Entry)
    ensures e in Listing(es) <==> e in es && IsLive(e)
    decreases |es|
  {
    if es != [] {
      var n := |es| - 1;
      ListingIsExact(es[..n], e);
      assert es == es[..n] + [es[n]];
    }
  }

  /** And every one only once. */
  lemma {:induction false} ListingHasNoDuplicates(es: seq<Entry>)
    requires forall s, t | 0 <= s < t < |es| && IsLive(es[s]) && IsLive(es[t]) :: es[s].name != es[t].name
    ensures NoDup(Listing(es))
    decreases |es|
  {
    if es != [] {
      var n := |es| - 1;
      var fs := es[..n];
      ListingHasNoDuplicates(fs);
      if IsLive(es[n]) {
        ListingIsExact(fs, es[n]);
        assert es[n] !in Listing(fs);
      }
    }
  }

  /** Where an entry stands in the listing. */
  lemma {:induction false} ListingAt(es: seq<Entry>, s: nat)
    requires s < |es| && IsLive(es[s])
    ensures Count(es[..s]) < Count(es) && Listing(es)[Count(es[..s])] == es[s]
    decreases |es|
  {
    var n := |es| - 1;
    if s < n {
      ListingAt(es[..n], s);
      assert es[..n][..s] == es[..s];
    }
  }
}
