/** Copying an address space for a child, userprog/fork.c, and giving one back, userprog/wait_exit.c. */
module ForkPages {
  import opened Bitmaps
  import opened Pages

  /** What is in a frame. */
  function At(frames: map<nat, Content>, f: nat): Content {
    if f in frames then frames[f] else []
  }

  /** Every page and table that was there is still on its frame, and with the same contents. */
  ghost predicate Kept(mapping0: map<Use, nat>, frames0: map<nat, Content>, mapping: map<Use, nat>, frames: map<nat, Content>) {
    forall u | u in mapping0 :: u in mapping && mapping[u] == mapping0[u] && At(frames, mapping[u]) == At(frames0, mapping0[u])
  }

  /** The child has the pages below n whose bit is set, with the parent's contents and on frames that were nobody's. */
  ghost predicate Copied(used: set<nat>, start: nat, n: nat, parent: nat, child: nat, owner0: map<nat, Use>,
                         mapping: map<Use, nat>, frames: map<nat, Content>) {
    && (forall i: nat | i in used && i < n :: PageCopied(start + i, parent, child, owner0, mapping, frames))
    && NoOthers(used, start, n, child, mapping)
  }

  ghost predicate PageCopied(v: nat, parent: nat, child: nat, owner0: map<nat, Use>, mapping: map<Use, nat>, frames: map<nat, Content>) {
    && Page(child, v) in mapping && Page(parent, v) in mapping
    && At(frames, mapping[Page(child, v)]) == At(frames, mapping[Page(parent, v)])
    && mapping[Page(child, v)] !in owner0
  }

  lemma PageCopiedKept(v: nat, parent: nat, child: nat, owner0: map<nat, Use>, mapping0: map<Use, nat>, frames0: map<nat, Content>,
                       mapping: map<Use, nat>, frames: map<nat, Content>)
    requires PageCopied(v, parent, child, owner0, mapping0, frames0) && Kept(mapping0, frames0, mapping, frames)
    ensures PageCopied(v, parent, child, owner0, mapping, frames)
  {
  }

  /** And it has no other pages. */
  ghost predicate NoOthers(used: set<nat>, start: nat, n: nat, child: nat, mapping: map<Use, nat>) {
    forall u | u in mapping && u.Page? && u.space == child :: u.page >= start && u.page - start in used && u.page - start < n
  }

  lemma CopiedSkip(used: set<nat>, start: nat, n: nat, m: nat, parent: nat, child: nat, owner0: map<nat, Use>,
                   mapping: map<Use, nat>, frames: map<nat, Content>)
    requires Copied(used, start, n, parent, child, owner0, mapping, frames)
    requires n <= m && forall i: nat | n <= i < m :: i !in used
    ensures Copied(used, start, m, parent, child, owner0, mapping, frames)
  {
  }

  /** One page of the parent goes to the child through a buffer. */
  method CopyPage(mem: Memory, parent: nat, child: nat, v: nat, ghost owner0: map<nat, Use>) returns (ok: bool)
    requires mem.Valid() && parent != child && child != 0 && v / TABLE_PAGES < USER_DIRS
    requires Page(parent, v) in mem.mapping && Page(child, v) !in mem.mapping
    requires forall f | f in owner0 :: f in mem.owner
    modifies mem`mapping, mem`owner, mem`frames, mem.kernelPool.bits, mem.userPool.bits
    ensures ok ==>
      && mem.Valid() && Kept(old(mem.mapping), old(mem.frames), mem.mapping, mem.frames)
      && GrewBy(old(mem.mapping), mem.mapping, child, v, 1)
      && PageCopied(v, parent, child, owner0, mem.mapping, mem.frames)
      && forall f | f in old(mem.owner) :: f in mem.owner
    ensures !ok ==> Exhausted(mem)
  {
    hide UsedIn, Mapped, Pooled, Shaped, FreeIn;
    var buf := At(mem.frames, mem.mapping[Page(parent, v)]);
    ghost var mapping0, ownerBefore, frames0 := mem.mapping, mem.owner, mem.frames;
    OldFrames(mem);
    var done := mem.MapPage(child, v);
    if done != Done {
      return false;
    }
    var f := mem.mapping[Page(child, v)];
    mem.frames := mem.frames[f := buf];
    assert f !in ownerBefore;
    return true;
  }

  lemma OldFrames(mem: Memory)
    requires mem.Valid()
    ensures forall u | u in mem.mapping :: mem.mapping[u] in mem.owner
  {
    hide UsedIn, Pooled, Shaped;
  }

  lemma CopiedMore(used: set<nat>, start: nat, i: nat, parent: nat, child: nat, owner0: map<nat, Use>,
                   mapping0: map<Use, nat>, frames0: map<nat, Content>, mapping: map<Use, nat>, frames: map<nat, Content>)
    requires Copied(used, start, i, parent, child, owner0, mapping0, frames0) && i in used
    requires Kept(mapping0, frames0, mapping, frames) && GrewBy(mapping0, mapping, child, start + i, 1)
    requires PageCopied(start + i, parent, child, owner0, mapping, frames)
    ensures Copied(used, start, i + 1, parent, child, owner0, mapping, frames)
  {
    hide NoOthers, PageCopied, Kept, GrewBy;
    NoOthersMore(used, start, i, child, mapping0, mapping);
    forall j: nat | j in used && j < i + 1 ensures PageCopied(start + j, parent, child, owner0, mapping, frames) {
      if j < i {
        PageCopiedKept(start + j, parent, child, owner0, mapping0, frames0, mapping, frames);
      }
    }
  }

  lemma NoOthersMore(used: set<nat>, start: nat, i: nat, child: nat, mapping0: map<Use, nat>, mapping: map<Use, nat>)
    requires NoOthers(used, start, i, child, mapping0) && i in used && GrewBy(mapping0, mapping, child, start + i, 1)
    ensures NoOthers(used, start, i + 1, child, mapping)
  {
    forall u | u in mapping && u.Page? && u.space == child ensures u.page >= start && u.page - start in used && u.page - start < i + 1 {
      if u !in mapping0 {
        assert u.page - start == i;
      }
    }
  }

  lemma KeptTwice(m0: map<Use, nat>, f0: map<nat, Content>, m1: map<Use, nat>, f1: map<nat, Content>, m2: map<Use, nat>, f2: map<nat, Content>)
    requires Kept(m0, f0, m1, f1) && Kept(m1, f1, m2, f2)
    ensures Kept(m0, f0, m2, f2)
  {
  }

  lemma KeptSelf(m: map<Use, nat>, f: map<nat, Content>)
    ensures Kept(m, f, m, f)
  {
  }

  /** Pages other than those of the child and its tables are those there were. */
  ghost predicate OnlyChild(mapping0: map<Use, nat>, mapping: map<Use, nat>, child: nat) {
    forall u | u in mapping && u !in mapping0 :: u.space == child
  }

  lemma OnlyChildMore(m0: map<Use, nat>, m1: map<Use, nat>, m2: map<Use, nat>, child: nat, v: nat)
    requires OnlyChild(m0, m1, child) && GrewBy(m1, m2, child, v, 1)
    ensures OnlyChild(m0, m2, child)
  {
  }

  lemma ZeroByte()
    ensures forall k: nat | k < 8 :: !BitOf(0, k)
  {
    forall k: nat | k < 8 ensures !BitOf(0, k) {
      MaskTest(0, k);
    }
  }

  lemma BitIn(bytes: seq<bv8>, q: nat, k: nat)
    requires q < |bytes| && k < 8
    ensures 8 * q + k in UsedIn(bytes) <==> BitOf(bytes[q], k)
  {
    hide BitOf;
    assert (8 * q + k) / 8 == q && (8 * q + k) % 8 == k;
  }

  lemma TrackedPage(used: set<nat>, size: nat, start: nat, mapping: map<Use, nat>, s: nat, i: nat)
    requires Tracks(used, size, start, mapping, s) && i in used
    ensures i < size && Page(s, start + i) in mapping
  {
  }

  lemma NotYet(used: set<nat>, start: nat, i: nat, parent: nat, child: nat, owner0: map<nat, Use>, mapping: map<Use, nat>, frames: map<nat, Content>)
    requires Copied(used, start, i, parent, child, owner0, mapping, frames)
    ensures Page(child, start + i) !in mapping
  {
    if Page(child, start + i) in mapping {
      NoOtherAt(used, start, i, child, mapping, i);
    }
  }

  /** The loops over the bytes and bits of the parent's bitmap. */
  method CopyBits(mem: Memory, parent: nat, child: nat, vp: VirtualPool) returns (ok: bool)
    requires mem.Valid() && parent != child && child != 0 && vp.bitmap.bits != mem.kernelPool.bits && vp.bitmap.bits != mem.userPool.bits
    requires Tracks(vp.bitmap.Used(), vp.bitmap.Size(), vp.start, mem.mapping, parent)
    requires vp.start + vp.bitmap.Size() <= TABLE_PAGES * USER_DIRS
    requires forall u | u in mem.mapping :: u.space != child
    modifies mem`mapping, mem`owner, mem`frames, mem.kernelPool.bits, mem.userPool.bits
    ensures ok ==>
      && mem.Valid() && Kept(old(mem.mapping), old(mem.frames), mem.mapping, mem.frames) && OnlyChild(old(mem.mapping), mem.mapping, child)
      && Copied(vp.bitmap.Used(), vp.start, vp.bitmap.Size(), parent, child, old(mem.owner), mem.mapping, mem.frames)
      && Tracks(vp.bitmap.Used(), vp.bitmap.Size(), vp.start, mem.mapping, child)
    ensures !ok ==> Exhausted(mem)
  {
    hide UsedIn, Mapped, Pooled, Shaped, Copied, PageCopied, Kept, OnlyChild, GrewBy, Tracks, Mask, FreeIn, Exhausted;
    ghost var mapping0, frames0, owner0 := mem.mapping, mem.frames, mem.owner;
    ghost var used := vp.bitmap.Used();
    var bits := vp.bitmap.bits;
    KeptSelf(mapping0, frames0);
    CopiedNone(used, vp.start, parent, child, owner0, mapping0, frames0);
    ZeroByte();
    var byte := 0;
    while byte < bits.Length
      invariant byte <= bits.Length && mem.Valid() && vp.bitmap.Used() == used
      invariant Kept(mapping0, frames0, mem.mapping, mem.frames) && OnlyChild(mapping0, mem.mapping, child)
      invariant Copied(used, vp.start, 8 * byte, parent, child, owner0, mem.mapping, mem.frames)
      invariant forall f | f in owner0 :: f in mem.owner
    {
      if bits[byte] != 0 {
        var bit := 0;
        while bit < 8
          invariant bit <= 8 && mem.Valid() && vp.bitmap.Used() == used
          invariant Kept(mapping0, frames0, mem.mapping, mem.frames) && OnlyChild(mapping0, mem.mapping, child)
          invariant Copied(used, vp.start, 8 * byte + bit, parent, child, owner0, mem.mapping, mem.frames)
          invariant forall f | f in owner0 :: f in mem.owner
        {
          MaskTest(bits[byte], bit);
          BitIn(bits[..], byte, bit);
          ghost var i := 8 * byte + bit;
          if bits[byte] & Mask(bit) != 0 {
            var v := vp.start + (8 * byte + bit);
            ghost var mapping1, frames1 := mem.mapping, mem.frames;
            TrackedPage(used, vp.bitmap.Size(), vp.start, mapping0, parent, i);
            KeptPage(mapping0, frames0, mapping1, frames1, Page(parent, v));
            NotYet(used, vp.start, i, parent, child, owner0, mapping1, frames1);
            ok := CopyPage(mem, parent, child, v, owner0);
            if !ok {
              return;
            }
            CopiedMore(used, vp.start, i, parent, child, owner0, mapping1, frames1, mem.mapping, mem.frames);
            KeptTwice(mapping0, frames0, mapping1, frames1, mem.mapping, mem.frames);
            OnlyChildMore(mapping0, mapping1, mem.mapping, child, v);
          } else {
            CopiedSkip(used, vp.start, i, i + 1, parent, child, owner0, mem.mapping, mem.frames);
          }
          bit := bit + 1;
        }
      } else {
        forall i: nat | 8 * byte <= i < 8 * byte + 8 ensures i !in used {
          BitIn(bits[..], byte, i - 8 * byte);
        }
        CopiedSkip(used, vp.start, 8 * byte, 8 * byte + 8, parent, child, owner0, mem.mapping, mem.frames);
      }
      byte := byte + 1;
    }
    UsedInSize(bits[..]);
    CopiedTracks(used, vp.bitmap.Size(), vp.start, parent, child, owner0, mem.mapping, mem.frames);
    return true;
  }

  lemma ExhaustedMeans(mem: Memory)
    requires Exhausted(mem)
    ensures mem.FreeUser() == 0 || mem.FreeKernel() == 0
  {
    hide FreeIn, UsedIn;
  }

  lemma CopiedMeans(used: set<nat>, start: nat, size: nat, parent: nat, child: nat, owner0: map<nat, Use>,
                    mapping0: map<Use, nat>, frames0: map<nat, Content>, mapping: map<Use, nat>, frames: map<nat, Content>)
    requires Copied(used, start, size, parent, child, owner0, mapping, frames) && (forall i | i in used :: i < size)
    requires Kept(mapping0, frames0, mapping, frames) && OnlyChild(mapping0, mapping, child)
    ensures forall i | i in used ::
      var p, c := Page(parent, start + i), Page(child, start + i);
      && p in mapping && c in mapping && mapping[c] !in owner0
      && (if mapping[c] in frames then frames[mapping[c]] else []) == (if mapping[p] in frames then frames[mapping[p]] else [])
    ensures forall u | u in mapping0 :: u in mapping && mapping[u] == mapping0[u]
    ensures forall u | u in mapping && u !in mapping0 ::
      u.space == child && (u.Page? ==> Page(parent, u.page) in mapping)
  {
    forall i | i in used
      ensures var p, c := Page(parent, start + i), Page(child, start + i);
              && p in mapping && c in mapping && mapping[c] !in owner0
              && (if mapping[c] in frames then frames[mapping[c]] else []) == (if mapping[p] in frames then frames[mapping[p]] else [])
    {
      assert PageCopied(start + i, parent, child, owner0, mapping, frames);
    }
    forall u | u in mapping && u !in mapping0 ensures u.space == child && (u.Page? ==> Page(parent, u.page) in mapping) {
      if u.Page? {
        assert PageCopied(start + (u.page - start), parent, child, owner0, mapping, frames);
      }
    }
  }

  /** copy_body_stack3. */
  method CopyBody(mem: Memory, parent: nat, child: nat, vp: VirtualPool) returns (ok: bool)
    requires mem.Valid() && parent != child && child != 0 && vp.bitmap.bits != mem.kernelPool.bits && vp.bitmap.bits != mem.userPool.bits
    requires Tracks(vp.bitmap.Used(), vp.bitmap.Size(), vp.start, mem.mapping, parent)
    requires vp.start + vp.bitmap.Size() <= TABLE_PAGES * USER_DIRS
    requires forall u | u in mem.mapping :: u.space != child
    modifies mem`mapping, mem`owner, mem`frames, mem.kernelPool.bits, mem.userPool.bits
    ensures ok ==>
      && mem.Valid() && Kept(old(mem.mapping), old(mem.frames), mem.mapping, mem.frames) && OnlyChild(old(mem.mapping), mem.mapping, child)
      && Copied(vp.bitmap.Used(), vp.start, vp.bitmap.Size(), parent, child, old(mem.owner), mem.mapping, mem.frames)
      && Tracks(vp.bitmap.Used(), vp.bitmap.Size(), vp.start, mem.mapping, child)
    ensures ok ==> forall i | i in vp.bitmap.Used() ::
      var p, c := Page(parent, vp.start + i), Page(child, vp.start + i);
      && p in mem.mapping && c in mem.mapping && mem.mapping[c] !in old(mem.owner)
      && (if mem.mapping[c] in mem.frames then mem.frames[mem.mapping[c]] else [])
         == (if mem.mapping[p] in mem.frames then mem.frames[mem.mapping[p]] else [])
    ensures ok ==> forall u | u in old(mem.mapping) :: u in mem.mapping && mem.mapping[u] == old(mem.mapping)[u]
    ensures ok ==> forall u | u in mem.mapping && u !in old(mem.mapping) ::
      u.space == child && (u.Page? ==> Page(parent, u.page) in mem.mapping)
    ensures !ok ==> Exhausted(mem) && (mem.FreeUser() == 0 || mem.FreeKernel() == 0)
  {
    hide UsedIn, Mapped, Pooled, Shaped, Copied, Kept, OnlyChild, Tracks, FreeIn, Exhausted, Memory.Valid;
    ghost var used, owner0, mapping0, frames0 := vp.bitmap.Used(), mem.owner, mem.mapping, mem.frames;
    UsedInSize(vp.bitmap.bits[..]);
    ok := CopyBits(mem, parent, child, vp);
    if ok {
      CopiedMeans(used, vp.start, vp.bitmap.Size(), parent, child, owner0, mapping0, frames0, mem.mapping, mem.frames);
    } else {
      ExhaustedMeans(mem);
    }
  }

  /** The child's copy of the bitmap is right for the child. */
  lemma CopiedTracks(used: set<nat>, size: nat, start: nat, parent: nat, child: nat, owner0: map<nat, Use>, mapping: map<Use, nat>, frames: map<nat, Content>)
    requires Copied(used, start, size, parent, child, owner0, mapping, frames) && forall i | i in used :: i < size
    ensures Tracks(used, size, start, mapping, child)
  {
    hide Copied;
    forall i: nat | i < size ensures i in used <==> Page(child, start + i) in mapping {
      CopiedAt(used, size, start, parent, child, owner0, mapping, frames, i);
    }
  }

  lemma CopiedAt(used: set<nat>, size: nat, start: nat, parent: nat, child: nat, owner0: map<nat, Use>, mapping: map<Use, nat>,
                 frames: map<nat, Content>, i: nat)
    requires Copied(used, start, size, parent, child, owner0, mapping, frames) && i < size
    ensures i in used <==> Page(child, start + i) in mapping
  {
    hide NoOthers;
    if Page(child, start + i) in mapping {
      NoOtherAt(used, start, size, child, mapping, i);
    }
  }

  lemma NoOtherAt(used: set<nat>, start: nat, n: nat, child: nat, mapping: map<Use, nat>, i: nat)
    requires NoOthers(used, start, n, child, mapping) && Page(child, start + i) in mapping
    ensures i in used && i < n
  {
    var u := Page(child, start + i);
    assert u.page - start == i;
  }

  lemma KeptPage(m0: map<Use, nat>, f0: map<nat, Content>, m1: map<Use, nat>, f1: map<nat, Content>, u: Use)
    requires Kept(m0, f0, m1, f1) && u in m0
    ensures u in m1
  {
  }

  lemma CopiedNone(used: set<nat>, start: nat, parent: nat, child: nat, owner0: map<nat, Use>, mapping: map<Use, nat>, frames: map<nat, Content>)
    requires forall u | u in mapping :: u.space != child
    ensures Copied(used, start, 0, parent, child, owner0, mapping, frames) && OnlyChild(mapping, mapping, child)
  {
  }

  // ---------------------------------------------------------------- giving an address space back

  /** Nothing of space s is left among directory entries below d, pages below e of entry d included, and nothing else is
      gone. */
  ghost predicate Released(mapping0: map<Use, nat>, mapping: map<Use, nat>, s: nat, d: nat, e: nat) {
    && (forall u | u in mapping :: u in mapping0 && mapping[u] == mapping0[u])
    && (forall u | u in mapping0 && u !in mapping :: u.space == s)
    && (forall u | u in mapping && u.space == s && u.Table? :: u.dir >= d)
    && (forall u | u in mapping && u.space == s && u.Page? :: u.page >= TABLE_PAGES * d + e)
  }

  lemma ReleasedPage(mapping0: map<Use, nat>, mapping: map<Use, nat>, s: nat, d: nat, e: nat)
    requires Released(mapping0, mapping, s, d, e)
    ensures Released(mapping0, mapping - {Page(s, TABLE_PAGES * d + e)}, s, d, e + 1)
  {
  }

  lemma ReleasedTable(mapping0: map<Use, nat>, mapping: map<Use, nat>, s: nat, d: nat)
    requires Released(mapping0, mapping, s, d, TABLE_PAGES)
    ensures Released(mapping0, mapping - {Table(s, d)}, s, d + 1, 0)
  {
  }

  /** A directory entry that is not present has no pages. */
  lemma ReleasedEntry(mapping0: map<Use, nat>, mapping: map<Use, nat>, s: nat, d: nat)
    requires Released(mapping0, mapping, s, d, 0) && Shaped(mapping) && s != 0 && Table(s, d) !in mapping
    ensures Released(mapping0, mapping, s, d + 1, 0)
  {
    forall u | u in mapping && u.space == s && u.Page? ensures u.page >= TABLE_PAGES * (d + 1) {
      assert TableOf(u) in mapping;
    }
  }

  lemma ShapedWithoutTable(mapping0: map<Use, nat>, mapping: map<Use, nat>, s: nat, d: nat)
    requires Released(mapping0, mapping, s, d, TABLE_PAGES) && Shaped(mapping)
    ensures Shaped(mapping - {Table(s, d)})
  {
    forall u | u in mapping && InUserPool(u) ensures TableOf(u) != Table(s, d) {
      if u.space == s {
        assert u.page >= TABLE_PAGES * (d + 1);
      }
    }
  }

  /** The part of a mapping that is not of space s. */
  ghost function Others(mapping: map<Use, nat>, s: nat): map<Use, nat> {
    map u | u in mapping && u.space != s :: mapping[u]
  }

  lemma OthersAre(mapping: map<Use, nat>, s: nat)
    ensures forall u :: u in Others(mapping, s) <==> u in mapping && u.space != s
    ensures forall u | u in Others(mapping, s) :: Others(mapping, s)[u] == mapping[u]
  {
  }

  /** The loops of release_prog_resource over the page directory and the page tables: every frame of the program goes
      back to its pool, and nobody else's. */
  method ReleasePages(mem: Memory, s: nat)
    requires mem.Valid() && s != 0
    modifies mem`mapping, mem`owner, mem.kernelPool.bits, mem.userPool.bits
    ensures mem.Valid() && mem.mapping == Others(old(mem.mapping), s)
    ensures forall u :: u in mem.mapping <==> u in old(mem.mapping) && u.space != s
    ensures forall u | u in mem.mapping :: mem.mapping[u] == old(mem.mapping)[u]
    ensures forall b | b in old(mem.userPool.Used()) :: mem.userStart + b in old(mem.owner) &&
              (b in mem.userPool.Used() <==> old(mem.owner)[mem.userStart + b].space != s)
    ensures forall b | b in old(mem.kernelPool.Used()) :: mem.kernelStart + b in old(mem.owner) &&
              (b in mem.kernelPool.Used() <==> old(mem.owner)[mem.kernelStart + b].space != s)
  {
    hide UsedIn, Mapped, Pooled, Shaped, Released, Others;
    ghost var mapping0, owner0, kernel0, user0 := mem.mapping, mem.owner, mem.kernelPool.Used(), mem.userPool.Used();
    OthersAre(mapping0, s);
    ReleasedNone(mapping0, s);
    var d := 0;
    while d < USER_DIRS
      invariant d <= USER_DIRS && mem.Valid() && Released(mapping0, mem.mapping, s, d, 0)
    {
      if Table(s, d) in mem.mapping {
        var e := 0;
        while e < TABLE_PAGES
          invariant e <= TABLE_PAGES && mem.Valid() && Released(mapping0, mem.mapping, s, d, e) && Table(s, d) in mem.mapping
        {
          ghost var u := Page(s, TABLE_PAGES * d + e);
          ReleasedPage(mapping0, mem.mapping, s, d, e);
          if Page(s, TABLE_PAGES * d + e) in mem.mapping {
            ShapedWithout(mem.mapping, u);
            mem.Pfree(Page(s, TABLE_PAGES * d + e));
          } else {
            assert mem.mapping - {u} == mem.mapping;
          }
          e := e + 1;
        }
        ReleasedTable(mapping0, mem.mapping, s, d);
        ShapedWithoutTable(mapping0, mem.mapping, s, d);
        mem.Pfree(Table(s, d));
      } else {
        ReleasedEntry(mapping0, mem.mapping, s, d);
      }
      d := d + 1;
    }
    ReleasedAll(mapping0, mem.mapping, s);
    ReleasedBits(owner0, mapping0, kernel0, user0, mem.owner, mem.mapping, mem.kernelPool.Used(), mem.userPool.Used(), mem.kernelStart, mem.userStart, s);
  }

  lemma ReleasedNone(mapping: map<Use, nat>, s: nat)
    ensures Released(mapping, mapping, s, 0, 0)
  {
  }

  lemma ReleasedAll(mapping0: map<Use, nat>, mapping: map<Use, nat>, s: nat)
    requires Released(mapping0, mapping, s, USER_DIRS, 0) && Shaped(mapping) && s != 0
    ensures mapping == Others(mapping0, s)
  {
    forall u | u in mapping ensures u.space != s {
    }
  }

  lemma ReleasedBits(owner0: map<nat, Use>, mapping0: map<Use, nat>, kernel0: set<nat>, user0: set<nat>,
                     owner: map<nat, Use>, mapping: map<Use, nat>, kernel: set<nat>, user: set<nat>, kernelStart: nat, userStart: nat, s: nat)
    requires Mapped(owner0, mapping0) && Pooled(owner0, kernel0, user0, kernelStart, userStart)
    requires Mapped(owner, mapping) && Pooled(owner, kernel, user, kernelStart, userStart)
    requires mapping == Others(mapping0, s)
    ensures forall b | b in user0 :: userStart + b in owner0 && (b in user <==> owner0[userStart + b].space != s)
    ensures forall b | b in kernel0 :: kernelStart + b in owner0 && (b in kernel <==> owner0[kernelStart + b].space != s)
  {
    hide Mapped, Pooled;
    forall b | b in user0 ensures userStart + b in owner0 && (b in user <==> owner0[userStart + b].space != s) {
      UseOfBit(owner0, mapping0, kernel0, user0, kernelStart, userStart, b);
      UseOfBit(owner, mapping, kernel, user, kernelStart, userStart, b);
      var u := owner0[userStart + b];
      if u in mapping {
        BitOfUse(owner, mapping, kernel, user, kernelStart, userStart, u);
      }
      SameUse(owner0, mapping0, owner, mapping, userStart + b);
    }
    forall b | b in kernel0 ensures kernelStart + b in owner0 && (b in kernel <==> owner0[kernelStart + b].space != s) {
      UseOfBit(owner0, mapping0, kernel0, user0, kernelStart, userStart, b);
      UseOfBit(owner, mapping, kernel, user, kernelStart, userStart, b);
      var u := owner0[kernelStart + b];
      if u in mapping {
        BitOfUse(owner, mapping, kernel, user, kernelStart, userStart, u);
      }
      SameUse(owner0, mapping0, owner, mapping, kernelStart + b);
    }
  }

  lemma SameUse(owner0: map<nat, Use>, mapping0: map<Use, nat>, owner: map<nat, Use>, mapping: map<Use, nat>, f: nat)
    requires Mapped(owner0, mapping0) && Mapped(owner, mapping) && forall u | u in mapping :: u in mapping0 && mapping[u] == mapping0[u]
    ensures f in owner && f in owner0 ==> owner[f] == owner0[f]
  {
  }

  // ---------------------------------------------------------------- the program's virtual bitmap

  const PAGE_BYTES: nat := 4096
  /** (0xc0000000 - USER_VADDR_START) / PG_SIZE / 8 */
  const USER_BITMAP_BYTES: nat := (0xc000_0000 - 0x804_8000) / PAGE_BYTES / 8

  /** create_user_vaddr_bitmap takes the kernel pages that a bitmap of `bytes` bytes lies in, and release_prog_resource gives
      back as many as it fills. The pages are all back exactly when the last one is full. */
  method BitmapThereAndBack(mem: Memory, vp: VirtualPool, bytes: nat) returns (r: MallocResult)
    requires mem.Valid() && PAGE_BYTES <= bytes < 3839 * PAGE_BYTES && vp.bitmap.bits != mem.kernelPool.bits && vp.bitmap.bits != mem.userPool.bits
    requires Marks(vp.bitmap.Used(), vp.bitmap.Size(), vp.start, mem.mapping, 0)
    modifies mem`mapping, mem`owner, mem.kernelPool.bits, mem.userPool.bits, vp.bitmap.bits
    ensures r.Got? ==> mem.Valid() && (mem.mapping == old(mem.mapping) <==> bytes % PAGE_BYTES == 0)
    ensures r.Got? && bytes % PAGE_BYTES != 0 ==>
      Page(0, r.page + bytes / PAGE_BYTES) in mem.mapping && mem.mapping - {Page(0, r.page + bytes / PAGE_BYTES)} == old(mem.mapping)
  {
    hide UsedIn, FirstFit, HasRun, WholeTail, Marks, Answers, OutcomeOf, GrewBy, ShrunkBy, Fresh, Mapped, Pooled, Shaped, Interval, FreeIn, Exhausted;
    ghost var used, mapping0 := vp.bitmap.Used(), mem.mapping;
    var n := (bytes + PAGE_BYTES - 1) / PAGE_BYTES;
    r := MallocPage(mem, 0, vp, n);
    if r.Got? {
      ghost var mid := mem.mapping;
      RunIsFree(used, vp.bitmap.Size(), vp.start, mapping0, 0, r.page - vp.start, n);
      GrewHas(mapping0, mid, 0, r.page, n);
      MfreePage(mem, 0, vp, r.page, bytes / PAGE_BYTES);
      BackButOne(mapping0, mid, mem.mapping, r.page, n, bytes / PAGE_BYTES);
    }
  }

  lemma BackButOne(a: map<Use, nat>, b: map<Use, nat>, c: map<Use, nat>, v: nat, n: nat, m: nat)
    requires GrewBy(a, b, 0, v, n) && ShrunkBy(b, c, 0, v, m) && m <= n <= m + 1
    ensures c == a <==> n == m
    ensures n == m + 1 ==> Page(0, v + m) in c && c - {Page(0, v + m)} == a
  {
    forall u | u in a ensures u in c && c[u] == a[u] {
      assert u in b;
    }
    forall u | u in c && u !in a ensures n == m + 1 && u == Page(0, v + m) {
      assert u in b && u.Page? && v <= u.page < v + n;
      assert u == Page(0, u.page);
    }
    if n == m + 1 {
      assert Page(0, v + m) in b && Page(0, v + m) !in a;
    }
  }

  /** A program's bitmap does not fill its last page, so one kernel page is lost at every exit. */
  lemma UserBitmapIsNotFull()
    ensures USER_BITMAP_BYTES / PAGE_BYTES == 22 && USER_BITMAP_BYTES % PAGE_BYTES != 0
  {
  }
}
