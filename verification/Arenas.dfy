/** The arena layer of kernel/memory.c: pages cut into blocks of seven sizes. Addresses are numbers of bytes. */
module Arenas {
  import opened Wrappers

  const PAGE: nat := 4096
  /** sizeof(struct arena). */
  const HEADER: nat := 12
  const DESCS: nat := 7

  // ---------------------------------------------------------------- block sizes

  /** The sizes double from 16 on. */
  function Size(i: nat): nat {
    if i == 0 then 16 else 2 * Size(i - 1)
  }

  function PerArena(i: nat): nat
    requires i < DESCS
  {
    SizeValues(i);
    (PAGE - HEADER) / Size(i)
  }

  lemma SizeValues(i: nat)
    requires i < DESCS
    ensures Size(i) == if i == 0 then 16 else if i == 1 then 32 else if i == 2 then 64 else if i == 3 then 128
                       else if i == 4 then 256 else if i == 5 then 512 else 1024
  {
    assert Size(1) == 2 * Size(0) && Size(2) == 2 * Size(1) && Size(3) == 2 * Size(2);
    assert Size(4) == 2 * Size(3) && Size(5) == 2 * Size(4) && Size(6) == 2 * Size(5);
  }

  lemma PerArenaValues(i: nat)
    requires i < DESCS
    ensures PerArena(i) == if i == 0 then 255 else if i == 1 then 127 else if i == 2 then 63 else if i == 3 then 31
                           else if i == 4 then 15 else if i == 5 then 7 else 3
  {
    SizeValues(i);
  }

  /** arena2block: block k of the arena in page p. */
  function BlockAt(p: nat, i: nat, k: nat): nat {
    PAGE * p + HEADER + k * Size(i)
  }

  /** A block lies in its page behind the header, and ends in it. */
  lemma BlockInPage(p: nat, i: nat, k: nat)
    requires i < DESCS && k < PerArena(i)
    ensures PAGE * p + HEADER <= BlockAt(p, i, k) && BlockAt(p, i, k) + Size(i) <= PAGE * p + PAGE
    ensures BlockAt(p, i, k) / PAGE == p
  {
    SizeValues(i);
    PerArenaValues(i);
    var off := HEADER + k * Size(i);
    assert off + Size(i) <= PAGE;
  }

  /** Different blocks of an arena do not overlap. */
  lemma BlocksApart(p: nat, i: nat, k: nat, m: nat)
    requires i < DESCS && k < m
    ensures BlockAt(p, i, k) + Size(i) <= BlockAt(p, i, m)
  {
    SizeValues(i);
  }

  /** The blocks of an arena. */
  ghost function Blocks(p: nat, i: nat, n: nat): (s: set<nat>)
    ensures forall k: nat | k < n :: BlockAt(p, i, k) in s
    ensures forall b | b in s :: exists k: nat :: k < n && b == BlockAt(p, i, k)
  {
    if n == 0 then {} else Blocks(p, i, n - 1) + {BlockAt(p, i, n - 1)}
  }

  lemma {:induction false} BlocksCount(p: nat, i: nat, n: nat)
    requires i < DESCS
    ensures |Blocks(p, i, n)| == n
    decreases n
  {
    if n > 0 {
      BlocksCount(p, i, n - 1);
      forall k: nat | k < n - 1 ensures BlockAt(p, i, k) != BlockAt(p, i, n - 1) {
        BlocksApart(p, i, k, n - 1);
        SizeValues(i);
      }
    }
  }

  lemma BlockIn(p: nat, i: nat, b: nat) returns (k: nat)
    requires i < DESCS && b in Blocks(p, i, PerArena(i))
    ensures k < PerArena(i) && b == BlockAt(p, i, k) && b / PAGE == p && PAGE * p + HEADER <= b && b + Size(i) <= PAGE * p + PAGE
  {
    k :| k < PerArena(i) && b == BlockAt(p, i, k);
    BlockInPage(p, i, k);
  }

  /** block2arena clears the low 12 bits. For any address in the page at p that gives p. */
  lemma MaskGivesArena(p: bv32, b: bv32)
    requires p & 0xfff == 0 && p <= b && b - p < 4096
    ensures b & 0xfffff000 == p
  {
  }

  // ---------------------------------------------------------------- the state

  /** The header of an arena: a page of blocks with the number of free ones, or the pages of one large allocation. */
  datatype ArenaHeader = Small(desc: nat, count: nat) | Large(pages: nat)

  type Arena = a: ArenaHeader | (a.Small? ==> a.desc < DESCS) && (a.Large? ==> a.pages >= 1) witness Large(1)

  type Arenas = map<nat, Arena>

  ghost predicate IsBlock(arenas: Arenas, i: nat, b: nat) {
    && b / PAGE in arenas && arenas[b / PAGE].Small? && arenas[b / PAGE].desc == i
    && b in Blocks(b / PAGE, i, PerArena(i))
  }

  /** The blocks of the arena in page p that are on a list. */
  ghost function FreeOf(list: seq<nat>, p: nat): set<nat> {
    set b | b in list && b / PAGE == p
  }

  /** A free list has blocks of its size only, and none twice. */
  ghost predicate GoodList(arenas: Arenas, list: seq<nat>, i: nat) {
    NoDup(list) && forall b | b in list :: IsBlock(arenas, i, b)
  }

  /** The count in an arena's header is the number of its blocks on the free list of its size. */
  ghost predicate Counted(arenas: Arenas, free: seq<seq<nat>>, p: nat) {
    |free| == DESCS && (p in arenas && arenas[p].Small? ==> arenas[p].count == |FreeOf(free[arenas[p].desc], p)|)
  }

  /** The pages of an arena. */
  function Span(a: Arena): nat {
    if a.Small? then 1 else a.pages
  }

  /** No page is in two arenas. */
  ghost predicate Apart(arenas: Arenas) {
    forall p, q | p in arenas && q in arenas && p < q :: p + Span(arenas[p]) <= q
  }

  ghost predicate GoodLists(arenas: Arenas, free: seq<seq<nat>>) {
    |free| == DESCS && forall i: nat | i < DESCS :: GoodList(arenas, free[i], i)
  }

  ghost predicate AllCounted(arenas: Arenas, free: seq<seq<nat>>) {
    forall p | p in arenas :: Counted(arenas, free, p)
  }

  /** Every arena has a block in use. */
  ghost predicate InUse(arenas: Arenas) {
    forall p | p in arenas && arenas[p].Small? :: arenas[p].count < PerArena(arenas[p].desc)
  }

  /** What holds also in the middle of a call. */
  ghost predicate Sound(arenas: Arenas, free: seq<seq<nat>>) {
    Apart(arenas) && GoodLists(arenas, free) && AllCounted(arenas, free)
  }

  /** What holds between calls. */
  ghost predicate Good(arenas: Arenas, free: seq<seq<nat>>) {
    Sound(arenas, free) && InUse(arenas)
  }

  /** An allocation: a block that is not free, or what lies behind the header of a large arena. */
  ghost predicate Live(arenas: Arenas, free: seq<seq<nat>>, b: nat) {
    && |free| == DESCS && b / PAGE in arenas
    && match arenas[b / PAGE]
       case Small(i, _) => IsBlock(arenas, i, b) && b !in free[i]
       case Large(_) => b == PAGE * (b / PAGE) + HEADER
  }

  /** How many bytes an allocation has. */
  ghost function Extent(arenas: Arenas, b: nat): nat
    requires b / PAGE in arenas
  {
    match arenas[b / PAGE] case Small(i, _) => Size(i) case Large(n) => PAGE * n - HEADER
  }

  /** An allocation lies in the pages of its arena, behind the header. */
  lemma LiveInside(arenas: Arenas, free: seq<seq<nat>>, b: nat)
    requires Live(arenas, free, b)
    ensures var p := b / PAGE; PAGE * p + HEADER <= b && b + Extent(arenas, b) <= PAGE * (p + Span(arenas[p]))
  {
    match arenas[b / PAGE]
    case Small(i, _) =>
      var k := BlockIn(b / PAGE, i, b);
    case Large(n) =>
  }

  /** Two allocations have no byte in common. */
  lemma LiveApart(arenas: Arenas, free: seq<seq<nat>>, b: nat, c: nat)
    requires Good(arenas, free) && Live(arenas, free, b) && Live(arenas, free, c) && b < c
    ensures b + Extent(arenas, b) <= c
  {
    hide GoodLists, AllCounted, InUse;
    var p, q := b / PAGE, c / PAGE;
    LiveInside(arenas, free, b);
    LiveInside(arenas, free, c);
    if p == q {
      if arenas[p].Small? {
        SameArenaApart(p, arenas[p].desc, b, c);
      }
    } else {
      assert p < q;
    }
  }

  lemma SameArenaApart(p: nat, i: nat, b: nat, c: nat)
    requires i < DESCS && b in Blocks(p, i, PerArena(i)) && c in Blocks(p, i, PerArena(i)) && b < c
    ensures b + Size(i) <= c
  {
    var k := BlockIn(p, i, b);
    var m := BlockIn(p, i, c);
    if m < k {
      BlocksApart(p, i, m, k);
    } else if k < m {
      BlocksApart(p, i, k, m);
    }
  }

  // ---------------------------------------------------------------- lists

  /** list_remove. */
  function Remove(list: seq<nat>, b: nat): seq<nat> {
    if list == [] then [] else if list[0] == b then list[1..] else [list[0]] + Remove(list[1..], b)
  }

  lemma {:induction false} RemoveIsExact(list: seq<nat>, b: nat)
    requires NoDup(list)
    ensures NoDup(Remove(list, b)) && forall c :: c in Remove(list, b) <==> c in list && c != b
    decreases |list|
  {
    if list != [] {
      var tail := list[1..];
      assert list == [list[0]] + tail;
      assert NoDup(tail) && list[0] !in tail;
      RemoveIsExact(tail, b);
    }
  }

  /** All blocks of an arena are free when as many are on the list as it has. */
  lemma AllFree(arenas: Arenas, list: seq<nat>, i: nat, p: nat)
    requires i < DESCS && GoodList(arenas, list, i) && |FreeOf(list, p)| == PerArena(i)
    ensures FreeOf(list, p) == Blocks(p, i, PerArena(i))
  {
    BlocksCount(p, i, PerArena(i));
    assert FreeOf(list, p) <= Blocks(p, i, PerArena(i));
    SubsetSameSize(FreeOf(list, p), Blocks(p, i, PerArena(i)));
  }

  lemma SubsetSameSize(a: set<nat>, b: set<nat>)
    requires a <= b && |a| == |b|
    ensures a == b
  {
    if x :| x in b && x !in a {
      assert a <= b - {x};
      SubsetSize(a, b - {x});
    }
  }

  lemma NotMoreThanAll(arenas: Arenas, list: seq<nat>, i: nat, p: nat)
    requires i < DESCS && GoodList(arenas, list, i)
    ensures |FreeOf(list, p)| <= PerArena(i)
  {
    BlocksCount(p, i, PerArena(i));
    assert FreeOf(list, p) <= Blocks(p, i, PerArena(i));
    SubsetSize(FreeOf(list, p), Blocks(p, i, PerArena(i)));
  }

  // ---------------------------------------------------------------- steps

  /** Pages p to p + n - 1 are in no arena. */
  ghost predicate Clear(arenas: Arenas, p: nat, n: nat) {
    forall q | q in arenas :: q + Span(arenas[q]) <= p || p + n <= q
  }

  lemma WithArenaApart(arenas: Arenas, p: nat, a: Arena)
    requires Apart(arenas) && Clear(arenas, p, Span(a))
    ensures p !in arenas && Apart(arenas[p := a])
  {
  }

  function With(free: seq<seq<nat>>, i: nat, list: seq<nat>): seq<seq<nat>>
    requires i < |free|
  {
    free[i := list]
  }

  /** Blocks stay blocks when an arena is added, or the count of one changes. */
  lemma GoodListKept(arenas: Arenas, arenas1: Arenas, list: seq<nat>, i: nat)
    requires GoodList(arenas, list, i)
    requires forall b | b in list :: b / PAGE in arenas1 && arenas1[b / PAGE].Small? && arenas1[b / PAGE].desc == i
    ensures GoodList(arenas1, list, i)
  {
    forall b | b in list ensures IsBlock(arenas1, i, b) {
      assert IsBlock(arenas, i, b);
    }
  }

  /** A page is made into an arena for an empty list, and its blocks are all the list has. */
  lemma CarveIsSound(arenas: Arenas, free: seq<seq<nat>>, i: nat, p: nat, list: seq<nat>)
    requires Sound(arenas, free) && i < DESCS && free[i] == [] && Clear(arenas, p, 1)
    requires NoDup(list) && forall b :: b in list <==> b in Blocks(p, i, PerArena(i))
    ensures Sound(arenas[p := Small(i, PerArena(i))], With(free, i, list))
  {
    var arenas1, free1 := arenas[p := Small(i, PerArena(i))], With(free, i, list);
    WithArenaApart(arenas, p, Small(i, PerArena(i)));
    forall j: nat | j < DESCS ensures GoodList(arenas1, free1[j], j) {
      if j != i {
        assert GoodList(arenas, free[j], j);
        forall b | b in free[j] ensures b / PAGE in arenas1 && arenas1[b / PAGE].Small? && arenas1[b / PAGE].desc == j {
          assert IsBlock(arenas, j, b);
        }
        GoodListKept(arenas, arenas1, free[j], j);
      } else {
        forall b | b in list ensures IsBlock(arenas1, i, b) {
          var k := BlockIn(p, i, b);
        }
      }
    }
    forall q | q in arenas1 ensures Counted(arenas1, free1, q) {
      if q == p {
        FreeOfAll(list, i, p);
      } else {
        assert Counted(arenas, free, q);
        if arenas[q].Small? && arenas[q].desc == i {
          FreeOfNone(list, i, p, q);
        }
      }
    }
  }

  lemma FreeOfAll(list: seq<nat>, i: nat, p: nat)
    requires i < DESCS && forall b :: b in list <==> b in Blocks(p, i, PerArena(i))
    ensures |FreeOf(list, p)| == PerArena(i)
  {
    forall b | b in Blocks(p, i, PerArena(i)) ensures b / PAGE == p {
      var k := BlockIn(p, i, b);
    }
    assert FreeOf(list, p) == Blocks(p, i, PerArena(i));
    BlocksCount(p, i, PerArena(i));
  }

  lemma FreeOfNone(list: seq<nat>, i: nat, p: nat, q: nat)
    requires i < DESCS && q != p && forall b :: b in list <==> b in Blocks(p, i, PerArena(i))
    ensures FreeOf(list, q) == {} && FreeOf([], q) == {}
  {
    forall b | b in Blocks(p, i, PerArena(i)) ensures b / PAGE == p {
      var k := BlockIn(p, i, b);
    }
  }

  /** The same arena with one free block more or less. */
  function Recount(arenas: Arenas, p: nat, count: nat): Arenas
    requires p in arenas && arenas[p].Small?
  {
    arenas[p := Small(arenas[p].desc, count)]
  }

  lemma RecountApart(arenas: Arenas, p: nat, count: nat)
    requires Apart(arenas) && p in arenas && arenas[p].Small?
    ensures Apart(Recount(arenas, p, count))
  {
  }

  lemma RecountLists(arenas: Arenas, free: seq<seq<nat>>, p: nat, count: nat)
    requires GoodLists(arenas, free) && p in arenas && arenas[p].Small?
    ensures GoodLists(Recount(arenas, p, count), free)
  {
    forall j: nat | j < DESCS ensures GoodList(Recount(arenas, p, count), free[j], j) {
      forall b | b in free[j] ensures IsBlock(arenas, j, b) {
        assert GoodList(arenas, free[j], j);
      }
      GoodListKept(arenas, Recount(arenas, p, count), free[j], j);
    }
  }

  /** list_pop and the count: the head of a list becomes an allocation. */
  lemma PopIsSound(arenas: Arenas, free: seq<seq<nat>>, i: nat)
    requires Sound(arenas, free) && i < DESCS && free[i] != []
    ensures var b := free[i][0]; var p := b / PAGE;
            && IsBlock(arenas, i, b) && arenas[p].count >= 1
            && Sound(Recount(arenas, p, arenas[p].count - 1), With(free, i, free[i][1..]))
            && Live(Recount(arenas, p, arenas[p].count - 1), With(free, i, free[i][1..]), b)
  {
    var list, b := free[i], free[i][0];
    var p, tail := b / PAGE, list[1..];
    assert list == [b] + tail && b in list;
    assert GoodList(arenas, list, i) && IsBlock(arenas, i, b);
    assert NoDup(tail) && b !in tail;
    assert Counted(arenas, free, p);
    PopFreeOf(b, tail);
    var count := arenas[p].count - 1;
    var arenas1, free1 := Recount(arenas, p, count), With(free, i, tail);
    RecountApart(arenas, p, count);
    RecountLists(arenas, free, p, count);
    assert GoodList(arenas1, list, i);
    assert GoodList(arenas1, tail, i);
    forall j: nat | j < DESCS ensures GoodList(arenas1, free1[j], j) {
      assert GoodList(arenas1, free[j], j);
    }
    forall q | q in arenas1 ensures Counted(arenas1, free1, q) {
      assert Counted(arenas, free, q);
      OtherFreeOf(b, tail, q);
    }
  }

  lemma PopFreeOf(b: nat, tail: seq<nat>)
    requires b !in tail
    ensures |FreeOf([b] + tail, b / PAGE)| == |FreeOf(tail, b / PAGE)| + 1
  {
    assert FreeOf([b] + tail, b / PAGE) == FreeOf(tail, b / PAGE) + {b};
  }

  lemma OtherFreeOf(b: nat, tail: seq<nat>, q: nat)
    ensures q != b / PAGE ==> FreeOf([b] + tail, q) == FreeOf(tail, q)
  {
  }

  /** list_append and the count: an allocation becomes the last of its list. */
  lemma PushIsSound(arenas: Arenas, free: seq<seq<nat>>, i: nat, b: nat)
    requires Sound(arenas, free) && i < DESCS && IsBlock(arenas, i, b) && b !in free[i]
    ensures var p := b / PAGE; Sound(Recount(arenas, p, arenas[p].count + 1), With(free, i, free[i] + [b]))
  {
    var list, p := free[i], b / PAGE;
    assert GoodList(arenas, list, i) && Counted(arenas, free, p);
    var more := list + [b];
    PushFreeOf(list, b);
    var count := arenas[p].count + 1;
    var arenas1, free1 := Recount(arenas, p, count), With(free, i, more);
    RecountApart(arenas, p, count);
    RecountLists(arenas, free, p, count);
    forall c | c in more ensures IsBlock(arenas1, i, c) {
      assert IsBlock(arenas, i, c);
    }
    forall j: nat | j < DESCS ensures GoodList(arenas1, free1[j], j) {
      assert GoodList(arenas1, free[j], j);
    }
    forall q | q in arenas1 ensures Counted(arenas1, free1, q) {
      assert Counted(arenas, free, q);
      PushOtherFreeOf(list, b, q);
    }
  }

  lemma PushFreeOf(list: seq<nat>, b: nat)
    requires b !in list
    ensures |FreeOf(list + [b], b / PAGE)| == |FreeOf(list, b / PAGE)| + 1
  {
    assert FreeOf(list + [b], b / PAGE) == FreeOf(list, b / PAGE) + {b};
  }

  lemma PushOtherFreeOf(list: seq<nat>, b: nat, q: nat)
    ensures q != b / PAGE ==> FreeOf(list + [b], q) == FreeOf(list, q)
  {
  }

  /** An arena goes, and with it its blocks from the list. */
  lemma DropIsSound(arenas: Arenas, free: seq<seq<nat>>, i: nat, p: nat, list: seq<nat>)
    requires Sound(arenas, free) && i < DESCS && p in arenas && arenas[p].Small? && arenas[p].desc == i
    requires NoDup(list) && forall b :: b in list <==> b in free[i] && b / PAGE != p
    ensures Sound(arenas - {p}, With(free, i, list))
  {
    var arenas1, free1 := arenas - {p}, With(free, i, list);
    forall j: nat | j < DESCS ensures GoodList(arenas1, free1[j], j) {
      assert GoodList(arenas, free[j], j);
      forall b | b in free1[j] ensures IsBlock(arenas1, j, b) {
        assert IsBlock(arenas, j, b);
      }
    }
    forall q | q in arenas1 ensures Counted(arenas1, free1, q) {
      assert Counted(arenas, free, q);
      assert FreeOf(list, q) == FreeOf(free[i], q);
    }
  }

  lemma LargeIsSound(arenas: Arenas, free: seq<seq<nat>>, p: nat, n: nat)
    requires Good(arenas, free) && n >= 1 && Clear(arenas, p, n)
    ensures Good(arenas[p := Large(n)], free)
  {
    var arenas1 := arenas[p := Large(n)];
    WithArenaApart(arenas, p, Large(n));
    forall j: nat | j < DESCS ensures GoodList(arenas1, free[j], j) {
      assert GoodList(arenas, free[j], j);
      forall b | b in free[j] ensures IsBlock(arenas, j, b) {}
      GoodListKept(arenas, arenas1, free[j], j);
    }
    forall q | q in arenas1 ensures Counted(arenas1, free, q) {
      assert q in arenas ==> Counted(arenas, free, q);
    }
  }

  lemma LargeGoneIsSound(arenas: Arenas, free: seq<seq<nat>>, p: nat)
    requires Good(arenas, free) && p in arenas && arenas[p].Large?
    ensures Good(arenas - {p}, free)
  {
    var arenas1 := arenas - {p};
    forall j: nat | j < DESCS ensures GoodList(arenas1, free[j], j) {
      assert GoodList(arenas, free[j], j);
      forall b | b in free[j] ensures IsBlock(arenas, j, b) {}
      GoodListKept(arenas, arenas1, free[j], j);
    }
    forall q | q in arenas1 ensures Counted(arenas1, free, q) {
      assert Counted(arenas, free, q);
    }
  }

  // ---------------------------------------------------------------- what the steps do to the allocations

  lemma CarveLive(arenas: Arenas, free: seq<seq<nat>>, i: nat, p: nat, list: seq<nat>, c: nat)
    requires |free| == DESCS && i < DESCS && free[i] == [] && p !in arenas
    requires forall b :: b in list <==> b in Blocks(p, i, PerArena(i))
    ensures Live(arenas[p := Small(i, PerArena(i))], With(free, i, list), c) <==> Live(arenas, free, c)
    ensures Live(arenas, free, c) ==> Extent(arenas[p := Small(i, PerArena(i))], c) == Extent(arenas, c)
  {
    if c / PAGE != p && c in list {
      var k := BlockIn(p, i, c);
    }
  }

  lemma PopLive(arenas: Arenas, free: seq<seq<nat>>, i: nat, c: nat)
    requires Sound(arenas, free) && i < DESCS && free[i] != [] && IsBlock(arenas, i, free[i][0])
    ensures var b := free[i][0]; var p := b / PAGE; var count := if arenas[p].count >= 1 then arenas[p].count - 1 else 0;
            && (Live(Recount(arenas, p, count), With(free, i, free[i][1..]), c) <==> Live(arenas, free, c) || c == b)
            && !Live(arenas, free, b) && (Live(arenas, free, c) ==> Extent(Recount(arenas, p, count), c) == Extent(arenas, c))
  {
    var list := free[i];
    assert GoodList(arenas, list, i);
    assert list == [list[0]] + list[1..] && list[0] !in list[1..] && list[0] in list;
  }

  lemma PushLive(arenas: Arenas, free: seq<seq<nat>>, i: nat, b: nat, c: nat)
    requires |free| == DESCS && i < DESCS && IsBlock(arenas, i, b) && b !in free[i]
    ensures var p := b / PAGE;
            && (Live(Recount(arenas, p, arenas[p].count + 1), With(free, i, free[i] + [b]), c) <==> Live(arenas, free, c) && c != b)
            && (Live(arenas, free, c) ==> Extent(Recount(arenas, p, arenas[p].count + 1), c) == Extent(arenas, c))
  {
  }

  /** Dropping an arena with all of its blocks free takes no allocation away. */
  lemma DropLive(arenas: Arenas, free: seq<seq<nat>>, i: nat, p: nat, list: seq<nat>, c: nat)
    requires Sound(arenas, free) && i < DESCS && p in arenas && arenas[p].Small? && arenas[p].desc == i
    requires FreeOf(free[i], p) == Blocks(p, i, PerArena(i)) && forall b :: b in list <==> b in free[i] && b / PAGE != p
    ensures Live(arenas - {p}, With(free, i, list), c) <==> Live(arenas, free, c)
    ensures Live(arenas, free, c) ==> Extent(arenas - {p}, c) == Extent(arenas, c)
  {
    assert c in Blocks(p, i, PerArena(i)) && c / PAGE == p ==> c in FreeOf(free[i], p);
  }

  lemma FreeIsBlock(arenas: Arenas, free: seq<seq<nat>>, i: nat, b: nat)
    requires Sound(arenas, free) && i < DESCS
    ensures |free| == DESCS && (b in free[i] ==> IsBlock(arenas, i, b))
  {
    hide AllCounted, IsBlock, Apart;
    assert GoodList(arenas, free[i], i);
  }

  lemma LiveIsBlock(arenas: Arenas, free: seq<seq<nat>>, i: nat, c: nat)
    requires Live(arenas, free, c)
    ensures |free| == DESCS && c / PAGE in arenas
    ensures arenas[c / PAGE].Small? && arenas[c / PAGE].desc == i && i < DESCS ==> IsBlock(arenas, i, c) && c !in free[i]
  {
    hide IsBlock;
  }

  /** A free block has no byte in common with an allocation. */
  lemma FreeApart(arenas: Arenas, free: seq<seq<nat>>, i: nat, b: nat, c: nat)
    requires Sound(arenas, free) && i < DESCS && b in free[i] && Live(arenas, free, c)
    ensures b + Size(i) <= c || c + Extent(arenas, c) <= b
  {
    hide GoodLists, AllCounted, GoodList, Blocks, Live;
    FreeIsBlock(arenas, free, i, b);
    LiveIsBlock(arenas, free, i, c);
    var p, q := b / PAGE, c / PAGE;
    var k := BlockIn(p, i, b);
    LiveInside(arenas, free, c);
    if p == q {
      if b < c {
        SameArenaApart(p, i, b, c);
      } else if c < b {
        SameArenaApart(p, i, c, b);
      }
    } else if p < q {
      assert p + Span(arenas[p]) <= q;
    } else {
      assert q + Span(arenas[q]) <= p;
    }
  }

  lemma LargeLive(arenas: Arenas, free: seq<seq<nat>>, p: nat, n: nat, c: nat)
    requires GoodLists(arenas, free) && n >= 1 && p !in arenas
    ensures Live(arenas[p := Large(n)], free, c) <==> Live(arenas, free, c) || c == PAGE * p + HEADER
    ensures Live(arenas, free, c) ==> Extent(arenas[p := Large(n)], c) == Extent(arenas, c)
  {
  }

  lemma LargeGoneLive(arenas: Arenas, free: seq<seq<nat>>, p: nat, c: nat)
    requires |free| == DESCS && p in arenas && arenas[p].Large?
    ensures Live(arenas - {p}, free, c) <==> Live(arenas, free, c) && c != PAGE * p + HEADER
    ensures Live(arenas, free, c) && c / PAGE != p ==> Extent(arenas - {p}, c) == Extent(arenas, c)
  {
  }
}
