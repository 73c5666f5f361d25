/** sys_malloc_ and sys_free_ of kernel/memory.c: arenas on pages, and what is in the bytes they hand out. */
module Malloc {
  import opened Arenas
  import opened Bitmaps
  import Pages
  import opened Wrappers

  type Bytes = map<nat, bv8>

  /** What is at an address. */
  function At(bytes: Bytes, a: nat): bv8 {
    if a in bytes then bytes[a] else 0
  }

  ghost predicate Same(before: Bytes, after: Bytes, a: nat, n: nat) {
    forall k: nat | a <= k < a + n :: At(after, k) == At(before, k)
  }

  ghost predicate Zero(bytes: Bytes, a: nat, n: nat) {
    forall k: nat | a <= k < a + n :: At(bytes, k) == 0
  }

  ghost predicate OnlyAt(before: Bytes, after: Bytes, a: nat, n: nat) {
    forall k: nat | !(a <= k < a + n) :: At(after, k) == At(before, k)
  }

  /** The two words of a free block that link it into its list. */
  const LINKS: nat := 8

  /** Only links of the blocks of a list were written. */
  ghost predicate OnlyLinks(before: Bytes, after: Bytes, list: seq<nat>) {
    forall k: nat | At(after, k) != At(before, k) :: exists b :: b in list && b <= k < b + LINKS
  }

  /** struct mem_block_desc without its list. */
  datatype Desc = Desc(size: nat, perArena: nat)

  /** block_desc_init. */
  method BlockDescInit() returns (descs: seq<Desc>)
    ensures |descs| == DESCS && forall i: nat | i < DESCS :: descs[i] == Desc(Size(i), PerArena(i))
  {
    descs := [];
    var size := 16;
    while |descs| < DESCS
      invariant |descs| <= DESCS && size == Size(|descs|)
      invariant forall i: nat | i < |descs| :: descs[i] == Desc(Size(i), PerArena(i))
    {
      descs := descs + [Desc(size, (PAGE - HEADER) / size)];
      size := size * 2;
    }
  }

  /** n pages from p on are in the range of the virtual bitmap, and below the stack of a program. */
  predicate Fits(s: nat, start: nat, size: nat, p: nat, n: nat) {
    start <= p && p + n <= start + size && (s != 0 ==> p + n <= Pages.STACK_PAGE)
  }

  /** The pages of every arena are mapped, and inside the range of the virtual bitmap. */
  ghost predicate Backed(arenas: Arenas, mapping: map<Pages.Use, nat>, s: nat, start: nat, size: nat) {
    forall p | p in arenas :: Fits(s, start, size, p, Span(arenas[p]))
                              && forall k | p <= k < p + Span(arenas[p]) :: Pages.Page(s, k) in mapping
  }

  lemma NewIsClear(arenas: Arenas, before: map<Pages.Use, nat>, after: map<Pages.Use, nat>, s: nat, start: nat, size: nat, p: nat, n: nat)
    requires Backed(arenas, before, s, start, size) && Pages.GrewBy(before, after, s, p, n) && n >= 1
    ensures Clear(arenas, p, n)
  {
    forall q | q in arenas ensures q + Span(arenas[q]) <= p || p + n <= q {
      assert Pages.Page(s, q) in before;
      assert q <= p < q + Span(arenas[q]) ==> Pages.Page(s, p) in before;
      assert Pages.Page(s, p) !in before;
    }
  }

  lemma NewFits(before: map<Pages.Use, nat>, after: map<Pages.Use, nat>, s: nat, start: nat, size: nat, p: nat, n: nat)
    requires Pages.GrewBy(before, after, s, p, n) && n >= 1 && start <= p && p + n <= start + size
    requires s != 0 ==> start + size <= Pages.TABLE_PAGES * Pages.USER_DIRS && Pages.Page(s, Pages.STACK_PAGE) in before
    ensures Fits(s, start, size, p, n)
  {
    assert s != 0 && p + n > Pages.STACK_PAGE ==> p <= Pages.STACK_PAGE < p + n;
  }

  lemma NewIsBacked(arenas: Arenas, before: map<Pages.Use, nat>, after: map<Pages.Use, nat>, s: nat, start: nat, size: nat, p: nat, a: Arena)
    requires Backed(arenas, before, s, start, size) && Pages.GrewBy(before, after, s, p, Span(a)) && Fits(s, start, size, p, Span(a))
    ensures Backed(arenas[p := a], after, s, start, size)
  {
  }

  /** Giving back the pages of an arena leaves those of the others. */
  lemma GoneIsBacked(arenas: Arenas, before: map<Pages.Use, nat>, after: map<Pages.Use, nat>, s: nat, start: nat, size: nat, p: nat)
    requires Backed(arenas, before, s, start, size) && Apart(arenas) && p in arenas && Pages.ShrunkBy(before, after, s, p, Span(arenas[p]))
    ensures Backed(arenas - {p}, after, s, start, size)
    ensures s != 0 && Pages.Page(s, Pages.STACK_PAGE) in before ==> Pages.Page(s, Pages.STACK_PAGE) in after
  {
    forall q, k | q in arenas && q != p && q <= k < q + Span(arenas[q]) ensures Pages.Page(s, k) in after {
      assert Pages.Page(s, k) in before;
      if q < p {
        assert q + Span(arenas[q]) <= p;
      } else {
        assert p + Span(arenas[p]) <= q;
      }
    }
    assert Fits(s, start, size, p, Span(arenas[p]));
  }

  /** The heap of the kernel or of one program. */
  class Heap {
    const space: nat
    var descs: seq<Desc>
    var free: seq<seq<nat>>
    var arenas: Arenas
    /** The space's memory. The links of the free blocks are in it as well. */
    var bytes: Bytes

    constructor (space: nat)
      ensures this.space == space && Valid() && arenas == map[] && bytes == map[]
    {
      this.space := space;
      arenas, bytes := map[], map[];
      free := seq(DESCS, i => []);
      descs := [];
      new;
      descs := BlockDescInit();
    }

    ghost predicate Valid()
      reads this
    {
      Good(arenas, free) && Descs()
    }

    ghost predicate Descs()
      reads this
    {
      |descs| == DESCS && forall i: nat | i < DESCS :: descs[i] == Desc(Size(i), PerArena(i))
    }

    /** memset(a, 0, n). */
    method Clear(a: nat, n: nat)
      modifies this`bytes
      ensures Zero(bytes, a, n) && OnlyAt(old(bytes), bytes, a, n)
    {
      var k := 0;
      while k < n
        invariant k <= n && Zero(bytes, a, k) && OnlyAt(old(bytes), bytes, a, k)
      {
        ghost var before := bytes;
        bytes := bytes[a + k := 0];
        assert forall j: nat :: At(bytes, j) == if j == a + k then 0 else At(before, j);
        k := k + 1;
      }
    }

    /** What an operation on a list does to memory: the links of some of its nodes get other values. */
    method WriteLinks(list: seq<nat>)
      modifies this`bytes
      ensures OnlyLinks(old(bytes), bytes, list)
    {
      var n := 0;
      while n < |list|
        invariant n <= |list| && OnlyLinks(old(bytes), bytes, list)
      {
        var j := 0;
        while j < LINKS
          invariant j <= LINKS && OnlyLinks(old(bytes), bytes, list)
        {
          var v: bv8 := *;
          ghost var before := bytes;
          bytes := bytes[list[n] + j := v];
          assert list[n] in list;
          assert forall k: nat | At(bytes, k) != At(before, k) :: k == list[n] + j;
          j := j + 1;
        }
        n := n + 1;
      }
    }
  }

  // ---------------------------------------------------------------- allocations keep their bytes

  /** Every allocation has the bytes it had. */
  ghost predicate DataKept(arenas: Arenas, free: seq<seq<nat>>, before: Bytes, after: Bytes) {
    forall c: nat | Live(arenas, free, c) :: Same(before, after, c, Extent(arenas, c))
  }

  lemma DataKeptTwice(arenas: Arenas, free: seq<seq<nat>>, a: Bytes, b: Bytes, c: Bytes)
    requires DataKept(arenas, free, a, b) && DataKept(arenas, free, b, c)
    ensures DataKept(arenas, free, a, c)
  {
    forall x: nat | Live(arenas, free, x) ensures Same(a, c, x, Extent(arenas, x)) {
      assert Same(a, b, x, Extent(arenas, x)) && Same(b, c, x, Extent(arenas, x));
    }
  }

  /** Clearing pages that are in no arena. */
  lemma PagesKeepData(arenas: Arenas, free: seq<seq<nat>>, before: Bytes, after: Bytes, p: nat, n: nat)
    requires Clear(arenas, p, n) && OnlyAt(before, after, PAGE * p, PAGE * n)
    ensures DataKept(arenas, free, before, after)
  {
    forall c: nat | Live(arenas, free, c) ensures Same(before, after, c, Extent(arenas, c)) {
      LiveInside(arenas, free, c);
      var q: nat := c / PAGE;
      assert q + Span(arenas[q]) <= p || p + n <= q;
    }
  }

  /** Writing in a free block. */
  lemma BlockKeepsData(arenas: Arenas, free: seq<seq<nat>>, i: nat, b: nat, before: Bytes, after: Bytes)
    requires Sound(arenas, free) && i < DESCS && b in free[i] && OnlyAt(before, after, b, Size(i))
    ensures DataKept(arenas, free, before, after)
  {
    forall c: nat | Live(arenas, free, c) ensures Same(before, after, c, Extent(arenas, c)) {
      FreeApart(arenas, free, i, b, c);
    }
  }

  /** Writing links of free blocks. */
  lemma LinksKeepData(arenas: Arenas, free: seq<seq<nat>>, i: nat, before: Bytes, after: Bytes)
    requires Sound(arenas, free) && i < DESCS && OnlyLinks(before, after, free[i])
    ensures DataKept(arenas, free, before, after)
  {
    SizeValues(i);
    forall c: nat | Live(arenas, free, c) ensures Same(before, after, c, Extent(arenas, c)) {
      forall k: nat | c <= k < c + Extent(arenas, c) ensures At(after, k) == At(before, k) {
        if At(after, k) != At(before, k) {
          var b :| b in free[i] && b <= k < b + LINKS;
          FreeApart(arenas, free, i, b, c);
        }
      }
    }
  }

  // ---------------------------------------------------------------- sys_malloc_

  /** NoTable: malloc_page had no frame for a page table, and the source goes on with frame 0. */
  datatype Result = Null | Panicked | NoTable | Ptr(b: nat)

  /** The blocks of a page, in order. */
  function BlockList(p: nat, i: nat, n: nat): (list: seq<nat>)
    ensures |list| == n && forall k: nat | k < n :: list[k] == BlockAt(p, i, k)
  {
    if n == 0 then [] else BlockList(p, i, n - 1) + [BlockAt(p, i, n - 1)]
  }

  lemma BlockListIsBlocks(p: nat, i: nat, n: nat)
    requires i < DESCS
    ensures NoDup(BlockList(p, i, n)) && forall b :: b in BlockList(p, i, n) <==> b in Blocks(p, i, n)
  {
    var list := BlockList(p, i, n);
    forall k: nat, m: nat | k < m < n ensures list[k] != list[m] {
      BlocksApart(p, i, k, m);
      SizeValues(i);
    }
    forall b | b in Blocks(p, i, n) ensures b in list {
      var k: nat :| k < n && b == BlockAt(p, i, k);
      assert list[k] == b;
    }
  }

  /** list_append of the next block of a new arena. */
  method AppendBlock(heap: Heap, p: nat, i: nat, k: nat, ghost arenas0: Arenas, ghost free0: seq<seq<nat>>, ghost bytes0: Bytes)
    requires i < DESCS && k < PerArena(i) && |free0| == |heap.free| == DESCS && Clear(arenas0, p, 1)
    requires heap.free == With(free0, i, BlockList(p, i, k)) && DataKept(arenas0, free0, bytes0, heap.bytes)
    modifies heap`free, heap`bytes
    ensures heap.free == With(free0, i, BlockList(p, i, k + 1)) && DataKept(arenas0, free0, bytes0, heap.bytes)
  {
    hide Live, Blocks, OnlyLinks, DataKept, Clear;
    var b := BlockAt(p, i, k);
    NotThere(p, i, k);
    assert heap.free[i] == BlockList(p, i, k) && b !in heap.free[i];
    heap.free := With(heap.free, i, heap.free[i] + [b]);
    assert heap.free[i] == BlockList(p, i, k + 1);
    ghost var bytes1 := heap.bytes;
    heap.WriteLinks(heap.free[i]);
    CarveKeepsData(arenas0, free0, i, p, k + 1, bytes0, bytes1, heap.bytes);
  }

  /** The part of sys_malloc_ that makes a page into an arena for the empty list of a size. */
  method Carve(heap: Heap, p: nat, i: nat)
    requires heap.Valid() && i < DESCS && heap.free[i] == [] && Clear(heap.arenas, p, 1)
    modifies heap`arenas, heap`free, heap`bytes
    ensures Sound(heap.arenas, heap.free) && heap.Descs()
    ensures heap.arenas == old(heap.arenas)[p := Small(i, PerArena(i))]
    ensures heap.free == With(old(heap.free), i, BlockList(p, i, PerArena(i)))
    ensures DataKept(old(heap.arenas), old(heap.free), old(heap.bytes), heap.bytes)
  {
    assert |heap.free| == DESCS;
    hide Sound, InUse, Live, Blocks, OnlyAt, OnlyLinks, DataKept, Clear;
    ghost var arenas0, free0, bytes0 := heap.arenas, heap.free, heap.bytes;
    heap.Clear(PAGE * p, PAGE);
    PagesKeepData(arenas0, free0, bytes0, heap.bytes, p, 1);
    heap.arenas := heap.arenas[p := Small(i, heap.descs[i].perArena)];
    var k := 0;
    assert With(free0, i, []) == free0;
    while k < heap.descs[i].perArena
      invariant k <= PerArena(i) && heap.descs == old(heap.descs) && heap.arenas == arenas0[p := Small(i, PerArena(i))]
      invariant heap.free == With(free0, i, BlockList(p, i, k))
      invariant DataKept(arenas0, free0, bytes0, heap.bytes)
    {
      assert heap.descs[i].size == Size(i);
      AppendBlock(heap, p, i, k, arenas0, free0, bytes0);
      k := k + 1;
    }
    BlockListIsBlocks(p, i, PerArena(i));
    CarveIsSound(arenas0, free0, i, p, BlockList(p, i, PerArena(i)));
  }

  lemma NotThere(p: nat, i: nat, k: nat)
    requires i < DESCS
    ensures BlockAt(p, i, k) !in BlockList(p, i, k)
  {
    forall m: nat | m < k ensures BlockList(p, i, k)[m] != BlockAt(p, i, k) {
      BlocksApart(p, i, m, k);
      SizeValues(i);
    }
  }

  lemma NewLinksKeepData(arenas: Arenas, free: seq<seq<nat>>, i: nat, p: nat, n: nat, before: Bytes, after: Bytes)
    requires Clear(arenas, p, 1) && i < DESCS && n <= PerArena(i) && OnlyLinks(before, after, BlockList(p, i, n))
    ensures DataKept(arenas, free, before, after)
  {
    SizeValues(i);
    forall k: nat | !(PAGE * p <= k < PAGE * p + PAGE) ensures At(after, k) == At(before, k) {
      if At(after, k) != At(before, k) {
        var b :| b in BlockList(p, i, n) && b <= k < b + LINKS;
        var m: nat :| m < n && BlockList(p, i, n)[m] == b;
        BlockInPage(p, i, m);
      }
    }
    PagesKeepData(arenas, free, before, after, p, 1);
  }

  lemma CarveKeepsData(arenas: Arenas, free: seq<seq<nat>>, i: nat, p: nat, n: nat, bytes0: Bytes, bytes1: Bytes, bytes: Bytes)
    requires Clear(arenas, p, 1) && i < DESCS && n <= PerArena(i) && OnlyLinks(bytes1, bytes, BlockList(p, i, n))
    requires DataKept(arenas, free, bytes0, bytes1)
    ensures DataKept(arenas, free, bytes0, bytes)
  {
    NewLinksKeepData(arenas, free, i, p, n, bytes1, bytes);
    DataKeptTwice(arenas, free, bytes0, bytes1, bytes);
  }

  /** Every arena but the one in page p has a block in use. */
  ghost predicate InUseBut(arenas: Arenas, p: nat) {
    forall q | q in arenas && arenas[q].Small? && q != p :: arenas[q].count < PerArena(arenas[q].desc)
  }

  /** There is one more allocation, b; the others are as they were, and so are their bytes. */
  ghost predicate Gained(arenas0: Arenas, free0: seq<seq<nat>>, bytes0: Bytes, arenas: Arenas, free: seq<seq<nat>>, bytes: Bytes, b: nat) {
    && Live(arenas, free, b) && !Live(arenas0, free0, b)
    && (forall c: nat :: Live(arenas, free, c) <==> Live(arenas0, free0, c) || c == b)
    && (forall c: nat | Live(arenas0, free0, c) :: Extent(arenas, c) == Extent(arenas0, c))
    && DataKept(arenas0, free0, bytes0, bytes)
  }

  /** There is one allocation less, b; the others are as they were, and so are their bytes. */
  ghost predicate Lost(arenas0: Arenas, free0: seq<seq<nat>>, bytes0: Bytes, arenas: Arenas, free: seq<seq<nat>>, bytes: Bytes, b: nat) {
    && (forall c: nat :: Live(arenas, free, c) <==> Live(arenas0, free0, c) && c != b)
    && (forall c: nat | Live(arenas, free, c) :: Extent(arenas, c) == Extent(arenas0, c))
    && DataKept(arenas, free, bytes0, bytes)
  }

  lemma PopIsGood(arenas: Arenas, free: seq<seq<nat>>, i: nat)
    requires Sound(arenas, free) && i < DESCS && free[i] != [] && InUseBut(arenas, free[i][0] / PAGE)
    ensures var b := free[i][0]; var p := b / PAGE;
            && IsBlock(arenas, i, b) && arenas[p].count >= 1 && b in free[i]
            && Good(Recount(arenas, p, arenas[p].count - 1), With(free, i, free[i][1..]))
            && Live(Recount(arenas, p, arenas[p].count - 1), With(free, i, free[i][1..]), b)
            && Extent(Recount(arenas, p, arenas[p].count - 1), b) == Size(i)
  {
    PopIsSound(arenas, free, i);
    var b := free[i][0];
    assert GoodList(arenas, free[i], i) && Counted(arenas, free, b / PAGE);
    NotMoreThanAll(arenas, free[i], i, b / PAGE);
  }

  lemma PopGains(arenas: Arenas, free: seq<seq<nat>>, i: nat, bytes0: Bytes, bytes: Bytes)
    requires Sound(arenas, free) && i < DESCS && free[i] != [] && InUseBut(arenas, free[i][0] / PAGE) && DataKept(arenas, free, bytes0, bytes)
    ensures var b := free[i][0]; var p := b / PAGE;
            && IsBlock(arenas, i, b) && arenas[p].count >= 1
            && Gained(arenas, free, bytes0, Recount(arenas, p, arenas[p].count - 1), With(free, i, free[i][1..]), bytes, b)
  {
    hide Good, Sound, Live, InUseBut, DataKept, IsBlock;
    ListsCount(arenas, free);
    PopIsGood(arenas, free, i);
    var b := free[i][0];
    var arenas1, free1 := Recount(arenas, b / PAGE, arenas[b / PAGE].count - 1), With(free, i, free[i][1..]);
    PopLive(arenas, free, i, b);
    forall c: nat
      ensures (Live(arenas1, free1, c) <==> Live(arenas, free, c) || c == b) && (Live(arenas, free, c) ==> c / PAGE in arenas && Extent(arenas1, c) == Extent(arenas, c))
    {
      PopLive(arenas, free, i, c);
      LiveHere(arenas, free, c);
    }
  }

  lemma LiveHere(arenas: Arenas, free: seq<seq<nat>>, c: nat)
    ensures Live(arenas, free, c) ==> c / PAGE in arenas
  {
  }

  /** The end of sys_malloc_ for a small size: the first free block is taken and cleared. */
  method Take(heap: Heap, i: nat) returns (b: nat)
    requires Sound(heap.arenas, heap.free) && heap.Descs() && i < DESCS && heap.free[i] != [] && InUseBut(heap.arenas, heap.free[i][0] / PAGE)
    modifies heap`arenas, heap`free, heap`bytes
    ensures heap.Valid() && Gained(old(heap.arenas), old(heap.free), old(heap.bytes), heap.arenas, heap.free, heap.bytes, b)
    ensures Extent(heap.arenas, b) == Size(i) && Zero(heap.bytes, b, Size(i))
    ensures b / PAGE in old(heap.arenas) && heap.arenas == old(heap.arenas)[b / PAGE := heap.arenas[b / PAGE]] && heap.arenas[b / PAGE].Small?
    ensures old(heap.arenas)[b / PAGE].Small?
  {
    assert |heap.free| == DESCS;
    hide Good, Sound, InUse, InUseBut, Live, Gained, DataKept, OnlyAt, OnlyLinks, Zero;
    ghost var arenas0, free0, bytes0 := heap.arenas, heap.free, heap.bytes;
    b := heap.free[i][0];
    PopIsGood(arenas0, free0, i);
    heap.WriteLinks(heap.free[i]);
    LinksKeepData(arenas0, free0, i, bytes0, heap.bytes);
    ghost var bytes1 := heap.bytes;
    heap.Clear(b, heap.descs[i].size);
    BlockKeepsData(arenas0, free0, i, b, bytes1, heap.bytes);
    DataKeptTwice(arenas0, free0, bytes0, bytes1, heap.bytes);
    PopGains(arenas0, free0, i, bytes0, heap.bytes);
    heap.free := With(heap.free, i, heap.free[i][1..]);
    heap.arenas := Recount(heap.arenas, b / PAGE, heap.arenas[b / PAGE].count - 1);
  }

  /** All that a heap and the page layer below it keep between calls. */
  ghost predicate Ready(heap: Heap, mem: Pages.Memory, vp: Pages.VirtualPool)
    reads heap, mem, mem.kernelPool, mem.userPool, mem.kernelPool.bits, mem.userPool.bits, vp, vp.bitmap, vp.bitmap.bits
  {
    && heap.Valid() && PagesReady(mem, vp, heap.space)
    && Backed(heap.arenas, mem.mapping, heap.space, vp.start, vp.bitmap.Size())
  }

  ghost predicate PagesReady(mem: Pages.Memory, vp: Pages.VirtualPool, s: nat)
    reads mem, mem.kernelPool, mem.userPool, mem.kernelPool.bits, mem.userPool.bits, vp, vp.bitmap, vp.bitmap.bits
  {
    && mem.Valid() && vp.bitmap.bits != mem.kernelPool.bits && vp.bitmap.bits != mem.userPool.bits
    && Pages.Marks(vp.bitmap.Used(), vp.bitmap.Size(), vp.start, mem.mapping, s)
    && (s != 0 ==> vp.start + vp.bitmap.Size() <= Pages.TABLE_PAGES * Pages.USER_DIRS && Pages.Page(s, Pages.STACK_PAGE) in mem.mapping)
  }

  /** DIV_ROUND_UP(size + sizeof(struct arena), PG_SIZE). */
  function PagesFor(size: nat): nat {
    (size + HEADER + PAGE - 1) / PAGE
  }

  /** As many pages as hold the size and the header, and not one more. */
  lemma PagesForFits(size: nat)
    requires size > 0
    ensures PagesFor(size) >= 1 && size <= PAGE * PagesFor(size) - HEADER
    ensures PAGE * (PagesFor(size) - 1) - HEADER < size
  {
  }

  lemma BackedSame(arenas: Arenas, arenas1: Arenas, mapping: map<Pages.Use, nat>, s: nat, start: nat, size: nat, p: nat)
    requires Backed(arenas, mapping, s, start, size) && p in arenas && p in arenas1 && arenas1 == arenas[p := arenas1[p]]
    requires Span(arenas1[p]) == Span(arenas[p])
    ensures Backed(arenas1, mapping, s, start, size)
  {
  }

  /** Size i is the smallest that is enough. */
  ghost predicate Smallest(i: nat, size: nat) {
    size <= Size(i) && forall j: nat | j < i :: Size(j) < size
  }

  /** The loop that looks for the smallest size that is enough. */
  method FindDesc(descs: seq<Desc>, size: nat) returns (i: nat)
    requires |descs| == DESCS && (forall j: nat | j < DESCS :: descs[j] == Desc(Size(j), PerArena(j))) && size <= 1024
    ensures i < DESCS && Smallest(i, size)
    ensures size <= descs[i].size && (i > 0 ==> descs[i - 1].size < size)
    ensures forall j: nat | Smallest(j, size) :: j == i
  {
    i := 0;
    SizeValues(6);
    while size > descs[i].size
      invariant i < DESCS && forall j: nat | j < i :: Size(j) < size
      decreases DESCS - i
    {
      i := i + 1;
    }
    forall j: nat | Smallest(j, size) ensures j == i {
      assert i < j ==> Size(i) < size;
    }
  }

  /** What the page layer has for the pages of a space. */
  datatype Supply = Supply(used: set<nat>, size: nat, start: nat, mapping: map<Pages.Use, nat>, freeKernel: nat, freeUser: nat)

  ghost function SupplyOf(mem: Pages.Memory, vp: Pages.VirtualPool): Supply
    reads mem, mem.kernelPool, mem.userPool, mem.kernelPool.bits, mem.userPool.bits, vp, vp.bitmap, vp.bitmap.bits
  {
    Supply(vp.bitmap.Used(), vp.bitmap.Size(), vp.start, mem.mapping, mem.FreeKernel(), mem.FreeUser())
  }

  /** There are n addresses in a row that the scan sees, and this becomes of a request for them. */
  ghost predicate Outcome(p: Supply, s: nat, n: nat, outcome: Pages.Outcome) {
    exists b: nat :: FirstFit(p.used, p.size, b, n) && !WholeTail(p.used, p.size, n)
      && Pages.OutcomeOf(p.mapping, s, p.start + b, n, p.freeKernel, p.freeUser) == outcome
  }

  lemma SomeFirstFit(used: set<nat>, size: nat, s: nat, n: nat) returns (b: nat)
    requires Run(used, size, s, n)
    ensures FirstFit(used, size, b, n)
  {
    if t: nat :| t < s && Run(used, size, t, n) {
      b := SomeFirstFit(used, size, t, n);
    } else {
      b := s;
    }
  }

  lemma FitIfRun(used: set<nat>, size: nat, n: nat)
    ensures HasRun(used, size, n) <==> exists b: nat :: FirstFit(used, size, b, n)
  {
    if s: nat :| Run(used, size, s, n) {
      var b := SomeFirstFit(used, size, s, n);
    }
  }

  /** In the kernel n pages are to be had exactly when n addresses in a row and n frames are. */
  lemma KernelOutcome(p: Supply, n: nat)
    ensures Outcome(p, 0, n, Pages.Done) <==> HasRun(p.used, p.size, n) && !WholeTail(p.used, p.size, n) && n <= p.freeKernel
  {
    hide WholeTail, HasRun, FirstFit;
    FitIfRun(p.used, p.size, n);
    if b: nat :| FirstFit(p.used, p.size, b, n) {
    }
  }

  lemma {:induction false} LackingAtMost(mapping: map<Pages.Use, nat>, s: nat, v: nat, n: nat)
    ensures |Pages.Lacking(mapping, s, v, n)| <= n
    decreases n
  {
    if n == 0 {
      assert Pages.Lacking(mapping, s, v, 0) == {};
    } else {
      LackingAtMost(mapping, s, v, n - 1);
      Pages.LackingMore(mapping, s, v, n - 1);
      hide Pages.Lacking, Pages.NeedsTable;
      var d := (v + n - 1) / Pages.TABLE_PAGES;
      assert |Pages.Lacking(mapping, s, v, n - 1) + {d}| <= |Pages.Lacking(mapping, s, v, n - 1)| + 1;
    }
  }

  /** In a program they are when there is a frame for each, and for each a table of its own at the worst. */
  lemma ProgramOutcome(p: Supply, s: nat, n: nat)
    requires s != 0 && HasRun(p.used, p.size, n) && !WholeTail(p.used, p.size, n) && n <= p.freeUser && n <= p.freeKernel
    ensures Outcome(p, s, n, Pages.Done)
  {
    hide WholeTail, HasRun, FirstFit;
    FitIfRun(p.used, p.size, n);
    var b: nat :| FirstFit(p.used, p.size, b, n);
    LackingAtMost(p.mapping, s, p.start + b, n);
    hide Pages.Lacking;
    assert Pages.OutcomeOf(p.mapping, s, p.start + b, n, p.freeKernel, p.freeUser) == Pages.Done;
  }

  /** malloc_page answers as the supply says. */
  lemma AnswerIsOutcome(p: Supply, s: nat, n: nat, r: Pages.MallocResult)
    requires r == Pages.NoAddress <==> !HasRun(p.used, p.size, n) || WholeTail(p.used, p.size, n)
    requires forall b: nat | r != Pages.NoAddress && FirstFit(p.used, p.size, b, n) ::
      Pages.Answers(r, Pages.OutcomeOf(p.mapping, s, p.start + b, n, p.freeKernel, p.freeUser), p.start + b)
    ensures r.Got? <==> Outcome(p, s, n, Pages.Done)
    ensures r == Pages.NoTable <==> Outcome(p, s, n, Pages.OutOfTables)
  {
    hide WholeTail, HasRun, FirstFit, Pages.OutcomeOf;
    FitIfRun(p.used, p.size, n);
    if r != Pages.NoAddress {
      var b: nat :| FirstFit(p.used, p.size, b, n);
      Pages.OnlyFit(p.used, p.size, b, n);
    }
  }

  /** Pages from the page layer for a new arena. */
  method NewPages(heap: Heap, mem: Pages.Memory, vp: Pages.VirtualPool, n: nat) returns (r: Pages.MallocResult)
    requires Ready(heap, mem, vp) && 0 < n < 3840
    modifies mem`mapping, mem`owner, mem.kernelPool.bits, mem.userPool.bits, vp.bitmap.bits
    ensures r.Got? <==> Outcome(old(SupplyOf(mem, vp)), heap.space, n, Pages.Done)
    ensures r == Pages.NoTable <==> Outcome(old(SupplyOf(mem, vp)), heap.space, n, Pages.OutOfTables)
    ensures r == Pages.NoTable ==> heap.space != 0
    ensures r == Pages.NoAddress || r == Pages.NoFrame ==> Ready(heap, mem, vp)
    ensures r.Got? ==>
      && PagesReady(mem, vp, heap.space) && Clear(heap.arenas, r.page, n)
      && Pages.GrewBy(old(mem.mapping), mem.mapping, heap.space, r.page, n)
      && Fits(heap.space, vp.start, vp.bitmap.Size(), r.page, n)
  {
    hide UsedIn, Pages.Marks, Pages.GrewBy, Pages.Fresh, Pages.Mapped, Pages.Pooled, Pages.Shaped, FirstFit, HasRun, WholeTail, Backed,
      Good, Clear, Fits, FreeIn,
      Outcome, Pages.Answers, Pages.OutcomeOf, Pages.Tracks, Pages.Lacking;
    ghost var used, mapping0, supply := vp.bitmap.Used(), mem.mapping, SupplyOf(mem, vp);
    r := Pages.MallocPage(mem, heap.space, vp, n);
    AnswerIsOutcome(supply, heap.space, n, r);
    if r == Pages.NoFrame {
      FitIfRun(used, vp.bitmap.Size(), n);
      ghost var b: nat :| FirstFit(used, vp.bitmap.Size(), b, n);
      GrownIsBacked(heap.arenas, mapping0, mem.mapping, heap.space, vp.start, vp.bitmap.Size(), vp.start + b, old(mem.FreeFor(heap.space)));
    }
    if r.Got? {
      Pages.RunIsFree(used, vp.bitmap.Size(), vp.start, mapping0, heap.space, r.page - vp.start, n);
      NewIsClear(heap.arenas, mapping0, mem.mapping, heap.space, vp.start, vp.bitmap.Size(), r.page, n);
      NewFits(mapping0, mem.mapping, heap.space, vp.start, vp.bitmap.Size(), r.page, n);
      Pages.GrewKeeps(mapping0, mem.mapping, heap.space, r.page, n);
    }
  }

  /** More pages leave the arenas' pages where they are. */
  lemma GrownIsBacked(arenas: Arenas, before: map<Pages.Use, nat>, after: map<Pages.Use, nat>, s: nat, start: nat, size: nat, p: nat, n: nat)
    requires Backed(arenas, before, s, start, size) && Pages.GrewBy(before, after, s, p, n)
    ensures Backed(arenas, after, s, start, size)
    ensures Pages.Page(s, Pages.STACK_PAGE) in before ==> Pages.Page(s, Pages.STACK_PAGE) in after
  {
  }

  /** sys_malloc_, the part for sizes above 1024. */
  method MallocLarge(heap: Heap, mem: Pages.Memory, vp: Pages.VirtualPool, size: nat) returns (r: Result)
    requires Ready(heap, mem, vp) && size > 1024
    modifies heap`arenas, heap`bytes, mem`mapping, mem`owner, mem.kernelPool.bits, mem.userPool.bits, vp.bitmap.bits
    ensures r == Panicked <==> PagesFor(size) >= 3840
    ensures r.Ptr? <==> PagesFor(size) < 3840 && Outcome(old(SupplyOf(mem, vp)), heap.space, PagesFor(size), Pages.Done)
    ensures r == NoTable <==> PagesFor(size) < 3840 && Outcome(old(SupplyOf(mem, vp)), heap.space, PagesFor(size), Pages.OutOfTables)
    ensures r == NoTable ==> heap.space != 0
    ensures r == Null || r == Panicked ==> Ready(heap, mem, vp)
    ensures !r.Ptr? ==> heap.arenas == old(heap.arenas) && heap.bytes == old(heap.bytes)
    ensures r.Ptr? ==>
      && Ready(heap, mem, vp) && Gained(old(heap.arenas), heap.free, old(heap.bytes), heap.arenas, heap.free, heap.bytes, r.b)
      && size <= Extent(heap.arenas, r.b) && Zero(heap.bytes, r.b, Extent(heap.arenas, r.b))
  {
    hide UsedIn, Pages.Marks, Pages.GrewBy, Pages.Mapped, Pages.Pooled, Pages.Shaped, Backed, Good, Clear, Live, DataKept, OnlyAt, Gained;
    var n := PagesFor(size);
    PagesForFits(size);
    if n >= 3840 {
      return Panicked;
    }
    ghost var arenas0, bytes0, mapping0 := heap.arenas, heap.bytes, mem.mapping;
    var got := NewPages(heap, mem, vp, n);
    if !got.Got? {
      return if got == Pages.NoTable then NoTable else Null;
    }
    var p := got.page;
    heap.Clear(PAGE * p, PAGE * n);
    PagesKeepData(arenas0, heap.free, bytes0, heap.bytes, p, n);
    LargeIsSound(arenas0, heap.free, p, n);
    LargeGains(arenas0, heap.free, bytes0, heap.bytes, p, n);
    NewIsBacked(arenas0, mapping0, mem.mapping, heap.space, vp.start, vp.bitmap.Size(), p, Large(n));
    heap.arenas := heap.arenas[p := Large(n)];
    PageOfLarge(p);
    return Ptr(PAGE * p + HEADER);
  }

  lemma PageOfLarge(p: nat)
    ensures (PAGE * p + HEADER) / PAGE == p
  {
  }

  lemma LargeGains(arenas: Arenas, free: seq<seq<nat>>, bytes0: Bytes, bytes: Bytes, p: nat, n: nat)
    requires Good(arenas, free) && n >= 1 && Clear(arenas, p, n) && DataKept(arenas, free, bytes0, bytes)
    ensures Gained(arenas, free, bytes0, arenas[p := Large(n)], free, bytes, PAGE * p + HEADER)
  {
    var arenas1 := arenas[p := Large(n)];
    PageOfLarge(p);
    WithArenaApart(arenas, p, Large(n));
    hide Live, DataKept;
    forall c: nat
      ensures (Live(arenas1, free, c) <==> Live(arenas, free, c) || c == PAGE * p + HEADER) && (Live(arenas, free, c) ==> c / PAGE in arenas && Extent(arenas1, c) == Extent(arenas, c))
    {
      LargeLive(arenas, free, p, n, c);
      LiveHere(arenas, free, c);
    }
    LiveHere(arenas, free, PAGE * p + HEADER);
  }

  lemma GainedAfterCarve(arenas0: Arenas, free0: seq<seq<nat>>, bytes0: Bytes, i: nat, p: nat, bytes1: Bytes,
                         arenas: Arenas, free: seq<seq<nat>>, bytes: Bytes, b: nat)
    requires |free0| == DESCS && i < DESCS && free0[i] == [] && Clear(arenas0, p, 1) && DataKept(arenas0, free0, bytes0, bytes1)
    requires Gained(arenas0[p := Small(i, PerArena(i))], With(free0, i, BlockList(p, i, PerArena(i))), bytes1, arenas, free, bytes, b)
    ensures Gained(arenas0, free0, bytes0, arenas, free, bytes, b)
  {
    var arenas1, list := arenas0[p := Small(i, PerArena(i))], BlockList(p, i, PerArena(i));
    var free1 := With(free0, i, list);
    BlockListIsBlocks(p, i, PerArena(i));
    assert p !in arenas0;
    hide Live, Clear, Blocks;
    forall c: nat
      ensures (Live(arenas1, free1, c) <==> Live(arenas0, free0, c)) && (Live(arenas0, free0, c) ==> c / PAGE in arenas0 && Extent(arenas1, c) == Extent(arenas0, c))
    {
      CarveLive(arenas0, free0, i, p, list, c);
      LiveHere(arenas0, free0, c);
    }
    forall c: nat | Live(arenas0, free0, c) ensures Same(bytes0, bytes, c, Extent(arenas0, c)) {
      assert Same(bytes0, bytes1, c, Extent(arenas0, c)) && Same(bytes1, bytes, c, Extent(arenas1, c));
    }
  }

  lemma CarvedList(p: nat, i: nat)
    requires i < DESCS
    ensures BlockList(p, i, PerArena(i)) != [] && BlockList(p, i, PerArena(i))[0] / PAGE == p
  {
    PerArenaValues(i);
    BlockInPage(p, i, 0);
  }

  lemma InUseAll(arenas: Arenas, p: nat)
    requires InUse(arenas)
    ensures InUseBut(arenas, p)
  {
  }

  lemma InUseWith(arenas: Arenas, p: nat, a: Arena)
    requires InUse(arenas)
    ensures InUseBut(arenas[p := a], p)
  {
  }

  /** A block of the size that is served with is free. */
  ghost predicate HasBlock(free: seq<seq<nat>>, size: nat) {
    exists i: nat :: i < |free| && Smallest(i, size) && free[i] != []
  }

  lemma HasBlockOf(free: seq<seq<nat>>, size: nat, i: nat)
    requires i < |free| && Smallest(i, size) && forall j: nat | Smallest(j, size) :: j == i
    ensures HasBlock(free, size) <==> free[i] != []
  {
  }

  /** Page p is a new arena for list i, whose blocks are all on the list; other arenas keep their data. */
  ghost predicate Carves(arenas0: Arenas, free0: seq<seq<nat>>, bytes0: Bytes, arenas: Arenas, free: seq<seq<nat>>, bytes: Bytes, p: nat, i: nat) {
    && i < DESCS == |free0| == |free| && Clear(arenas0, p, 1) && arenas == arenas0[p := Small(i, PerArena(i))]
    && free == With(free0, i, BlockList(p, i, PerArena(i))) && free[i] != [] && InUseBut(arenas, free[i][0] / PAGE)
    && DataKept(arenas0, free0, bytes0, bytes)
  }

  /** The part of sys_malloc_ for an empty list: a page becomes an arena for it. */
  method Refill(heap: Heap, mem: Pages.Memory, vp: Pages.VirtualPool, i: nat) returns (r: Result, ghost p: nat)
    requires Ready(heap, mem, vp) && i < DESCS == |heap.free| && heap.free[i] == []
    modifies heap`arenas, heap`free, heap`bytes, mem`mapping, mem`owner, mem.kernelPool.bits, mem.userPool.bits, vp.bitmap.bits
    ensures r.Ptr? <==> Outcome(old(SupplyOf(mem, vp)), heap.space, 1, Pages.Done)
    ensures r == NoTable <==> Outcome(old(SupplyOf(mem, vp)), heap.space, 1, Pages.OutOfTables)
    ensures r == NoTable ==> heap.space != 0
    ensures r != Panicked && (r == Null ==> Ready(heap, mem, vp))
    ensures !r.Ptr? ==> heap.arenas == old(heap.arenas) && heap.free == old(heap.free) && heap.bytes == old(heap.bytes)
    ensures r.Ptr? ==>
      && Sound(heap.arenas, heap.free) && heap.Descs() && PagesReady(mem, vp, heap.space)
      && Backed(heap.arenas, mem.mapping, heap.space, vp.start, vp.bitmap.Size())
      && Carves(old(heap.arenas), old(heap.free), old(heap.bytes), heap.arenas, heap.free, heap.bytes, p, i)
  {
    hide UsedIn, Pages.Marks, Pages.GrewBy, Pages.Mapped, Pages.Pooled, Pages.Shaped, Backed, Sound, InUse, InUseBut, Clear, DataKept,
      PagesReady, Outcome, HasBlock;
    ghost var arenas0, free0, mapping0 := heap.arenas, heap.free, mem.mapping;
    ListCount(arenas0, free0);
    var got := NewPages(heap, mem, vp, 1);
    if !got.Got? {
      return (if got == Pages.NoTable then NoTable else Null), 0;
    }
    p := got.page;
    NewIsBacked(arenas0, mapping0, mem.mapping, heap.space, vp.start, vp.bitmap.Size(), got.page, Small(i, PerArena(i)));
    Carve(heap, got.page, i);
    CarvedList(got.page, i);
    InUseWith(arenas0, got.page, Small(i, PerArena(i)));
    r := Ptr(PAGE * got.page);
  }

  /** sys_malloc_, the part for sizes up to 1024. */
  method MallocSmall(heap: Heap, mem: Pages.Memory, vp: Pages.VirtualPool, size: nat) returns (r: Result)
    requires Ready(heap, mem, vp) && 0 < size <= 1024
    modifies heap`arenas, heap`free, heap`bytes, mem`mapping, mem`owner, mem.kernelPool.bits, mem.userPool.bits, vp.bitmap.bits
    ensures r.Ptr? <==> HasBlock(old(heap.free), size) || Outcome(old(SupplyOf(mem, vp)), heap.space, 1, Pages.Done)
    ensures r == NoTable <==> !HasBlock(old(heap.free), size) && Outcome(old(SupplyOf(mem, vp)), heap.space, 1, Pages.OutOfTables)
    ensures r == NoTable ==> heap.space != 0
    ensures r != Panicked && (r == Null ==> Ready(heap, mem, vp))
    ensures !r.Ptr? ==> heap.arenas == old(heap.arenas) && heap.free == old(heap.free) && heap.bytes == old(heap.bytes)
    ensures r.Ptr? ==>
      && Ready(heap, mem, vp) && Gained(old(heap.arenas), old(heap.free), old(heap.bytes), heap.arenas, heap.free, heap.bytes, r.b)
      && size <= Extent(heap.arenas, r.b) && Zero(heap.bytes, r.b, Extent(heap.arenas, r.b))
  {
    hide UsedIn, Pages.Marks, Pages.Mapped, Pages.Pooled, Pages.Shaped, Backed, Sound, InUse, InUseBut, Clear, Live, DataKept, Gained,
      Zero, PagesReady, Outcome, HasBlock;
    ghost var arenas0, free0, bytes0, p := heap.arenas, heap.free, heap.bytes, 0;
    ListCount(arenas0, free0);
    var i := FindDesc(heap.descs, size);
    HasBlockOf(free0, size, i);
    if heap.free[i] == [] {
      var got;
      got, p := Refill(heap, mem, vp, i);
      if !got.Ptr? {
        return got;
      }
    } else {
      InUseAll(arenas0, heap.free[i][0] / PAGE);
    }
    ghost var arenas1, bytes1 := heap.arenas, heap.bytes;
    var b := Take(heap, i);
    BackedSame(arenas1, heap.arenas, mem.mapping, heap.space, vp.start, vp.bitmap.Size(), b / PAGE);
    if free0[i] == [] {
      GainedAfterCarve(arenas0, free0, bytes0, i, p, bytes1, heap.arenas, heap.free, heap.bytes, b);
    }
    return Ptr(b);
  }

  lemma ListCount(arenas: Arenas, free: seq<seq<nat>>)
    requires Good(arenas, free)
    ensures |free| == DESCS && Sound(arenas, free) && InUse(arenas)
  {
  }

  lemma GainedIsThere(arenas0: Arenas, free0: seq<seq<nat>>, bytes0: Bytes, arenas: Arenas, free: seq<seq<nat>>, bytes: Bytes, b: nat)
    requires Gained(arenas0, free0, bytes0, arenas, free, bytes, b)
    ensures b / PAGE in arenas
  {
  }

  lemma ZeroMeans(bytes: Bytes, b: nat, n: nat)
    requires Zero(bytes, b, n)
    ensures forall a | b <= a < b + n && a in bytes :: bytes[a] == 0
  {
    forall a | b <= a < b + n && a in bytes ensures bytes[a] == 0 {
      assert At(bytes, a) == 0;
    }
  }

  /** Whether a request gets memory. */
  ghost predicate Granted(free: seq<seq<nat>>, p: Supply, s: nat, size: nat, poolSize: nat) {
    0 < size < poolSize &&
    if size > 1024 then PagesFor(size) < 3840 && Outcome(p, s, PagesFor(size), Pages.Done)
    else HasBlock(free, size) || Outcome(p, s, 1, Pages.Done)
  }

  /** Whether it ends with a page table on frame 0. */
  ghost predicate Tableless(free: seq<seq<nat>>, p: Supply, s: nat, size: nat, poolSize: nat) {
    0 < size < poolSize &&
    if size > 1024 then PagesFor(size) < 3840 && Outcome(p, s, PagesFor(size), Pages.OutOfTables)
    else !HasBlock(free, size) && Outcome(p, s, 1, Pages.OutOfTables)
  }

  /** sys_malloc_. What it gives is a piece of memory that was in no allocation, long enough and zeroed; all allocations
      keep their places and their bytes. It is settled by the free blocks and the page layer's supply whether there is
      memory; without any, the heap is as it was and goes on. */
  method SysMalloc(heap: Heap, mem: Pages.Memory, vp: Pages.VirtualPool, size: nat, poolSize: nat) returns (r: Result)
    requires Ready(heap, mem, vp)
    modifies heap`arenas, heap`free, heap`bytes, mem`mapping, mem`owner, mem.kernelPool.bits, mem.userPool.bits, vp.bitmap.bits
    ensures r == Panicked <==> 1024 < size < poolSize && PagesFor(size) >= 3840
    ensures r.Ptr? <==> Granted(old(heap.free), old(SupplyOf(mem, vp)), heap.space, size, poolSize)
    ensures r == NoTable <==> Tableless(old(heap.free), old(SupplyOf(mem, vp)), heap.space, size, poolSize)
    ensures r == Null <== size == 0 || size >= poolSize
    ensures 0 < size <= 1024 && size < poolSize ==>
              (r.Ptr? <==> HasBlock(old(heap.free), size) || Outcome(old(SupplyOf(mem, vp)), heap.space, 1, Pages.Done))
    ensures 1024 < size < poolSize ==>
              (r.Ptr? <==> PagesFor(size) < 3840 && Outcome(old(SupplyOf(mem, vp)), heap.space, PagesFor(size), Pages.Done))
    ensures r == NoTable ==> heap.space != 0
    ensures r != NoTable ==> Ready(heap, mem, vp)
    ensures !r.Ptr? ==> heap.arenas == old(heap.arenas) && heap.free == old(heap.free) && heap.bytes == old(heap.bytes)
    ensures r.Ptr? ==>
      && Gained(old(heap.arenas), old(heap.free), old(heap.bytes), heap.arenas, heap.free, heap.bytes, r.b)
      && size <= Extent(heap.arenas, r.b) && Zero(heap.bytes, r.b, Extent(heap.arenas, r.b))
    ensures r.Ptr? ==> forall a | r.b <= a < r.b + size && a in heap.bytes :: heap.bytes[a] == 0
  {
    hide Ready, Gained, Zero, Outcome, HasBlock, SupplyOf;
    if !(size > 0 && size < poolSize) {
      return Null;
    }
    if size > 1024 {
      r := MallocLarge(heap, mem, vp, size);
    } else {
      r := MallocSmall(heap, mem, vp, size);
    }
    if r.Ptr? {
      GainedIsThere(old(heap.arenas), old(heap.free), old(heap.bytes), heap.arenas, heap.free, heap.bytes, r.b);
      ZeroMeans(heap.bytes, r.b, Extent(heap.arenas, r.b));
    }
  }

  // ---------------------------------------------------------------- sys_free_

  /** The first k blocks of an arena are off a list, and nothing else is. */
  ghost predicate RemovedUpTo(list0: seq<nat>, list: seq<nat>, p: nat, i: nat, k: nat) {
    NoDup(list) && forall b :: b in list <==> b in list0 && b !in Blocks(p, i, k)
  }

  lemma RemoveStep(list0: seq<nat>, list: seq<nat>, p: nat, i: nat, k: nat)
    requires i < DESCS && k < PerArena(i) && RemovedUpTo(list0, list, p, i, k) && FreeOf(list0, p) == Blocks(p, i, PerArena(i))
    ensures BlockAt(p, i, k) in list && RemovedUpTo(list0, Remove(list, BlockAt(p, i, k)), p, i, k + 1)
  {
    assert BlockAt(p, i, k) in FreeOf(list0, p);
    NotYetRemoved(p, i, k);
    RemoveIsExact(list, BlockAt(p, i, k));
    assert Blocks(p, i, k + 1) == Blocks(p, i, k) + {BlockAt(p, i, k)};
  }

  lemma AllRemoved(list0: seq<nat>, list: seq<nat>, p: nat, i: nat)
    requires i < DESCS && RemovedUpTo(list0, list, p, i, PerArena(i)) && FreeOf(list0, p) == Blocks(p, i, PerArena(i))
    ensures NoDup(list) && forall b :: b in list <==> b in list0 && b / PAGE != p
  {
    assert forall b :: b in list0 && b / PAGE == p <==> b in FreeOf(list0, p);
  }

  lemma RemoveKeepsData(arenas: Arenas, free: seq<seq<nat>>, i: nat, p: nat, k: nat, list: seq<nat>, bytes0: Bytes, bytes1: Bytes, bytes: Bytes)
    requires Sound(arenas, free) && i < DESCS && RemovedUpTo(free[i], list, p, i, k)
    requires DataKept(arenas, free, bytes0, bytes1) && OnlyLinks(bytes1, bytes, list)
    ensures DataKept(arenas, free, bytes0, bytes)
  {
    SomeLinks(bytes1, bytes, list, free[i]);
    LinksKeepData(arenas, free, i, bytes1, bytes);
    DataKeptTwice(arenas, free, bytes0, bytes1, bytes);
  }

  /** list_remove of one block, which is on the list. */
  method RemoveBlock(heap: Heap, p: nat, i: nat, k: nat, ghost free0: seq<seq<nat>>, ghost bytes0: Bytes)
    requires i < DESCS && k < PerArena(i) && |free0| == |heap.free| == DESCS && Sound(heap.arenas, free0)
    requires FreeOf(free0[i], p) == Blocks(p, i, PerArena(i)) && heap.free == With(free0, i, heap.free[i])
    requires RemovedUpTo(free0[i], heap.free[i], p, i, k) && DataKept(heap.arenas, free0, bytes0, heap.bytes)
    modifies heap`free, heap`bytes
    ensures |heap.free| == DESCS && heap.free == With(free0, i, heap.free[i])
    ensures RemovedUpTo(free0[i], heap.free[i], p, i, k + 1) && DataKept(heap.arenas, free0, bytes0, heap.bytes)
  {
    hide Sound, Live, DataKept, OnlyLinks, RemovedUpTo, FreeOf, Blocks, NoDup;
    var b := BlockAt(p, i, k);
    RemoveStep(free0[i], heap.free[i], p, i, k);
    assert b in heap.free[i];
    ghost var bytes1 := heap.bytes;
    heap.WriteLinks(heap.free[i]);
    RemoveKeepsData(heap.arenas, free0, i, p, k, heap.free[i], bytes0, bytes1, heap.bytes);
    heap.free := With(heap.free, i, Remove(heap.free[i], b));
  }

  /** The blocks of an arena are taken off the free list one by one; each of them is found there. */
  method RemoveBlocks(heap: Heap, p: nat, i: nat)
    requires Sound(heap.arenas, heap.free) && i < DESCS && heap.Descs() && p in heap.arenas && heap.arenas[p].Small? && heap.arenas[p].desc == i
    requires FreeOf(heap.free[i], p) == Blocks(p, i, PerArena(i))
    modifies heap`free, heap`bytes
    ensures |heap.free| == DESCS && heap.free == With(old(heap.free), i, heap.free[i])
    ensures NoDup(heap.free[i]) && forall b :: b in heap.free[i] <==> b in old(heap.free)[i] && b / PAGE != p
    ensures DataKept(heap.arenas, old(heap.free), old(heap.bytes), heap.bytes)
  {
    ghost var free0, bytes0 := heap.free, heap.bytes;
    assert |free0| == DESCS && GoodList(heap.arenas, free0[i], i) && RemovedUpTo(free0[i], free0[i], p, i, 0);
    KeptSame(heap.arenas, free0, bytes0);
    hide Sound, Live, DataKept, OnlyLinks, RemovedUpTo, FreeOf, Blocks, NoDup;
    var k := 0;
    assert With(free0, i, free0[i]) == free0;
    while k < heap.descs[i].perArena
      invariant k <= PerArena(i) && heap.descs == old(heap.descs) && |heap.free| == DESCS && heap.free == With(free0, i, heap.free[i])
      invariant RemovedUpTo(free0[i], heap.free[i], p, i, k)
      invariant DataKept(heap.arenas, free0, bytes0, heap.bytes)
    {
      assert heap.descs[i].size == Size(i);
      RemoveBlock(heap, p, i, k, free0, bytes0);
      k := k + 1;
    }
    AllRemoved(free0[i], heap.free[i], p, i);
  }

  lemma KeptSame(arenas: Arenas, free: seq<seq<nat>>, bytes: Bytes)
    ensures DataKept(arenas, free, bytes, bytes)
  {
  }

  lemma NotYetRemoved(p: nat, i: nat, k: nat)
    requires i < DESCS
    ensures BlockAt(p, i, k) !in Blocks(p, i, k)
  {
    BlockListIsBlocks(p, i, k);
    NotThere(p, i, k);
  }

  lemma SomeLinks(before: Bytes, after: Bytes, some: seq<nat>, all: seq<nat>)
    requires OnlyLinks(before, after, some) && forall b | b in some :: b in all
    ensures OnlyLinks(before, after, all)
  {
    forall k: nat | At(after, k) != At(before, k) ensures exists b :: b in all && b <= k < b + LINKS {
      var b :| b in some && b <= k < b + LINKS;
    }
  }

  lemma PushLoses(arenas: Arenas, free: seq<seq<nat>>, i: nat, b: nat, bytes0: Bytes, bytes: Bytes)
    requires |free| == DESCS && i < DESCS && IsBlock(arenas, i, b) && b !in free[i]
    requires DataKept(Recount(arenas, b / PAGE, arenas[b / PAGE].count + 1), With(free, i, free[i] + [b]), bytes0, bytes)
    ensures Lost(arenas, free, bytes0, Recount(arenas, b / PAGE, arenas[b / PAGE].count + 1), With(free, i, free[i] + [b]), bytes, b)
  {
    var arenas1, free1 := Recount(arenas, b / PAGE, arenas[b / PAGE].count + 1), With(free, i, free[i] + [b]);
    hide Live, DataKept;
    forall c: nat
      ensures (Live(arenas1, free1, c) <==> Live(arenas, free, c) && c != b) && (Live(arenas, free, c) ==> c / PAGE in arenas && Extent(arenas1, c) == Extent(arenas, c))
    {
      PushLive(arenas, free, i, b, c);
      LiveHere(arenas, free, c);
    }
  }

  /** The last free of an arena makes all of its blocks free. */
  lemma LastIsFree(arenas: Arenas, free: seq<seq<nat>>, p: nat)
    requires Sound(arenas, free) && p in arenas && arenas[p].Small?
    ensures arenas[p].count <= PerArena(arenas[p].desc)
    ensures arenas[p].count == PerArena(arenas[p].desc) ==> FreeOf(free[arenas[p].desc], p) == Blocks(p, arenas[p].desc, PerArena(arenas[p].desc))
  {
    var i := arenas[p].desc;
    assert Counted(arenas, free, p) && GoodList(arenas, free[i], i);
    NotMoreThanAll(arenas, free[i], i, p);
    if arenas[p].count == PerArena(i) {
      AllFree(arenas, free[i], i, p);
    }
  }

  lemma InUseAfter(arenas: Arenas, p: nat, count: nat)
    requires InUse(arenas) && p in arenas && arenas[p].Small?
    ensures InUseBut(Recount(arenas, p, count), p) && InUse(Recount(arenas, p, count) - {p})
    ensures count < PerArena(arenas[p].desc) ==> InUse(Recount(arenas, p, count))
  {
  }

  lemma DropLoses(arenas0: Arenas, free0: seq<seq<nat>>, bytes0: Bytes, arenas: Arenas, free: seq<seq<nat>>, bytes1: Bytes, b: nat,
                  i: nat, p: nat, list: seq<nat>, bytes: Bytes)
    requires Lost(arenas0, free0, bytes0, arenas, free, bytes1, b) && DataKept(arenas, free, bytes1, bytes)
    requires Sound(arenas, free) && i < DESCS && p in arenas && arenas[p].Small? && arenas[p].desc == i
    requires FreeOf(free[i], p) == Blocks(p, i, PerArena(i)) && forall b :: b in list <==> b in free[i] && b / PAGE != p
    ensures Lost(arenas0, free0, bytes0, arenas - {p}, With(free, i, list), bytes, b)
  {
    DataKeptTwice(arenas, free, bytes0, bytes1, bytes);
    hide Live, Sound, FreeOf, Blocks;
    forall c: nat
      ensures (Live(arenas - {p}, With(free, i, list), c) <==> Live(arenas, free, c))
      ensures Live(arenas, free, c) ==> c / PAGE in arenas - {p} && Extent(arenas - {p}, c) == Extent(arenas, c)
    {
      DropLive(arenas, free, i, p, list, c);
      LiveHere(arenas - {p}, With(free, i, list), c);
    }
    LostMore(arenas0, free0, bytes0, arenas, free, b, arenas - {p}, With(free, i, list), bytes);
  }

  lemma LostMore(arenas0: Arenas, free0: seq<seq<nat>>, bytes0: Bytes, arenas: Arenas, free: seq<seq<nat>>, b: nat,
                 arenas1: Arenas, free1: seq<seq<nat>>, bytes: Bytes)
    requires Lost(arenas0, free0, bytes0, arenas, free, bytes, b)
    requires forall c: nat :: Live(arenas1, free1, c) <==> Live(arenas, free, c)
    requires forall c: nat | Live(arenas1, free1, c) :: c / PAGE in arenas && Extent(arenas1, c) == Extent(arenas, c)
    ensures Lost(arenas0, free0, bytes0, arenas1, free1, bytes, b)
  {
    hide Live, Extent;
  }

  /** The part of sys_free_ that puts a block on its list. */
  method PutBack(heap: Heap, ptr: nat, i: nat)
    requires heap.Valid() && i < DESCS && |heap.free| == DESCS && IsBlock(heap.arenas, i, ptr) && ptr !in heap.free[i]
    modifies heap`arenas, heap`free, heap`bytes
    ensures Sound(heap.arenas, heap.free) && heap.descs == old(heap.descs)
    ensures heap.arenas == Recount(old(heap.arenas), ptr / PAGE, old(heap.arenas)[ptr / PAGE].count + 1)
    ensures Lost(old(heap.arenas), old(heap.free), old(heap.bytes), heap.arenas, heap.free, heap.bytes, ptr)
  {
    hide Good, Sound, InUse, Live, Lost, DataKept, OnlyLinks, Blocks;
    ghost var arenas0, free0, bytes0 := heap.arenas, heap.free, heap.bytes;
    var p := ptr / PAGE;
    ListCount(arenas0, free0);
    heap.free := With(heap.free, i, heap.free[i] + [ptr]);
    heap.WriteLinks(heap.free[i]);
    heap.arenas := Recount(heap.arenas, p, heap.arenas[p].count + 1);
    PushIsSound(arenas0, free0, i, ptr);
    LinksKeepData(heap.arenas, heap.free, i, bytes0, heap.bytes);
    PushLoses(arenas0, free0, i, ptr, bytes0, heap.bytes);
  }

  /** What the source does when all blocks of an arena are free, but for its page. */
  method DropArena(heap: Heap, p: nat, i: nat, ghost arenas0: Arenas, ghost free0: seq<seq<nat>>, ghost bytes0: Bytes, ghost b: nat)
    requires Sound(heap.arenas, heap.free) && i < DESCS && heap.Descs() && p in heap.arenas && heap.arenas[p].Small? && heap.arenas[p].desc == i
    requires heap.arenas[p].count == PerArena(i) && |heap.free| == DESCS
    requires Lost(arenas0, free0, bytes0, heap.arenas, heap.free, heap.bytes, b)
    modifies heap`arenas, heap`free, heap`bytes
    ensures Sound(heap.arenas, heap.free) && heap.arenas == old(heap.arenas) - {p}
    ensures Lost(arenas0, free0, bytes0, heap.arenas, heap.free, heap.bytes, b)
  {
    ghost var arenas1, free1, bytes1 := heap.arenas, heap.free, heap.bytes;
    hide Sound, Live, Lost, DataKept, FreeOf, Blocks, NoDup;
    LastIsFree(arenas1, free1, p);
    RemoveBlocks(heap, p, i);
    DropIsSound(arenas1, free1, i, p, heap.free[i]);
    DropLoses(arenas0, free0, bytes0, arenas1, free1, bytes1, b, i, p, heap.free[i], heap.bytes);
    heap.arenas := heap.arenas - {p};
  }

  lemma LiveBlock(arenas: Arenas, free: seq<seq<nat>>, b: nat)
    requires Live(arenas, free, b) && b / PAGE in arenas && arenas[b / PAGE].Small?
    ensures var i := arenas[b / PAGE].desc; |free| == DESCS && IsBlock(arenas, i, b) && b !in free[i]
  {
  }

  /** The part of sys_free_ that is about lists and counts. */
  method FreeSmall(heap: Heap, ptr: nat)
    requires heap.Valid() && Live(heap.arenas, heap.free, ptr) && ptr / PAGE in heap.arenas && heap.arenas[ptr / PAGE].Small?
    modifies heap`arenas, heap`free, heap`bytes
    ensures heap.Valid() && Lost(old(heap.arenas), old(heap.free), old(heap.bytes), heap.arenas, heap.free, heap.bytes, ptr)
    ensures var p := ptr / PAGE;
            if p in heap.arenas then heap.arenas == old(heap.arenas)[p := heap.arenas[p]] && heap.arenas[p].Small? else heap.arenas == old(heap.arenas) - {p}
  {
    hide Good, Sound, InUse, InUseBut, Live, Lost, IsBlock;
    ghost var arenas0, free0, bytes0 := heap.arenas, heap.free, heap.bytes;
    var p := ptr / PAGE;
    var i := heap.arenas[p].desc;
    LiveBlock(arenas0, free0, ptr);
    ListCount(arenas0, free0);
    PutBack(heap, ptr, i);
    InUseAfter(arenas0, p, heap.arenas[p].count);
    LastIsFree(heap.arenas, heap.free, p);
    ListsCount(heap.arenas, heap.free);
    if heap.arenas[p].count == heap.descs[i].perArena {
      DropArena(heap, p, i, arenas0, free0, bytes0, ptr);
      assert heap.arenas == arenas0 - {p};
    }
    IsGood(heap.arenas, heap.free);
  }

  lemma ListsCount(arenas: Arenas, free: seq<seq<nat>>)
    requires Sound(arenas, free)
    ensures |free| == DESCS
  {
  }

  lemma IsGood(arenas: Arenas, free: seq<seq<nat>>)
    requires Sound(arenas, free) && InUse(arenas)
    ensures Good(arenas, free)
  {
  }

  lemma LargeLoses(arenas: Arenas, free: seq<seq<nat>>, p: nat, bytes: Bytes)
    requires |free| == DESCS && p in arenas && arenas[p].Large?
    ensures Lost(arenas, free, bytes, arenas - {p}, free, bytes, PAGE * p + HEADER)
  {
    hide Live;
    forall c: nat
      ensures (Live(arenas - {p}, free, c) <==> Live(arenas, free, c) && c != PAGE * p + HEADER)
      ensures Live(arenas - {p}, free, c) ==> c / PAGE in arenas && c / PAGE in arenas - {p} && Extent(arenas - {p}, c) == Extent(arenas, c)
    {
      LargeGoneLive(arenas, free, p, c);
      LiveHere(arenas - {p}, free, c);
      LiveHere(arenas, free, c);
    }
  }

  /** mfree_page for an arena that is no longer in the heap's table. */
  method GiveBack(heap: Heap, mem: Pages.Memory, vp: Pages.VirtualPool, ghost arenas: Arenas, p: nat, n: nat)
    requires heap.Valid() && PagesReady(mem, vp, heap.space) && Backed(arenas, mem.mapping, heap.space, vp.start, vp.bitmap.Size())
    requires Apart(arenas) && p in arenas && n == Span(arenas[p]) && heap.arenas == arenas - {p}
    modifies mem`mapping, mem`owner, mem.kernelPool.bits, mem.userPool.bits, vp.bitmap.bits
    ensures Ready(heap, mem, vp) && Pages.ShrunkBy(old(mem.mapping), mem.mapping, heap.space, p, n)
  {
    hide UsedIn, Pages.Marks, Pages.ShrunkBy, Pages.Mapped, Pages.Pooled, Pages.Shaped, Interval, Good, Apart;
    ghost var mapping0 := mem.mapping;
    Pages.MfreePage(mem, heap.space, vp, p, n);
    GoneIsBacked(arenas, mapping0, mem.mapping, heap.space, vp.start, vp.bitmap.Size(), p);
  }

  /** Every arena holds an allocation. */
  lemma SomeLive(arenas: Arenas, free: seq<seq<nat>>, p: nat) returns (c: nat)
    requires Good(arenas, free) && p in arenas
    ensures Live(arenas, free, c) && c / PAGE == p
  {
    if arenas[p].Large? {
      return PAGE * p + HEADER;
    }
    var i := arenas[p].desc;
    assert Counted(arenas, free, p);
    BlocksCount(p, i, PerArena(i));
    if Blocks(p, i, PerArena(i)) <= FreeOf(free[i], p) {
      SubsetSize(Blocks(p, i, PerArena(i)), FreeOf(free[i], p));
      assert false;
    }
    c :| c in Blocks(p, i, PerArena(i)) && c !in FreeOf(free[i], p);
    var k := BlockIn(p, i, c);
  }

  /** No allocation has its place in an arena but b. */
  ghost predicate LastOf(arenas: Arenas, free: seq<seq<nat>>, b: nat) {
    forall c: nat | Live(arenas, free, c) && c / PAGE == b / PAGE :: c == b
  }

  /** An arena goes exactly with its last allocation. */
  lemma GoneIffLast(arenas0: Arenas, free0: seq<seq<nat>>, bytes0: Bytes, arenas: Arenas, free: seq<seq<nat>>, bytes: Bytes, b: nat)
    requires Good(arenas, free) && Lost(arenas0, free0, bytes0, arenas, free, bytes, b)
    ensures b / PAGE !in arenas <==> LastOf(arenas0, free0, b)
  {
    hide Good, Live;
    if b / PAGE in arenas {
      var c := SomeLive(arenas, free, b / PAGE);
      assert Live(arenas0, free0, c) && c != b;
    } else {
      forall c: nat | Live(arenas0, free0, c) && c / PAGE == b / PAGE ensures c == b {
        LiveHere(arenas, free, c);
      }
    }
  }

  /** sys_free_: one allocation less, and the others keep their places and their bytes. The pages of its arena go back
      exactly when it was the last allocation there. The assertion that a block to be removed is on the list holds. */
  method SysFree(heap: Heap, mem: Pages.Memory, vp: Pages.VirtualPool, ptr: nat)
    requires Ready(heap, mem, vp) && Live(heap.arenas, heap.free, ptr)
    modifies heap`arenas, heap`free, heap`bytes, mem`mapping, mem`owner, mem.kernelPool.bits, mem.userPool.bits, vp.bitmap.bits
    ensures Ready(heap, mem, vp) && Lost(old(heap.arenas), old(heap.free), old(heap.bytes), heap.arenas, heap.free, heap.bytes, ptr)
    ensures ptr / PAGE !in heap.arenas <==> LastOf(old(heap.arenas), old(heap.free), ptr)
    ensures ptr / PAGE in heap.arenas ==> mem.mapping == old(mem.mapping) && heap.arenas.Keys == old(heap.arenas).Keys
    ensures ptr / PAGE !in heap.arenas ==>
      && heap.arenas == old(heap.arenas) - {ptr / PAGE}
      && Pages.ShrunkBy(old(mem.mapping), mem.mapping, heap.space, ptr / PAGE, Span(old(heap.arenas)[ptr / PAGE]))
  {
    ghost var arenas0, free0, bytes0 := heap.arenas, heap.free, heap.bytes;
    var p := ptr / PAGE;
    ListCount(arenas0, free0);
    assert Apart(arenas0);
    LiveHere(arenas0, free0, ptr);
    if heap.arenas[p].Large? {
      LargeGoneIsSound(arenas0, free0, p);
      LargeLoses(arenas0, free0, p, bytes0);
      hide Good, Sound, InUse, Live, Lost, Apart, Backed, UsedIn, Pages.Marks, Pages.ShrunkBy, Pages.Mapped, Pages.Pooled, Pages.Shaped;
      var n := heap.arenas[p].pages;
      heap.arenas := heap.arenas - {p};
      GiveBack(heap, mem, vp, arenas0, p, n);
    } else {
      hide Good, Sound, InUse, Live, Lost, Apart, Backed, UsedIn, Pages.Marks, Pages.ShrunkBy, Pages.Mapped, Pages.Pooled, Pages.Shaped;
      FreeSmall(heap, ptr);
      if p !in heap.arenas {
        GiveBack(heap, mem, vp, arenas0, p, 1);
      } else {
        BackedSame(arenas0, heap.arenas, mem.mapping, heap.space, vp.start, vp.bitmap.Size(), p);
      }
    }
    GoneIffLast(arenas0, free0, bytes0, heap.arenas, heap.free, heap.bytes, ptr);
  }
}
