/** The page layer of kernel/memory.c: frames of two pools, and the pages that address spaces map to them. Addresses are
    counted in pages. */
module Pages {
  import opened Bitmaps
  import opened Wrappers

  type Content = seq<bv8>

  const TABLE_PAGES: nat := 1024
  const USER_DIRS: nat := 768
  /** The page of a program's stack, the last one below the kernel. */
  const STACK_PAGE: nat := TABLE_PAGES * USER_DIRS - 1

  /** What a frame is used for: a present page of an address space, or the page table for one entry of its page
      directory. Space 0 is the kernel's part, which is in every directory and whose tables are there from the start. */
  datatype Use = Page(space: nat, page: nat) | Table(space: nat, dir: nat)

  /** Every frame is used for one thing, which is the one its owner entry names. */
  ghost predicate Mapped(owner: map<nat, Use>, mapping: map<Use, nat>) {
    && (forall u | u in mapping :: mapping[u] in owner && owner[mapping[u]] == u)
    && (forall f | f in owner :: owner[f] in mapping && mapping[owner[f]] == f)
  }

  /** Pages of programs are in the user pool, everything else in the kernel pool, and the bits that are 1 are theirs. */
  ghost predicate Pooled(owner: map<nat, Use>, kernel: set<nat>, user: set<nat>, kernelStart: nat, userStart: nat) {
    && (forall b | b in kernel :: kernelStart + b in owner && !InUserPool(owner[kernelStart + b]))
    && (forall b | b in user :: userStart + b in owner && InUserPool(owner[userStart + b]))
    && (forall f | f in owner ::
          if InUserPool(owner[f]) then f >= userStart && f - userStart in user
          else kernelStart <= f < userStart && f - kernelStart in kernel)
  }

  predicate InUserPool(u: Use) {
    u.Page? && u.space != 0
  }

  /** The table that a page of a program has its entry in. */
  function TableOf(u: Use): Use
    requires u.Page?
  {
    Table(u.space, u.page / TABLE_PAGES)
  }

  /** A program's pages are below the kernel's part, and each is in a table that is there. */
  ghost predicate Shaped(mapping: map<Use, nat>) {
    && (forall u | u in mapping && InUserPool(u) :: TableOf(u) in mapping && u.page / TABLE_PAGES < USER_DIRS)
    && (forall u | u in mapping && u.Table? :: u.space != 0 && u.dir < USER_DIRS)
  }

  lemma FrameOf(owner: map<nat, Use>, mapping: map<Use, nat>, u: Use)
    requires Mapped(owner, mapping) && u in mapping
    ensures mapping[u] in owner && owner[mapping[u]] == u
  {
  }

  lemma AddUse(owner: map<nat, Use>, mapping: map<Use, nat>, u: Use, f: nat)
    requires Mapped(owner, mapping) && u !in mapping && f !in owner
    ensures Mapped(owner[f := u], mapping[u := f])
  {
  }

  lemma RemoveUse(owner: map<nat, Use>, mapping: map<Use, nat>, u: Use)
    requires Mapped(owner, mapping) && u in mapping
    ensures Mapped(owner - {mapping[u]}, mapping - {u})
  {
  }

  lemma TakeFrame(owner: map<nat, Use>, kernel: set<nat>, user: set<nat>, kernelStart: nat, userStart: nat, b: nat, u: Use)
    requires Pooled(owner, kernel, user, kernelStart, userStart)
    requires if InUserPool(u) then b !in user else b !in kernel && kernelStart + b < userStart
    ensures InUserPool(u) ==> userStart + b !in owner && Pooled(owner[userStart + b := u], kernel, user + {b}, kernelStart, userStart)
    ensures !InUserPool(u) ==> kernelStart + b !in owner && Pooled(owner[kernelStart + b := u], kernel + {b}, user, kernelStart, userStart)
  {
    assert InUserPool(u) && userStart + b in owner ==> userStart + b - userStart == b;
    assert !InUserPool(u) && kernelStart + b in owner ==> kernelStart + b - kernelStart == b;
  }

  lemma GiveFrame(owner: map<nat, Use>, kernel: set<nat>, user: set<nat>, kernelStart: nat, userStart: nat, f: nat)
    requires Pooled(owner, kernel, user, kernelStart, userStart) && f in owner
    ensures if InUserPool(owner[f]) then f >= userStart && f - userStart in user && Pooled(owner - {f}, kernel, user - {f - userStart}, kernelStart, userStart)
            else kernelStart <= f < userStart && f - kernelStart in kernel && Pooled(owner - {f}, kernel - {f - kernelStart}, user, kernelStart, userStart)
  {
  }

  lemma ShapedPage(mapping: map<Use, nat>, s: nat, v: nat, f: nat)
    requires Shaped(mapping) && (s != 0 ==> v / TABLE_PAGES < USER_DIRS && Table(s, v / TABLE_PAGES) in mapping)
    ensures Shaped(mapping[Page(s, v) := f])
  {
  }

  lemma ShapedBoth(mapping: map<Use, nat>, s: nat, v: nat, f: nat, t: nat)
    requires Shaped(mapping) && s != 0 && v / TABLE_PAGES < USER_DIRS
    ensures Shaped(mapping[Page(s, v) := f][Table(s, v / TABLE_PAGES) := t])
  {
  }

  /** struct virtual_addr. */
  class VirtualPool {
    const bitmap: Bitmap
    const start: nat

    constructor (bitmap: Bitmap, start: nat)
      ensures this.bitmap == bitmap && this.start == start
    {
      this.bitmap, this.start := bitmap, start;
    }
  }

  class Memory {
    const kernelPool: Bitmap
    const userPool: Bitmap
    const kernelStart: nat
    const userStart: nat
    /** The present entries of all page directories and page tables. */
    var mapping: map<Use, nat>
    /** What is in the frames. */
    var frames: map<nat, Content>
    ghost var owner: map<nat, Use>

    constructor (kernelPool: Bitmap, userPool: Bitmap, kernelStart: nat, userStart: nat)
      ensures this.kernelPool == kernelPool && this.userPool == userPool && this.kernelStart == kernelStart && this.userStart == userStart
      ensures mapping == map[] && owner == map[] && frames == map[]
    {
      this.kernelPool, this.userPool, this.kernelStart, this.userStart := kernelPool, userPool, kernelStart, userStart;
      mapping, owner, frames := map[], map[], map[];
    }

    /** mem_pool_init: the user pool lies behind the kernel pool. */
    ghost predicate Layout()
      reads this, kernelPool, userPool
    {
      kernelStart + kernelPool.Size() <= userStart && kernelPool.bits != userPool.bits && kernelStart >= 0x102
    }

    ghost predicate Valid()
      reads this, kernelPool, userPool, kernelPool.bits, userPool.bits
    {
      && Layout() && Mapped(owner, mapping) && Shaped(mapping)
      && Pooled(owner, kernelPool.Used(), userPool.Used(), kernelStart, userStart)
    }

    /** The frames left in the two pools. */
    ghost function FreeKernel(): nat
      reads this, kernelPool, kernelPool.bits
    {
      |FreeIn(kernelPool.Used(), kernelPool.Size())|
    }

    ghost function FreeUser(): nat
      reads this, userPool, userPool.bits
    {
      |FreeIn(userPool.Used(), userPool.Size())|
    }

    /** palloc from the pool that a use takes its frame from, and the entry that makes it present; None when the pool is
        exhausted. */
    method Palloc(u: Use) returns (f: int)
      requires Layout() && Mapped(owner, mapping) && Pooled(owner, kernelPool.Used(), userPool.Used(), kernelStart, userStart)
      requires u !in mapping
      modifies this`mapping, this`owner, kernelPool.bits, userPool.bits
      ensures Layout() && Mapped(owner, mapping) && Pooled(owner, kernelPool.Used(), userPool.Used(), kernelStart, userStart)
      ensures f == -1 ==> mapping == old(mapping) && owner == old(owner)
      ensures f == -1 ==> kernelPool.Used() == old(kernelPool.Used()) && userPool.Used() == old(userPool.Used())
      ensures f == -1 <==> (if InUserPool(u) then old(FreeUser()) else old(FreeKernel())) == 0
      ensures f != -1 ==> f >= 0 && f !in old(owner) && mapping == old(mapping)[u := f as nat] && owner == old(owner)[f as nat := u]
      ensures f != -1 ==> if InUserPool(u) then kernelPool.Used() == old(kernelPool.Used()) && f >= userStart
                                               && userPool.Used() == old(userPool.Used()) + {f - userStart}
                          else userPool.Used() == old(userPool.Used()) && kernelStart <= f < userStart
                               && kernelPool.Used() == old(kernelPool.Used()) + {f - kernelStart}
      ensures FreeUser() == old(FreeUser()) - (if f != -1 && InUserPool(u) then 1 else 0)
      ensures FreeKernel() == old(FreeKernel()) - (if f != -1 && !InUserPool(u) then 1 else 0)
    {
      hide Mapped, Pooled, UsedIn, FreeIn;
      var pool, start := kernelPool, kernelStart;
      if InUserPool(u) {
        pool, start := userPool, userStart;
      }
      ghost var kernel, user := kernelPool.Used(), userPool.Used();
      var b := AllocBit(pool);
      if b == -1 {
        return -1;
      }
      f := start + b;
      TakeFrame(owner, kernel, user, kernelStart, userStart, b, u);
      TakeFree(if InUserPool(u) then user else kernel, pool.Size(), b);
      AddUse(owner, mapping, u, f);
      owner := owner[f as nat := u];
      mapping := mapping[u := f as nat];
    }

    /** pfree or free_a_phy_page, and the entry that is no longer present: the address says which pool a frame is from. */
    method Pfree(u: Use)
      requires Layout() && Mapped(owner, mapping) && Pooled(owner, kernelPool.Used(), userPool.Used(), kernelStart, userStart)
      requires u in mapping
      modifies this`mapping, this`owner, kernelPool.bits, userPool.bits
      ensures Layout() && Mapped(owner, mapping) && Pooled(owner, kernelPool.Used(), userPool.Used(), kernelStart, userStart)
      ensures mapping == old(mapping) - {u} && owner == old(owner) - {old(mapping)[u]}
      ensures var f := old(mapping)[u];
              if InUserPool(u) then kernelPool.Used() == old(kernelPool.Used()) && f >= userStart && userPool.Used() == old(userPool.Used()) - {f - userStart}
              else userPool.Used() == old(userPool.Used()) && kernelStart <= f < userStart && kernelPool.Used() == old(kernelPool.Used()) - {f - kernelStart}
    {
      hide Mapped, Pooled, UsedIn;
      var f := mapping[u];
      FrameOf(owner, mapping, u);
      GiveFrame(owner, kernelPool.Used(), userPool.Used(), kernelStart, userStart, f);
      UsedInSize(kernelPool.bits[..]);
      UsedInSize(userPool.bits[..]);
      RemoveUse(owner, mapping, u);
      if f >= userStart {
        userPool.Set(f - userStart, false);
      } else {
        kernelPool.Set(f - kernelStart, false);
      }
      owner := owner - {f};
      mapping := mapping - {u};
    }

    /** ... and in the one that pages of a space are from. */
    ghost function FreeFor(s: nat): nat
      reads this, kernelPool, userPool, kernelPool.bits, userPool.bits
    {
      if s == 0 then FreeKernel() else FreeUser()
    }

    /** A frame for a page, and page_table_add, which gets a frame for the page table if there is none yet. The source does
        not look whether there was a frame for the table. */
    method MapPage(s: nat, v: nat) returns (r: Outcome)
      requires Valid() && Page(s, v) !in mapping && (s != 0 ==> v / TABLE_PAGES < USER_DIRS)
      modifies this`mapping, this`owner, kernelPool.bits, userPool.bits
      ensures r != OutOfTables ==> Valid()
      ensures r == OutOfFrames ==> mapping == old(mapping) && owner == old(owner) && FreeKernel() == old(FreeKernel()) && FreeUser() == old(FreeUser())
      ensures r == OutOfFrames <==> old(FreeFor(s)) == 0
      ensures r == OutOfTables <==> old(FreeFor(s)) > 0 && NeedsTable(old(mapping), s, v) && old(FreeKernel()) == 0
      ensures r == OutOfTables ==> FreeKernel() == 0
      ensures r == Done ==> FreeUser() == old(FreeUser()) - (if s != 0 then 1 else 0)
      ensures r == Done ==> FreeKernel() == old(FreeKernel()) - (if s == 0 || NeedsTable(old(mapping), s, v) then 1 else 0)
      ensures r == Done ==> TablesMore(old(mapping), mapping, s, v)
      ensures r == Done ==> GrewBy(old(mapping), mapping, s, v, 1) && Fresh(old(owner), mapping, s, v, 1)
      ensures r == Done ==> forall f | f in old(owner) :: f in owner && owner[f] == old(owner)[f]
    {
      hide Mapped, Pooled, Shaped, UsedIn, FreeIn;
      ghost var before := mapping;
      var f := Palloc(Page(s, v));
      if f == -1 {
        return OutOfFrames;
      }
      if s != 0 && Table(s, v / TABLE_PAGES) !in mapping {
        var t := Palloc(Table(s, v / TABLE_PAGES));
        if t == -1 {
          return OutOfTables;
        }
        ShapedBoth(before, s, v, f, t);
      } else {
        ShapedPage(before, s, v, f);
      }
      return Done;
    }
  }

  datatype Outcome = Done | OutOfFrames | OutOfTables

  ghost predicate NeedsTable(mapping: map<Use, nat>, s: nat, v: nat) {
    s != 0 && Table(s, v / TABLE_PAGES) !in mapping
  }

  /** Page v has got the table it needed; the space's tables are the same otherwise. */
  ghost predicate TablesMore(before: map<Use, nat>, after: map<Use, nat>, s: nat, v: nat) {
    forall d: nat :: Table(s, d) in after <==> Table(s, d) in before || (s != 0 && d == v / TABLE_PAGES)
  }

  /** The tables that n pages from v on lack. */
  ghost function Lacking(mapping: map<Use, nat>, s: nat, v: nat, n: nat): set<nat> {
    set k | v <= k < v + n && NeedsTable(mapping, s, k) :: k / TABLE_PAGES
  }

  /** What becomes of a request for n pages from v on: they are taken one after the other, each with the table it lacks. */
  ghost function OutcomeOf(mapping: map<Use, nat>, s: nat, v: nat, n: nat, freeKernel: nat, freeUser: nat): Outcome {
    if s == 0 then
      if n <= freeKernel then Done else OutOfFrames
    else if |Lacking(mapping, s, v, if n <= freeUser then n else freeUser)| > freeKernel then OutOfTables
    else if n <= freeUser then Done else OutOfFrames
  }

  lemma LackingMore(mapping: map<Use, nat>, s: nat, v: nat, n: nat)
    ensures Lacking(mapping, s, v, n + 1) ==
            Lacking(mapping, s, v, n) + (if NeedsTable(mapping, s, v + n) then {(v + n) / TABLE_PAGES} else {})
  {
    var more := if NeedsTable(mapping, s, v + n) then {(v + n) / TABLE_PAGES} else {};
    forall d | d in Lacking(mapping, s, v, n + 1) ensures d in Lacking(mapping, s, v, n) + more {
      var k :| v <= k < v + n + 1 && NeedsTable(mapping, s, k) && d == k / TABLE_PAGES;
      assert k == v + n || k < v + n;
    }
    forall d | d in Lacking(mapping, s, v, n) + more ensures d in Lacking(mapping, s, v, n + 1) {
      var k :| v <= k < v + n + 1 && NeedsTable(mapping, s, k) && d == k / TABLE_PAGES;
    }
  }

  lemma LackingGrows(mapping: map<Use, nat>, s: nat, v: nat, m: nat, n: nat)
    requires m <= n
    ensures Lacking(mapping, s, v, m) <= Lacking(mapping, s, v, n) && |Lacking(mapping, s, v, m)| <= |Lacking(mapping, s, v, n)|
  {
    forall d | d in Lacking(mapping, s, v, m) ensures d in Lacking(mapping, s, v, n) {
      var k :| v <= k < v + m && NeedsTable(mapping, s, k) && d == k / TABLE_PAGES;
      assert v <= k < v + n;
    }
    SubsetSize(Lacking(mapping, s, v, m), Lacking(mapping, s, v, n));
  }

  /** The tables of the space are those of before and the ones that the first k pages lacked. */
  ghost predicate TablesAre(before: map<Use, nat>, mapping: map<Use, nat>, s: nat, v: nat, k: nat) {
    forall d: nat :: Table(s, d) in mapping <==> Table(s, d) in before || d in Lacking(before, s, v, k)
  }

  lemma TablesAreMore(before: map<Use, nat>, b: map<Use, nat>, c: map<Use, nat>, s: nat, v: nat, k: nat)
    requires TablesAre(before, b, s, v, k) && TablesMore(b, c, s, v + k)
    ensures TablesAre(before, c, s, v, k + 1)
    ensures |Lacking(before, s, v, k + 1)| == |Lacking(before, s, v, k)| + (if NeedsTable(b, s, v + k) then 1 else 0)
  {
    LackingMore(before, s, v, k);
    assert Table(s, (v + k) / TABLE_PAGES) in b <==> Table(s, (v + k) / TABLE_PAGES) in before || (v + k) / TABLE_PAGES in Lacking(before, s, v, k);
  }

  /** n pages of space s from v on were added, and what tables they need. */
  ghost predicate GrewBy(before: map<Use, nat>, after: map<Use, nat>, s: nat, v: nat, n: nat) {
    && (forall u | u in before :: u in after && after[u] == before[u])
    && (forall k | v <= k < v + n :: Page(s, k) !in before && Page(s, k) in after)
    && (forall u | u in after && u !in before :: if u.Page? then u.space == s && v <= u.page < v + n else u.space == s != 0)
  }

  /** The frames of those pages were nobody's. */
  ghost predicate Fresh(owner: map<nat, Use>, mapping: map<Use, nat>, s: nat, v: nat, n: nat) {
    forall k | v <= k < v + n :: Page(s, k) in mapping && mapping[Page(s, k)] !in owner
  }

  /** The loops of vaddr_get and vaddr_remove that set or clear n bits. */
  method SetBits(bitmap: Bitmap, start: nat, n: nat, value: bool)
    requires start + n <= bitmap.Size()
    modifies bitmap.bits
    ensures bitmap.Used() == if value then old(bitmap.Used()) + Interval(start, n) else old(bitmap.Used()) - Interval(start, n)
  {
    hide UsedIn;
    var k := 0;
    while k < n
      invariant k <= n
      invariant bitmap.Used() == if value then old(bitmap.Used()) + Interval(start, k) else old(bitmap.Used()) - Interval(start, k)
    {
      bitmap.Set(start + k, value);
      k := k + 1;
    }
  }

  /** vaddr_get, up to the address: the first n free bits in a row. */
  method VaddrGet(vp: VirtualPool, n: nat) returns (b: int)
    requires n >= 1
    modifies vp.bitmap.bits
    ensures -1 <= b
    ensures b == -1 <==> !HasRun(old(vp.bitmap.Used()), vp.bitmap.Size(), n) || WholeTail(old(vp.bitmap.Used()), vp.bitmap.Size(), n)
    ensures b == -1 ==> vp.bitmap.Used() == old(vp.bitmap.Used())
    ensures b >= 0 ==> FirstFit(old(vp.bitmap.Used()), vp.bitmap.Size(), b, n) && vp.bitmap.Used() == old(vp.bitmap.Used()) + Interval(b, n)
  {
    hide UsedIn, HasRun, WholeTail;
    b := vp.bitmap.Scan(n);
    if b >= 0 {
      SetBits(vp.bitmap, b, n, true);
    }
  }

  /** The virtual bitmap has a 1 for every present page of the space. */
  ghost predicate Marks(used: set<nat>, size: nat, start: nat, mapping: map<Use, nat>, s: nat) {
    && (forall i: nat | i < size && Page(s, start + i) in mapping :: i in used)
    && (forall i | i in used :: i < size)
  }

  /** ... and for no other, which is so until a request for pages fails in the middle. */
  ghost predicate Tracks(used: set<nat>, size: nat, start: nat, mapping: map<Use, nat>, s: nat) {
    Marks(used, size, start, mapping, s) && forall i | i in used :: Page(s, start + i) in mapping
  }

  lemma RunIsFree(used: set<nat>, size: nat, start: nat, mapping: map<Use, nat>, s: nat, b: nat, n: nat)
    requires Marks(used, size, start, mapping, s) && FirstFit(used, size, b, n)
    ensures b + n <= size && forall k | start + b <= k < start + b + n :: Page(s, k) !in mapping
  {
    forall k | start + b <= k < start + b + n ensures Page(s, k) !in mapping {
      assert k - start !in used;
      assert start + (k - start) == k;
    }
  }

  /** With the bits of n pages, the first k of which are there by now. */
  lemma MarksGrown(used: set<nat>, size: nat, start: nat, before: map<Use, nat>, after: map<Use, nat>, s: nat, b: nat, n: nat, k: nat)
    requires Marks(used, size, start, before, s) && GrewBy(before, after, s, start + b, k) && k <= n && b + n <= size
    ensures Marks(used + Interval(b, n), size, start, after, s)
    ensures Tracks(used, size, start, before, s) && k == n ==> Tracks(used + Interval(b, n), size, start, after, s)
  {
    forall i: nat | i < size && Page(s, start + i) in after ensures i in used + Interval(b, n) {
      if Page(s, start + i) !in before {
        assert start + b <= start + i < start + b + k;
      }
    }
    if Tracks(used, size, start, before, s) && k == n {
      forall i | i in used + Interval(b, n) ensures Page(s, start + i) in after {
        assert i !in used ==> start + b <= start + i < start + b + n;
      }
    }
  }

  lemma GrewNone(mapping: map<Use, nat>, s: nat, v: nat)
    ensures GrewBy(mapping, mapping, s, v, 0)
  {
  }

  lemma GrewMore(a: map<Use, nat>, b: map<Use, nat>, c: map<Use, nat>, s: nat, v: nat, n: nat)
    requires GrewBy(a, b, s, v, n) && GrewBy(b, c, s, v + n, 1)
    ensures GrewBy(a, c, s, v, n + 1)
  {
    forall k | v <= k < v + n + 1 ensures Page(s, k) !in a && Page(s, k) in c {
      if k == v + n {
        assert Page(s, k) !in b;
      } else {
        assert Page(s, k) in b;
      }
    }
  }

  lemma FreshMore(owner0: map<nat, Use>, owner: map<nat, Use>, b: map<Use, nat>, c: map<Use, nat>, s: nat, v: nat, n: nat)
    requires Fresh(owner0, b, s, v, n) && (forall u | u in b :: u in c && c[u] == b[u])
    requires Fresh(owner, c, s, v + n, 1) && forall f | f in owner0 :: f in owner
    ensures Fresh(owner0, c, s, v, n + 1)
  {
    forall k | v <= k < v + n + 1 ensures Page(s, k) in c && c[Page(s, k)] !in owner0 {
      if k < v + n {
        assert Page(s, k) in b;
      }
    }
  }

  /** The first page behind the kernel's image. */
  const HEAP_PAGE: nat := 0xc0100

  /** mem_pool_init, from the number of free pages on, which the source has cut to 16 bits. */
  method MemPoolInit(freePages: nat) returns (mem: Memory, vp: VirtualPool)
    requires freePages < 0x1_0000
    ensures fresh(mem) && fresh(mem.kernelPool) && fresh(mem.userPool) && fresh(mem.kernelPool.bits) && fresh(mem.userPool.bits)
    ensures fresh(vp) && fresh(vp.bitmap) && fresh(vp.bitmap.bits)
    ensures mem.Valid() && vp.bitmap.bits != mem.kernelPool.bits && vp.bitmap.bits != mem.userPool.bits && vp.start == HEAP_PAGE
    ensures Tracks(vp.bitmap.Used(), vp.bitmap.Size(), vp.start, mem.mapping, 0) && mem.mapping == map[]
    ensures mem.kernelPool.Size() == freePages / 2 / 8 * 8 && mem.userPool.Size() == (freePages - freePages / 2) / 8 * 8
    ensures vp.bitmap.Size() == mem.kernelPool.Size()
    ensures mem.kernelPool.Used() == mem.userPool.Used() == vp.bitmap.Used() == {}
  {
    hide UsedIn;
    var tablePages, lowPages := 256, 256;
    var kernelPages := freePages / 2;
    var userPages := freePages - kernelPages;
    var kernelPool := new Bitmap(kernelPages / 8);
    var userPool := new Bitmap(userPages / 8);
    var kernelStart := tablePages + lowPages;
    mem := new Memory(kernelPool, userPool, kernelStart, kernelStart + kernelPages);
    var virtual := new Bitmap(kernelPages / 8);
    vp := new VirtualPool(virtual, HEAP_PAGE);
  }

  datatype MallocResult = NoAddress | NoFrame | NoTable | Got(page: nat)

  /** One of the pools has no free frame. */
  ghost predicate Exhausted(mem: Memory)
    reads mem, mem.kernelPool, mem.userPool, mem.kernelPool.bits, mem.userPool.bits
  {
    FreeIn(mem.userPool.Used(), mem.userPool.Size()) == {} || FreeIn(mem.kernelPool.Used(), mem.kernelPool.Size()) == {}
  }

  lemma OneFirstFit(used: set<nat>, size: nat, a: nat, b: nat, n: nat)
    requires FirstFit(used, size, a, n) && FirstFit(used, size, b, n)
    ensures a == b
  {
  }

  /** malloc_page: n pages in a row, on n frames that were free. What becomes of it is settled by the frames left and the
      tables lacking. Without a frame for every page it gives back nothing: the frames that were left have gone to the first
      pages, and all n addresses stay taken. Without a frame for a table the source writes to frame 0. The virtual pool is
      the one of the space. */
  method MallocPage(mem: Memory, s: nat, vp: VirtualPool, n: nat) returns (r: MallocResult)
    requires mem.Valid() && 0 < n < 3840 && vp.bitmap.bits != mem.kernelPool.bits && vp.bitmap.bits != mem.userPool.bits
    requires Marks(vp.bitmap.Used(), vp.bitmap.Size(), vp.start, mem.mapping, s)
    requires s != 0 ==> vp.start + vp.bitmap.Size() <= TABLE_PAGES * USER_DIRS && Page(s, STACK_PAGE) in mem.mapping
    modifies mem`mapping, mem`owner, mem.kernelPool.bits, mem.userPool.bits, vp.bitmap.bits
    ensures r == NoAddress <==> !HasRun(old(vp.bitmap.Used()), vp.bitmap.Size(), n) || WholeTail(old(vp.bitmap.Used()), vp.bitmap.Size(), n)
    ensures r == NoAddress ==> mem.mapping == old(mem.mapping) && vp.bitmap.Used() == old(vp.bitmap.Used())
                               && mem.FreeKernel() == old(mem.FreeKernel()) && mem.FreeUser() == old(mem.FreeUser())
    ensures forall b: nat | r != NoAddress && FirstFit(old(vp.bitmap.Used()), vp.bitmap.Size(), b, n) ::
      Answers(r, OutcomeOf(old(mem.mapping), s, vp.start + b, n, old(mem.FreeKernel()), old(mem.FreeUser())), vp.start + b)
    ensures r != NoTable ==> mem.Valid() && Marks(vp.bitmap.Used(), vp.bitmap.Size(), vp.start, mem.mapping, s)
    ensures forall b: nat | r == NoFrame && FirstFit(old(vp.bitmap.Used()), vp.bitmap.Size(), b, n) ::
      && vp.bitmap.Used() == old(vp.bitmap.Used()) + Interval(b, n) && mem.FreeFor(s) == 0
      && old(mem.FreeFor(s)) < n && GrewBy(old(mem.mapping), mem.mapping, s, vp.start + b, old(mem.FreeFor(s)))
    ensures r == NoTable ==> s != 0 && mem.FreeKernel() == 0
    ensures r.Got? ==>
      && mem.FreeFor(s) == old(mem.FreeFor(s)) - n
      && (s != 0 ==> mem.FreeKernel() == old(mem.FreeKernel()) - |Lacking(old(mem.mapping), s, r.page, n)|)
      && (old(Tracks(vp.bitmap.Used(), vp.bitmap.Size(), vp.start, mem.mapping, s)) ==> Tracks(vp.bitmap.Used(), vp.bitmap.Size(), vp.start, mem.mapping, s))
      && r.page >= vp.start && FirstFit(old(vp.bitmap.Used()), vp.bitmap.Size(), r.page - vp.start, n)
      && vp.bitmap.Used() == old(vp.bitmap.Used()) + Interval(r.page - vp.start, n)
      && GrewBy(old(mem.mapping), mem.mapping, s, r.page, n) && Fresh(old(mem.owner), mem.mapping, s, r.page, n)
    ensures r.Got? ==> forall k | r.page <= k < r.page + n ::
      Page(s, k) !in old(mem.mapping) && Page(s, k) in mem.mapping && mem.mapping[Page(s, k)] !in old(mem.owner)
    ensures r.Got? ==> forall u | u in old(mem.mapping) :: u in mem.mapping && mem.mapping[u] == old(mem.mapping)[u]
    ensures r.Got? ==> forall u | u in mem.mapping && u.Page? && u !in old(mem.mapping) :: u.space == s && r.page <= u.page < r.page + n
  {
    hide UsedIn, HasRun, WholeTail, FirstFit, Interval, Marks, Tracks, GrewBy, Fresh, Mapped, Pooled, Shaped, FreeIn, TablesAre,
      TablesMore, NeedsTable, Lacking, Memory.Valid;
    ghost var used, mapping0 := vp.bitmap.Used(), mem.mapping;
    var b := VaddrGet(vp, n);
    if b == -1 {
      return NoAddress;
    }
    RunIsFree(used, vp.bitmap.Size(), vp.start, mapping0, s, b, n);
    OnlyFit(used, vp.bitmap.Size(), b, n);
    var v := vp.start + b;
    assert s != 0 ==> v < STACK_PAGE;
    var k := 0;
    GrewNone(mapping0, s, v);
    FreshNone(mem.owner, mapping0, s, v);
    LackingNone(mapping0, s, v);
    while k < n
      invariant k <= n && mem.Valid() && vp.bitmap.Used() == used + Interval(b, n)
      invariant GrewBy(mapping0, mem.mapping, s, v, k) && Fresh(old(mem.owner), mem.mapping, s, v, k)
      invariant forall f | f in old(mem.owner) :: f in mem.owner && mem.owner[f] == old(mem.owner)[f]
      invariant TablesAre(mapping0, mem.mapping, s, v, k)
      invariant mem.FreeFor(s) == old(mem.FreeFor(s)) - k
      invariant s != 0 ==> mem.FreeKernel() == old(mem.FreeKernel()) - |Lacking(mapping0, s, v, k)|
    {
      ghost var before, ownerBefore := mem.mapping, mem.owner;
      StillFree(mapping0, before, s, v, k, v + k);
      InUserPart(s, vp.start, vp.bitmap.Size(), v + k);
      var done := mem.MapPage(s, v + k);
      if done == OutOfFrames {
        MarksGrown(used, vp.bitmap.Size(), vp.start, mapping0, mem.mapping, s, b, n, k);
        return NoFrame;
      }
      if done == OutOfTables {
        LacksOneMore(mapping0, before, s, v, k, n);
        return NoTable;
      }
      TablesAreMore(mapping0, before, mem.mapping, s, v, k);
      GrewMore(mapping0, before, mem.mapping, s, v, k);
      GrewKeeps(before, mem.mapping, s, v + k, 1);
      FreshMore(old(mem.owner), ownerBefore, before, mem.mapping, s, v, k);
      k := k + 1;
    }
    MarksGrown(used, vp.bitmap.Size(), vp.start, mapping0, mem.mapping, s, b, n, n);
    GrewMeans(old(mem.owner), mapping0, mem.mapping, s, v, n);
    return Got(v);
  }

  lemma GrewMeans(owner: map<nat, Use>, before: map<Use, nat>, after: map<Use, nat>, s: nat, v: nat, n: nat)
    requires GrewBy(before, after, s, v, n) && Fresh(owner, after, s, v, n)
    ensures forall k | v <= k < v + n :: Page(s, k) !in before && Page(s, k) in after && after[Page(s, k)] !in owner
    ensures forall u | u in before :: u in after && after[u] == before[u]
    ensures forall u | u in after && u.Page? && u !in before :: u.space == s && v <= u.page < v + n
  {
  }

  /** No two pages or page tables share a frame, and every frame they are on is marked as taken in its pool. */
  lemma FramesApart(mem: Memory)
    requires mem.Valid()
    ensures forall u, w | u in mem.mapping && w in mem.mapping && mem.mapping[u] == mem.mapping[w] :: u == w
    ensures forall u | u in mem.mapping :: mem.mapping[u] in mem.owner && mem.owner[mem.mapping[u]] == u
    ensures forall u | u in mem.mapping :: (mem.mapping[u] >= mem.userStart && mem.mapping[u] - mem.userStart in mem.userPool.Used())
                                        || (mem.mapping[u] >= mem.kernelStart && mem.mapping[u] - mem.kernelStart in mem.kernelPool.Used())
  {
    hide UsedIn, Shaped;
  }

  /** malloc_page returns what the outcome says. */
  ghost predicate Answers(r: MallocResult, outcome: Outcome, page: nat) {
    match outcome
    case Done => r == Got(page)
    case OutOfFrames => r == NoFrame
    case OutOfTables => r == NoTable
  }

  lemma OnlyFit(used: set<nat>, size: nat, b: nat, n: nat)
    requires FirstFit(used, size, b, n)
    ensures forall c: nat | FirstFit(used, size, c, n) :: c == b
  {
    hide FirstFit;
    forall c: nat | FirstFit(used, size, c, n) ensures c == b {
      OneFirstFit(used, size, b, c, n);
    }
  }

  lemma LackingNone(mapping: map<Use, nat>, s: nat, v: nat)
    ensures Lacking(mapping, s, v, 0) == {} && TablesAre(mapping, mapping, s, v, 0)
  {
  }

  /** A page without its table lacks one table more than the pages before it. */
  lemma LacksOneMore(before: map<Use, nat>, mapping: map<Use, nat>, s: nat, v: nat, k: nat, n: nat)
    requires TablesAre(before, mapping, s, v, k) && NeedsTable(mapping, s, v + k)
    ensures forall m: nat | m > k :: |Lacking(before, s, v, m)| > |Lacking(before, s, v, k)|
  {
    LackingMore(before, s, v, k);
    var d := (v + k) / TABLE_PAGES;
    assert Table(s, d) !in before && d !in Lacking(before, s, v, k);
    forall m: nat | m > k ensures |Lacking(before, s, v, m)| > |Lacking(before, s, v, k)| {
      LackingGrows(before, s, v, k + 1, m);
    }
  }

  lemma InUserPart(s: nat, start: nat, size: nat, v: nat)
    requires s != 0 ==> start + size <= TABLE_PAGES * USER_DIRS && v < start + size
    ensures s != 0 ==> v / TABLE_PAGES < USER_DIRS
  {
  }

  lemma FreshNone(owner: map<nat, Use>, mapping: map<Use, nat>, s: nat, v: nat)
    ensures Fresh(owner, mapping, s, v, 0)
  {
  }

  lemma StillFree(a: map<Use, nat>, b: map<Use, nat>, s: nat, v: nat, n: nat, k: nat)
    requires GrewBy(a, b, s, v, n) && k >= v + n && Page(s, k) !in a
    ensures Page(s, k) !in b
  {
  }

  lemma GrewKeeps(a: map<Use, nat>, b: map<Use, nat>, s: nat, v: nat, n: nat)
    requires GrewBy(a, b, s, v, n)
    ensures forall u | u in a :: u in b && b[u] == a[u]
  {
  }

  // ---------------------------------------------------------------- freeing

  /** n pages of space s from v on are gone, and nothing else. */
  ghost predicate ShrunkBy(before: map<Use, nat>, after: map<Use, nat>, s: nat, v: nat, n: nat) {
    && (forall u | u in after :: u in before && after[u] == before[u])
    && (forall k | v <= k < v + n :: Page(s, k) in before && Page(s, k) !in after)
    && (forall u | u in before && u !in after :: u.Page? && u.space == s && v <= u.page < v + n)
  }

  lemma ShrunkNone(mapping: map<Use, nat>, s: nat, v: nat)
    ensures ShrunkBy(mapping, mapping, s, v, 0)
  {
  }

  lemma ShrunkMeans(before: map<Use, nat>, after: map<Use, nat>, s: nat, v: nat, n: nat)
    requires ShrunkBy(before, after, s, v, n)
    ensures forall u :: u in after <==> u in before && !(u.Page? && u.space == s && v <= u.page < v + n)
    ensures forall u | u in after :: after[u] == before[u]
  {
    forall u ensures u in after <==> u in before && !(u.Page? && u.space == s && v <= u.page < v + n) {
      if u.Page? && u.space == s && v <= u.page < v + n {
        assert u == Page(s, u.page);
      }
    }
  }

  lemma ShrunkMore(a: map<Use, nat>, b: map<Use, nat>, s: nat, v: nat, n: nat)
    requires ShrunkBy(a, b, s, v, n) && Page(s, v + n) in b
    ensures ShrunkBy(a, b - {Page(s, v + n)}, s, v, n + 1)
  {
  }

  lemma StillThere(a: map<Use, nat>, b: map<Use, nat>, s: nat, v: nat, n: nat, k: nat)
    requires ShrunkBy(a, b, s, v, n) && k >= v + n && Page(s, k) in a
    ensures Page(s, k) in b
  {
  }

  lemma ShapedWithout(mapping: map<Use, nat>, u: Use)
    requires Shaped(mapping) && u.Page?
    ensures Shaped(mapping - {u})
  {
  }

  lemma MarksShrunk(used: set<nat>, size: nat, start: nat, before: map<Use, nat>, after: map<Use, nat>, s: nat, b: nat, n: nat)
    requires Marks(used, size, start, before, s) && ShrunkBy(before, after, s, start + b, n)
    ensures Marks(used - Interval(b, n), size, start, after, s)
    ensures Tracks(used, size, start, before, s) ==> Tracks(used - Interval(b, n), size, start, after, s)
  {
    forall i: nat | i < size && Page(s, start + i) in after ensures i in used - Interval(b, n) {
      if i in Interval(b, n) {
        assert false;
      }
    }
    if Tracks(used, size, start, before, s) {
      forall i | i in used - Interval(b, n) ensures Page(s, start + i) in after {
        assert Page(s, start + i) in before;
      }
    }
  }

  /** mfree_page: the frames of n pages go back to the pool that their addresses show, their entries are no longer present
      and their bits are cleared. The assertions on the addresses hold. */
  method MfreePage(mem: Memory, s: nat, vp: VirtualPool, v: nat, n: nat)
    requires mem.Valid() && n >= 1 && vp.bitmap.bits != mem.kernelPool.bits && vp.bitmap.bits != mem.userPool.bits
    requires Marks(vp.bitmap.Used(), vp.bitmap.Size(), vp.start, mem.mapping, s)
    requires vp.start <= v && v - vp.start + n <= vp.bitmap.Size() && forall k | v <= k < v + n :: Page(s, k) in mem.mapping
    modifies mem`mapping, mem`owner, mem.kernelPool.bits, mem.userPool.bits, vp.bitmap.bits
    ensures mem.Valid() && Marks(vp.bitmap.Used(), vp.bitmap.Size(), vp.start, mem.mapping, s)
    ensures old(Tracks(vp.bitmap.Used(), vp.bitmap.Size(), vp.start, mem.mapping, s)) ==> Tracks(vp.bitmap.Used(), vp.bitmap.Size(), vp.start, mem.mapping, s)
    ensures ShrunkBy(old(mem.mapping), mem.mapping, s, v, n)
    ensures forall u :: u in mem.mapping <==> u in old(mem.mapping) && !(u.Page? && u.space == s && v <= u.page < v + n)
    ensures forall u | u in mem.mapping :: mem.mapping[u] == old(mem.mapping)[u]
    ensures vp.bitmap.Used() == old(vp.bitmap.Used()) - Interval(v - vp.start, n)
  {
    hide UsedIn, Interval, Marks, Tracks, ShrunkBy, Mapped, Pooled, Shaped;
    ghost var used := vp.bitmap.Used();
    var k := 0;
    ShrunkNone(mem.mapping, s, v);
    while k < n
      invariant k <= n && mem.Valid() && ShrunkBy(old(mem.mapping), mem.mapping, s, v, k) && vp.bitmap.Used() == used
    {
      StillThere(old(mem.mapping), mem.mapping, s, v, k, v + k);
      FrameIsInPool(mem, Page(s, v + k));
      assert mem.mapping[Page(s, v + k)] >= 0x102;
      ShrunkMore(old(mem.mapping), mem.mapping, s, v, k);
      ShapedWithout(mem.mapping, Page(s, v + k));
      mem.Pfree(Page(s, v + k));
      k := k + 1;
    }
    SetBits(vp.bitmap, v - vp.start, n, false);
    ShrunkMeans(old(mem.mapping), mem.mapping, s, v, n);
    MarksShrunk(used, vp.bitmap.Size(), vp.start, old(mem.mapping), mem.mapping, s, v - vp.start, n);
  }

  /** The pool that an address shows is the pool that its use says. */
  lemma FrameIsInPool(mem: Memory, u: Use)
    requires mem.Valid() && u in mem.mapping
    ensures mem.mapping[u] >= 0x102 && (mem.mapping[u] >= mem.userStart <==> InUserPool(u))
  {
    hide UsedIn, Mapped, Pooled, Shaped;
    FrameOf(mem.owner, mem.mapping, u);
    GiveFrame(mem.owner, mem.kernelPool.Used(), mem.userPool.Used(), mem.kernelStart, mem.userStart, mem.mapping[u]);
  }

  // ---------------------------------------------------------------- there and back

  lemma BitOfUse(owner: map<nat, Use>, mapping: map<Use, nat>, kernel: set<nat>, user: set<nat>, kernelStart: nat, userStart: nat, u: Use)
    requires Mapped(owner, mapping) && Pooled(owner, kernel, user, kernelStart, userStart) && u in mapping
    ensures if InUserPool(u) then mapping[u] >= userStart && mapping[u] - userStart in user
            else mapping[u] >= kernelStart && mapping[u] - kernelStart in kernel
  {
    FrameOf(owner, mapping, u);
    hide Mapped;
  }

  lemma UseOfBit(owner: map<nat, Use>, mapping: map<Use, nat>, kernel: set<nat>, user: set<nat>, kernelStart: nat, userStart: nat, b: nat)
    requires Mapped(owner, mapping) && Pooled(owner, kernel, user, kernelStart, userStart)
    ensures b in user ==> userStart + b in owner && var u := owner[userStart + b]; InUserPool(u) && u in mapping && mapping[u] == userStart + b
    ensures b in kernel ==> kernelStart + b in owner && var u := owner[kernelStart + b]; !InUserPool(u) && u in mapping && mapping[u] == kernelStart + b
  {
  }

  /** Which bits are 1 follows from what is mapped. */
  lemma BitsOfMapping(owner0: map<nat, Use>, mapping0: map<Use, nat>, kernel0: set<nat>, user0: set<nat>,
                      owner: map<nat, Use>, mapping: map<Use, nat>, kernel: set<nat>, user: set<nat>, kernelStart: nat, userStart: nat)
    requires Mapped(owner0, mapping0) && Pooled(owner0, kernel0, user0, kernelStart, userStart)
    requires Mapped(owner, mapping) && Pooled(owner, kernel, user, kernelStart, userStart)
    requires forall u | u in mapping0 :: u in mapping && mapping[u] == mapping0[u]
    requires forall u | u in mapping && u !in mapping0 :: u.Table?
    ensures user == user0 && kernel0 <= kernel
    ensures forall b | b in kernel && b !in kernel0 :: kernelStart + b in owner && owner[kernelStart + b].Table?
  {
    hide Mapped, Pooled;
    forall b: nat ensures b in user0 <==> b in user {
      UseOfBit(owner0, mapping0, kernel0, user0, kernelStart, userStart, b);
      UseOfBit(owner, mapping, kernel, user, kernelStart, userStart, b);
      if b in user0 {
        BitOfUse(owner, mapping, kernel, user, kernelStart, userStart, owner0[userStart + b]);
      }
      if b in user {
        BitOfUse(owner0, mapping0, kernel0, user0, kernelStart, userStart, owner[userStart + b]);
      }
    }
    forall b | b in kernel0 ensures b in kernel {
      UseOfBit(owner0, mapping0, kernel0, user0, kernelStart, userStart, b);
      BitOfUse(owner, mapping, kernel, user, kernelStart, userStart, owner0[kernelStart + b]);
    }
    forall b | b in kernel && b !in kernel0 ensures kernelStart + b in owner && owner[kernelStart + b].Table? {
      UseOfBit(owner, mapping, kernel, user, kernelStart, userStart, b);
      var u := owner[kernelStart + b];
      if u in mapping0 {
        BitOfUse(owner0, mapping0, kernel0, user0, kernelStart, userStart, u);
      }
    }
  }

  lemma GrewThenShrunk(a: map<Use, nat>, b: map<Use, nat>, c: map<Use, nat>, s: nat, v: nat, n: nat)
    requires GrewBy(a, b, s, v, n) && ShrunkBy(b, c, s, v, n)
    ensures forall u | u in a :: u in c && c[u] == a[u]
    ensures forall u | u in c && u !in a :: u.Table? && s != 0
  {
  }

  /** Allocating pages and freeing them gives back every frame and every bit, apart from frames for page tables. */
  method MallocThenFree(mem: Memory, s: nat, vp: VirtualPool, n: nat) returns (r: MallocResult)
    requires mem.Valid() && 0 < n < 3840 && vp.bitmap.bits != mem.kernelPool.bits && vp.bitmap.bits != mem.userPool.bits
    requires Marks(vp.bitmap.Used(), vp.bitmap.Size(), vp.start, mem.mapping, s)
    requires s != 0 ==> vp.start + vp.bitmap.Size() <= TABLE_PAGES * USER_DIRS && Page(s, STACK_PAGE) in mem.mapping
    modifies mem`mapping, mem`owner, mem.kernelPool.bits, mem.userPool.bits, vp.bitmap.bits
    ensures r == NoAddress <==> !HasRun(old(vp.bitmap.Used()), vp.bitmap.Size(), n) || WholeTail(old(vp.bitmap.Used()), vp.bitmap.Size(), n)
    ensures r.Got? ==>
      && mem.Valid() && vp.bitmap.Used() == old(vp.bitmap.Used()) && mem.userPool.Used() == old(mem.userPool.Used())
      && (forall u | u in old(mem.mapping) :: u in mem.mapping && mem.mapping[u] == old(mem.mapping)[u])
      && (forall u | u in mem.mapping && u !in old(mem.mapping) :: u.Table? && s != 0)
      && old(mem.kernelPool.Used()) <= mem.kernelPool.Used()
      && (s == 0 ==> mem.mapping == old(mem.mapping) && mem.kernelPool.Used() == old(mem.kernelPool.Used()))
  {
    hide UsedIn, FirstFit, HasRun, WholeTail, Marks, Tracks, GrewBy, ShrunkBy, Fresh, Mapped, Pooled, Shaped, Interval, Answers, OutcomeOf;
    ghost var used, mapping0, owner0, kernel0, user0 := vp.bitmap.Used(), mem.mapping, mem.owner, mem.kernelPool.Used(), mem.userPool.Used();
    r := MallocPage(mem, s, vp, n);
    if r.Got? {
      ghost var mid := mem.mapping;
      RunIsFree(used, vp.bitmap.Size(), vp.start, mapping0, s, r.page - vp.start, n);
      GrewHas(mapping0, mid, s, r.page, n);
      MfreePage(mem, s, vp, r.page, n);
      GrewThenShrunk(mapping0, mid, mem.mapping, s, r.page, n);
      BitsOfMapping(owner0, mapping0, kernel0, user0, mem.owner, mem.mapping, mem.kernelPool.Used(), mem.userPool.Used(), mem.kernelStart, mem.userStart);
      FirstFitFree(used, vp.bitmap.Size(), r.page - vp.start, n);
      if s == 0 {
        assert mem.mapping == mapping0;
        BitsOfMapping(mem.owner, mem.mapping, mem.kernelPool.Used(), mem.userPool.Used(), owner0, mapping0, kernel0, user0, mem.kernelStart, mem.userStart);
      }
    }
  }

  lemma GrewHas(a: map<Use, nat>, b: map<Use, nat>, s: nat, v: nat, n: nat)
    requires GrewBy(a, b, s, v, n)
    ensures forall k | v <= k < v + n :: Page(s, k) in b
  {
  }

  lemma FirstFitFree(used: set<nat>, size: nat, b: nat, n: nat)
    requires FirstFit(used, size, b, n)
    ensures b + n <= size && used + Interval(b, n) - Interval(b, n) == used
  {
  }

  lemma {:induction false} AllClear(size: nat)
    ensures |FreeIn({}, size)| == size
  {
    if size > 0 {
      AllClear(size - 1);
      assert FreeIn({}, size) == FreeIn({}, size - 1) + {size - 1};
    }
  }

  lemma FirstOf16()
    ensures FirstFit({}, 16, 0, 1) && HasRun({}, 16, 1) && !WholeTail({}, 16, 1)
    ensures forall b: nat | FirstFit({}, 16, b, 1) :: b == 0
    ensures FirstFit({0}, 16, 1, 15) && HasRun({0}, 16, 15) && !WholeTail({0}, 16, 15)
    ensures !HasRun({0} + Interval(1, 15), 16, 1)
  {
    assert Run({}, 16, 0, 1) && Run({0}, 16, 1, 15);
    assert forall b: nat | FirstFit({}, 16, b, 1) :: b == 0;
    forall s: nat ensures !Run({0} + Interval(1, 15), 16, s, 1) {
      assert s < 16 ==> s in {0} + Interval(1, 15);
    }
  }

  lemma MarksOfOthers(used: set<nat>, size: nat, start: nat, before: map<Use, nat>, after: map<Use, nat>, s: nat, other: nat, v: nat)
    requires Marks(used, size, start, before, s) && GrewBy(before, after, other, v, 1) && other != s
    ensures Marks(used, size, start, after, s)
  {
  }

  lemma TracksIsMarks(used: set<nat>, size: nat, start: nat, mapping: map<Use, nat>, s: nat)
    requires Tracks(used, size, start, mapping, s)
    ensures Marks(used, size, start, mapping, s)
  {
  }

  /** A machine with 32 free pages, and a program whose first page has taken a kernel frame for its table. */
  method OneProgram() returns (mem: Memory, vp: VirtualPool)
    ensures fresh(mem) && fresh(mem.kernelPool.bits) && fresh(mem.userPool.bits) && fresh(vp.bitmap.bits)
    ensures mem.Valid() && vp.bitmap.bits != mem.kernelPool.bits && vp.bitmap.bits != mem.userPool.bits
    ensures vp.bitmap.Used() == {} && vp.bitmap.Size() == 16 && mem.FreeKernel() == 15 && Marks({}, 16, vp.start, mem.mapping, 0)
  {
    hide UsedIn, Interval, Marks, Tracks, GrewBy, Fresh, Mapped, Pooled, Shaped, FreeIn, TablesMore;
    AllClear(16);
    mem, vp := MemPoolInit(32);
    ghost var mapping0 := mem.mapping;
    TracksIsMarks({}, 16, vp.start, mapping0, 0);
    var done := mem.MapPage(1, STACK_PAGE);
    MarksOfOthers({}, 16, vp.start, mapping0, mem.mapping, 0, 1, STACK_PAGE);
  }

  /** There the kernel gets one page. Its request for 15 more fails, and takes the 14 frames that were left and all the
      addresses; after that there is not even one page. */
  method FailedRequestTakesAll() returns (mem: Memory, vp: VirtualPool, first: MallocResult, second: MallocResult, third: MallocResult)
    ensures first.Got? && second == NoFrame && third == NoAddress && mem.FreeKernel() == 0
  {
    hide UsedIn, HasRun, WholeTail, FirstFit, Interval, Marks, Tracks, GrewBy, Fresh, Mapped, Pooled, Shaped, FreeIn, TablesAre,
      TablesMore, Lacking, Memory.Valid;
    FirstOf16();
    mem, vp := OneProgram();
    first := MallocPage(mem, 0, vp, 1);
    assert vp.bitmap.Used() == {0};
    second := MallocPage(mem, 0, vp, 15);
    third := MallocPage(mem, 0, vp, 1);
  }
}
