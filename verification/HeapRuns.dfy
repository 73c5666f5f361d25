/** What a program sees of sys_malloc_ and sys_free_ over any run: pieces of memory that keep what was written to them. */
module HeapRuns {
  import opened Arenas
  import opened Bitmaps
  import opened Malloc
  import Pages
  import opened Wrappers

  datatype Request = Alloc(size: nat) | Release(k: nat) | Store(k: nat, off: nat, v: bv8) | Load(k: nat, off: nat)

  datatype Answer = Pointer | Nothing | Done | Byte(v: bv8)

  /** The pieces of memory a program holds, oldest first. */
  type View = seq<seq<bv8>>

  /** A program gives back, writes and reads only what it holds. */
  predicate Inside(view: View, r: Request) {
    match r
    case Alloc(_) => true
    case Release(k) => k < |view|
    case Store(k, off, _) => k < |view| && off < |view[k]|
    case Load(k, off) => k < |view| && off < |view[k]|
  }

  /** What a request means when memory is `granted` or not. A program that does not hold what a request is about does not
      make it. */
  function Step(view: View, r: Request, granted: bool): (View, Answer) {
    match r
    case Alloc(size) => if granted then (view + [seq(size, _ => 0)], Pointer) else (view, Nothing)
    case Release(k) => if k < |view| then (view[..k] + view[k + 1..], Done) else (view, Nothing)
    case Store(k, off, v) => if k < |view| && off < |view[k]| then (view[k := view[k][off := v]], Done) else (view, Nothing)
    case Load(k, off) => if k < |view| && off < |view[k]| then (view, Byte(view[k][off])) else (view, Nothing)
  }

  function Steps(view: View, requests: seq<Request>, grants: seq<bool>): (View, seq<Answer>)
    requires |grants| == |requests|
  {
    if requests == [] then (view, [])
    else
      var n := |requests| - 1;
      var (before, answers) := Steps(view, requests[..n], grants[..n]);
      var (after, answer) := Step(before, requests[n], grants[n]);
      (after, answers + [answer])
  }

  // ---------------------------------------------------------------- what a program can rely on

  /** The request leaves byte off of piece k alone, and piece k in its place. */
  predicate Harmless(r: Request, k: nat, off: nat) {
    (r.Release? ==> r.k > k) && (r.Store? ==> r.k != k || r.off != off)
  }

  predicate AllHarmless(requests: seq<Request>, k: nat, off: nat) {
    forall m | 0 <= m < |requests| :: Harmless(requests[m], k, off)
  }

  lemma {:induction false} ByteStays(view: View, requests: seq<Request>, grants: seq<bool>, k: nat, off: nat)
    requires |grants| == |requests| && k < |view| && off < |view[k]| && AllHarmless(requests, k, off)
    ensures var after := Steps(view, requests, grants).0;
            k < |after| && |after[k]| == |view[k]| && after[k][off] == view[k][off]
    decreases |requests|
  {
    if requests != [] {
      var n := |requests| - 1;
      assert Harmless(requests[n], k, off);
      ByteStays(view, requests[..n], grants[..n], k, off);
    }
  }

  lemma {:induction false} StepsFirst(view: View, requests: seq<Request>, grants: seq<bool>)
    requires |grants| == |requests| && requests != []
    ensures Steps(view, requests, grants).0 == Steps(Step(view, requests[0], grants[0]).0, requests[1..], grants[1..]).0
    decreases |requests|
  {
    hide Step;
    var n := |requests| - 1;
    if n == 0 {
      assert requests[..0] == [] && grants[..0] == [];
    } else {
      assert requests[1..][..n - 1] == requests[..n][1..] && grants[1..][..n - 1] == grants[..n][1..];
      StepsFirst(view, requests[..n], grants[..n]);
    }
  }

  /** A byte that was stored is loaded again, whatever is asked for, written elsewhere or given back behind it meanwhile. */
  lemma LoadAfterStore(view: View, requests: seq<Request>, grants: seq<bool>, k: nat, off: nat, v: bv8)
    requires |grants| == |requests| >= 2 && k < |view| && off < |view[k]| && requests[0] == Store(k, off, v)
    requires requests[|requests| - 1] == Load(k, off) && AllHarmless(requests[1..|requests| - 1], k, off)
    ensures |Steps(view, requests, grants).1| == |requests| && Steps(view, requests, grants).1[|requests| - 1] == Byte(v)
  {
    var n := |requests| - 1;
    AnswersEach(view, requests[..n], grants[..n]);
    StepsFirst(view, requests[..n], grants[..n]);
    assert requests[..n][1..] == requests[1..n];
    ByteStays(Step(view, requests[0], grants[0]).0, requests[1..n], grants[..n][1..], k, off);
  }

  /** New memory is zero where nothing was stored. */
  lemma LoadAfterAlloc(view: View, requests: seq<Request>, grants: seq<bool>, size: nat, off: nat)
    requires |grants| == |requests| >= 2 && requests[0] == Alloc(size) && grants[0] && off < size
    requires requests[|requests| - 1] == Load(|view|, off) && AllHarmless(requests[1..|requests| - 1], |view|, off)
    ensures |Steps(view, requests, grants).1| == |requests| && Steps(view, requests, grants).1[|requests| - 1] == Byte(0)
  {
    var n := |requests| - 1;
    AnswersEach(view, requests[..n], grants[..n]);
    StepsFirst(view, requests[..n], grants[..n]);
    assert requests[..n][1..] == requests[1..n];
    ByteStays(Step(view, requests[0], grants[0]).0, requests[1..n], grants[..n][1..], |view|, off);
  }

  lemma {:induction false} AnswersEach(view: View, requests: seq<Request>, grants: seq<bool>)
    requires |grants| == |requests|
    ensures |Steps(view, requests, grants).1| == |requests|
    decreases |requests|
  {
    if requests != [] {
      AnswersEach(view, requests[..|requests| - 1], grants[..|requests| - 1]);
    }
  }

  /** How many pieces a run adds: one for each pointer given out, less one for each taken back. */
  function Net(requests: seq<Request>, answers: seq<Answer>): int
    requires |answers| == |requests|
  {
    if requests == [] then 0
    else
      var n := |requests| - 1;
      Net(requests[..n], answers[..n]) + if answers[n].Pointer? then 1 else if requests[n].Release? && answers[n].Done? then -1 else 0
  }

  lemma {:induction false} PiecesAreConserved(view: View, requests: seq<Request>, grants: seq<bool>)
    requires |grants| == |requests|
    ensures |Steps(view, requests, grants).1| == |requests|
    ensures |Steps(view, requests, grants).0| == |view| + Net(requests, Steps(view, requests, grants).1)
    decreases |requests|
  {
    AnswersEach(view, requests, grants);
    if requests != [] {
      var n := |requests| - 1;
      PiecesAreConserved(view, requests[..n], grants[..n]);
      AnswersEach(view, requests[..n], grants[..n]);
      var (before, answers) := Steps(view, requests[..n], grants[..n]);
      assert Steps(view, requests, grants).1[..n] == answers;
    }
  }

  /** The allocation at b has a piece of memory in it. */
  ghost predicate Piece(arenas: Arenas, bytes: Bytes, b: nat, piece: seq<bv8>) {
    b / PAGE in arenas && |piece| <= Extent(arenas, b) && forall j: nat | j < |piece| :: At(bytes, b + j) == piece[j]
  }

  /** The allocations of the heap are the pointers held, one for each piece of the view, with what is in the piece. */
  ghost predicate Holds(arenas: Arenas, free: seq<seq<nat>>, bytes: Bytes, held: seq<nat>, view: View) {
    && |held| == |view| && NoDup(held)
    && (forall c: nat :: Live(arenas, free, c) <==> c in held)
    && (forall k: nat | k < |held| :: Piece(arenas, bytes, held[k], view[k]))
  }

  lemma AllocHolds(arenas0: Arenas, free0: seq<seq<nat>>, bytes0: Bytes, held: seq<nat>, view: View,
                   arenas: Arenas, free: seq<seq<nat>>, bytes: Bytes, b: nat, size: nat)
    requires Holds(arenas0, free0, bytes0, held, view) && Gained(arenas0, free0, bytes0, arenas, free, bytes, b)
    requires b / PAGE in arenas && size <= Extent(arenas, b) && Zero(bytes, b, Extent(arenas, b))
    ensures Holds(arenas, free, bytes, held + [b], view + [seq(size, _ => 0)])
  {
    assert b !in held;
    forall k: nat | k < |held| ensures Piece(arenas, bytes, held[k], view[k]) {
      assert held[k] in held && Live(arenas0, free0, held[k]) && Live(arenas, free, held[k]);
      KeptPiece(arenas0, free0, bytes0, arenas, bytes, held[k], view[k]);
    }
  }

  lemma KeptPiece(arenas0: Arenas, free0: seq<seq<nat>>, bytes0: Bytes, arenas: Arenas, bytes: Bytes, b: nat, piece: seq<bv8>)
    requires Piece(arenas0, bytes0, b, piece) && b / PAGE in arenas && Extent(arenas, b) == Extent(arenas0, b)
    requires Same(bytes0, bytes, b, Extent(arenas0, b))
    ensures Piece(arenas, bytes, b, piece)
  {
  }

  lemma ReleaseHolds(arenas0: Arenas, free0: seq<seq<nat>>, bytes0: Bytes, held: seq<nat>, view: View,
                     arenas: Arenas, free: seq<seq<nat>>, bytes: Bytes, k: nat)
    requires Holds(arenas0, free0, bytes0, held, view) && k < |held|
    requires Lost(arenas0, free0, bytes0, arenas, free, bytes, held[k])
    ensures Holds(arenas, free, bytes, held[..k] + held[k + 1..], view[..k] + view[k + 1..])
  {
    var held1, view1 := held[..k] + held[k + 1..], view[..k] + view[k + 1..];
    RemoveAt(held, k);
    forall m: nat | m < |held1| ensures Piece(arenas, bytes, held1[m], view1[m]) {
      var n: nat := if m < k then m else m + 1;
      assert held1[m] == held[n] && view1[m] == view[n] && held[n] in held1 && Live(arenas, free, held[n]);
      KeptPiece(arenas0, free0, bytes0, arenas, bytes, held[n], view[n]);
    }
  }

  lemma RemoveAt(held: seq<nat>, k: nat)
    requires NoDup(held) && k < |held|
    ensures NoDup(held[..k] + held[k + 1..]) && forall c :: c in held[..k] + held[k + 1..] <==> c in held && c != held[k]
  {
    forall c | c in held && c != held[k] ensures c in held[..k] + held[k + 1..] {
      var n :| 0 <= n < |held| && held[n] == c;
      assert n < k ==> held[..k][n] == c;
      assert n > k ==> held[k + 1..][n - k - 1] == c;
    }
  }

  /** A store in one piece is in no other. */
  lemma StoreHolds(arenas: Arenas, free: seq<seq<nat>>, bytes: Bytes, held: seq<nat>, view: View, k: nat, off: nat, v: bv8)
    requires Good(arenas, free) && Holds(arenas, free, bytes, held, view) && k < |view| && off < |view[k]|
    ensures Holds(arenas, free, bytes[held[k] + off := v], held, view[k := view[k][off := v]])
  {
    var bytes1, view1 := bytes[held[k] + off := v], view[k := view[k][off := v]];
    forall m: nat | m < |held| ensures Piece(arenas, bytes1, held[m], view1[m]) {
      assert Piece(arenas, bytes, held[m], view[m]) && Piece(arenas, bytes, held[k], view[k]);
      assert Live(arenas, free, held[m]) && Live(arenas, free, held[k]);
      if held[m] < held[k] {
        LiveApart(arenas, free, held[m], held[k]);
      } else if held[k] < held[m] {
        LiveApart(arenas, free, held[k], held[m]);
      }
    }
  }

  lemma HeldLive(arenas: Arenas, free: seq<seq<nat>>, bytes: Bytes, held: seq<nat>, view: View, k: nat)
    requires Holds(arenas, free, bytes, held, view) && k < |view|
    ensures k < |held| && Live(arenas, free, held[k])
  {
    assert held[k] in held;
  }

  lemma IsLive(arenas0: Arenas, free0: seq<seq<nat>>, bytes0: Bytes, arenas: Arenas, free: seq<seq<nat>>, bytes: Bytes, b: nat)
    requires Gained(arenas0, free0, bytes0, arenas, free, bytes, b)
    ensures b / PAGE in arenas
  {
  }

  /** The free blocks and the page layer's supply when a request comes. */
  datatype Moment = Moment(free: seq<seq<nat>>, supply: Supply)

  ghost function Now(heap: Heap, mem: Pages.Memory, vp: Pages.VirtualPool): Moment
    reads heap, mem, mem.kernelPool, mem.userPool, mem.kernelPool.bits, mem.userPool.bits, vp, vp.bitmap, vp.bitmap.bits
  {
    Moment(heap.free, SupplyOf(mem, vp))
  }

  ghost predicate Grants(at: Moment, s: nat, r: Request, poolSize: nat) {
    r.Alloc? && Granted(at.free, at.supply, s, r.size, poolSize)
  }

  /** The request is for too many pages for malloc_page, or a page table finds no frame. */
  ghost predicate Stops(at: Moment, s: nat, r: Request, poolSize: nat) {
    r.Alloc? && ((1024 < r.size < poolSize && PagesFor(r.size) >= 3840) || Tableless(at.free, at.supply, s, r.size, poolSize))
  }

  /** In the kernel a request for memory is granted exactly when it is for something below the size of the pool and, above
      1024 bytes, there are addresses in a row and frames for its pages; up to 1024, a free block of the smallest size
      that is enough, or an address and a frame for a new arena. */
  lemma KernelGrants(at: Moment, r: Request, poolSize: nat)
    ensures Grants(at, 0, r, poolSize) <==>
      r.Alloc? && 0 < r.size < poolSize &&
      var used, size, frames := at.supply.used, at.supply.size, at.supply.freeKernel;
      if r.size > 1024 then
        var n := PagesFor(r.size); n < 3840 && HasRun(used, size, n) && !WholeTail(used, size, n) && n <= frames
      else
        HasBlock(at.free, r.size) || (HasRun(used, size, 1) && !WholeTail(used, size, 1) && frames >= 1)
  {
    hide Outcome, HasRun, WholeTail, HasBlock;
    if r.Alloc? {
      KernelOutcome(at.supply, PagesFor(r.size));
      KernelOutcome(at.supply, 1);
    }
  }

  /** Only requests for memory and releases change what there is, and one that is refused no free block. */
  ghost predicate Follows(a: Moment, b: Moment, r: Request, granted: bool) {
    && (r.Store? || r.Load? ==> b == a)
    && (r.Alloc? && !granted ==> b.free == a.free)
  }

  /** One request. */
  method Serve(heap: Heap, mem: Pages.Memory, vp: Pages.VirtualPool, held: seq<nat>, view: View, r: Request, poolSize: nat)
    returns (stopped: bool, granted: bool, held1: seq<nat>, answer: Answer)
    requires Ready(heap, mem, vp) && Holds(heap.arenas, heap.free, heap.bytes, held, view)
    modifies heap`arenas, heap`free, heap`bytes, mem`mapping, mem`owner, mem.kernelPool.bits, mem.userPool.bits, vp.bitmap.bits
    ensures stopped <==> Stops(old(Now(heap, mem, vp)), heap.space, r, poolSize)
    ensures granted <==> Grants(old(Now(heap, mem, vp)), heap.space, r, poolSize)
    ensures stopped && heap.space == 0 ==> r.Alloc? && 1024 < r.size < poolSize && PagesFor(r.size) >= 3840
    ensures !stopped ==> Ready(heap, mem, vp) && Holds(heap.arenas, heap.free, heap.bytes, held1, Step(view, r, granted).0)
    ensures !stopped ==> answer == Step(view, r, granted).1 && Follows(old(Now(heap, mem, vp)), Now(heap, mem, vp), r, granted)
  {
    hide Pages.Marks, Backed, Pages.Mapped, Pages.Pooled, Pages.Shaped, UsedIn, FreeIn, Good, Holds, Gained, Lost, Live, Zero, LastOf,
      Pages.ShrunkBy, Outcome, HasBlock, Granted, Tableless;
    ghost var arenas0, free0, bytes0 := heap.arenas, heap.free, heap.bytes;
    if !Inside(view, r) {
      return false, false, held, Nothing;
    }
    match r
    case Alloc(size) =>
      var got := SysMalloc(heap, mem, vp, size, poolSize);
      if got.Ptr? {
        IsLive(arenas0, free0, bytes0, heap.arenas, heap.free, heap.bytes, got.b);
        AllocHolds(arenas0, free0, bytes0, held, view, heap.arenas, heap.free, heap.bytes, got.b, size);
        return false, true, held + [got.b], Pointer;
      }
      return got != Null, false, held, Nothing;
    case Release(k) =>
      HeldLive(arenas0, free0, bytes0, held, view, k);
      SysFree(heap, mem, vp, held[k]);
      ReleaseHolds(arenas0, free0, bytes0, held, view, heap.arenas, heap.free, heap.bytes, k);
      return false, false, held[..k] + held[k + 1..], Done;
    case Store(k, off, v) =>
      HeldLive(arenas0, free0, bytes0, held, view, k);
      StoreHolds(arenas0, free0, bytes0, held, view, k, off, v);
      heap.bytes := heap.bytes[held[k] + off := v];
      return false, false, held, Done;
    case Load(k, off) =>
      HeldLive(arenas0, free0, bytes0, held, view, k);
      LoadHolds(arenas0, free0, bytes0, held, view, k, off);
      return false, false, held, Byte(At(heap.bytes, held[k] + off));
  }

  lemma LoadHolds(arenas: Arenas, free: seq<seq<nat>>, bytes: Bytes, held: seq<nat>, view: View, k: nat, off: nat)
    requires Holds(arenas, free, bytes, held, view) && k < |view| && off < |view[k]|
    ensures k < |held| && At(bytes, held[k] + off) == view[k][off]
  {
    assert Piece(arenas, bytes, held[k], view[k]);
  }

  lemma StepsMore(view: View, requests: seq<Request>, grants: seq<bool>, granted: bool)
    requires |grants| < |requests|
    ensures var n := |grants|;
            var (before, answers) := Steps(view, requests[..n], grants);
            var (after, answer) := Step(before, requests[n], granted);
            Steps(view, requests[..n + 1], grants + [granted]) == (after, answers + [answer])
  {
    var n := |grants|;
    assert requests[..n + 1][..n] == requests[..n] && (grants + [granted])[..n] == grants;
  }

  /** The moments of a run: memory is granted exactly when there is some, and only the last request may stop the run. */
  ghost predicate Traced(trace: seq<Moment>, s: nat, requests: seq<Request>, grants: seq<bool>, poolSize: nat) {
    |trace| == |grants| + 1 <= |requests| + 1 &&
    forall m: nat | m < |grants| ::
      && (grants[m] <==> Grants(trace[m], s, requests[m], poolSize)) && !Stops(trace[m], s, requests[m], poolSize)
      && Follows(trace[m], trace[m + 1], requests[m], grants[m])
  }

  lemma TracedMore(trace: seq<Moment>, s: nat, requests: seq<Request>, grants: seq<bool>, poolSize: nat, granted: bool, next: Moment)
    requires Traced(trace, s, requests, grants, poolSize) && |grants| < |requests|
    requires var m := |grants|; (granted <==> Grants(trace[m], s, requests[m], poolSize)) && !Stops(trace[m], s, requests[m], poolSize)
                                && Follows(trace[m], next, requests[m], granted)
    ensures Traced(trace + [next], s, requests, grants + [granted], poolSize)
  {
    hide Grants, Stops, Follows;
  }

  lemma TracedNone(now: Moment, s: nat, requests: seq<Request>, poolSize: nat)
    ensures Traced([now], s, requests, [], poolSize)
  {
  }

  lemma StepsNone(view: View)
    ensures Steps(view, [], []) == (view, [])
  {
  }

  /** Every run of requests answers as the view does, through refused requests and on behind them, and leaves in the heap
      what the view holds. When all is given back no page is in an arena. A run of the kernel stops only at a request for 3840
      pages or more. */
  method Run(heap: Heap, mem: Pages.Memory, vp: Pages.VirtualPool, held: seq<nat>, view: View, requests: seq<Request>, poolSize: nat)
    returns (n: nat, held1: seq<nat>, answers: seq<Answer>, grants: seq<bool>, ghost trace: seq<Moment>)
    requires Ready(heap, mem, vp) && Holds(heap.arenas, heap.free, heap.bytes, held, view)
    modifies heap`arenas, heap`free, heap`bytes, mem`mapping, mem`owner, mem.kernelPool.bits, mem.userPool.bits, vp.bitmap.bits
    ensures n == |grants| <= |requests| && answers == Steps(view, requests[..n], grants).1
    ensures Traced(trace, heap.space, requests, grants, poolSize) && trace != [] && trace[0] == old(Now(heap, mem, vp))
    ensures n < |requests| ==> Stops(trace[n], heap.space, requests[n], poolSize)
    ensures n < |requests| && heap.space == 0 ==>
      var r := requests[n]; r.Alloc? && 1024 < r.size < poolSize && PagesFor(r.size) >= 3840
    ensures n == |requests| ==> trace[n] == Now(heap, mem, vp)
    ensures n == |requests| ==> Ready(heap, mem, vp) && Holds(heap.arenas, heap.free, heap.bytes, held1, Steps(view, requests, grants).0)
    ensures n == |requests| ==> (heap.arenas == map[] <==> Steps(view, requests, grants).0 == [])
  {
    hide Ready, Holds, Step, Steps, Stops, Grants, Follows, SupplyOf, Now, Traced;
    var view1 := view;
    n, held1, answers, grants, trace := 0, held, [], [], [Now(heap, mem, vp)];
    assert requests[..0] == [];
    StepsNone(view);
    TracedNone(Now(heap, mem, vp), heap.space, requests, poolSize);
    while n < |requests|
      invariant n == |grants| <= |requests| && Steps(view, requests[..n], grants) == (view1, answers)
      invariant Ready(heap, mem, vp) && Holds(heap.arenas, heap.free, heap.bytes, held1, view1)
      invariant Traced(trace, heap.space, requests, grants, poolSize) && |trace| == n + 1
      invariant trace[0] == old(Now(heap, mem, vp)) && trace[n] == Now(heap, mem, vp)
    {
      var stopped, granted, held2, answer := Serve(heap, mem, vp, held1, view1, requests[n], poolSize);
      if stopped {
        return;
      }
      StepsMore(view, requests, grants, granted);
      TracedMore(trace, heap.space, requests, grants, poolSize, granted, Now(heap, mem, vp));
      trace := trace + [Now(heap, mem, vp)];
      view1, held1 := Step(view1, requests[n], granted).0, held2;
      n, answers, grants := n + 1, answers + [answer], grants + [granted];
    }
    assert requests[..n] == requests;
    IsReady(heap, mem, vp);
    NothingHeld(heap.arenas, heap.free, heap.bytes, held1, view1);
  }

  lemma IsReady(heap: Heap, mem: Pages.Memory, vp: Pages.VirtualPool)
    requires Ready(heap, mem, vp)
    ensures Good(heap.arenas, heap.free)
  {
  }

  /** A heap with nothing allocated has no arena. */
  lemma NothingHeld(arenas: Arenas, free: seq<seq<nat>>, bytes: Bytes, held: seq<nat>, view: View)
    requires Good(arenas, free) && Holds(arenas, free, bytes, held, view)
    ensures arenas == map[] <==> view == []
  {
    hide Good;
    if p :| p in arenas {
      var c := SomeLive(arenas, free, p);
      assert c in held;
    }
    if view != [] {
      HeldLive(arenas, free, bytes, held, view, 0);
    }
  }

  /** mem_init: the kernel's heap is ready for a run. */
  method MemInit(freePages: nat) returns (heap: Heap, mem: Pages.Memory, vp: Pages.VirtualPool)
    requires freePages < 0x1_0000
    ensures fresh(heap) && fresh(mem) && fresh(vp) && heap.space == 0
    ensures fresh(mem.kernelPool.bits) && fresh(mem.userPool.bits) && fresh(vp.bitmap.bits)
    ensures Ready(heap, mem, vp) && Holds(heap.arenas, heap.free, heap.bytes, [], [])
    ensures var s := SupplyOf(mem, vp); s.used == {} && s.size == s.freeKernel == freePages / 2 / 8 * 8
  {
    hide Pages.Tracks, Pages.Marks, Pages.Mapped, Pages.Pooled, Pages.Shaped, UsedIn, Good;
    mem, vp := Pages.MemPoolInit(freePages);
    Pages.TracksIsMarks(vp.bitmap.Used(), vp.bitmap.Size(), vp.start, mem.mapping, 0);
    heap := new Heap(0);
    NothingLive(heap.free);
    Pages.AllClear(vp.bitmap.Size());
  }

  /** Nothing is in use, and n pages are fewer than there are. */
  lemma PlentyIsDone(p: Supply, n: nat)
    requires p.used == {} && p.size == p.freeKernel && n % 8 != 0 && p.size % 8 == 0 && n <= p.size
    ensures Outcome(p, 0, n, Pages.Done)
  {
    assert FirstFit({}, p.size, 0, n);
    forall f: nat ensures 8 * f + n != p.size {
    }
  }

  /** A machine with 256 MB: a request for 15724532 bytes, which are 3839 pages, is served; for one byte more, with
      plenty of memory left, the assertion of malloc_page fails. */
  method OneByteTooMany() returns (first: Result, second: Result)
    ensures first.Ptr? && second == Panicked
  {
    hide Ready, Gained, Zero, Outcome, Granted, Tableless;
    var freePages := 0xffff;
    var heap, mem, vp := MemInit(freePages);
    PlentyIsDone(SupplyOf(mem, vp), 3839);
    ServedLarge(heap.free, SupplyOf(mem, vp), 15724532, 3839, freePages / 2 * PAGE);
    first := SysMalloc(heap, mem, vp, 15724532, freePages / 2 * PAGE);
    second := SysMalloc(heap, mem, vp, 15724533, freePages / 2 * PAGE);
  }

  lemma ServedLarge(free: seq<seq<nat>>, p: Supply, size: nat, n: nat, poolSize: nat)
    requires 1024 < size < poolSize && n == PagesFor(size) < 3840 && Outcome(p, 0, n, Pages.Done)
    ensures Granted(free, p, 0, size, poolSize)
  {
  }

  lemma NothingLive(free: seq<seq<nat>>)
    ensures forall c: nat :: !Live(map[], free, c)
  {
  }
}
