/** thread/sync.c as a state machine: one event is one stretch of code that no other thread can
    interrupt. A region with interrupts off is one event up to the switch to another thread; the
    statements of lock_acquire and lock_release outside such regions are events of their own. */
module Sync {
  import opened Wrappers
  import K = Threads

  type Tid = K.Tid

  datatype Sem = Sem(value: nat, waiters: seq<Tid>)

  datatype Lock = Lock(holder: Option<Tid>, repeat: nat)

  /** Where a thread is: in code of its own, asleep for another reason, in the loop of sema_down,
      or between two statements of lock_acquire or lock_release on lock l. */
  datatype Pc =
    | Normal
    | Parked
    | InDown(s: nat, forLock: bool)
    | AcqDown(l: nat) | AcqHolder(l: nat) | AcqRepeat(l: nat) | AcqInc(l: nat)
    | RelDec(l: nat) | RelHolder(l: nat) | RelRepeat(l: nat) | RelUp(l: nat)

  /** Lock i owns semaphore i; the semaphores from |locks| on stand alone. `depth` counts, for a thread
      and a lock, the acquires that have returned less the releases that have begun: no code reads it. */
  datatype Sys = Sys(k: K.State, sems: seq<Sem>, locks: seq<Lock>, pc: map<Tid, Pc>, depth: map<(Tid, nat), nat>)

  function PcOf(y: Sys, t: Tid): Pc {
    if t in y.pc then y.pc[t] else Normal
  }

  function DepthOf(y: Sys, t: Tid, l: nat): nat {
    if (t, l) in y.depth then y.depth[(t, l)] else 0
  }

  function At(y: Sys, p: Pc): Sys {
    y.(pc := y.pc[y.k.cur := p])
  }

  function WithDepth(y: Sys, l: nat, d: nat): Sys {
    y.(depth := y.depth[(y.k.cur, l) := d])
  }

  // ---------------------------------------------------------------- the code

  /** One turn of the loop of sema_down. */
  function DownTurn(y: Sys, s: nat, forLock: bool): Option<Sys>
    requires s < |y.sems|
  {
    var sem := y.sems[s];
    if sem.value == 0 then
      if y.k.cur in sem.waiters then None
      else
        var k :- K.Block(y.k, K.Blocked);
        Some(At(y, InDown(s, forLock)).(k := k, sems := y.sems[s := sem.(waiters := sem.waiters + [y.k.cur])]))
    else if sem.value - 1 != 0 then None
    else Some(At(y, if forLock then AcqHolder(s) else Normal).(sems := y.sems[s := sem.(value := sem.value - 1)]))
  }

  function SemaUp(y: Sys, s: nat): Option<Sys>
    requires s < |y.sems|
  {
    var sem := y.sems[s];
    if sem.value != 0 then None
    else if sem.waiters == [] then Some(y.(sems := y.sems[s := sem.(value := 1)]))
    else
      var k :- K.Unblock(y.k, sem.waiters[0]);
      Some(y.(k := k, sems := y.sems[s := Sem(1, sem.waiters[1..])]))
  }

  function AcquireTest(y: Sys, l: nat): Sys
    requires l < |y.locks|
  {
    At(y, if y.locks[l].holder != Some(y.k.cur) then AcqDown(l) else AcqInc(l))
  }

  function ReleaseTest(y: Sys, l: nat): Option<Sys>
    requires l < |y.locks|
  {
    var d := DepthOf(y, y.k.cur, l);
    if y.locks[l].holder != Some(y.k.cur) then None
    else Some(WithDepth(At(y, if y.locks[l].repeat > 1 then RelDec(l) else RelHolder(l)), l, if d == 0 then 0 else d - 1))
  }

  function SetLock(y: Sys, l: nat, lock: Lock, p: Pc): Sys
    requires l < |y.locks|
  {
    At(y, p).(locks := y.locks[l := lock])
  }

  predicate InLockCode(p: Pc) {
    !p.Normal? && !p.Parked? && !p.InDown?
  }

  /** The next statement of lock_acquire or lock_release. */
  function Advance(y: Sys): Option<Sys>
    requires InLockCode(PcOf(y, y.k.cur)) && PcOf(y, y.k.cur).l < |y.locks| <= |y.sems|
  {
    var p := PcOf(y, y.k.cur);
    var l := p.l;
    var lock := y.locks[l];
    match p
    case AcqDown(_) => DownTurn(y, l, true)
    case AcqHolder(_) => Some(SetLock(y, l, lock.(holder := Some(y.k.cur)), AcqRepeat(l)))
    case AcqRepeat(_) =>
      if lock.repeat != 0 then None
      else Some(WithDepth(SetLock(y, l, lock.(repeat := 1), Normal), l, DepthOf(y, y.k.cur, l) + 1))
    case AcqInc(_) => Some(WithDepth(SetLock(y, l, lock.(repeat := lock.repeat + 1), Normal), l, DepthOf(y, y.k.cur, l) + 1))
    case RelDec(_) => if lock.repeat == 0 then None else Some(SetLock(y, l, lock.(repeat := lock.repeat - 1), Normal))
    case RelHolder(_) => if lock.repeat != 1 then None else Some(SetLock(y, l, lock.(holder := None), RelRepeat(l)))
    case RelRepeat(_) => Some(SetLock(y, l, lock.(repeat := 0), RelUp(l)))
    case RelUp(_) =>
      var y1 :- SemaUp(y, l);
      Some(At(y1, Normal))
  }

  // ---------------------------------------------------------------- the interleavings

  datatype Event =
    | Tick | Yields | Parks(how: K.Status) | Resumes | Wakes(t: Tid) | Starts(new_: Tid, prio: nat)
    | Up(s: nat) | Down(s: nat) | Retry
    | Acquire(l: nat) | Release(l: nat) | Step

  /** What may happen next. Interrupts are off inside sema_down; a lone semaphore is only upped when it is 0,
      a lock is only released by a thread that is inside it, and idle takes no lock and downs no semaphore. */
  predicate Enabled(y: Sys, e: Event) {
    var me := y.k.cur;
    var p := PcOf(y, me);
    match e
    case Tick => !p.InDown?
    case Yields => p.Normal?
    case Parks(how) => p.Normal? && K.Asleep(how) && (me == y.k.idle ==> how == K.Blocked)
    case Resumes => p.Parked?
    case Wakes(t) => !p.InDown? && PcOf(y, t).Parked? && K.Asleep(K.StatusOf(y.k, t))
    case Starts(t, prio) => p.Normal? && t !in y.k.status && prio >= 1
    case Up(s) => !p.InDown? && |y.locks| <= s < |y.sems| && y.sems[s].value == 0
    case Down(s) => p.Normal? && |y.locks| <= s < |y.sems| && me != y.k.idle
    case Retry => p.InDown? && p.s < |y.sems|
    case Acquire(l) => p.Normal? && l < |y.locks| && me != y.k.idle
    case Release(l) => p.Normal? && l < |y.locks| && DepthOf(y, me, l) > 0 && me != y.k.idle
    case Step => InLockCode(p) && p.l < |y.locks| <= |y.sems|
  }

  function WithK(y: Sys, k: Option<K.State>): Option<Sys> {
    if k.None? then None else Some(y.(k := k.value))
  }

  function Next(y: Sys, e: Event): Option<Sys>
    requires Enabled(y, e)
  {
    match e
    case Tick => WithK(y, K.Tick(y.k))
    case Yields => WithK(y, K.Yield(y.k))
    case Parks(how) => WithK(At(y, Parked), K.Block(y.k, how))
    case Resumes => Some(At(y, Normal))
    case Wakes(t) => WithK(y, K.Unblock(y.k, t))
    case Starts(t, prio) => WithK(y, K.Start(y.k, t, prio))
    case Up(s) => SemaUp(y, s)
    case Down(s) => DownTurn(y, s, false)
    case Retry => DownTurn(y, PcOf(y, y.k.cur).s, PcOf(y, y.k.cur).forLock)
    case Acquire(l) => Some(AcquireTest(y, l))
    case Release(l) => ReleaseTest(y, l)
    case Step => Advance(y)
  }

  // ---------------------------------------------------------------- the invariant

  /** A thread that left the wait list of s and has yet to retry. */
  ghost predicate Woken(y: Sys, s: nat, t: Tid) {
    PcOf(y, t).InDown? && PcOf(y, t).s == s && K.Awake(K.StatusOf(y.k, t))
  }

  ghost predicate SemOk(y: Sys, s: nat)
    requires s < |y.sems|
  {
    && y.sems[s].value <= 1
    && NoDup(y.sems[s].waiters)
    && (forall t | t in y.sems[s].waiters :: K.StatusOf(y.k, t) == K.Blocked && PcOf(y, t).InDown? && PcOf(y, t).s == s)
    && (y.sems[s].value == 1 && y.sems[s].waiters != [] ==> exists t :: Woken(y, s, t))
  }

  ghost predicate ThreadOk(y: Sys, t: Tid)
    requires |y.locks| <= |y.sems|
  {
    var p := PcOf(y, t);
    var st := K.StatusOf(y.k, t);
    && (t in y.pc ==> t in y.k.status)
    && (K.Asleep(st) ==> p.Parked? || p.InDown?)
    && (p.InDown? ==> p.s < |y.sems| && (p.forLock <==> p.s < |y.locks|) && (K.Awake(st) || t in y.sems[p.s].waiters))
    && (InLockCode(p) ==> p.l < |y.locks|)
    && (t == y.k.idle ==> p.Normal? || p.Parked?)
  }

  /** The pc of a thread as far as lock l is concerned. */
  function On(p: Pc, l: nat): Pc {
    if InLockCode(p) && p.l == l then p
    else if p.InDown? && p.forLock && p.s == l then p
    else Normal
  }

  /** Between a successful down of lock l's semaphore and its up. */
  predicate Inside(y: Sys, t: Tid, l: nat) {
    var p := On(PcOf(y, t), l);
    DepthOf(y, t, l) > 0 || p.AcqHolder? || p.AcqRepeat? || p.RelHolder? || p.RelRepeat? || p.RelUp?
  }

  /** The repeat count that belongs to each place inside. */
  function Expected(p: Pc, depth: nat): nat {
    match p
    case RelDec(_) => depth + 1
    case RelHolder(_) => 1
    case RelRepeat(_) => 1
    case _ => depth
  }

  ghost predicate LockOk(y: Sys, l: nat)
    requires l < |y.locks| <= |y.sems|
  {
    && (forall t: Tid, u: Tid | Inside(y, t, l) && Inside(y, u, l) :: t == u)
    && (forall t: Tid | Inside(y, t, l) :: y.sems[l].value != 1 && y.locks[l].repeat == Expected(On(PcOf(y, t), l), DepthOf(y, t, l)))
    && ((forall t: Tid :: !Inside(y, t, l)) ==> y.locks[l].repeat == 0)
    && (forall t: Tid :: y.locks[l].holder == Some(t) <==> Holding(y, t, l))
    && (forall t: Tid :: DepthFits(On(PcOf(y, t), l), DepthOf(y, t, l)))
  }

  /** Inside, and neither before the assignment of `holder` nor after it was cleared. */
  predicate Holding(y: Sys, t: Tid, l: nat) {
    var p := On(PcOf(y, t), l);
    Inside(y, t, l) && !p.AcqHolder? && !p.RelRepeat? && !p.RelUp?
  }

  predicate DepthFits(p: Pc, depth: nat) {
    if p.AcqInc? || p.RelDec? then depth > 0
    else p.Normal? || depth == 0
  }

  ghost predicate SemsOk(y: Sys) {
    forall s | 0 <= s < |y.sems| :: SemOk(y, s)
  }

  ghost predicate ThreadsOk(y: Sys) {
    |y.locks| <= |y.sems| && forall t: Tid :: ThreadOk(y, t)
  }

  ghost predicate LocksOk(y: Sys) {
    |y.locks| <= |y.sems| && forall l | 0 <= l < |y.locks| :: LockOk(y, l)
  }

  ghost predicate Inv(y: Sys) {
    K.Inv(y.k) && SemsOk(y) && ThreadsOk(y) && LocksOk(y)
  }

  // ---------------------------------------------------------------- one lemma per kind of event

  predicate AimsAt(y: Sys, t: Tid, s: nat) {
    PcOf(y, t).InDown? && PcOf(y, t).s == s
  }

  /** A semaphore whose value and list stay is kept if those in its sema_down stay there, asleep or awake as before. */
  lemma SemFrame(y: Sys, y1: Sys, s: nat)
    requires s < |y.sems| == |y1.sems| && y1.sems[s] == y.sems[s] && SemOk(y, s)
    requires forall t: Tid | AimsAt(y, t, s) :: PcOf(y1, t) == PcOf(y, t) && K.SameFor(y.k, y1.k, t)
    ensures SemOk(y1, s)
  {
    forall t | t in y.sems[s].waiters ensures K.StatusOf(y1.k, t) == K.Blocked && AimsAt(y1, t, s) {
      assert AimsAt(y, t, s);
    }
    forall t | Woken(y, s, t) ensures Woken(y1, s, t) {
      assert AimsAt(y, t, s);
    }
  }

  lemma LockFrame(y: Sys, y1: Sys, l: nat)
    requires l < |y.locks| <= |y.sems| && |y1.locks| == |y.locks| && |y1.sems| == |y.sems|
    requires LockOk(y, l) && y1.locks[l] == y.locks[l] && y1.sems[l].value == y.sems[l].value
    requires forall t: Tid :: DepthOf(y1, t, l) == DepthOf(y, t, l) && On(PcOf(y1, t), l) == On(PcOf(y, t), l)
    ensures LockOk(y1, l)
  {
    assert forall t: Tid :: Inside(y1, t, l) == Inside(y, t, l) && Holding(y1, t, l) == Holding(y, t, l);
  }

  /** Timer, thread_yield: pcs and locks stay, and everybody stays asleep or awake. */
  lemma SchedulerOnly(y: Sys, k1: K.State)
    requires Inv(y) && K.Inv(k1) && k1.idle == y.k.idle
    requires forall t: Tid :: K.SameFor(y.k, k1, t)
    ensures Inv(y.(k := k1))
  {
    var y1 := y.(k := k1);
    forall s | 0 <= s < |y.sems| ensures SemOk(y1, s) {
      SemFrame(y, y1, s);
    }
    forall t: Tid ensures ThreadOk(y1, t) {
      assert ThreadOk(y, t) && K.SameFor(y.k, k1, t);
    }
    forall l | 0 <= l < |y.locks| ensures LockOk(y1, l) {
      LockFrame(y, y1, l);
    }
  }

  /** thread_block outside sema_down, by a thread that is in no sema_down and no lock code. */
  lemma ParkKeeps(y: Sys, how: K.Status)
    requires Inv(y) && Enabled(y, Parks(how))
    ensures Next(y, Parks(how)).Some? && Inv(Next(y, Parks(how)).value)
  {
    K.BlockEffect(y.k, how);
    ParkedKeeps(y, K.Block(y.k, how).value);
  }

  lemma ParkedKeeps(y: Sys, k1: K.State)
    requires Inv(y) && PcOf(y, y.k.cur).Normal?
    requires K.Inv(k1) && k1.idle == y.k.idle && y.k.cur in k1.status
    requires forall t: Tid | t != y.k.cur && t != y.k.idle :: K.SameFor(y.k, k1, t)
    requires y.k.cur != y.k.idle ==> K.Awake(K.StatusOf(k1, y.k.idle)) || K.SameFor(y.k, k1, y.k.idle)
    ensures Inv(At(y, Parked).(k := k1))
  {
    hide LockOk;
    var me := y.k.cur;
    var y1 := At(y, Parked).(k := k1);
    assert ThreadOk(y, y.k.idle);
    assert forall t: Tid :: PcOf(y1, t) == if t == me then Parked else PcOf(y, t);
    forall s | 0 <= s < |y.sems| ensures SemOk(y1, s) {
      forall t: Tid | AimsAt(y, t, s) ensures PcOf(y1, t) == PcOf(y, t) && K.SameFor(y.k, k1, t) { }
      SemFrame(y, y1, s);
    }
    forall t: Tid ensures ThreadOk(y1, t) {
      assert ThreadOk(y, t);
      assert t != me && t != y.k.idle ==> K.SameFor(y.k, k1, t);
    }
    forall l | 0 <= l < |y.locks| ensures LockOk(y1, l) {
      LockFrame(y, y1, l);
    }
  }

  lemma ResumeKeeps(y: Sys)
    requires Inv(y) && Enabled(y, Resumes)
    ensures Inv(Next(y, Resumes).value)
  {
    var me := y.k.cur;
    var y1 := Next(y, Resumes).value;
    assert ThreadOk(y, me);
    assert forall t: Tid :: PcOf(y1, t) == if t == me then Normal else PcOf(y, t);
    forall s | 0 <= s < |y.sems| ensures SemOk(y1, s) { SemFrame(y, y1, s); }
    forall t: Tid ensures ThreadOk(y1, t) { assert ThreadOk(y, t); }
    forall l | 0 <= l < |y.locks| ensures LockOk(y1, l) { LockFrame(y, y1, l); }
  }

  /** One thread outside sema_down becomes ready; the rest stays. */
  lemma BecomesReady(y: Sys, k1: K.State, u: Tid)
    requires Inv(y) && K.Inv(k1) && k1.idle == y.k.idle && !PcOf(y, u).InDown?
    requires forall t: Tid :: K.StatusOf(k1, t) == if t == u then K.Ready else K.StatusOf(y.k, t)
    requires forall t: Tid | t in y.k.status :: t in k1.status
    ensures Inv(y.(k := k1))
  {
    var y1 := y.(k := k1);
    forall s | 0 <= s < |y.sems| ensures SemOk(y1, s) {
      forall t: Tid | AimsAt(y, t, s) ensures PcOf(y1, t) == PcOf(y, t) && K.SameFor(y.k, k1, t) { }
      SemFrame(y, y1, s);
    }
    forall t: Tid ensures ThreadOk(y1, t) { assert ThreadOk(y, t); }
    forall l | 0 <= l < |y.locks| ensures LockOk(y1, l) { LockFrame(y, y1, l); }
  }

  lemma WakeKeeps(y: Sys, u: Tid)
    requires Inv(y) && Enabled(y, Wakes(u))
    ensures Next(y, Wakes(u)).Some? && Inv(Next(y, Wakes(u)).value)
  {
    K.UnblockKeeps(y.k, u);
    BecomesReady(y, K.Unblock(y.k, u).value, u);
  }

  lemma StartKeeps(y: Sys, u: Tid, prio: nat)
    requires Inv(y) && Enabled(y, Starts(u, prio))
    ensures Next(y, Starts(u, prio)).Some? && Inv(Next(y, Starts(u, prio)).value)
  {
    K.StartKeeps(y.k, u, prio);
    assert ThreadOk(y, u);
    BecomesReady(y, K.Start(y.k, u, prio).value, u);
  }

  // ---------------------------------------------------------------- sema_down and sema_up

  /** The current thread runs sema_down(s), for the first time or after a wake-up. */
  ghost predicate Entering(y: Sys, s: nat, forLock: bool) {
    var p := PcOf(y, y.k.cur);
    && s < |y.sems| && (forLock <==> s < |y.locks|) && y.k.cur != y.k.idle
    && (p == InDown(s, forLock) || (forLock && p == AcqDown(s)) || (!forLock && p == Normal))
  }

  /** What a sema_down that finds 0 does, without the inside of the scheduler. */
  ghost predicate WentToSleep(y: Sys, y1: Sys, s: nat, forLock: bool)
    requires s < |y.sems|
  {
    var me := y.k.cur;
    && y1.locks == y.locks && y1.depth == y.depth
    && y1.sems == y.sems[s := y.sems[s].(waiters := y.sems[s].waiters + [me])]
    && y1.pc == y.pc[me := InDown(s, forLock)]
    && y1.k.idle == y.k.idle && K.StatusOf(y1.k, me) == K.Blocked
    && (forall t: Tid | t != me && t != y.k.idle :: K.SameFor(y.k, y1.k, t))
    && (K.Awake(K.StatusOf(y1.k, y.k.idle)) || K.SameFor(y.k, y1.k, y.k.idle))
  }

  /** The value is 0: the thread joins the wait list and leaves the CPU. */
  lemma DownBlocks(y: Sys, s: nat, forLock: bool)
    requires Inv(y) && Entering(y, s, forLock) && y.sems[s].value == 0
    ensures DownTurn(y, s, forLock).Some? && Inv(DownTurn(y, s, forLock).value)
  {
    var me := y.k.cur;
    assert me !in y.sems[s].waiters by {
      assert SemOk(y, s) && K.StatusOf(y.k, me) == K.Running;
    }
    K.BlockEffect(y.k, K.Blocked);
    var k1 := K.Block(y.k, K.Blocked).value;
    assert me in y.k.status;
    AsleepKeeps(y, At(y, InDown(s, forLock)).(k := k1, sems := y.sems[s := y.sems[s].(waiters := y.sems[s].waiters + [me])]), s, forLock);
  }

  lemma AsleepKeeps(y: Sys, y1: Sys, s: nat, forLock: bool)
    requires Inv(y) && Entering(y, s, forLock) && y.sems[s].value == 0 && y.k.cur !in y.sems[s].waiters
    requires WentToSleep(y, y1, s, forLock) && K.Inv(y1.k) && y.k.cur in y1.k.status
    requires forall t: Tid :: t in y1.k.status <==> t in y.k.status
    ensures Inv(y1)
  {
    forall i | 0 <= i < |y.sems| ensures SemOk(y1, i) { DownBlocksSem(y, y1, s, forLock, i); }
    forall t: Tid ensures ThreadOk(y1, t) { DownBlocksThread(y, y1, s, forLock, t); }
    forall l | 0 <= l < |y.locks| ensures LockOk(y1, l) { DownBlocksLock(y, y1, s, forLock, l); }
  }

  lemma DownBlocksSem(y: Sys, y1: Sys, s: nat, forLock: bool, i: nat)
    requires s < |y.sems| && i < |y.sems| && SemOk(y, i)
    requires |y.locks| <= |y.sems| && ThreadOk(y, y.k.idle) && ThreadOk(y, y.k.cur)
    requires Entering(y, s, forLock) && y.sems[s].value == 0 && y.k.cur !in y.sems[s].waiters
    requires WentToSleep(y, y1, s, forLock)
    ensures SemOk(y1, i)
  {
    var me := y.k.cur;
    if i != s {
      assert !AimsAt(y, me, i) && !AimsAt(y, y.k.idle, i);
      forall t: Tid | AimsAt(y, t, i) ensures PcOf(y1, t) == PcOf(y, t) && K.SameFor(y.k, y1.k, t) { }
      SemFrame(y, y1, i);
    } else {
      forall t | t in y1.sems[s].waiters ensures K.StatusOf(y1.k, t) == K.Blocked && AimsAt(y1, t, s) {
        if t != me { assert t in y.sems[s].waiters && t != y.k.idle && K.SameFor(y.k, y1.k, t); }
      }
    }
  }

  lemma DownBlocksThread(y: Sys, y1: Sys, s: nat, forLock: bool, t: Tid)
    requires s < |y.sems| && |y.locks| <= |y.sems| && ThreadOk(y, t)
    requires Entering(y, s, forLock)
    requires WentToSleep(y, y1, s, forLock) && y.k.cur in y1.k.status
    requires t in y1.k.status <==> t in y.k.status
    ensures ThreadOk(y1, t)
  {
    var me := y.k.cur;
    if t == me {
      assert me in y1.sems[s].waiters;
    } else {
      assert t != y.k.idle ==> K.SameFor(y.k, y1.k, t);
      var p := PcOf(y, t);
      if p.InDown? && t in y.sems[p.s].waiters {
        assert t in y1.sems[p.s].waiters;
      }
    }
  }

  lemma DownBlocksLock(y: Sys, y1: Sys, s: nat, forLock: bool, l: nat)
    requires l < |y.locks| <= |y.sems| && y1.locks == y.locks && |y1.sems| == |y.sems| && y1.depth == y.depth
    requires LockOk(y, l) && y1.sems[l].value == y.sems[l].value && Entering(y, s, forLock)
    requires forall t: Tid :: PcOf(y1, t) == if t == y.k.cur then InDown(s, forLock) else PcOf(y, t)
    ensures LockOk(y1, l)
  {
    assert forall t: Tid :: Inside(y1, t, l) == Inside(y, t, l);
    assert forall t: Tid :: Holding(y1, t, l) == Holding(y, t, l);
    assert forall t: Tid | t != y.k.cur :: On(PcOf(y1, t), l) == On(PcOf(y, t), l);
    assert DepthFits(On(PcOf(y, y.k.cur), l), DepthOf(y, y.k.cur, l));
    forall t: Tid ensures DepthFits(On(PcOf(y1, t), l), DepthOf(y1, t, l)) {
      assert DepthFits(On(PcOf(y, t), l), DepthOf(y, t, l));
    }
  }

  lemma CurRuns(y: Sys)
    requires Inv(y)
    ensures K.StatusOf(y.k, y.k.cur) == K.Running && y.k.cur in y.k.status
  {
    hide SemOk, LockOk, ThreadOk;
  }

  /** The value is 1: the thread takes it. */
  lemma DownTakes(y: Sys, s: nat, forLock: bool)
    requires Inv(y) && Entering(y, s, forLock) && y.sems[s].value != 0
    ensures DownTurn(y, s, forLock).Some? && Inv(DownTurn(y, s, forLock).value)
  {
    hide LockOk, K.Inv;
    CurRuns(y);
    var me := y.k.cur;
    assert SemOk(y, s) && ThreadOk(y, me);
    var y1 := DownTurn(y, s, forLock).value;
    assert forall t: Tid :: PcOf(y1, t) == if t != me then PcOf(y, t) else if forLock then AcqHolder(s) else Normal;
    forall i | 0 <= i < |y.sems| ensures SemOk(y1, i) {
      if i != s {
        SemFrame(y, y1, i);
      } else {
        forall t | t in y1.sems[s].waiters ensures K.StatusOf(y1.k, t) == K.Blocked && AimsAt(y1, t, s) {
          assert t in y.sems[s].waiters;
        }
      }
    }
    forall t: Tid ensures ThreadOk(y1, t) { assert ThreadOk(y, t); }
    forall l | 0 <= l < |y.locks| ensures LockOk(y1, l) { DownTakesLock(y, y1, s, forLock, l); }
  }

  lemma DownTakesLock(y: Sys, y1: Sys, s: nat, forLock: bool, l: nat)
    requires l < |y.locks| <= |y.sems| && y1.locks == y.locks && |y1.sems| == |y.sems| && y1.depth == y.depth
    requires LockOk(y, l) && Entering(y, s, forLock) && y.sems[s].value == 1
    requires y1.sems[l].value == if l == s then 0 else y.sems[l].value
    requires forall t: Tid :: PcOf(y1, t) == if t != y.k.cur then PcOf(y, t) else if forLock then AcqHolder(s) else Normal
    ensures LockOk(y1, l)
  {
    var me := y.k.cur;
    if l != s {
      LockFrame(y, y1, l);
    } else {
      assert forall t: Tid :: !Inside(y, t, l);
      assert DepthFits(On(PcOf(y, me), l), DepthOf(y, me, l));
      assert forall t: Tid | t != me :: !Inside(y1, t, l) && !Holding(y1, t, l);
      assert forall t: Tid :: y.locks[l].holder == Some(t) <==> Holding(y, t, l);
      forall t: Tid ensures DepthFits(On(PcOf(y1, t), l), DepthOf(y1, t, l)) {
        assert DepthFits(On(PcOf(y, t), l), DepthOf(y, t, l));
      }
    }
  }

  /** `after` is y after the up of s; its current thread may also have left lock code. */
  ghost predicate Upped(y: Sys, after: Sys, s: nat)
    requires s < |y.sems|
  {
    var ws := y.sems[s].waiters;
    && after.k.idle == y.k.idle && after.k.cur == y.k.cur
    && after.depth == y.depth && after.locks == y.locks
    && after.sems == y.sems[s := Sem(1, if ws == [] then [] else ws[1..])]
    && (forall t: Tid :: K.StatusOf(after.k, t) == if ws != [] && t == ws[0] then K.Ready else K.StatusOf(y.k, t))
    && (forall t: Tid :: t in after.k.status <==> t in y.k.status)
    && (forall t: Tid :: PcOf(after, t) == PcOf(y, t) || (InLockCode(PcOf(y, t)) && PcOf(after, t) == Normal))
    && (forall t: Tid | t in after.pc :: t in y.k.status)
  }

  /** sema_up makes the value 1 and wakes the head of the wait list. */
  lemma SemaUpEffect(y: Sys, s: nat)
    requires K.Inv(y.k) && s < |y.sems| && SemOk(y, s) && y.sems[s].value == 0
    requires forall t: Tid | t in y.pc :: t in y.k.status
    ensures SemaUp(y, s).Some?
    ensures Upped(y, SemaUp(y, s).value, s) && SemaUp(y, s).value.pc == y.pc && K.Inv(SemaUp(y, s).value.k)
  {
    var ws := y.sems[s].waiters;
    if ws != [] {
      assert ws[0] in ws;
      K.UnblockKeeps(y.k, ws[0]);
    }
  }

  lemma UpSem(y: Sys, after: Sys, s: nat, i: nat)
    requires s < |y.sems| && i < |y.sems| && SemOk(y, s) && SemOk(y, i) && Upped(y, after, s)
    ensures SemOk(after, i)
  {
    var ws := y.sems[s].waiters;
    if ws != [] { assert ws[0] in ws; }
    if i != s {
      forall t: Tid | AimsAt(y, t, i) ensures PcOf(after, t) == PcOf(y, t) && K.SameFor(y.k, after.k, t) { }
      SemFrame(y, after, i);
    } else if ws != [] {
      forall t | t in ws[1..] ensures K.StatusOf(after.k, t) == K.Blocked && AimsAt(after, t, s) {
        assert t in ws;
      }
      assert Woken(after, s, ws[0]);
    }
  }

  lemma UpThread(y: Sys, after: Sys, s: nat, t: Tid)
    requires s < |y.sems| && |y.locks| <= |y.sems| && SemOk(y, s) && ThreadOk(y, t) && Upped(y, after, s)
    requires |after.locks| == |y.locks|
    ensures ThreadOk(after, t)
  {
    var ws := y.sems[s].waiters;
    if ws != [] { assert ws[0] in ws; }
    var p := PcOf(y, t);
    if p.InDown? && t in y.sems[p.s].waiters && !(p.s == s && t == ws[0]) {
      assert t in after.sems[p.s].waiters;
    }
  }

  lemma UppedSems(y: Sys, after: Sys, s: nat)
    requires SemsOk(y) && s < |y.sems| && Upped(y, after, s)
    ensures SemsOk(after)
  {
    forall i | 0 <= i < |y.sems| ensures SemOk(after, i) { UpSem(y, after, s, i); }
  }

  lemma UppedThreads(y: Sys, after: Sys, s: nat)
    requires SemsOk(y) && ThreadsOk(y) && s < |y.sems| && Upped(y, after, s) && |after.locks| == |y.locks|
    ensures ThreadsOk(after)
  {
    forall t: Tid ensures ThreadOk(after, t) { UpThread(y, after, s, t); }
  }

  lemma PcsAreLive(y: Sys)
    requires ThreadsOk(y)
    ensures forall t: Tid | t in y.pc :: t in y.k.status
  {
    forall t: Tid | t in y.pc ensures t in y.k.status { assert ThreadOk(y, t); }
  }

  /** An up of a lone semaphore, by a thread or by an interrupt handler. */
  lemma UpKeeps(y: Sys, s: nat)
    requires Inv(y) && |y.locks| <= s < |y.sems| && y.sems[s].value == 0
    ensures SemaUp(y, s).Some? && Inv(SemaUp(y, s).value)
  {
    PcsAreLive(y);
    SemaUpEffect(y, s);
    var y1 := SemaUp(y, s).value;
    UppedSems(y, y1, s);
    UppedThreads(y, y1, s);
    UpLocks(y, y1, s);
  }

  lemma UpLocks(y: Sys, y1: Sys, s: nat)
    requires LocksOk(y) && |y.locks| <= s < |y.sems|
    requires y1.locks == y.locks && y1.pc == y.pc && y1.depth == y.depth && |y1.sems| == |y.sems|
    requires forall i | 0 <= i < |y.locks| :: y1.sems[i] == y.sems[i]
    ensures LocksOk(y1)
  {
    forall l | 0 <= l < |y.locks| ensures LockOk(y1, l) { LockFrame(y, y1, l); }
  }

  // ---------------------------------------------------------------- lock_acquire and lock_release

  /** The last statement of lock_release. */
  lemma RelUpKeeps(y: Sys, l: nat)
    requires Inv(y) && PcOf(y, y.k.cur) == RelUp(l) && l < |y.locks|
    ensures SemaUp(y, l).Some? && Inv(At(SemaUp(y, l).value, Normal))
  {
    RelUpReady(y, l);
    PcsAreLive(y);
    SemaUpEffect(y, l);
    var y0 := SemaUp(y, l).value;
    var y1 := At(y0, Normal);
    LeaveLockCode(y, y0, l);
    UppedSems(y, y1, l);
    UppedThreads(y, y1, l);
    RelUpLocks(y, y1, l);
  }

  lemma LeaveLockCode(y: Sys, y0: Sys, s: nat)
    requires s < |y.sems| && Upped(y, y0, s) && y0.pc == y.pc && y0.k.cur == y.k.cur
    requires y.k.cur in y.k.status && InLockCode(PcOf(y, y.k.cur))
    ensures Upped(y, At(y0, Normal), s)
  {
  }

  lemma RelUpReady(y: Sys, l: nat)
    requires LocksOk(y) && SemsOk(y) && PcOf(y, y.k.cur) == RelUp(l) && l < |y.locks|
    ensures SemOk(y, l) && y.sems[l].value == 0
  {
    assert LockOk(y, l) && SemOk(y, l) && Inside(y, y.k.cur, l);
  }

  lemma ReleaseFindsZero(y: Sys, l: nat)
    requires Inv(y) && PcOf(y, y.k.cur) == RelUp(l) && l < |y.locks| <= |y.sems|
    ensures y.sems[l].value == 0
  {
    hide K.Inv, LocksOk, SemsOk, ThreadsOk;
    RelUpReady(y, l);
  }

  lemma RelUpLocks(y: Sys, y1: Sys, l: nat)
    requires LocksOk(y) && PcOf(y, y.k.cur) == RelUp(l) && l < |y.locks|
    requires y1.locks == y.locks && y1.depth == y.depth && y1.pc == y.pc[y.k.cur := Normal]
    requires |y1.sems| == |y.sems| && y1.sems[l].value == 1
    requires forall i | 0 <= i < |y.sems| && i != l :: y1.sems[i] == y.sems[i]
    ensures LocksOk(y1)
  {
    forall i | 0 <= i < |y.locks| ensures LockOk(y1, i) { RelUpLock(y, y1, l, i); }
  }

  lemma RelUpLock(y: Sys, y1: Sys, l: nat, i: nat)
    requires i < |y.locks| <= |y.sems| && y1.locks == y.locks && |y1.sems| == |y.sems| && y1.depth == y.depth
    requires l < |y.locks| && LockOk(y, i) && PcOf(y, y.k.cur) == RelUp(l)
    requires y1.sems[i].value == if i == l then 1 else y.sems[i].value
    requires forall t: Tid :: PcOf(y1, t) == if t == y.k.cur then Normal else PcOf(y, t)
    ensures LockOk(y1, i)
  {
    if i != l {
      LockFrame(y, y1, i);
    } else {
      var me := y.k.cur;
      assert Inside(y, me, l) && DepthFits(On(PcOf(y, me), l), DepthOf(y, me, l));
      assert DepthOf(y1, me, l) == 0;
      assert forall t: Tid | t != me :: !Inside(y, t, l) && Inside(y1, t, l) == Inside(y, t, l);
      assert forall t: Tid :: y.locks[l].holder == Some(t) <==> Holding(y, t, l);
      forall t: Tid ensures DepthFits(On(PcOf(y1, t), l), DepthOf(y1, t, l)) {
        assert DepthFits(On(PcOf(y, t), l), DepthOf(y, t, l));
      }
    }
  }

  /** A step of the current thread that changes only its pc, one lock's fields and its own depth. */
  ghost predicate LocalStep(y: Sys, y1: Sys, l: nat, lock: Lock, p: Pc, d: nat)
    requires l < |y.locks|
  {
    var me := y.k.cur;
    && y1.k == y.k && y1.sems == y.sems && y1.locks == y.locks[l := lock]
    && y1.pc == y.pc[me := p]
    && (forall t: Tid, i: nat :: DepthOf(y1, t, i) == if t == me && i == l then d else DepthOf(y, t, i))
  }

  lemma LocalKeeps(y: Sys, y1: Sys, l: nat, lock: Lock, p: Pc, d: nat)
    requires Inv(y) && l < |y.locks| && LocalStep(y, y1, l, lock, p, d)
    requires var q := PcOf(y, y.k.cur); q.Normal? || (InLockCode(q) && q.l == l)
    requires p.Normal? || (InLockCode(p) && p.l == l && y.k.cur != y.k.idle)
    requires LockOk(y1, l)
    ensures Inv(y1)
  {
    var me := y.k.cur;
    assert ThreadOk(y, me);
    assert forall t: Tid :: PcOf(y1, t) == if t == me then p else PcOf(y, t);
    forall i | 0 <= i < |y.sems| ensures SemOk(y1, i) {
      forall t: Tid | AimsAt(y, t, i) ensures PcOf(y1, t) == PcOf(y, t) && K.SameFor(y.k, y1.k, t) { }
      SemFrame(y, y1, i);
    }
    forall t: Tid ensures ThreadOk(y1, t) { assert ThreadOk(y, t); }
    forall i | 0 <= i < |y.locks| ensures LockOk(y1, i) {
      if i != l { LockFrame(y, y1, i); }
    }
  }

  /** What a local step must do to the lock it works on: the new fields fit the new place of the thread. */
  lemma LocalLock(y: Sys, y1: Sys, l: nat, lock: Lock, p: Pc, d: nat)
    requires l < |y.locks| <= |y.sems| && LockOk(y, l) && LocalStep(y, y1, l, lock, p, d)
    requires Inside(y1, y.k.cur, l) == Inside(y, y.k.cur, l)
    requires Inside(y, y.k.cur, l) ==> lock.repeat == Expected(On(p, l), d)
    requires !Inside(y, y.k.cur, l) ==> lock == y.locks[l]
    requires Inside(y, y.k.cur, l) ==> lock.holder == if Holding(y1, y.k.cur, l) then Some(y.k.cur) else None
    requires DepthFits(On(p, l), d)
    ensures LockOk(y1, l)
  {
    var me := y.k.cur;
    assert forall t: Tid | t != me :: Inside(y1, t, l) == Inside(y, t, l) && Holding(y1, t, l) == Holding(y, t, l);
    assert forall t: Tid | t != me :: On(PcOf(y1, t), l) == On(PcOf(y, t), l);
    forall t: Tid ensures DepthFits(On(PcOf(y1, t), l), DepthOf(y1, t, l)) {
      assert DepthFits(On(PcOf(y, t), l), DepthOf(y, t, l));
    }
    if !Inside(y, me, l) {
      assert forall t: Tid :: Inside(y1, t, l) == Inside(y, t, l);
      assert forall t: Tid :: y.locks[l].holder == Some(t) <==> Holding(y, t, l);
    } else {
      assert forall t: Tid :: Inside(y1, t, l) <==> t == me;
    }
  }

  lemma AcquireKeeps(y: Sys, l: nat)
    requires Inv(y) && Enabled(y, Acquire(l))
    ensures Inv(AcquireTest(y, l))
  {
    var me := y.k.cur;
    var p := if y.locks[l].holder != Some(me) then AcqDown(l) else AcqInc(l);
    var d := DepthOf(y, me, l);
    assert LockOk(y, l);
    assert y.locks[l].holder == Some(me) <==> Holding(y, me, l);
    assert LocalStep(y, AcquireTest(y, l), l, y.locks[l], p, d);
    LocalLock(y, AcquireTest(y, l), l, y.locks[l], p, d);
    LocalKeeps(y, AcquireTest(y, l), l, y.locks[l], p, d);
  }

  lemma ReleaseKeeps(y: Sys, l: nat)
    requires Inv(y) && Enabled(y, Release(l))
    ensures ReleaseTest(y, l).Some? && Inv(ReleaseTest(y, l).value)
  {
    var me := y.k.cur;
    var lock := y.locks[l];
    assert LockOk(y, l) && ThreadOk(y, me);
    assert lock.holder == Some(me) <==> Holding(y, me, l);
    assert Inside(y, me, l);
    var p := if lock.repeat > 1 then RelDec(l) else RelHolder(l);
    var d := DepthOf(y, me, l) - 1;
    var y1 := ReleaseTest(y, l).value;
    assert LocalStep(y, y1, l, lock, p, d);
    LocalLock(y, y1, l, lock, p, d);
    LocalKeeps(y, y1, l, lock, p, d);
  }

  /** What the invariant says to a thread that runs lock code past the down. */
  lemma InsideFacts(y: Sys, l: nat)
    requires ThreadsOk(y) && LocksOk(y) && l < |y.locks|
    requires var p := PcOf(y, y.k.cur); InLockCode(p) && p.l == l && !p.AcqDown?
    ensures y.k.cur != y.k.idle && Inside(y, y.k.cur, l) && LockOk(y, l)
    ensures var p := PcOf(y, y.k.cur);
            var d := DepthOf(y, y.k.cur, l);
            DepthFits(p, d) && y.locks[l].repeat == Expected(p, d)
    ensures y.locks[l].holder == if Holding(y, y.k.cur, l) then Some(y.k.cur) else None
  {
    var me := y.k.cur;
    assert LockOk(y, l) && ThreadOk(y, me);
    assert DepthFits(On(PcOf(y, me), l), DepthOf(y, me, l));
    assert y.locks[l].holder == Some(me) <==> Holding(y, me, l);
    assert On(PcOf(y, me), l) == PcOf(y, me);
    if y.locks[l].holder.Some? {
      var t := y.locks[l].holder.value;
      assert y.locks[l].holder == Some(t);
      assert Holding(y, t, l);
      assert Inside(y, t, l) && Inside(y, me, l);
      assert t == me;
    } else {
      assert !Holding(y, me, l);
    }
  }

  lemma AcquireStatementKeeps(y: Sys)
    requires Inv(y) && Enabled(y, Step)
    requires var p := PcOf(y, y.k.cur); p.AcqHolder? || p.AcqRepeat? || p.AcqInc?
    ensures Advance(y).Some? && Inv(Advance(y).value)
  {
    var me := y.k.cur;
    var q := PcOf(y, me);
    var l := q.l;
    InsideFacts(y, l);
    var y1 := Advance(y).value;
    var p := PcOf(y1, me);
    var d := DepthOf(y1, me, l);
    assert LocalStep(y, y1, l, y1.locks[l], p, d);
    LocalLock(y, y1, l, y1.locks[l], p, d);
    LocalKeeps(y, y1, l, y1.locks[l], p, d);
  }

  lemma ReleaseStatementKeeps(y: Sys)
    requires Inv(y) && Enabled(y, Step)
    requires var p := PcOf(y, y.k.cur); p.RelDec? || p.RelHolder? || p.RelRepeat?
    ensures Advance(y).Some? && Inv(Advance(y).value)
  {
    var me := y.k.cur;
    var q := PcOf(y, me);
    var l := q.l;
    InsideFacts(y, l);
    var y1 := Advance(y).value;
    var p := PcOf(y1, me);
    var d := DepthOf(y1, me, l);
    assert LocalStep(y, y1, l, y1.locks[l], p, d);
    LocalLock(y, y1, l, y1.locks[l], p, d);
    LocalKeeps(y, y1, l, y1.locks[l], p, d);
  }

  /** sema_up of a semaphore at 0 meets its assertions. */
  lemma SemaUpIsSafe(y: Sys, s: nat)
    requires Inv(y) && s < |y.sems| && y.sems[s].value == 0
    ensures K.Inv(y.k) && K.Core(y.k) && SemaUp(y, s).Some? && K.Inv(SemaUp(y, s).value.k) && SemaUp(y, s).value.k.cur == y.k.cur
    ensures y.sems[s].waiters != [] ==> K.Asleep(K.StatusOf(y.k, y.sems[s].waiters[0]))
  {
    PcsAreLive(y);
    assert y.sems[s].waiters != [] ==> y.sems[s].waiters[0] in y.sems[s].waiters;
    SemaUpEffect(y, s);
  }

  lemma HolderIsHolding(y: Sys, t: Tid, l: nat)
    requires LocksOk(y) && l < |y.locks|
    ensures y.locks[l].holder == Some(t) <==> Holding(y, t, l)
  {
    assert LockOk(y, l);
  }

  lemma RepeatIsDepth(y: Sys, l: nat)
    requires LocksOk(y) && l < |y.locks| && PcOf(y, y.k.cur).Normal? && DepthOf(y, y.k.cur, l) > 0
    ensures y.locks[l].repeat == DepthOf(y, y.k.cur, l)
  {
    assert LockOk(y, l) && Inside(y, y.k.cur, l);
  }

  // ---------------------------------------------------------------- every interleaving

  /** No event panics, and every event keeps the invariant. */
  lemma EventKeeps(y: Sys, e: Event)
    requires Inv(y) && Enabled(y, e)
    ensures Next(y, e).Some? && Inv(Next(y, e).value)
  {
    match e
    case Tick => K.TickEffect(y.k); SchedulerOnly(y, K.Tick(y.k).value);
    case Yields => K.YieldEffect(y.k); SchedulerOnly(y, K.Yield(y.k).value);
    case Parks(how) => ParkKeeps(y, how);
    case Resumes => ResumeKeeps(y);
    case Wakes(t) => WakeKeeps(y, t);
    case Starts(t, prio) => StartKeeps(y, t, prio);
    case Up(s) => UpKeeps(y, s);
    case Down(s) => DownKeeps(y, s, false);
    case Retry => assert ThreadOk(y, y.k.cur); DownKeeps(y, PcOf(y, y.k.cur).s, PcOf(y, y.k.cur).forLock);
    case Acquire(l) => AcquireKeeps(y, l);
    case Release(l) => ReleaseKeeps(y, l);
    case Step => StepKeeps(y);
  }

  lemma DownKeeps(y: Sys, s: nat, forLock: bool)
    requires Inv(y) && Entering(y, s, forLock)
    ensures DownTurn(y, s, forLock).Some? && Inv(DownTurn(y, s, forLock).value)
  {
    if y.sems[s].value == 0 { DownBlocks(y, s, forLock); } else { DownTakes(y, s, forLock); }
  }

  lemma StepKeeps(y: Sys)
    requires Inv(y) && Enabled(y, Step)
    ensures Advance(y).Some? && Inv(Advance(y).value)
  {
    assert ThreadOk(y, y.k.cur);
    var p := PcOf(y, y.k.cur);
    if p.AcqDown? { DownKeeps(y, p.l, true); }
    else if p.RelUp? { RelUpKeeps(y, p.l); }
    else if p.AcqHolder? || p.AcqRepeat? || p.AcqInc? { AcquireStatementKeeps(y); }
    else { ReleaseStatementKeeps(y); }
  }

  /** sema_init and lock_init: locks start at 1, a lone semaphore at its given value. */
  function Initial(k: K.State, locks: nat, lone: seq<nat>): Sys {
    Sys(k, seq(locks, _ => Sem(1, [])) + seq(|lone|, i requires 0 <= i < |lone| => Sem(lone[i], [])),
        seq(locks, _ => Lock(None, 0)), map[], map[])
  }

  lemma InitialInv(k: K.State, locks: nat, lone: seq<nat>)
    requires K.Inv(k) && (forall t :: !K.Asleep(K.StatusOf(k, t))) && (forall i | 0 <= i < |lone| :: lone[i] <= 1)
    ensures Inv(Initial(k, locks, lone))
  {
  }

  ghost predicate LegalRun(y: Sys, es: seq<Event>)
    decreases es
  {
    es == [] || (Enabled(y, es[0]) && (Next(y, es[0]).Some? ==> LegalRun(Next(y, es[0]).value, es[1..])))
  }

  ghost function Run(y: Sys, es: seq<Event>): Option<Sys>
    requires LegalRun(y, es)
    decreases es
  {
    if es == [] then Some(y)
    else if Next(y, es[0]).None? then None
    else Run(Next(y, es[0]).value, es[1..])
  }

  lemma {:induction false} RunKeeps(y: Sys, es: seq<Event>)
    requires Inv(y) && LegalRun(y, es)
    ensures Run(y, es).Some? && Inv(Run(y, es).value)
    decreases |es|
  {
    if es != [] {
      EventKeeps(y, es[0]);
      RunKeeps(Next(y, es[0]).value, es[1..]);
    }
  }

  /** No lost wake-up: whatever the interleaving, a semaphore at 1 with sleepers has a thread on its way to retry. */
  lemma NoLostWakeUp(y: Sys, es: seq<Event>, s: nat)
    requires Inv(y) && LegalRun(y, es) && s < |y.sems|
    ensures Run(y, es).Some? && s < |Run(y, es).value.sems|
    ensures var z := Run(y, es).value;
            z.sems[s].value == 1 && z.sems[s].waiters != [] ==>
              exists t: Tid :: PcOf(z, t).InDown? && PcOf(z, t).s == s && t !in z.sems[s].waiters && (t in z.k.ready || t == z.k.cur)
  {
    RunKeeps(y, es);
    SemsStay(y, es);
    var z := Run(y, es).value;
    assert SemOk(z, s);
    if z.sems[s].value == 1 && z.sems[s].waiters != [] {
      var t: Tid :| Woken(z, s, t);
      assert K.StatusOf(z.k, t) == K.Ready ==> t in z.k.ready;
    }
  }

  lemma NextKeepsCounts(y: Sys, e: Event)
    requires Enabled(y, e) && Next(y, e).Some?
    ensures |Next(y, e).value.sems| == |y.sems| && |Next(y, e).value.locks| == |y.locks|
  {
  }

  lemma {:induction false} SemsStay(y: Sys, es: seq<Event>)
    requires LegalRun(y, es) && Run(y, es).Some?
    ensures |Run(y, es).value.sems| == |y.sems| && |Run(y, es).value.locks| == |y.locks|
    decreases |es|
  {
    if es != [] {
      NextKeepsCounts(y, es[0]);
      SemsStay(Next(y, es[0]).value, es[1..]);
    }
  }

  // ---------------------------------------------------------------- units of a semaphore

  /** The event is a turn of sema_down on s. */
  predicate DownsAt(y: Sys, e: Event, s: nat) {
    var p := PcOf(y, y.k.cur);
    match e
    case Down(i) => i == s
    case Retry => p.InDown? && p.s == s
    case Step => p == AcqDown(s)
    case _ => false
  }

  /** ... and the thread comes out of it. */
  ghost predicate TakesUnit(y: Sys, e: Event, s: nat)
    requires Enabled(y, e)
  {
    DownsAt(y, e, s) && Next(y, e).Some? && !PcOf(Next(y, e).value, y.k.cur).InDown?
  }

  /** The event is a sema_up of s. */
  predicate GivesUnit(y: Sys, e: Event, s: nat) {
    match e
    case Up(i) => i == s
    case Step => PcOf(y, y.k.cur) == RelUp(s)
    case _ => false
  }

  ghost function Taken(y: Sys, es: seq<Event>, s: nat): nat
    requires LegalRun(y, es)
    decreases es
  {
    if es == [] then 0
    else (if TakesUnit(y, es[0], s) then 1 else 0) + if Next(y, es[0]).None? then 0 else Taken(Next(y, es[0]).value, es[1..], s)
  }

  ghost function Given(y: Sys, es: seq<Event>, s: nat): nat
    requires LegalRun(y, es)
    decreases es
  {
    if es == [] then 0
    else (if GivesUnit(y, es[0], s) then 1 else 0) + if Next(y, es[0]).None? then 0 else Given(Next(y, es[0]).value, es[1..], s)
  }

  /** Of semaphore s: a unit was taken; or the thread went to sleep, last in the list. */
  predicate UnitTaken(y: Sys, z: Sys, s: nat)
    requires s < |y.sems| == |z.sems|
  {
    y.sems[s].value == 1 && z.sems[s] == Sem(0, y.sems[s].waiters)
  }

  predicate UnitAwaited(y: Sys, z: Sys, s: nat)
    requires s < |y.sems| == |z.sems|
  {
    y.sems[s].value == 0 && z.sems[s] == Sem(0, y.sems[s].waiters + [y.k.cur]) && K.StatusOf(z.k, y.k.cur) == K.Blocked
  }

  /** A unit was added, and the first waiter is ready and off the list. */
  predicate UnitGiven(y: Sys, z: Sys, s: nat)
    requires s < |y.sems| == |z.sems|
  {
    var ws := y.sems[s].waiters;
    && y.sems[s].value == 0 && z.sems[s] == Sem(1, if ws == [] then [] else ws[1..])
    && (ws != [] ==> K.StatusOf(z.k, ws[0]) == K.Ready)
  }

  lemma DownIsExact(y: Sys, s: nat, forLock: bool)
    requires Inv(y) && Entering(y, s, forLock)
    ensures DownTurn(y, s, forLock).Some? && |DownTurn(y, s, forLock).value.sems| == |y.sems|
    ensures var z := DownTurn(y, s, forLock).value;
            if y.sems[s].value == 1 then UnitTaken(y, z, s) && !PcOf(z, y.k.cur).InDown? else UnitAwaited(y, z, s) && PcOf(z, y.k.cur).InDown?
    ensures forall i | 0 <= i < |y.sems| && i != s :: DownTurn(y, s, forLock).value.sems[i] == y.sems[i]
  {
    hide LockOk, ThreadOk, K.Inv, K.Block;
    assert SemOk(y, s);
    DownKeeps(y, s, forLock);
    if y.sems[s].value == 0 {
      K.BlockEffect(y.k, K.Blocked);
    }
  }

  lemma UpIsExact(y: Sys, s: nat)
    requires Inv(y) && s < |y.sems| && y.sems[s].value == 0
    ensures SemaUp(y, s).Some? && |SemaUp(y, s).value.sems| == |y.sems| && UnitGiven(y, SemaUp(y, s).value, s)
    ensures forall i | 0 <= i < |y.sems| && i != s :: SemaUp(y, s).value.sems[i] == y.sems[i]
  {
    SemaUpIsSafe(y, s);
  }

  /** A turn of sema_down comes out of it exactly when there is a unit, and takes it; otherwise it sleeps. Only a sema_up adds
      a unit. */
  lemma TurnIsExact(y: Sys, e: Event, s: nat)
    requires Inv(y) && Enabled(y, e) && s < |y.sems|
    ensures Next(y, e).Some? && |Next(y, e).value.sems| == |y.sems|
    ensures DownsAt(y, e, s) ==> (TakesUnit(y, e, s) <==> y.sems[s].value == 1)
    ensures var z := Next(y, e).value;
            if TakesUnit(y, e, s) then UnitTaken(y, z, s)
            else if DownsAt(y, e, s) then UnitAwaited(y, z, s)
            else if GivesUnit(y, e, s) then UnitGiven(y, z, s)
            else z.sems[s] == y.sems[s]
  {
    hide Inv, DownTurn, SemaUp, UnitTaken, UnitAwaited, Entering, K.Block, K.Unblock, K.Tick, K.Yield, K.Start, K.StatusOf;
    EventKeeps(y, e);
    EntersDown(y, e);
    var me := y.k.cur;
    match e
    case Up(i) => UpIsExact(y, i);
    case Down(i) => DownIsExact(y, i, false);
    case Retry => DownIsExact(y, PcOf(y, me).s, PcOf(y, me).forLock);
    case Step =>
      if PcOf(y, me).AcqDown? {
        DownIsExact(y, PcOf(y, me).l, true);
      } else if PcOf(y, me).RelUp? {
        UpIsExact(y, PcOf(y, me).l);
      }
    case _ =>
  }

  /** Who is about to turn may: the conditions of sema_down and sema_up hold at each of these events. */
  lemma EntersDown(y: Sys, e: Event)
    requires Inv(y) && Enabled(y, e)
    ensures e.Down? ==> Entering(y, e.s, false)
    ensures e == Retry ==> Entering(y, PcOf(y, y.k.cur).s, PcOf(y, y.k.cur).forLock)
    ensures e == Step && PcOf(y, y.k.cur).AcqDown? ==> Entering(y, PcOf(y, y.k.cur).l, true)
    ensures e == Step && PcOf(y, y.k.cur).RelUp? ==> y.sems[PcOf(y, y.k.cur).l].value == 0
  {
    assert ThreadOk(y, y.k.cur);
    if e == Step && PcOf(y, y.k.cur).RelUp? {
      InsideFacts(y, PcOf(y, y.k.cur).l);
      assert SemOk(y, PcOf(y, y.k.cur).l);
    }
  }

  /** Units are conserved: over every run, what is left and what was taken is what there was and what was given. */
  lemma {:induction false} UnitsConserved(y: Sys, es: seq<Event>, s: nat)
    requires Inv(y) && LegalRun(y, es) && s < |y.sems|
    ensures Run(y, es).Some? && s < |Run(y, es).value.sems|
    ensures Run(y, es).value.sems[s].value + Taken(y, es, s) == y.sems[s].value + Given(y, es, s)
    decreases |es|
  {
    if es != [] {
      EventKeeps(y, es[0]);
      TurnIsExact(y, es[0], s);
      hide Inv, TakesUnit, GivesUnit, DownsAt, Next, Enabled;
      UnitsConserved(Next(y, es[0]).value, es[1..], s);
    }
  }

  /** So without a sema_up a semaphore lets at most one thread through, and none when it is 0. */
  lemma OnePassesOneUnit(y: Sys, es: seq<Event>, s: nat)
    requires Inv(y) && LegalRun(y, es) && s < |y.sems| && Given(y, es, s) == 0
    ensures Taken(y, es, s) <= y.sems[s].value <= 1
  {
    UnitsConserved(y, es, s);
    assert SemOk(y, s);
  }

  /** Mutual exclusion, with re-entrancy: at most one thread is inside; the holder, once recorded, is that thread;
      in code of its own the repeat count is its nesting depth; and a free lock is reset. */
  lemma MutualExclusion(y: Sys, es: seq<Event>, l: nat)
    requires Inv(y) && LegalRun(y, es) && l < |y.locks|
    ensures Run(y, es).Some? && l < |Run(y, es).value.locks| <= |Run(y, es).value.sems|
    ensures var z := Run(y, es).value;
            && (forall t: Tid, u: Tid | Inside(z, t, l) && Inside(z, u, l) :: t == u)
            && (forall t: Tid | Inside(z, t, l) :: z.sems[l].value == 0)
            && (z.locks[l].holder.Some? ==> Inside(z, z.locks[l].holder.value, l))
            && (forall t: Tid | PcOf(z, t).Normal? && DepthOf(z, t, l) > 0 :: z.locks[l] == Lock(Some(t), DepthOf(z, t, l)))
            && ((forall t: Tid :: !Inside(z, t, l)) ==> z.locks[l] == Lock(None, 0))
  {
    RunKeeps(y, es);
    SemsStay(y, es);
    var z := Run(y, es).value;
    assert LockOk(z, l) && SemOk(z, l);
    forall t: Tid | PcOf(z, t).Normal? && DepthOf(z, t, l) > 0 ensures z.locks[l] == Lock(Some(t), DepthOf(z, t, l)) {
      assert Holding(z, t, l) && Inside(z, t, l);
    }
    if z.locks[l].holder.Some? { assert Holding(z, z.locks[l].holder.value, l); }
  }

  /** A tag is linked in one list at most: the ready list or one wait list. */
  lemma OneListAtMost(y: Sys, es: seq<Event>, t: Tid, s: nat, r: nat)
    requires Inv(y) && LegalRun(y, es) && s < |y.sems| && r < |y.sems|
    ensures Run(y, es).Some? && |Run(y, es).value.sems| == |y.sems|
    ensures var z := Run(y, es).value;
            t in z.sems[s].waiters ==> t !in z.k.ready && t != z.k.cur && (t in z.sems[r].waiters ==> r == s)
    ensures var z := Run(y, es).value; NoDup(z.k.ready) && NoDup(z.sems[s].waiters) && (t in z.k.ready <==> K.StatusOf(z.k, t) == K.Ready)
    ensures var z := Run(y, es).value; K.StatusOf(z.k, t) == K.Running <==> t == z.k.cur
  {
    RunKeeps(y, es);
    SemsStay(y, es);
    var z := Run(y, es).value;
    assert SemOk(z, s) && SemOk(z, r);
  }

  // ---------------------------------------------------------------- whole calls

  /** A run is its first event and the rest. */
  lemma RunFirst(y: Sys, e: Event, es: seq<Event>, y1: Sys)
    requires Enabled(y, e) && Next(y, e) == Some(y1) && LegalRun(y1, es)
    ensures LegalRun(y, [e] + es) && Run(y, [e] + es) == Run(y1, es)
  {
    hide Next, Enabled;
    assert ([e] + es)[1..] == es;
  }

  lemma FourSteps(y: Sys, a: Event, y1: Sys, y2: Sys, y3: Sys, y4: Sys)
    requires Enabled(y, a) && Next(y, a) == Some(y1) && Enabled(y1, Step) && Next(y1, Step) == Some(y2)
    requires Enabled(y2, Step) && Next(y2, Step) == Some(y3) && Enabled(y3, Step) && Next(y3, Step) == Some(y4)
    ensures LegalRun(y, [a, Step, Step, Step]) && Run(y, [a, Step, Step, Step]) == Some(y4)
  {
    hide Next, Enabled;
    assert LegalRun(y4, []) && Run(y4, []) == Some(y4);
    RunFirst(y3, Step, [], y4);
    RunFirst(y2, Step, [Step], y3);
    RunFirst(y1, Step, [Step] + [Step], y2);
    RunFirst(y, a, [Step] + ([Step] + [Step]), y1);
    assert [Step] + [] == [Step] && [a, Step, Step, Step] == [a] + ([Step] + ([Step] + [Step]));
  }

  lemma TwoSteps(y: Sys, a: Event, y1: Sys, y2: Sys)
    requires Enabled(y, a) && Next(y, a) == Some(y1) && Enabled(y1, Step) && Next(y1, Step) == Some(y2)
    ensures LegalRun(y, [a, Step]) && Run(y, [a, Step]) == Some(y2)
  {
    hide Next, Enabled;
    assert LegalRun(y2, []) && Run(y2, []) == Some(y2);
    RunFirst(y1, Step, [], y2);
    RunFirst(y, a, [Step], y1);
    assert [Step] + [] == [Step] && [a, Step] == [a] + [Step];
  }

  lemma LockNumbers(y: Sys, l: nat)
    requires Inv(y) && (Enabled(y, Acquire(l)) || Enabled(y, Release(l)))
    ensures l < |y.locks| <= |y.sems| && y.sems[l].value <= 1
    ensures DepthOf(y, y.k.cur, l) > 0 ==> y.locks[l] == Lock(Some(y.k.cur), DepthOf(y, y.k.cur, l)) && y.sems[l].value == 0
    ensures DepthOf(y, y.k.cur, l) == 0 ==> y.locks[l].holder != Some(y.k.cur)
    ensures y.sems[l].value == 1 ==> y.locks[l].repeat == 0
  {
    var me := y.k.cur;
    assert LockOk(y, l) && SemOk(y, l);
    if DepthOf(y, me, l) > 0 { assert Holding(y, me, l) && Inside(y, me, l); }
    assert y.locks[l].holder == Some(me) <==> Holding(y, me, l);
    if y.sems[l].value == 1 { assert forall t: Tid :: !Inside(y, t, l); }
  }

  /** The statements of lock_acquire and lock_release, each on its own. */
  lemma StatementIs(y: Sys, l: nat)
    requires InLockCode(PcOf(y, y.k.cur)) && PcOf(y, y.k.cur).l == l < |y.locks| <= |y.sems|
    ensures Enabled(y, Step)
    ensures var p, lock := PcOf(y, y.k.cur), y.locks[l];
            && (p.AcqHolder? ==> Next(y, Step) == Some(SetLock(y, l, lock.(holder := Some(y.k.cur)), AcqRepeat(l))))
            && (p.AcqRepeat? && lock.repeat == 0 ==>
                  Next(y, Step) == Some(WithDepth(SetLock(y, l, lock.(repeat := 1), Normal), l, DepthOf(y, y.k.cur, l) + 1)))
            && (p.RelHolder? && lock.repeat == 1 ==> Next(y, Step) == Some(SetLock(y, l, lock.(holder := None), RelRepeat(l))))
            && (p.RelRepeat? ==> Next(y, Step) == Some(SetLock(y, l, lock.(repeat := 0), RelUp(l))))
  {
  }

  lemma CountIs(y: Sys, l: nat)
    requires InLockCode(PcOf(y, y.k.cur)) && PcOf(y, y.k.cur).l == l < |y.locks| <= |y.sems|
    ensures Enabled(y, Step)
    ensures var p, lock := PcOf(y, y.k.cur), y.locks[l];
            && (p.AcqInc? ==> Next(y, Step) == Some(WithDepth(SetLock(y, l, lock.(repeat := lock.repeat + 1), Normal), l, DepthOf(y, y.k.cur, l) + 1)))
            && (p.RelDec? && lock.repeat > 0 ==> Next(y, Step) == Some(SetLock(y, l, lock.(repeat := lock.repeat - 1), Normal)))
  {
  }

  lemma TakeIs(y: Sys, l: nat)
    requires PcOf(y, y.k.cur) == AcqDown(l) && l < |y.locks| <= |y.sems| && y.sems[l].value == 1
    ensures Enabled(y, Step) && Next(y, Step) == Some(At(y, AcqHolder(l)).(sems := y.sems[l := Sem(0, y.sems[l].waiters)]))
  {
  }

  lemma GiveIs(y: Sys, l: nat)
    requires PcOf(y, y.k.cur) == RelUp(l) && l < |y.locks| <= |y.sems| && y.sems[l].value == 0
    requires y.sems[l].waiters != [] ==> K.Unblock(y.k, y.sems[l].waiters[0]).Some?
    ensures Enabled(y, Step)
    ensures var ws := y.sems[l].waiters;
            var k := if ws == [] then y.k else K.Unblock(y.k, ws[0]).value;
            k.cur == y.k.cur ==> Next(y, Step) == Some(At(y, Normal).(k := k, sems := y.sems[l := Sem(1, if ws == [] then [] else ws[1..])]))
  {
    hide K.Unblock;
  }

  /** lock_acquire of a free lock, when nothing comes between: the caller has it, once. */
  lemma AcquireTakesFreeLock(y: Sys, l: nat)
    requires Inv(y) && Enabled(y, Acquire(l)) && DepthOf(y, y.k.cur, l) == 0 && l < |y.sems| && y.sems[l].value == 1
    ensures LegalRun(y, [Acquire(l), Step, Step, Step]) && Run(y, [Acquire(l), Step, Step, Step]).Some?
    ensures var z := Run(y, [Acquire(l), Step, Step, Step]).value;
            && z.k == y.k && z.locks == y.locks[l := Lock(Some(y.k.cur), 1)] && z.sems == y.sems[l := Sem(0, y.sems[l].waiters)]
            && PcOf(z, y.k.cur).Normal? && DepthOf(z, y.k.cur, l) == 1
  {
    hide Inv, LegalRun, Run, Next, Enabled;
    LockNumbers(y, l);
    var me := y.k.cur;
    var y1 := AcquireTest(y, l);
    var y2 := At(y1, AcqHolder(l)).(sems := y1.sems[l := Sem(0, y1.sems[l].waiters)]);
    var y3 := SetLock(y2, l, y2.locks[l].(holder := Some(me)), AcqRepeat(l));
    var y4 := WithDepth(SetLock(y3, l, y3.locks[l].(repeat := 1), Normal), l, DepthOf(y3, me, l) + 1);
    NextIs(y, l, y1);
    TakeIs(y1, l);
    StatementIs(y2, l);
    StatementIs(y3, l);
    FourSteps(y, Acquire(l), y1, y2, y3, y4);
  }

  /** ... of a lock that another thread has: the caller sleeps, last in the list. */
  lemma AcquireWaitsForLock(y: Sys, l: nat)
    requires Inv(y) && Enabled(y, Acquire(l)) && DepthOf(y, y.k.cur, l) == 0 && l < |y.sems| && y.sems[l].value == 0
    ensures LegalRun(y, [Acquire(l), Step]) && Run(y, [Acquire(l), Step]).Some?
    ensures var z := Run(y, [Acquire(l), Step]).value;
            && z.locks == y.locks && z.sems == y.sems[l := Sem(0, y.sems[l].waiters + [y.k.cur])]
            && PcOf(z, y.k.cur) == InDown(l, true) && K.StatusOf(z.k, y.k.cur) == K.Blocked
  {
    hide LegalRun, Run, Inv, Next, DownTurn;
    LockNumbers(y, l);
    AcquireKeeps(y, l);
    var y1 := AcquireTest(y, l);
    assert PcOf(y1, y.k.cur) == AcqDown(l) && y1.sems == y.sems;
    StepKeeps(y1);
    EntersDown(y1, Step);
    DownIsExact(y1, l, true);
    SleepsInDown(y1, l);
    var z := DownTurn(y1, l, true).value;
    assert z.sems == y.sems[l := z.sems[l]];
    NextIs(y, l, y1);
    TwoSteps(y, Acquire(l), y1, z);
  }

  lemma NextIs(y: Sys, l: nat, y1: Sys)
    requires Enabled(y, Acquire(l)) && y1 == AcquireTest(y, l) && l < |y.locks| <= |y.sems|
    ensures Next(y, Acquire(l)) == Some(y1)
    ensures PcOf(y1, y1.k.cur) == AcqDown(l) ==> Enabled(y1, Step) && Next(y1, Step) == DownTurn(y1, l, true)
  {
  }

  lemma SleepsInDown(y: Sys, l: nat)
    requires l < |y.sems| && y.sems[l].value == 0 && DownTurn(y, l, true).Some?
    ensures var z := DownTurn(y, l, true).value; z.locks == y.locks && PcOf(z, y.k.cur) == InDown(l, true)
  {
    hide K.Block;
  }

  /** ... and of a lock that the caller has: it only counts. lock_release then only counts back. */
  lemma AcquireCountsUp(y: Sys, l: nat)
    requires Inv(y) && Enabled(y, Acquire(l)) && DepthOf(y, y.k.cur, l) > 0
    ensures LegalRun(y, [Acquire(l), Step]) && Run(y, [Acquire(l), Step]).Some?
    ensures var z, d := Run(y, [Acquire(l), Step]).value, DepthOf(y, y.k.cur, l);
            && z.k == y.k && z.sems == y.sems && z.locks == y.locks[l := Lock(Some(y.k.cur), d + 1)]
            && PcOf(z, y.k.cur).Normal? && DepthOf(z, y.k.cur, l) == d + 1
  {
    hide Inv, LegalRun, Run, Next, Enabled;
    LockNumbers(y, l);
    var y1 := AcquireTest(y, l);
    NextIs(y, l, y1);
    CountIs(y1, l);
    TwoSteps(y, Acquire(l), y1, WithDepth(SetLock(y1, l, y1.locks[l].(repeat := y1.locks[l].repeat + 1), Normal), l, DepthOf(y1, y.k.cur, l) + 1));
  }

  lemma ReleaseCountsDown(y: Sys, l: nat)
    requires Inv(y) && Enabled(y, Release(l)) && DepthOf(y, y.k.cur, l) > 1
    ensures LegalRun(y, [Release(l), Step]) && Run(y, [Release(l), Step]).Some?
    ensures var z, d := Run(y, [Release(l), Step]).value, DepthOf(y, y.k.cur, l);
            && z.k == y.k && z.sems == y.sems && z.locks == y.locks[l := Lock(Some(y.k.cur), d - 1)]
            && PcOf(z, y.k.cur).Normal? && DepthOf(z, y.k.cur, l) == d - 1
  {
    hide Inv, LegalRun, Run, Next, Enabled;
    LockNumbers(y, l);
    var y1 := ReleaseTest(y, l).value;
    ReleaseIs(y, l, y1);
    CountIs(y1, l);
    TwoSteps(y, Release(l), y1, SetLock(y1, l, y1.locks[l].(repeat := y1.locks[l].repeat - 1), Normal));
  }

  /** The last lock_release: the lock is free and as new, and the first waiter is the next to run. */
  lemma ReleaseFreesLock(y: Sys, l: nat)
    requires Inv(y) && Enabled(y, Release(l)) && DepthOf(y, y.k.cur, l) == 1
    ensures LegalRun(y, [Release(l), Step, Step, Step]) && Run(y, [Release(l), Step, Step, Step]).Some?
    ensures var z, ws := Run(y, [Release(l), Step, Step, Step]).value, y.sems[l].waiters;
            && z.locks == y.locks[l := Lock(None, 0)] && z.sems == y.sems[l := Sem(1, if ws == [] then [] else ws[1..])]
            && PcOf(z, y.k.cur).Normal? && DepthOf(z, y.k.cur, l) == 0 && z.k.cur == y.k.cur
            && z.k.ready == if ws == [] then y.k.ready else [ws[0]] + y.k.ready
  {
    hide Inv, LegalRun, Run, Next, Enabled, K.Unblock;
    LockNumbers(y, l);
    ReleaseIsSafe(y, l);
    var me, ws := y.k.cur, y.sems[l].waiters;
    var k := if ws == [] then y.k else K.Unblock(y.k, ws[0]).value;
    var y1 := ReleaseTest(y, l).value;
    var y2 := SetLock(y1, l, y1.locks[l].(holder := None), RelRepeat(l));
    var y3 := SetLock(y2, l, y2.locks[l].(repeat := 0), RelUp(l));
    var y4 := At(y3, Normal).(k := k, sems := y3.sems[l := Sem(1, if ws == [] then [] else ws[1..])]);
    ReleaseIs(y, l, y1);
    StatementIs(y1, l);
    StatementIs(y2, l);
    GiveIs(y3, l);
    FourSteps(y, Release(l), y1, y2, y3, y4);
  }

  lemma ReleaseIs(y: Sys, l: nat, y1: Sys)
    requires Enabled(y, Release(l)) && ReleaseTest(y, l) == Some(y1)
    ensures Next(y, Release(l)) == Some(y1)
  {
  }

  /** The up that ends it wakes the first waiter. */
  lemma ReleaseIsSafe(y: Sys, l: nat)
    requires Inv(y) && l < |y.sems| && y.sems[l].value == 0
    ensures var ws := y.sems[l].waiters;
            ws != [] ==> K.Unblock(y.k, ws[0]).Some? && K.Unblock(y.k, ws[0]).value.ready == [ws[0]] + y.k.ready
                         && K.Unblock(y.k, ws[0]).value.cur == y.k.cur
  {
    assert SemOk(y, l);
    var ws := y.sems[l].waiters;
    if ws != [] {
      assert ws[0] in ws;
      K.UnblockKeeps(y.k, ws[0]);
    }
  }
}
