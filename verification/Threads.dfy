/** The value semantics of thread/thread.c and of the timer interrupt of device/timer.c.
    A region with interrupts off is one function. `None` is a kernel panic: an ASSERT that
    does not hold, or a pop from an empty list. */
module Threads {
  import opened Wrappers

  type Tid = nat

  datatype Status = Running | Ready | Blocked | Waiting | Hanging | Died

  /** The scheduler's globals and the PCB fields it reads and writes. A thread that has died is in no map. */
  datatype State = State(cur: Tid, idle: Tid, ready: seq<Tid>, all: seq<Tid>,
                         status: map<Tid, Status>, priority: map<Tid, nat>, ticks: map<Tid, nat>)

  function StatusOf(st: State, t: Tid): Status {
    if t in st.status then st.status[t] else Died
  }

  function PriorityOf(st: State, t: Tid): nat {
    if t in st.priority then st.priority[t] else 0
  }

  function TicksOf(st: State, t: Tid): nat {
    if t in st.ticks then st.ticks[t] else 0
  }

  predicate Asleep(s: Status) {
    s == Blocked || s == Waiting || s == Hanging
  }

  /** thread_unblock: the woken thread goes to the front of the ready list. */
  function Unblock(st: State, t: Tid): Option<State> {
    if !Asleep(StatusOf(st, t)) || t in st.ready then None
    else Some(st.(ready := [t] + st.ready, status := st.status[t := Ready]))
  }

  /** The second half of schedule: wake idle if nobody is ready, then switch to the head of the ready list. */
  function Switch(st: State): Option<State> {
    var st1 :- if st.ready == [] then Unblock(st, st.idle) else Some(st);
    if st1.ready == [] then None
    else
      var next := st1.ready[0];
      Some(st1.(cur := next, ready := st1.ready[1..], status := st1.status[next := Running]))
  }

  function Schedule(st: State): Option<State> {
    if StatusOf(st, st.cur) == Running then
      if st.cur in st.ready then None
      else Switch(st.(ready := st.ready + [st.cur],
                      status := st.status[st.cur := Ready],
                      ticks := st.ticks[st.cur := PriorityOf(st, st.cur)]))
    else Switch(st)
  }

  function Yield(st: State): Option<State> {
    if st.cur in st.ready then None
    else Schedule(st.(ready := st.ready + [st.cur], status := st.status[st.cur := Ready]))
  }

  function Block(st: State, how: Status): Option<State> {
    if !Asleep(how) then None
    else Schedule(st.(status := st.status[st.cur := how]))
  }

  function Start(st: State, t: Tid, prio: nat): Option<State> {
    if t in st.ready || t in st.all then None
    else Some(st.(ready := st.ready + [t], all := st.all + [t], status := st.status[t := Ready],
                  priority := st.priority[t := prio], ticks := st.ticks[t := prio]))
  }

  function Without(s: seq<Tid>, t: Tid): (r: seq<Tid>) {
    if s == [] then [] else if s[0] == t then s[1..] else [s[0]] + Without(s[1..], t)
  }

  /** thread_exit up to its call of schedule. */
  function Remove(st: State, t: Tid): State {
    st.(ready := Without(st.ready, t), all := Without(st.all, t),
        status := st.status - {t}, priority := st.priority - {t}, ticks := st.ticks - {t})
  }

  function Exit(st: State, t: Tid, needSchedule: bool): Option<State> {
    if needSchedule then Schedule(Remove(st, t)) else Some(Remove(st, t))
  }

  /** `--ticks` on a uint8_t. */
  function Decrement(n: nat): nat {
    if n == 0 then 255 else n - 1
  }

  function Tick(st: State): Option<State> {
    var left := Decrement(TicksOf(st, st.cur));
    var st1 := st.(ticks := st.ticks[st.cur := left]);
    if left == 0 then Schedule(st1) else Some(st1)
  }

  // ---------------------------------------------------------------- the invariant

  /** What holds at every point inside schedule, whatever has become of the current thread. */
  ghost predicate Linked(st: State) {
    && NoDup(st.ready)
    && (forall t :: t in st.ready <==> StatusOf(st, t) == Ready)
    && NoDup(st.all) && (forall t :: t in st.all <==> t in st.status)
    && (forall t | t in st.status :: st.status[t] != Died)
  }

  ghost predicate IdleCanWake(st: State) {
    st.idle in st.status && (StatusOf(st, st.idle) in {Running, Ready, Blocked})
  }

  ghost predicate TicksInRange(st: State) {
    forall t | t in st.status :: 1 <= TicksOf(st, t) <= PriorityOf(st, t)
  }

  ghost predicate Core(st: State) {
    Linked(st) && IdleCanWake(st) && TicksInRange(st)
  }

  ghost predicate Inv(st: State) {
    && Core(st)
    && StatusOf(st, st.cur) == Running
    && (forall t | StatusOf(st, t) == Running :: t == st.cur)
  }

  /** Core, and nobody is running: the state in which a thread gives up the CPU. */
  ghost predicate Vacant(st: State) {
    Core(st) && forall t :: StatusOf(st, t) != Running
  }

  // ---------------------------------------------------------------- what each function keeps

  lemma UnblockKeeps(st: State, t: Tid)
    requires Core(st) && Asleep(StatusOf(st, t))
    ensures Unblock(st, t).Some? && Core(Unblock(st, t).value)
    ensures Inv(st) ==> Inv(Unblock(st, t).value)
    ensures Vacant(st) ==> Vacant(Unblock(st, t).value)
  {
    var st1 := Unblock(st, t).value;
    forall u ensures u in st1.ready <==> StatusOf(st1, u) == Ready {
      assert u in st1.ready <==> u == t || u in st.ready;
    }
  }

  lemma SwitchKeeps(st: State)
    requires Vacant(st)
    ensures Switch(st).Some? && Inv(Switch(st).value)
    ensures var st1 := Switch(st).value;
            st.ready != [] ==> st1.cur == st.ready[0] && st1.ready == st.ready[1..] && st1.ticks == st.ticks
                               && st1.status == st.status[st.ready[0] := Running]
    ensures var st1 := Switch(st).value;
            st.ready == [] ==> st1.cur == st.idle && st1.ready == [] && st1.status == st.status[st.idle := Running]
    ensures var st1 := Switch(st).value; st1.all == st.all && st1.priority == st.priority && st1.idle == st.idle && st1.ticks == st.ticks
  {
    if st.ready == [] {
      assert StatusOf(st, st.idle) != Ready;
      UnblockKeeps(st, st.idle);
    }
    var st1 := if st.ready == [] then Unblock(st, st.idle).value else st;
    var next := st1.ready[0];
    var st2 := Switch(st).value;
    assert StatusOf(st1, next) == Ready;
    assert forall u :: StatusOf(st2, u) == if u == next then Running else StatusOf(st1, u);
    assert forall u :: StatusOf(st1, u) == Running ==> u == next;
    forall u ensures u in st2.ready <==> StatusOf(st2, u) == Ready {
      assert u in st1.ready <==> u == next || u in st1.ready[1..];
    }
  }

  /** The current thread goes behind the ready ones. */
  function Requeued(st: State, ticks: nat): State {
    st.(ready := st.ready + [st.cur], status := st.status[st.cur := Ready], ticks := st.ticks[st.cur := ticks])
  }

  lemma RequeueKeeps(st: State, ticks: nat)
    requires Inv(st) && 1 <= ticks <= PriorityOf(st, st.cur)
    ensures st.cur !in st.ready
    ensures Vacant(Requeued(st, ticks))
  {
    var st1 := Requeued(st, ticks);
    forall u ensures u in st1.ready <==> StatusOf(st1, u) == Ready {
      assert u in st1.ready <==> u == st.cur || u in st.ready;
    }
  }

  /** The states schedule is called in: nobody runs, or the running thread's ticks may have reached 0. */
  ghost predicate Schedulable(st: State) {
    Vacant(st) || Inv(st.(ticks := st.ticks[st.cur := PriorityOf(st, st.cur)]))
  }

  lemma ScheduleKeeps(st: State)
    requires Schedulable(st)
    ensures Schedule(st).Some? && Inv(Schedule(st).value)
    ensures !Vacant(st) ==> st.cur !in st.ready && Vacant(Requeued(st, PriorityOf(st, st.cur)))
  {
    if Vacant(st) {
      SwitchKeeps(st);
    } else {
      var full := st.(ticks := st.ticks[st.cur := PriorityOf(st, st.cur)]);
      RequeueKeeps(full, PriorityOf(st, st.cur));
      assert full.ticks[st.cur := PriorityOf(st, st.cur)] == full.ticks;
      SwitchKeeps(Requeued(st, PriorityOf(st, st.cur)));
    }
  }

  lemma InvIsSchedulable(st: State, ticks: nat)
    requires Inv(st)
    ensures Schedulable(st.(ticks := st.ticks[st.cur := ticks]))
  {
    var full := st.(ticks := st.ticks[st.cur := PriorityOf(st, st.cur)]);
    assert st.ticks[st.cur := ticks][st.cur := PriorityOf(st, st.cur)] == full.ticks;
    assert forall t :: StatusOf(full, t) == StatusOf(st, t);
    assert Inv(full);
  }

  lemma YieldIsSwitch(st: State)
    requires Inv(st)
    ensures Yield(st) == Switch(Requeued(st, TicksOf(st, st.cur)))
  {
    assert st.cur !in st.ready && st.cur in st.ticks;
    assert st.ticks == st.ticks[st.cur := TicksOf(st, st.cur)];
  }

  lemma RunningHasTicks(st: State)
    requires Inv(st)
    ensures st.cur in st.status && st.cur in st.ticks && 1 <= st.ticks[st.cur] == TicksOf(st, st.cur)
  {
  }

  lemma TickIsSwitch(st: State)
    requires Inv(st) && TicksOf(st, st.cur) == 1
    ensures Tick(st) == Switch(Requeued(st, PriorityOf(st, st.cur)))
  {
    assert st.cur !in st.ready;
    assert st.ticks[st.cur := 0][st.cur := PriorityOf(st, st.cur)] == st.ticks[st.cur := PriorityOf(st, st.cur)];
  }

  lemma YieldKeeps(st: State)
    requires Inv(st)
    ensures Yield(st).Some? && Inv(Yield(st).value)
  {
    RequeueKeeps(st, TicksOf(st, st.cur));
    YieldIsSwitch(st);
    SwitchKeeps(Requeued(st, TicksOf(st, st.cur)));
  }

  /** Idle blocks only as BLOCKED; any other thread may block in the three ways. */
  lemma BlockKeeps(st: State, how: Status)
    requires Inv(st) && Asleep(how) && (st.cur == st.idle ==> how == Blocked)
    ensures Vacant(st.(status := st.status[st.cur := how]))
    ensures Block(st, how) == Switch(st.(status := st.status[st.cur := how]))
    ensures Block(st, how).Some? && Inv(Block(st, how).value)
  {
    var st1 := st.(status := st.status[st.cur := how]);
    assert forall t :: StatusOf(st1, t) == if t == st.cur then how else StatusOf(st, t);
    SwitchKeeps(st1);
  }

  lemma StartKeeps(st: State, t: Tid, prio: nat)
    requires Inv(st) && t !in st.status && prio >= 1
    ensures Start(st, t, prio).Some? && Inv(Start(st, t, prio).value)
  {
    assert StatusOf(st, t) == Died;
    var st1 := Start(st, t, prio).value;
    forall u ensures u in st1.ready <==> StatusOf(st1, u) == Ready {
      assert u in st1.ready <==> u == t || u in st.ready;
    }
    forall u ensures u in st1.all <==> u in st1.status {
      assert u in st1.all <==> u == t || u in st.all;
    }
  }

  lemma {:induction false} WithoutKeeps(s: seq<Tid>, t: Tid)
    requires NoDup(s)
    ensures NoDup(Without(s, t)) && forall u :: u in Without(s, t) <==> u in s && u != t
  {
    if s != [] {
      WithoutKeeps(s[1..], t);
      if s[0] != t {
        var w := Without(s[1..], t);
        assert Without(s, t) == [s[0]] + w;
        assert s[0] !in s[1..];
        assert forall u :: u in Without(s, t) <==> u == s[0] || u in w;
      }
    }
  }

  lemma {:induction false} WithoutAbsent(s: seq<Tid>, t: Tid)
    requires t !in s
    ensures Without(s, t) == s
  {
    if s != [] { WithoutAbsent(s[1..], t); }
  }

  lemma RemoveKeeps(st: State, t: Tid)
    requires Core(st) && t != st.idle
    ensures var st1 := Remove(st, t);
            Core(st1) && forall u :: StatusOf(st1, u) == if u == t then Died else StatusOf(st, u)
  {
    WithoutKeeps(st.ready, t);
    WithoutKeeps(st.all, t);
  }

  lemma RemovedIsVacant(st: State, t: Tid)
    requires Inv(st) && t != st.idle && t == st.cur
    ensures Vacant(Remove(st, t))
  {
    RemoveKeeps(st, t);
  }

  lemma ExitKeeps(st: State, t: Tid, needSchedule: bool)
    requires Inv(st) && t != st.idle && t in st.status
    requires needSchedule <==> t == st.cur
    ensures Exit(st, t, needSchedule).Some? && Inv(Exit(st, t, needSchedule).value)
  {
    if needSchedule {
      RemovedIsVacant(st, t);
      ScheduleKeeps(Remove(st, t));
    } else {
      RemoveKeeps(st, t);
    }
  }

  lemma TickKeeps(st: State)
    requires Inv(st)
    ensures Tick(st).Some? && Inv(Tick(st).value)
  {
    if TicksOf(st, st.cur) == 1 {
      RequeueKeeps(st, PriorityOf(st, st.cur));
      TickIsSwitch(st);
      SwitchKeeps(Requeued(st, PriorityOf(st, st.cur)));
    } else {
      var st1 := Tick(st).value;
      assert forall t :: StatusOf(st1, t) == StatusOf(st, t);
    }
  }

  /** thread_init: main runs, init and idle wait in this order. */
  function Initial(main: Tid, init: Tid, idle: Tid): State {
    State(main, idle, [init, idle], [init, main, idle],
          map[main := Running, init := Ready, idle := Ready],
          map[main := 31, init := 31, idle := 10], map[main := 31, init := 31, idle := 10])
  }

  lemma InitialInv(main: Tid, init: Tid, idle: Tid)
    requires main != init && main != idle && init != idle
    ensures Inv(Initial(main, init, idle))
  {
    var st := Initial(main, init, idle);
    assert forall t :: t in st.ready <==> t == init || t == idle;
    assert forall t :: t in st.all <==> t == init || t == main || t == idle;
  }

  // ---------------------------------------------------------------- who is awake

  predicate Awake(s: Status) {
    s == Ready || s == Running
  }

  predicate SameFor(st: State, st1: State, t: Tid) {
    var a, b := StatusOf(st, t), StatusOf(st1, t);
    Awake(a) == Awake(b) && (!Awake(a) ==> a == b)
  }

  lemma SwitchEffect(st: State)
    requires Vacant(st)
    ensures Switch(st).Some? && Switch(st).value.idle == st.idle
    ensures forall t: Tid :: SameFor(st, Switch(st).value, t) || (st.ready == [] && t == st.idle && Awake(StatusOf(Switch(st).value, t)))
  {
    SwitchKeeps(st);
    assert st.ready != [] ==> StatusOf(st, st.ready[0]) == Ready;
  }

  /** Once the current thread is back in the ready list, schedule changes who is awake for nobody. */
  lemma RequeueEffect(st: State, ticks: nat)
    requires Inv(st) && 1 <= ticks <= PriorityOf(st, st.cur)
    ensures var st0 := Requeued(st, ticks);
            && Switch(st0).Some? && Inv(Switch(st0).value) && Switch(st0).value.idle == st.idle
            && forall t: Tid :: SameFor(st, Switch(st0).value, t)
  {
    var st0 := Requeued(st, ticks);
    RequeueKeeps(st, ticks);
    SwitchEffect(st0);
    SwitchKeeps(st0);
    forall t: Tid ensures SameFor(st, Switch(st0).value, t) {
      assert SameFor(st, st0, t);
    }
  }

  lemma YieldEffect(st: State)
    requires Inv(st)
    ensures Yield(st).Some? && Inv(Yield(st).value) && Yield(st).value.idle == st.idle
    ensures forall t: Tid :: SameFor(st, Yield(st).value, t)
  {
    YieldIsSwitch(st);
    RequeueEffect(st, TicksOf(st, st.cur));
  }

  lemma TickEffect(st: State)
    requires Inv(st)
    ensures Tick(st).Some? && Inv(Tick(st).value) && Tick(st).value.idle == st.idle
    ensures forall t: Tid :: SameFor(st, Tick(st).value, t)
  {
    if TicksOf(st, st.cur) == 1 {
      TickIsSwitch(st);
      RequeueEffect(st, PriorityOf(st, st.cur));
    } else {
      TickKeeps(st);
    }
  }

  lemma BlockEffect(st: State, how: Status)
    requires Inv(st) && Asleep(how) && (st.cur == st.idle ==> how == Blocked)
    ensures Block(st, how).Some? && Inv(Block(st, how).value) && Block(st, how).value.idle == st.idle
    ensures var st1 := Block(st, how).value;
            && (forall t: Tid | t != st.cur && t != st.idle :: SameFor(st, st1, t))
            && (st.cur != st.idle ==> StatusOf(st1, st.cur) == how)
            && (st.cur != st.idle ==> Awake(StatusOf(st1, st.idle)) || SameFor(st, st1, st.idle))
  {
    BlockKeeps(st, how);
    var st0 := st.(status := st.status[st.cur := how]);
    SwitchEffect(st0);
    var st1 := Switch(st0).value;
    forall t: Tid | t != st.cur && t != st.idle ensures SameFor(st, st1, t) {
      assert StatusOf(st0, t) == StatusOf(st, t) && SameFor(st0, st1, t);
    }
    if st.cur != st.idle {
      assert StatusOf(st0, st.idle) == StatusOf(st, st.idle);
      assert SameFor(st0, st1, st.idle) || Awake(StatusOf(st1, st.idle));
      assert SameFor(st0, st1, st.cur);
    }
  }

  // ---------------------------------------------------------------- round robin

  /** What can happen to the ready list. */
  datatype Event = Timer | Yields | Blocks(how: Status) | Wakes(woken: Tid) | Starts(new_: Tid, prio: nat) | Exits(over: Tid)

  predicate Legal(st: State, e: Event) {
    match e
    case Blocks(how) => Asleep(how) && (st.cur == st.idle ==> how == Blocked)
    case Wakes(t) => Asleep(StatusOf(st, t))
    case Starts(t, prio) => t !in st.status && prio >= 1
    case Exits(t) => t != st.idle && t in st.status
    case _ => true
  }

  function Do(st: State, e: Event): Option<State> {
    match e
    case Timer => Tick(st)
    case Yields => Yield(st)
    case Blocks(how) => Block(st, how)
    case Wakes(t) => Unblock(st, t)
    case Starts(t, prio) => Start(st, t, prio)
    case Exits(t) => Exit(st, t, t == st.cur)
  }

  lemma DoKeeps(st: State, e: Event)
    requires Inv(st) && Legal(st, e)
    ensures Do(st, e).Some? && Inv(Do(st, e).value)
  {
    match e
    case Timer => TickKeeps(st);
    case Yields => YieldKeeps(st);
    case Blocks(how) => BlockKeeps(st, how);
    case Wakes(t) => UnblockKeeps(st, t);
    case Starts(t, prio) => StartKeeps(st, t, prio);
    case Exits(t) => ExitKeeps(st, t, t == st.cur);
  }

  ghost predicate LegalRun(st: State, es: seq<Event>)
    decreases es
  {
    es == [] || (Legal(st, es[0]) && Do(st, es[0]).Some? && LegalRun(Do(st, es[0]).value, es[1..]))
  }

  /** t is on the CPU at some point of the run. */
  ghost predicate Runs(st: State, es: seq<Event>, t: Tid)
    decreases es
  {
    st.cur == t || (es != [] && Do(st, es[0]).Some? && Runs(Do(st, es[0]).value, es[1..], t))
  }

  predicate CallsSchedule(st: State, e: Event) {
    match e
    case Timer => TicksOf(st, st.cur) == 1
    case Wakes(_) => false
    case Starts(_, _) => false
    case Exits(t) => t == st.cur
    case _ => true
  }

  ghost function ScheduleCalls(st: State, es: seq<Event>): nat
    decreases es
  {
    if es == [] || Do(st, es[0]).None? then 0
    else (if CallsSchedule(st, es[0]) then 1 else 0) + ScheduleCalls(Do(st, es[0]).value, es[1..])
  }

  /** How many threads are woken, each of which goes in front of all others. */
  function Wakings(es: seq<Event>): nat {
    if es == [] then 0 else (if es[0].Wakes? then 1 else 0) + Wakings(es[1..])
  }

  /** The ticks that they have when they are woken. */
  ghost function WokenTicks(st: State, es: seq<Event>): nat
    decreases es
  {
    if es == [] || Do(st, es[0]).None? then 0
    else (if es[0].Wakes? then TicksOf(st, es[0].woken) else 0) + WokenTicks(Do(st, es[0]).value, es[1..])
  }

  function TimerTicks(es: seq<Event>): nat {
    if es == [] then 0 else (if es[0].Timer? then 1 else 0) + TimerTicks(es[1..])
  }

  /** The ticks of the first k threads of a list. */
  function TicksOfFirst(st: State, q: seq<Tid>, k: nat): nat
    requires k <= |q|
  {
    if k == 0 then 0 else TicksOf(st, q[0]) + TicksOfFirst(st, q[1..], k - 1)
  }

  /** The ticks left to the running thread and to the k ready ones in front. */
  ghost function TicksAhead(st: State, k: nat): nat
    requires k <= |st.ready|
  {
    TicksOf(st, st.cur) + TicksOfFirst(st, st.ready, k)
  }

  /** The state in which an event that calls schedule switches. */
  function BeforeSwitch(st: State, e: Event): State {
    match e
    case Timer => Requeued(st, PriorityOf(st, st.cur))
    case Yields => Requeued(st, TicksOf(st, st.cur))
    case Blocks(how) => st.(status := st.status[st.cur := how])
    case Wakes(_) => st
    case Starts(_, _) => st
    case Exits(t) => Remove(st, t)
  }

  lemma DoIsSwitch(st: State, e: Event)
    requires Inv(st) && Legal(st, e) && CallsSchedule(st, e)
    ensures Do(st, e) == Switch(BeforeSwitch(st, e)) && Vacant(BeforeSwitch(st, e))
  {
    match e
    case Timer => TickIsSwitch(st); RequeueKeeps(st, PriorityOf(st, st.cur));
    case Yields => YieldIsSwitch(st); RequeueKeeps(st, TicksOf(st, st.cur));
    case Blocks(how) => BlockKeeps(st, how);
    case Wakes(_) =>
    case Starts(_, _) =>
    case Exits(t) => RemovedIsVacant(st, t);
  }

  lemma ReadyIsNotRunning(st: State)
    requires Inv(st)
    ensures st.cur !in st.ready && NoDup(st.ready)
  {
  }

  /** What schedule will switch from has the ready threads in front, with their ticks. */
  lemma ReadyFirst(st: State, e: Event)
    requires st.cur !in st.ready && CallsSchedule(st, e)
    ensures st.ready <= BeforeSwitch(st, e).ready && forall t | t in st.ready :: TicksOf(BeforeSwitch(st, e), t) == TicksOf(st, t)
  {
    WithoutAbsent(st.ready, st.cur);
  }

  /** An event that calls schedule moves every ready thread one place forward. */
  lemma OneSwitch(st: State, e: Event, k: nat)
    requires Inv(st) && Legal(st, e) && k < |st.ready| && CallsSchedule(st, e)
    ensures Do(st, e).Some?
    ensures var st1 := Do(st, e).value;
            st1.cur == st.ready[0] && k <= |st1.ready| && st1.ready[..k] == st.ready[1..k + 1]
            && forall t | t in st.ready :: TicksOf(st1, t) == TicksOf(st, t)
  {
    hide Inv, Vacant, BeforeSwitch, Switch, Do, Legal;
    ReadyIsNotRunning(st);
    DoIsSwitch(st, e);
    ReadyFirst(st, e);
    SwitchKeeps(BeforeSwitch(st, e));
  }

  lemma {:induction false} SameTicksAhead(st: State, st1: State, q: seq<Tid>, q1: seq<Tid>, k: nat)
    requires k <= |q| && k <= |q1| && q[..k] == q1[..k]
    requires forall t | t in q[..k] :: TicksOf(st1, t) == TicksOf(st, t)
    ensures TicksOfFirst(st1, q1, k) == TicksOfFirst(st, q, k)
  {
    if k > 0 {
      assert q[..k][0] == q1[..k][0];
      assert q[1..][..k - 1] == q[..k][1..] == q1[..k][1..] == q1[1..][..k - 1];
      SameTicksAhead(st, st1, q[1..], q1[1..], k - 1);
    }
  }

  /** Where the thread at place k of a list stands when another one is taken out, and the ticks ahead of it then. */
  lemma {:induction false} WithoutAhead(st: State, st1: State, q: seq<Tid>, t: Tid, k: nat) returns (j: nat)
    requires k < |q| && q[k] != t && NoDup(q) && forall u | u in q && u != t :: TicksOf(st1, u) == TicksOf(st, u)
    ensures j <= k && j < |Without(q, t)| && Without(q, t)[j] == q[k]
    ensures TicksOfFirst(st1, Without(q, t), j) <= TicksOfFirst(st, q, k)
    decreases k
  {
    if q[0] == t {
      j := k - 1;
      assert t !in q[1..];
      SameTicksAhead(st, st1, q[1..], q[1..], k - 1);
    } else if k == 0 {
      j := 0;
    } else {
      var i := WithoutAhead(st, st1, q[1..], t, k - 1);
      j := i + 1;
      assert Without(q, t) == [q[0]] + Without(q[1..], t);
    }
  }

  /** Any other event leaves the running thread where it is, and a ready one in its place or nearer to the front; but a thread
      that is woken goes in front of it. */
  lemma NoSwitch(st: State, e: Event, k: nat) returns (j: nat)
    requires Inv(st) && Legal(st, e) && k < |st.ready| && !CallsSchedule(st, e) && e != Exits(st.ready[k])
    ensures Do(st, e).Some?
    ensures var st1 := Do(st, e).value;
            && st1.cur == st.cur && j <= (if e.Wakes? then k + 1 else k) && j < |st1.ready| && st1.ready[j] == st.ready[k]
            && TicksAhead(st1, j) + (if e.Timer? then 1 else 0) <= TicksAhead(st, k) + if e.Wakes? then TicksOf(st, e.woken) else 0
  {
    hide Inv, StatusOf, PriorityOf, Schedule, Yield, Block;
    DoKeeps(st, e);
    ReadyIsNotRunning(st);
    RunningHasTicks(st);
    var st1 := Do(st, e).value;
    match e
    case Timer =>
      j := k;
      SameTicksAhead(st, st1, st.ready, st1.ready, k);
    case Wakes(t) =>
      j := k + 1;
      assert st1.ready[1..] == st.ready;
      SameTicksAhead(st, st1, st.ready, st.ready, k);
    case Starts(t, prio) =>
      j := k;
      StartedIsNew(st, t, prio);
      SameTicksAhead(st, st1, st.ready, st1.ready, k);
    case Exits(t) =>
      j := WithoutAhead(st, st1, st.ready, t, k);
  }

  lemma StartedIsNew(st: State, t: Tid, prio: nat)
    requires Start(st, t, prio).Some? && t != st.cur
    ensures var st1 := Start(st, t, prio).value;
            st.ready <= st1.ready && TicksOf(st1, st.cur) == TicksOf(st, st.cur) && forall u | u in st.ready :: TicksOf(st1, u) == TicksOf(st, u)
  {
  }

  /** A thread at place k of the ready list runs within k + 1 calls of schedule and one more for every thread that is woken
      meanwhile, unless it is ended before. */
  lemma {:induction false} RunsWithinCalls(st: State, es: seq<Event>, k: nat)
    requires Inv(st) && k < |st.ready| && LegalRun(st, es) && Exits(st.ready[k]) !in es
    requires ScheduleCalls(st, es) >= k + 1 + Wakings(es)
    ensures Runs(st, es, st.ready[k])
    decreases |es|
  {
    hide Inv, Legal, CallsSchedule, Do;
    var t := st.ready[k];
    DoKeeps(st, es[0]);
    var st1 := Do(st, es[0]).value;
    assert Exits(t) !in es[1..] && es[0] in es;
    if !CallsSchedule(st, es[0]) {
      var j := NoSwitch(st, es[0], k);
      RunsWithinCalls(st1, es[1..], j);
    } else {
      OneSwitch(st, es[0], k);
      if k > 0 {
        assert st1.ready[..k][k - 1] == st.ready[1..k + 1][k - 1] == t;
        RunsWithinCalls(st1, es[1..], k - 1);
      } else {
        assert Runs(st1, es[1..], t);
      }
    }
  }

  lemma TicksAheadAfterSwitch(st: State, e: Event, k: nat)
    requires Inv(st) && Legal(st, e) && 0 < k < |st.ready| && CallsSchedule(st, e) && Do(st, e).Some?
    ensures k - 1 < |Do(st, e).value.ready| && Do(st, e).value.ready[k - 1] == st.ready[k]
    ensures TicksAhead(Do(st, e).value, k - 1) == TicksAhead(st, k) - TicksOf(st, st.cur)
  {
    hide Inv, Legal, CallsSchedule, Do;
    OneSwitch(st, e, k);
    var st1 := Do(st, e).value;
    assert st1.ready[..k][k - 1] == st.ready[1..k + 1][k - 1] == st.ready[k];
    assert st.ready[1..][..k - 1] == st.ready[1..k + 1][..k - 1];
    assert st1.ready[..k][..k - 1] == st1.ready[..k - 1];
    SameTicksAhead(st, st1, st.ready[1..], st1.ready, k - 1);
  }

  /** ... and within the ticks left to the running thread, to the threads ahead of it and to those that are woken meanwhile. */
  lemma {:induction false} RunsWithinTicks(st: State, es: seq<Event>, k: nat)
    requires Inv(st) && k < |st.ready| && LegalRun(st, es) && Exits(st.ready[k]) !in es
    requires TimerTicks(es) >= TicksAhead(st, k) + WokenTicks(st, es)
    ensures Runs(st, es, st.ready[k])
    decreases |es|
  {
    hide Inv, Legal, CallsSchedule, Do, TicksOf, TicksOfFirst, StatusOf, PriorityOf;
    RunningHasTicks(st);
    assert es != [];
    var t := st.ready[k];
    assert Exits(t) !in es[1..] && es[0] in es;
    DoKeeps(st, es[0]);
    var st1 := Do(st, es[0]).value;
    if !CallsSchedule(st, es[0]) {
      var j := NoSwitch(st, es[0], k);
      RunsWithinTicks(st1, es[1..], j);
    } else if k > 0 {
      TicksAheadAfterSwitch(st, es[0], k);
      RunsWithinTicks(st1, es[1..], k - 1);
    } else {
      OneSwitch(st, es[0], k);
      assert Runs(st1, es[1..], t);
    }
  }

  // ---------------------------------------------------------------- who runs next, and for how long

  /** A woken thread stands in front of all others, so that the next call of schedule runs it. */
  lemma WokenRunsNext(st: State, t: Tid, e: Event)
    requires Inv(st) && Asleep(StatusOf(st, t))
    ensures Unblock(st, t).Some? && Inv(Unblock(st, t).value)
    ensures var st1 := Unblock(st, t).value;
            && st1.ready == [t] + st.ready && st1.cur == st.cur && StatusOf(st1, t) == Ready
            && (forall u | u != t :: StatusOf(st1, u) == StatusOf(st, u))
            && (Legal(st1, e) && CallsSchedule(st1, e) ==> Do(st1, e).Some? && Do(st1, e).value.cur == t)
  {
    UnblockKeeps(st, t);
    var st1 := Unblock(st, t).value;
    if Legal(st1, e) && CallsSchedule(st1, e) {
      OneSwitch(st1, e, 0);
    }
  }

  /** A new thread stands last, with ticks for its whole first slice. */
  lemma NewThreadStandsLast(st: State, t: Tid, prio: nat)
    requires Inv(st) && t !in st.status && prio >= 1
    ensures Start(st, t, prio).Some?
    ensures var st1 := Start(st, t, prio).value;
            && st1.ready == st.ready + [t] && st1.all == st.all + [t] && st1.cur == st.cur
            && StatusOf(st1, t) == Ready && TicksOf(st1, t) == PriorityOf(st1, t) == prio
            && forall u | u != t :: StatusOf(st1, u) == StatusOf(st, u) && TicksOf(st1, u) == TicksOf(st, u)
                                    && PriorityOf(st1, u) == PriorityOf(st, u)
  {
    StartKeeps(st, t, prio);
  }

  /** A yield sends the thread to the end of the list with the ticks it has left. */
  lemma YieldGoesLast(st: State)
    requires Inv(st)
    ensures Yield(st).Some?
    ensures var st1, q := Yield(st).value, st.ready + [st.cur];
            && [st1.cur] + st1.ready == q && st1.ticks == st.ticks && st1.priority == st.priority
            && forall u: Tid :: StatusOf(st1, u) == if u == q[0] then Running else if u == st.cur then Ready else StatusOf(st, u)
  {
    YieldIsSwitch(st);
    RequeueKeeps(st, TicksOf(st, st.cur));
    SwitchKeeps(Requeued(st, TicksOf(st, st.cur)));
  }

  /** A thread that blocks is on no list, and the head of the ready list runs, or idle. */
  lemma BlockLeavesTheCpu(st: State, how: Status)
    requires Inv(st) && Asleep(how) && (st.cur == st.idle ==> how == Blocked)
    ensures Block(st, how).Some?
    ensures var st1 := Block(st, how).value;
            && st1.ticks == st.ticks && st1.priority == st.priority
            && (st.ready != [] ==> [st1.cur] + st1.ready == st.ready && StatusOf(st1, st.cur) == how)
            && (st.ready == [] ==> st1.cur == st.idle && st1.ready == [])
            && (st.cur != st.idle ==> StatusOf(st1, st.cur) == how)
  {
    BlockKeeps(st, how);
    var st0 := st.(status := st.status[st.cur := how]);
    SwitchKeeps(st0);
    assert st.cur !in st.ready;
    assert st.ready != [] ==> Switch(st0).value.cur == st.ready[0] != st.cur;
  }

  /** The last tick of a slice puts the thread at the end of the list with a full slice. */
  lemma LastTick(st: State)
    requires Inv(st) && TicksOf(st, st.cur) == 1
    ensures Tick(st).Some?
    ensures var st1 := Tick(st).value;
            [st1.cur] + st1.ready == st.ready + [st.cur] && st1.ticks == st.ticks[st.cur := PriorityOf(st, st.cur)]
            && st1.priority == st.priority
  {
    TickIsSwitch(st);
    RequeueKeeps(st, PriorityOf(st, st.cur));
    SwitchKeeps(Requeued(st, PriorityOf(st, st.cur)));
  }

  /** n timer interrupts in a row. */
  function Ticked(st: State, n: nat): Option<State>
    decreases n
  {
    if n == 0 then Some(st) else var st1 :- Tick(st); Ticked(st1, n - 1)
  }

  /** A thread that is left alone runs for as many timer interrupts as it has ticks, and not for one more. */
  lemma {:induction false} SliceLasts(st: State, n: nat)
    requires Inv(st) && n <= TicksOf(st, st.cur)
    ensures Ticked(st, n).Some?
    ensures var st1, left := Ticked(st, n).value, TicksOf(st, st.cur);
            && (n < left ==> st1 == st.(ticks := st.ticks[st.cur := left - n]))
            && (n == left ==> [st1.cur] + st1.ready == st.ready + [st.cur]
                              && st1.ticks == st.ticks[st.cur := PriorityOf(st, st.cur)] && st1.priority == st.priority)
    decreases n
  {
    hide Inv, Tick;
    RunningHasTicks(st);
    if n == 0 {
      assert st.ticks == st.ticks[st.cur := TicksOf(st, st.cur)];
    } else if TicksOf(st, st.cur) == 1 {
      LastTick(st);
      assert Ticked(Tick(st).value, 0) == Tick(st);
    } else {
      OneTick(st);
      SliceLasts(Tick(st).value, n - 1);
      SetTwice(st.ticks, st.cur, TicksOf(st, st.cur) - 1, TicksOf(st, st.cur) - n);
      SetTwice(st.ticks, st.cur, TicksOf(st, st.cur) - 1, PriorityOf(st, st.cur));
    }
  }

  lemma SetTwice(m: map<Tid, nat>, t: Tid, a: nat, b: nat)
    ensures m[t := a][t := b] == m[t := b]
  {
  }

  lemma OneTick(st: State)
    requires Inv(st) && TicksOf(st, st.cur) > 1
    ensures Tick(st) == Some(st.(ticks := st.ticks[st.cur := TicksOf(st, st.cur) - 1])) && Inv(Tick(st).value)
  {
    TickKeeps(st);
  }

  lemma {:induction false} WithoutIsSplit(s: seq<Tid>, t: Tid, i: nat)
    requires i < |s| && s[i] == t && t !in s[..i]
    ensures Without(s, t) == s[..i] + s[i + 1..]
  {
    if i > 0 {
      assert s[..i][0] == s[0];
      assert s[1..][..i - 1] == s[..i][1..] && s[1..][i..] == s[i + 1..];
      WithoutIsSplit(s[1..], t, i - 1);
      assert s[..i] == [s[0]] + s[..i][1..];
    }
  }

  /** The end of the current thread: the head of the ready list runs, or idle. */
  lemma EndedLeavesTheCpu(st: State)
    requires Inv(st) && st.cur != st.idle
    ensures Exit(st, st.cur, true).Some?
    ensures var st1 := Exit(st, st.cur, true).value;
            && st.cur !in st1.ready && st.cur !in st1.all && st.cur !in st1.status
            && (st.ready != [] ==> [st1.cur] + st1.ready == st.ready) && (st.ready == [] ==> st1.cur == st.idle && st1.ready == [])
  {
    RemovedIsVacant(st, st.cur);
    WithoutKeeps(st.all, st.cur);
    WithoutAbsent(st.ready, st.cur);
    SwitchKeeps(Remove(st, st.cur));
  }

  /** A thread that is ended is nowhere any more; the others keep their order, their states and their ticks. */
  lemma EndedIsGone(st: State, t: Tid)
    requires Inv(st) && t != st.idle && t in st.status && t != st.cur
    ensures Exit(st, t, false).Some?
    ensures var st1 := Exit(st, t, false).value;
            && st1.cur == st.cur && t !in st1.ready && t !in st1.all && StatusOf(st1, t) == Died
            && (forall u | u != t :: StatusOf(st1, u) == StatusOf(st, u) && TicksOf(st1, u) == TicksOf(st, u)
                                     && PriorityOf(st1, u) == PriorityOf(st, u))
            && (forall i | 0 <= i < |st.ready| && st.ready[i] == t :: st1.ready == st.ready[..i] + st.ready[i + 1..])
  {
    RemoveKeeps(st, t);
    WithoutKeeps(st.ready, t);
    WithoutKeeps(st.all, t);
    forall i | 0 <= i < |st.ready| && st.ready[i] == t ensures Without(st.ready, t) == st.ready[..i] + st.ready[i + 1..] {
      WithoutIsSplit(st.ready, t, i);
    }
  }
}
