/** userprog/wait_exit.c and the process side of userprog/fork.c, as a state machine on top of the scheduler.
    A process is named by its pid; pids are reused once their process is gone. */
module WaitExit {
  import opened Wrappers
  import K = Threads
  import P = ProcTable

  type Tid = K.Tid

  /** The scheduler's state, and the process table without its life column: that one is read off the scheduler. */
  datatype World = World(k: K.State, procs: map<Tid, P.Proc>, next: nat,
                         exits: map<nat, int>, log: seq<P.Delivery>, adopted: set<nat>)

  function LifeOf(s: K.Status): P.Life {
    if s == K.Waiting then P.Waits else if s == K.Hanging then P.Hangs else P.Live
  }

  function Life(k: K.State): map<Tid, P.Life> {
    map t | t in k.status :: LifeOf(k.status[t])
  }

  function Table(w: World): P.Table {
    P.Table(w.k.idle, Life(w.k), w.procs, w.next, w.exits, w.log, w.adopted)
  }

  function Of(w: World, t: Tid): P.Proc {
    if t in w.procs then w.procs[t] else P.Proc(None, 0, P.User, 0)
  }

  // ---------------------------------------------------------------- the code

  predicate IsChild(w: World, c: Tid, p: Tid) {
    c in w.procs && w.procs[c].parent == Some(p)
  }

  predicate Hangs(w: World, t: Tid) {
    K.StatusOf(w.k, t) == K.Hanging
  }

  /** list_traversal with find_child or find_hanging_child. */
  function FindChild(w: World, list: seq<Tid>, p: Tid, hanging: bool): (r: Option<Tid>)
    ensures r.Some? ==> r.value in list && IsChild(w, r.value, p) && (hanging ==> Hangs(w, r.value))
    ensures r.None? ==> forall c | c in list && IsChild(w, c, p) :: hanging && !Hangs(w, c)
  {
    if list == [] then None
    else if IsChild(w, list[0], p) && (hanging ==> Hangs(w, list[0])) then Some(list[0])
    else FindChild(w, list[1..], p, hanging)
  }

  /** It is the first such child on the list. */
  lemma {:induction false} FindChildIsFirst(w: World, list: seq<Tid>, p: Tid, hanging: bool)
    ensures var r := FindChild(w, list, p, hanging);
            && (r == None <==> forall t | t in list && IsChild(w, t, p) :: hanging && !Hangs(w, t))
            && (r.Some? ==> exists k :: 0 <= k < |list| && list[k] == r.value && IsChild(w, r.value, p) && (hanging ==> Hangs(w, r.value))
                                        && forall j | 0 <= j < k && IsChild(w, list[j], p) :: hanging && !Hangs(w, list[j]))
  {
    hide IsChild, Hangs;
    if list == [] {
    } else if IsChild(w, list[0], p) && (hanging ==> Hangs(w, list[0])) {
      assert list[0] == FindChild(w, list, p, hanging).value;
    } else {
      FindChildIsFirst(w, list[1..], p, hanging);
      var r := FindChild(w, list[1..], p, hanging);
      if r.Some? {
        var k :| 0 <= k < |list[1..]| && list[1..][k] == r.value
                 && forall j | 0 <= j < k && IsChild(w, list[1..][j], p) :: hanging && !Hangs(w, list[1..][j]);
        assert list[k + 1] == r.value;
        forall j | 0 <= j < k + 1 && IsChild(w, list[j], p) ensures hanging && !Hangs(w, list[j]) {
          if j > 0 { assert list[1..][j - 1] == list[j]; }
        }
      }
    }
  }

  datatype Turn = Reaped(child: Tid) | NoChild | Sleeps

  /** What one turn of the loop of sys_wait decides. */
  function WaitTurn(w: World): Turn {
    var zombie := FindChild(w, w.k.all, w.k.cur, true);
    if zombie.Some? then Reaped(zombie.value)
    else if FindChild(w, w.k.all, w.k.cur, false).None? then NoChild
    else Sleeps
  }

  function SetMode(w: World, m: P.Mode): World {
    w.(procs := w.procs[w.k.cur := Of(w, w.k.cur).(mode := m)])
  }

  function Wait(w: World): Option<World> {
    var me := w.k.cur;
    match WaitTurn(w)
    case Reaped(c) =>
      var k :- K.Exit(w.k, c, false);
      var w1 := SetMode(w, P.User);
      Some(w1.(k := k, procs := w1.procs - {c}, log := w.log + [P.Delivery(Of(w, c).serial, c, me, Of(w, c).exitStatus)]))
    case NoChild => Some(SetMode(w, P.User))
    case Sleeps =>
      var k :- K.Block(w.k, K.Waiting);
      Some(SetMode(w, P.InWait).(k := k))
  }

  /** sys_exit up to release_prog_resource: the status is stored and init adopts the children. */
  function ExitBegins(w: World, status: int): Option<World> {
    var me := w.k.cur;
    if Of(w, me).parent.None? then None
    else
      var procs := map t | t in w.procs ::
        if t == me then w.procs[t].(exitStatus := P.ToInt8(status), mode := P.Exiting)
        else if w.procs[t].parent == Some(me) then w.procs[t].(parent := Some(P.INIT))
        else w.procs[t];
      var zombies := set t | t in w.procs && w.procs[t].parent == Some(me) && Hangs(w, t) :: w.procs[t].serial;
      Some(w.(procs := procs, adopted := w.adopted + zombies))
  }

  /** ... and after it: the parent is looked up afresh and woken if it waits. None: the parent is gone. */
  function ExitEnds(w: World): Option<World> {
    var me := w.k.cur;
    var parent :- Of(w, me).parent;
    if parent !in w.procs then None
    else
      var k :- if K.StatusOf(w.k, parent) == K.Waiting then K.Unblock(w.k, parent) else Some(w.k);
      var k1 :- K.Block(k, K.Hanging);
      Some(w.(k := k1, exits := w.exits[Of(w, me).serial := Of(w, me).exitStatus]))
  }

  /** sys_fork copies the PCB, exit_status and all; thread_start makes a process without a parent. */
  function Birth(w: World, t: Tid, prio: nat, parent: Option<Tid>, exitStatus: int): Option<World> {
    var k :- K.Start(w.k, t, prio);
    Some(w.(k := k, next := w.next + 1, procs := w.procs[t := P.Proc(parent, exitStatus, P.User, w.next)]))
  }

  // ---------------------------------------------------------------- the interleavings

  /** The teardown inside sys_exit may sleep, so other events can come between ExitStart and ExitEnd. */
  datatype Event = Tick | Yields | Parks | Wakes(t: Tid) | Spawns(new_: Tid, prio: nat) | Forks(child: Tid)
    | ExitStart(status: int) | ExitEnd | WaitStep

  predicate Enabled(w: World, e: Event) {
    var me := w.k.cur;
    var mode := Of(w, me).mode;
    match e
    case Tick => true
    case Yields => mode.User?
    case Parks => mode.User? || mode.Exiting?
    case Wakes(t) => K.StatusOf(w.k, t) == K.Blocked
    case Spawns(t, prio) => mode.User? && t !in w.k.status && prio >= 1
    case Forks(t) => mode.User? && me != w.k.idle && t !in w.k.status
    case ExitStart(_) => mode.User? && Of(w, me).parent.Some?
    case ExitEnd => mode.Exiting?
    case WaitStep => !mode.Exiting? && me != w.k.idle
  }

  function WithK(w: World, k: Option<K.State>): Option<World> {
    if k.None? then None else Some(w.(k := k.value))
  }

  function Next(w: World, e: Event): Option<World> {
    match e
    case Tick => WithK(w, K.Tick(w.k))
    case Yields => WithK(w, K.Yield(w.k))
    case Parks => WithK(w, K.Block(w.k, K.Blocked))
    case Wakes(t) => WithK(w, K.Unblock(w.k, t))
    case Spawns(t, prio) => Birth(w, t, prio, None, 0)
    case Forks(t) => Birth(w, t, K.PriorityOf(w.k, w.k.cur), Some(w.k.cur), Of(w, w.k.cur).exitStatus)
    case ExitStart(s) => ExitBegins(w, s)
    case ExitEnd => ExitEnds(w)
    case WaitStep => Wait(w)
  }

  ghost predicate Inv(w: World) {
    K.Inv(w.k) && P.Inv(Table(w))
  }

  // ---------------------------------------------------------------- the life column

  lemma LifeIs(k: K.State, t: Tid)
    requires K.Linked(k)
    ensures t in Life(k) <==> K.StatusOf(k, t) != K.Died
    ensures t in Life(k) ==> Life(k)[t] == LifeOf(K.StatusOf(k, t))
  {
  }

  /** Two scheduler states that agree on who waits, hangs and lives have the same life column. */
  lemma SameLife(k: K.State, k1: K.State)
    requires K.Linked(k) && K.Linked(k1)
    requires forall t: Tid :: LifeOf(K.StatusOf(k1, t)) == LifeOf(K.StatusOf(k, t)) && (t in k1.status <==> t in k.status)
    ensures Life(k1) == Life(k)
  {
  }

  lemma LiveIsNotDied(k: K.State)
    requires K.Linked(k)
    ensures forall t: Tid :: t in k.status <==> K.StatusOf(k, t) != K.Died
  {
  }

  lemma SameForIsSameLife(k: K.State, k1: K.State)
    requires K.Inv(k) && K.Inv(k1) && forall t: Tid :: K.SameFor(k, k1, t)
    ensures Life(k1) == Life(k)
  {
    LiveIsNotDied(k);
    LiveIsNotDied(k1);
    forall t: Tid ensures LifeOf(K.StatusOf(k1, t)) == LifeOf(K.StatusOf(k, t)) && (t in k1.status <==> t in k.status) {
      assert K.SameFor(k, k1, t);
    }
    SameLife(k, k1);
  }

  /** thread_block changes the life of the thread that calls it, and of nobody else. */
  lemma BlockLife(k: K.State, how: K.Status)
    requires K.Inv(k) && K.Asleep(how) && (k.cur == k.idle ==> how == K.Blocked)
    ensures K.Block(k, how).Some? && K.Inv(K.Block(k, how).value) && K.Block(k, how).value.idle == k.idle
    ensures Life(K.Block(k, how).value) == Life(k)[k.cur := LifeOf(how)]
  {
    K.BlockEffect(k, how);
    BlockedLife(k, K.Block(k, how).value, how);
  }

  lemma BlockedLife(k: K.State, k1: K.State, how: K.Status)
    requires K.Linked(k) && K.Linked(k1) && k.cur in k.status && k.idle in k.status && K.Asleep(how) && (k.cur == k.idle ==> how == K.Blocked)
    requires K.IdleCanWake(k) && K.IdleCanWake(k1) && k1.idle == k.idle
    requires forall t: Tid | t != k.cur && t != k.idle :: K.SameFor(k, k1, t)
    requires k.cur != k.idle ==> K.StatusOf(k1, k.cur) == how
    ensures Life(k1) == Life(k)[k.cur := LifeOf(how)]
  {
    forall t: Tid
      ensures t in Life(k1) <==> t in Life(k)
      ensures t in Life(k1) ==> Life(k1)[t] == if t == k.cur then LifeOf(how) else Life(k)[t]
    {
      LifeIs(k, t);
      LifeIs(k1, t);
      if t != k.cur && t != k.idle { assert K.SameFor(k, k1, t); }
    }
  }

  lemma UnblockLife(k: K.State, t: Tid)
    requires K.Inv(k) && K.Asleep(K.StatusOf(k, t))
    ensures K.Unblock(k, t).Some? && K.Inv(K.Unblock(k, t).value)
    ensures K.Unblock(k, t).value.idle == k.idle && K.Unblock(k, t).value.cur == k.cur
    ensures Life(K.Unblock(k, t).value) == Life(k)[t := P.Live]
  {
    K.UnblockKeeps(k, t);
  }

  lemma StartLife(k: K.State, t: Tid, prio: nat)
    requires K.Inv(k) && t !in k.status && prio >= 1
    ensures K.Start(k, t, prio).Some? && K.Inv(K.Start(k, t, prio).value) && K.Start(k, t, prio).value.idle == k.idle
    ensures Life(K.Start(k, t, prio).value) == Life(k)[t := P.Live]
  {
    K.StartKeeps(k, t, prio);
  }

  lemma ExitLife(k: K.State, t: Tid)
    requires K.Inv(k) && t != k.idle && t in k.status && t != k.cur
    ensures K.Exit(k, t, false).Some? && K.Inv(K.Exit(k, t, false).value) && K.Exit(k, t, false).value.idle == k.idle
    ensures Life(K.Exit(k, t, false).value) == Life(k) - {t}
  {
    K.ExitKeeps(k, t, false);
  }

  // ---------------------------------------------------------------- every event is a change of the table

  lemma Runner(w: World)
    requires K.Inv(w.k)
    ensures P.Is(Table(w), w.k.cur, P.Live)
  {
  }

  lemma TickLife(k: K.State)
    requires K.Inv(k)
    ensures K.Tick(k).Some? && K.Inv(K.Tick(k).value) && K.Tick(k).value.idle == k.idle && Life(K.Tick(k).value) == Life(k)
  {
    K.TickEffect(k);
    SameForIsSameLife(k, K.Tick(k).value);
  }

  lemma YieldLife(k: K.State)
    requires K.Inv(k)
    ensures K.Yield(k).Some? && K.Inv(K.Yield(k).value) && K.Yield(k).value.idle == k.idle && Life(K.Yield(k).value) == Life(k)
  {
    K.YieldEffect(k);
    SameForIsSameLife(k, K.Yield(k).value);
  }

  /** Between BLOCKED and ready nothing changes in the table. */
  lemma StillLive(k: K.State, t: Tid)
    requires K.Linked(k) && (K.StatusOf(k, t) == K.Running || K.StatusOf(k, t) == K.Blocked)
    ensures Life(k)[t := P.Live] == Life(k)
  {
    LifeIs(k, t);
  }

  lemma SchedulingKeeps(w: World, e: Event)
    requires Inv(w) && Enabled(w, e) && (e.Tick? || e.Yields? || e.Parks? || e.Wakes?)
    ensures Next(w, e).Some? && K.Inv(Next(w, e).value.k) && Table(Next(w, e).value) == Table(w)
  {
    hide P.Inv;
    match e
    case Tick => TickLife(w.k);
    case Yields => YieldLife(w.k);
    case Parks => BlockLife(w.k, K.Blocked); StillLive(w.k, w.k.cur);
    case Wakes(t) => UnblockLife(w.k, t); StillLive(w.k, t);
  }

  lemma BirthTable(w: World, t: Tid, prio: nat, parent: Option<Tid>, exitStatus: int)
    requires K.Inv(w.k) && t !in w.k.status && prio >= 1
    ensures Birth(w, t, prio, parent, exitStatus).Some? && K.Inv(Birth(w, t, prio, parent, exitStatus).value.k)
    ensures Table(Birth(w, t, prio, parent, exitStatus).value) == P.Born(Table(w), t, parent, exitStatus)
  {
    StartLife(w.k, t, prio);
  }

  lemma BirthKeeps(w: World, t: Tid, prio: nat, parent: Option<Tid>, exitStatus: int)
    requires Inv(w) && t !in w.k.status && prio >= 1
    requires parent.Some? ==> parent.value == w.k.cur && w.k.cur != w.k.idle && Of(w, w.k.cur).mode.User?
    ensures Birth(w, t, prio, parent, exitStatus).Some? && Inv(Birth(w, t, prio, parent, exitStatus).value)
  {
    BirthTable(w, t, prio, parent, exitStatus);
    Runner(w);
    P.BornKeeps(Table(w), t, parent, exitStatus);
  }

  lemma ExitBeginsKeeps(w: World, status: int)
    requires Inv(w) && Enabled(w, ExitStart(status))
    ensures ExitBegins(w, status).Some? && Inv(ExitBegins(w, status).value)
    ensures Table(ExitBegins(w, status).value) == P.Leaving(Table(w), w.k.cur, status)
  {
    hide P.Inv;
    Runner(w);
    var w1 := ExitBegins(w, status).value;
    assert (set t | t in w.procs && w.procs[t].parent == Some(w.k.cur) && Hangs(w, t) :: w.procs[t].serial)
        == (set t | t in w.procs && w.procs[t].parent == Some(w.k.cur) && P.Is(Table(w), t, P.Hangs) :: w.procs[t].serial) by {
      assert forall t: Tid :: Hangs(w, t) == P.Is(Table(w), t, P.Hangs);
    }
    assert Table(w1) == P.Leaving(Table(w), w.k.cur, status);
    P.LeavingKeeps(Table(w), w.k.cur, status);
  }

  lemma ExitEndsTable(w: World, parent: Tid)
    requires K.Inv(w.k) && Of(w, w.k.cur).parent == Some(parent) && parent in w.procs && w.k.cur != w.k.idle
    ensures ExitEnds(w).Some? && K.Inv(ExitEnds(w).value.k)
    ensures Table(ExitEnds(w).value) == P.Hung(Table(w), w.k.cur, parent)
  {
    LifeIs(w.k, parent);
    var k := w.k;
    if K.StatusOf(w.k, parent) == K.Waiting {
      UnblockLife(w.k, parent);
      k := K.Unblock(w.k, parent).value;
    }
    BlockLife(k, K.Hanging);
  }

  lemma ExitEndsKeeps(w: World)
    requires Inv(w) && Enabled(w, ExitEnd)
    ensures ExitEnds(w).Some? && Inv(ExitEnds(w).value)
  {
    var me := w.k.cur;
    Runner(w);
    assert Of(w, me).parent.Some? && Of(w, me).parent.value in w.procs by { assert P.ThreadOk(Table(w), me); }
    var parent := Of(w, me).parent.value;
    P.HungKeeps(Table(w), me, parent);
    ExitEndsTable(w, parent);
  }

  /** The answer of sys_wait: -1 exactly when there is no child, and a child only if it hangs; asleep only over live children. */
  lemma WaitTurnIsExact(w: World)
    requires Inv(w)
    ensures WaitTurn(w).NoChild? <==> forall c: Tid :: !IsChild(w, c, w.k.cur)
    ensures WaitTurn(w).Reaped? <==> exists c: Tid :: IsChild(w, c, w.k.cur) && Hangs(w, c)
    ensures WaitTurn(w).Reaped? ==> IsChild(w, WaitTurn(w).child, w.k.cur) && Hangs(w, WaitTurn(w).child)
  {
    assert forall c: Tid | IsChild(w, c, w.k.cur) :: c in w.k.all by {
      assert w.procs.Keys == Life(w.k).Keys;
    }
  }

  lemma ModeKeeps(w: World, m: P.Mode)
    requires Inv(w) && Enabled(w, WaitStep) && !m.Exiting?
    ensures Inv(SetMode(w, m)) && Table(SetMode(w, m)) == P.SetMode(Table(w), w.k.cur, m)
  {
    Runner(w);
    P.ModeKeeps(Table(w), w.k.cur, m);
  }

  lemma SleepKeeps(w: World)
    requires Inv(w) && Enabled(w, WaitStep) && WaitTurn(w).Sleeps?
    ensures K.Block(w.k, K.Waiting).Some? && Inv(SetMode(w, P.InWait).(k := K.Block(w.k, K.Waiting).value))
  {
    Runner(w);
    ModeKeeps(w, P.InWait);
    NobodyHangs(w);
    NoZombies(w);
    P.AsleepKeeps(P.SetMode(Table(w), w.k.cur, P.InWait), w.k.cur);
    SleepTable(w);
  }

  lemma SleepTable(w: World)
    requires K.Inv(w.k) && w.k.cur != w.k.idle
    ensures K.Block(w.k, K.Waiting).Some? && K.Inv(K.Block(w.k, K.Waiting).value)
    ensures Table(SetMode(w, P.InWait).(k := K.Block(w.k, K.Waiting).value)) == P.Asleep(P.SetMode(Table(w), w.k.cur, P.InWait), w.k.cur)
  {
    BlockLife(w.k, K.Waiting);
  }

  lemma NobodyHangs(w: World)
    requires Inv(w) && !WaitTurn(w).Reaped?
    ensures forall c: Tid :: !(IsChild(w, c, w.k.cur) && Hangs(w, c))
  {
    WaitTurnIsExact(w);
  }

  lemma WaitKeeps(w: World)
    requires Inv(w) && Enabled(w, WaitStep)
    ensures Wait(w).Some? && Inv(Wait(w).value)
  {
    hide Inv, WaitTurn;
    match WaitTurn(w)
    case Reaped(c) => WaitTurnIsExact(w); ModeKeeps(w, P.User); ReapKeeps(w, c);
    case NoChild => ModeKeeps(w, P.User);
    case Sleeps => SleepKeeps(w);
  }

  lemma NoZombies(w: World)
    requires forall c: Tid :: !(IsChild(w, c, w.k.cur) && Hangs(w, c))
    ensures forall c: Tid :: !P.ZombieOf(P.SetMode(Table(w), w.k.cur, P.InWait), c, w.k.cur)
  {
    forall c: Tid ensures !P.ZombieOf(P.SetMode(Table(w), w.k.cur, P.InWait), c, w.k.cur) {
      assert !(IsChild(w, c, w.k.cur) && Hangs(w, c));
    }
  }

  lemma ReapKeeps(w: World, c: Tid)
    requires Inv(w) && IsChild(w, c, w.k.cur) && Hangs(w, c) && Inv(SetMode(w, P.User))
    ensures K.Exit(w.k, c, false).Some?
    ensures var w1 := SetMode(w, P.User);
            var w2 := w1.(k := K.Exit(w.k, c, false).value, procs := w1.procs - {c},
                          log := w.log + [P.Delivery(Of(w, c).serial, c, w.k.cur, Of(w, c).exitStatus)]);
            Inv(w2) && Table(w2) == P.Reaped(P.SetMode(Table(w), w.k.cur, P.User), w.k.cur, c)
  {
    assert P.ThreadOk(Table(w), c);
    assert c != w.k.idle && c != w.k.cur;
    ExitLife(w.k, c);
    var p := P.SetMode(Table(w), w.k.cur, P.User);
    assert P.IsChild(p, c, w.k.cur) && P.Is(p, c, P.Hangs);
    P.ReapedKeeps(p, w.k.cur, c);
  }

  // ---------------------------------------------------------------- every run

  lemma EventKeeps(w: World, e: Event)
    requires Inv(w) && Enabled(w, e)
    ensures Next(w, e).Some? && Inv(Next(w, e).value)
  {
    match e
    case Tick => SchedulingKeeps(w, e);
    case Yields => SchedulingKeeps(w, e);
    case Parks => SchedulingKeeps(w, e);
    case Wakes(t) => SchedulingKeeps(w, e);
    case Spawns(t, prio) => BirthKeeps(w, t, prio, None, 0);
    case Forks(t) => BirthKeeps(w, t, K.PriorityOf(w.k, w.k.cur), Some(w.k.cur), Of(w, w.k.cur).exitStatus);
    case ExitStart(s) => ExitBeginsKeeps(w, s);
    case ExitEnd => ExitEndsKeeps(w);
    case WaitStep => WaitKeeps(w);
  }

  ghost predicate LegalRun(w: World, es: seq<Event>)
    decreases es
  {
    es == [] || (Enabled(w, es[0]) && (Next(w, es[0]).Some? ==> LegalRun(Next(w, es[0]).value, es[1..])))
  }

  function Run(w: World, es: seq<Event>): Option<World>
    decreases es
  {
    if es == [] then Some(w) else if Next(w, es[0]).None? then None else Run(Next(w, es[0]).value, es[1..])
  }

  lemma {:induction false} RunKeeps(w: World, es: seq<Event>)
    requires Inv(w) && LegalRun(w, es)
    ensures Run(w, es).Some? && Inv(Run(w, es).value)
    decreases |es|
  {
    hide Inv;
    if es != [] {
      EventKeeps(w, es[0]);
      RunKeeps(Next(w, es[0]).value, es[1..]);
    }
  }

  lemma TableKeys(z: World)
    requires Inv(z)
    ensures Life(z.k).Keys == z.procs.Keys
  {
  }

  lemma ParentsAndWaiters(z: World)
    requires Inv(z)
    ensures forall c, p: Tid | IsChild(z, c, p) :: p in z.k.status && !Hangs(z, p)
    ensures forall c, p: Tid | IsChild(z, c, p) && Hangs(z, c) && K.StatusOf(z.k, p) == K.Waiting ::
              p == P.INIT && Of(z, c).serial in z.adopted
  {
    hide P.Inv, K.Inv;
    TableKeys(z);
    P.InvMeans(Table(z));
    forall c, p: Tid | IsChild(z, c, p) ensures p in z.k.status && !Hangs(z, p) {
      assert P.IsChild(Table(z), c, p);
    }
    forall c, p: Tid | IsChild(z, c, p) && Hangs(z, c) && K.StatusOf(z.k, p) == K.Waiting
      ensures p == P.INIT && Of(z, c).serial in z.adopted
    {
      assert P.ZombieOf(Table(z), c, p) && P.Is(Table(z), p, P.Waits);
    }
  }

  lemma ExitsAndDeliveries(z: World)
    requires Inv(z)
    ensures forall i, j | 0 <= i < j < |z.log| :: z.log[i].serial != z.log[j].serial
    ensures forall i | 0 <= i < |z.log| :: z.log[i].serial in z.exits && z.log[i].status == z.exits[z.log[i].serial]
    ensures forall s | s in z.exits :: P.Logged(z.log, s) <==> forall t :: !P.Holds(Table(z), t, s)
  {
    P.InvMeans(Table(z));
    hide P.Inv, K.Inv, P.Holds, P.Logged;
  }

  lemma InvParts(z: World)
    requires Inv(z)
    ensures K.Inv(z.k) && K.Core(z.k) && z.k.cur in z.procs && z.k.cur in z.k.status && K.StatusOf(z.k, z.k.cur) == K.Running
    ensures z.k.cur in z.k.priority && K.PriorityOf(z.k, z.k.cur) >= 1
    ensures Of(z, z.k.cur).parent != Some(z.k.cur)
  {
    TableKeys(z);
    assert P.ThreadOk(Table(z), z.k.cur);
    hide P.Inv;
  }

  lemma AllAreListed(z: World)
    requires Inv(z)
    ensures forall t | t in z.procs :: t in z.k.all
  {
    TableKeys(z);
    hide P.Inv;
  }

  /** What sys_exit knows when it looks up the parent. */
  lemma ExitFacts(z: World)
    requires Inv(z) && Of(z, z.k.cur).mode.Exiting?
    ensures z.k.cur in z.procs && z.k.cur != z.k.idle
    ensures z.procs[z.k.cur].parent.Some? && z.procs[z.k.cur].parent.value in z.k.status && z.procs[z.k.cur].parent.value in z.procs
    ensures z.procs[z.k.cur].parent.value != z.k.cur
  {
    TableKeys(z);
    assert P.ThreadOk(Table(z), z.k.cur);
  }

  lemma ZombieIsNobodyElse(z: World, c: Tid)
    requires Inv(z) && IsChild(z, c, z.k.cur) && Hangs(z, c)
    ensures c != z.k.idle && c != z.k.cur && c in z.k.status
  {
    assert P.ThreadOk(Table(z), c);
  }

  /** After any run: a parent is live and does not hang; nobody but init sleeps in sys_wait over a hanging child, and
      init only over one that hung before init adopted it; and each exit is either still held by its process or
      was delivered, once, with the status it had. */
  lemma WaitExitProtocol(w: World, es: seq<Event>)
    requires Inv(w) && LegalRun(w, es)
    ensures Run(w, es).Some?
    ensures var z := Run(w, es).value;
            && (forall c, p: Tid | IsChild(z, c, p) :: p in z.k.status && !Hangs(z, p))
            && (forall c, p: Tid | IsChild(z, c, p) && Hangs(z, c) && K.StatusOf(z.k, p) == K.Waiting ::
                  p == P.INIT && Of(z, c).serial in z.adopted)
            && (forall i, j | 0 <= i < j < |z.log| :: z.log[i].serial != z.log[j].serial)
            && (forall i | 0 <= i < |z.log| :: z.log[i].serial in z.exits && z.log[i].status == z.exits[z.log[i].serial])
            && (forall s | s in z.exits :: P.Logged(z.log, s) <==> forall t :: !P.Holds(Table(z), t, s))
  {
    hide Inv, P.Holds, P.Logged, IsChild, Hangs;
    RunKeeps(w, es);
    ParentsAndWaiters(Run(w, es).value);
    ExitsAndDeliveries(Run(w, es).value);
  }

  /** Only sys_wait delivers, one exit at a time, and to the process that is the child's parent at that moment. */
  lemma DeliveredToTheParent(w: World, e: Event)
    requires Inv(w) && Enabled(w, e)
    ensures Next(w, e).Some?
    ensures var z := Next(w, e).value;
            z.log == w.log
            || (e.WaitStep? && |z.log| == |w.log| + 1 && z.log[..|w.log|] == w.log
                && var d := z.log[|w.log|];
                   d.receiver == w.k.cur && IsChild(w, d.child, w.k.cur) && Hangs(w, d.child)
                   && d.serial == Of(w, d.child).serial && d.serial in w.exits && d.status == w.exits[d.serial]
                   && d.child !in z.k.status)
  {
    hide Inv, WaitTurn, K.Tick, K.Yield, K.Block, K.Unblock, K.Start, K.Exit, ExitBegins;
    EventKeeps(w, e);
    if e.ExitStart? { ExitBeginsLogsNothing(w, e); }
    if e.WaitStep? && WaitTurn(w).Reaped? {
      WaitTurnIsExact(w);
      ZombieFacts(w, WaitTurn(w).child);
    }
  }

  lemma ExitBeginsLogsNothing(w: World, e: Event)
    requires e.ExitStart? && ExitBegins(w, e.status).Some?
    ensures ExitBegins(w, e.status).value.log == w.log
  {
  }

  lemma ZombieFacts(w: World, c: Tid)
    requires Inv(w) && IsChild(w, c, w.k.cur) && Hangs(w, c)
    ensures Of(w, c).serial in w.exits && w.exits[Of(w, c).serial] == Of(w, c).exitStatus
    ensures K.Exit(w.k, c, false).Some? && c !in K.Exit(w.k, c, false).value.status
  {
    assert P.ThreadOk(Table(w), c) && P.Is(Table(w), c, P.Hangs);
  }

  /** After thread_init: init, main and idle, without parents. */
  function Boot(main: Tid, idle: Tid): World {
    World(K.Initial(main, P.INIT, idle),
          map[P.INIT := P.Proc(None, 0, P.User, 0), main := P.Proc(None, 0, P.User, 1), idle := P.Proc(None, 0, P.User, 2)],
          3, map[], [], {})
  }

  lemma BootThreads(main: Tid, idle: Tid, t: Tid)
    requires main != P.INIT && idle != P.INIT && main != idle
    ensures P.ThreadOk(Table(Boot(main, idle)), t)
  {
    hide K.Inv;
  }

  lemma BootTable(main: Tid, idle: Tid)
    requires main != P.INIT && idle != P.INIT && main != idle
    ensures var p := Table(Boot(main, idle)); P.Rooted(p) && P.SerialsOk(p.procs, p.next) && P.LogOk(p.log, p.procs, p.next, p.exits) && P.ExitsOk(p)
  {
    hide K.Inv, P.ThreadOk;
  }

  lemma BootInv(main: Tid, idle: Tid)
    requires main != P.INIT && idle != P.INIT && main != idle
    ensures Inv(Boot(main, idle))
  {
    hide K.Inv, P.ThreadOk, P.Rooted, P.SerialsOk, P.LogOk, P.ExitsOk;
    K.InitialInv(main, P.INIT, idle);
    BootTable(main, idle);
    forall t: Tid ensures P.ThreadOk(Table(Boot(main, idle)), t) {
      BootThreads(main, idle, t);
    }
  }

  // ---------------------------------------------------------------- the status a parent gets

  ghost predicate Asked(w: World, asked: map<nat, int>) {
    P.Asked(w.procs, w.next, w.exits, asked)
  }

  function Caller(w: World): nat {
    Of(w, w.k.cur).serial
  }

  /** The arguments of sys_exit in a run, read off the events. */
  ghost function Arguments(w: World, es: seq<Event>, asked: map<nat, int>): map<nat, int>
    decreases es
  {
    if es == [] then asked
    else
      var now := if es[0].ExitStart? then asked[Caller(w) := es[0].status] else asked;
      if Next(w, es[0]).None? then now else Arguments(Next(w, es[0]).value, es[1..], now)
  }

  lemma SerialsInv(w: World)
    requires Inv(w)
    ensures P.SerialsOk(w.procs, w.next)
  {
    hide K.Inv, P.ThreadOk;
  }

  lemma ExitStartAsks(w: World, n: int, asked: map<nat, int>)
    requires Inv(w) && Enabled(w, ExitStart(n)) && Asked(w, asked) && ExitBegins(w, n).Some?
    ensures Caller(w) !in asked && Asked(ExitBegins(w, n).value, asked[Caller(w) := n])
  {
    hide Inv, K.Inv, K.Core, P.Asked, P.SerialsOk, P.ToInt8;
    InvParts(w);
    SerialsInv(w);
    P.LeavingAsks(w.procs, ExitBegins(w, n).value.procs, w.next, w.exits, asked, w.k.cur, n);
  }

  lemma ExitEndAsks(w: World, asked: map<nat, int>)
    requires Inv(w) && Enabled(w, ExitEnd) && Asked(w, asked) && ExitEnds(w).Some?
    ensures Asked(ExitEnds(w).value, asked)
  {
    hide Inv, P.Asked, K.Block, K.Unblock;
    ExitFacts(w);
    P.HungAsks(w.procs, w.next, w.exits, asked, w.k.cur);
  }

  lemma WaitAsks(w: World, asked: map<nat, int>)
    requires Inv(w) && Enabled(w, WaitStep) && Asked(w, asked) && Wait(w).Some?
    ensures Asked(Wait(w).value, asked)
  {
    hide Inv, K.Inv, K.Core, P.Asked, K.Block, K.Exit, WaitTurn;
    InvParts(w);
    var me := w.k.cur;
    P.ModeAsks(w.procs, w.next, w.exits, asked, me, P.User);
    P.ModeAsks(w.procs, w.next, w.exits, asked, me, P.InWait);
    if WaitTurn(w).Reaped? {
      P.ReapedAsks(w.procs[me := w.procs[me].(mode := P.User)], w.next, w.exits, asked, WaitTurn(w).child);
    }
  }

  lemma BirthAsks(w: World, t: Tid, prio: nat, parent: Option<Tid>, status: int, asked: map<nat, int>)
    requires Asked(w, asked) && Birth(w, t, prio, parent, status).Some?
    ensures Asked(Birth(w, t, prio, parent, status).value, asked)
  {
    hide P.Asked, K.Start;
    P.BornAsks(w.procs, w.next, w.exits, asked, t, parent, status);
  }

  lemma EventAsks(w: World, e: Event, asked: map<nat, int>)
    requires Inv(w) && Enabled(w, e) && Asked(w, asked)
    ensures Next(w, e).Some?
    ensures e.ExitStart? ==> Caller(w) !in asked
    ensures Asked(Next(w, e).value, if e.ExitStart? then asked[Caller(w) := e.status] else asked)
  {
    hide Inv, Enabled, P.Asked, K.Tick, K.Yield, K.Block, K.Unblock, ExitBegins, ExitEnds, Wait, Birth;
    EventKeeps(w, e);
    match e
    case ExitStart(n) => ExitStartAsks(w, n, asked);
    case ExitEnd => ExitEndAsks(w, asked);
    case WaitStep => WaitAsks(w, asked);
    case Spawns(t, prio) => BirthAsks(w, t, prio, None, 0, asked);
    case Forks(t) => BirthAsks(w, t, K.PriorityOf(w.k, w.k.cur), Some(w.k.cur), Of(w, w.k.cur).exitStatus, asked);
    case _ =>
  }

  /** Over any run nobody calls sys_exit twice, so that no argument is ever replaced, and every status recorded is the
      argument of its process in eight bits. */
  lemma {:induction false} RunAsks(w: World, es: seq<Event>, asked: map<nat, int>)
    requires Inv(w) && LegalRun(w, es) && Asked(w, asked)
    ensures Run(w, es).Some? && Inv(Run(w, es).value) && Asked(Run(w, es).value, Arguments(w, es, asked))
    ensures forall s | s in asked :: s in Arguments(w, es, asked) && Arguments(w, es, asked)[s] == asked[s]
    decreases |es|
  {
    hide Inv, Asked, Next, Enabled;
    if es != [] {
      EventKeeps(w, es[0]);
      EventAsks(w, es[0], asked);
      RunAsks(Next(w, es[0]).value, es[1..], if es[0].ExitStart? then asked[Caller(w) := es[0].status] else asked);
    }
  }

  lemma DeliveredStatus(z: World, asked: map<nat, int>, d: P.Delivery)
    requires Inv(z) && Asked(z, asked) && d in z.log
    ensures d.serial in asked && -128 <= d.status <= 127 && (asked[d.serial] - d.status) % 256 == 0
  {
    hide Inv, P.Holds, P.Logged;
    ExitsAndDeliveries(z);
  }

  lemma BootAsks(main: Tid, idle: Tid)
    ensures Asked(Boot(main, idle), map[])
  {
  }

  /** From the start on: whatever sys_wait delivers is the argument with which that very process called sys_exit in the
      run, in eight bits. */
  lemma DeliveredIsTheArgument(main: Tid, idle: Tid, es: seq<Event>)
    requires main != P.INIT && idle != P.INIT && main != idle && LegalRun(Boot(main, idle), es)
    ensures Run(Boot(main, idle), es).Some?
    ensures var z, asked := Run(Boot(main, idle), es).value, Arguments(Boot(main, idle), es, map[]);
            forall d | d in z.log :: d.serial in asked && -128 <= d.status <= 127 && (asked[d.serial] - d.status) % 256 == 0
  {
    hide Inv, Boot, Asked, LegalRun, Run;
    BootInv(main, idle);
    BootAsks(main, idle);
    RunAsks(Boot(main, idle), es, map[]);
    var z, asked := Run(Boot(main, idle), es).value, Arguments(Boot(main, idle), es, map[]);
    forall d | d in z.log ensures d.serial in asked && -128 <= d.status <= 127 && (asked[d.serial] - d.status) % 256 == 0 {
      DeliveredStatus(z, asked, d);
    }
  }

  /** A process that calls sys_exit(n) is, whatever happens then, delivered with n in eight bits. */
  lemma ExitedWith(w: World, n: int, es: seq<Event>, asked: map<nat, int>)
    requires Inv(w) && Asked(w, asked) && LegalRun(w, [ExitStart(n)] + es)
    ensures Run(w, [ExitStart(n)] + es).Some?
    ensures forall d | d in Run(w, [ExitStart(n)] + es).value.log && d.serial == Caller(w) ::
              -128 <= d.status <= 127 && (n - d.status) % 256 == 0 && (-128 <= n <= 127 ==> d.status == n)
  {
    hide Inv, Asked, Enabled, Next;
    var all := [ExitStart(n)] + es;
    assert all[0] == ExitStart(n) && all[1..] == es;
    RunAsks(w, all, asked);
    CallerAsked(w, n, es, asked);
    var z := Run(w, all).value;
    forall d | d in z.log && d.serial == Caller(w)
      ensures -128 <= d.status <= 127 && (n - d.status) % 256 == 0 && (-128 <= n <= 127 ==> d.status == n)
    {
      DeliveredStatus(z, Arguments(w, all, asked), d);
    }
  }

  lemma CallerAsked(w: World, n: int, es: seq<Event>, asked: map<nat, int>)
    requires Inv(w) && Asked(w, asked) && LegalRun(w, [ExitStart(n)] + es)
    ensures var m := Arguments(w, [ExitStart(n)] + es, asked); Caller(w) in m && m[Caller(w)] == n
  {
    hide Inv, Asked, Enabled, Next;
    var all := [ExitStart(n)] + es;
    assert all[0] == ExitStart(n) && all[1..] == es;
    EventKeeps(w, ExitStart(n));
    EventAsks(w, ExitStart(n), asked);
    RunAsks(Next(w, ExitStart(n)).value, es, asked[Caller(w) := n]);
  }

  /** A waiting parent is the next to run. */
  lemma ParentRunsNext(w: World)
    requires Inv(w) && Enabled(w, ExitEnd)
    ensures ExitEnds(w).Some? && Of(w, w.k.cur).parent.Some?
    ensures var z, me, parent := ExitEnds(w).value, w.k.cur, Of(w, w.k.cur).parent.value;
            && K.StatusOf(z.k, me) == K.Hanging && z.procs == w.procs
            && z.exits == w.exits[Caller(w) := Of(w, me).exitStatus]
            && (K.StatusOf(w.k, parent) == K.Waiting ==> z.k.cur == parent)
  {
    hide Inv, K.Inv, K.Core, K.Block, K.Unblock;
    ExitEndsKeeps(w);
    ExitFacts(w);
    InvParts(w);
    var parent := w.procs[w.k.cur].parent.value;
    HangsAfterWaking(w.k, parent);
  }

  lemma HangsAfterWaking(k: K.State, parent: Tid)
    requires K.Inv(k) && k.cur != k.idle && parent != k.cur
    ensures var k0 := if K.StatusOf(k, parent) == K.Waiting then K.Unblock(k, parent) else Some(k);
            && k0.Some? && K.Block(k0.value, K.Hanging).Some?
            && var k1 := K.Block(k0.value, K.Hanging).value;
               K.StatusOf(k1, k.cur) == K.Hanging && (K.StatusOf(k, parent) == K.Waiting ==> k1.cur == parent)
  {
    hide K.Inv, K.Block, K.Unblock;
    if K.StatusOf(k, parent) == K.Waiting {
      K.WokenRunsNext(k, parent, K.Blocks(K.Hanging));
      UnblockLife(k, parent);
      K.BlockLeavesTheCpu(K.Unblock(k, parent).value, K.Hanging);
    } else {
      K.BlockLeavesTheCpu(k, K.Hanging);
    }
  }

  // ---------------------------------------------------------------- when init sleeps over a hanging child

  ghost predicate InitSleepsOverZombie(w: World) {
    K.StatusOf(w.k, P.INIT) == K.Waiting && exists c: Tid :: IsChild(w, c, P.INIT) && Hangs(w, c)
  }

  /** What sys_exit could see before it gives its children to init: init is TASK_WAITING, and one of them is TASK_HANGING. */
  ghost predicate LeavesZombie(w: World) {
    K.StatusOf(w.k, P.INIT) == K.Waiting && exists c: Tid :: IsChild(w, c, w.k.cur) && Hangs(w, c)
  }

  lemma SleepIsInTable(w: World)
    ensures InitSleepsOverZombie(w) <==> P.InitSleepsOverZombie(Table(w))
    ensures LeavesZombie(w) <==> P.Is(Table(w), P.INIT, P.Waits) && exists c: Tid :: P.ZombieOf(Table(w), c, w.k.cur)
  {
    forall c, p: Tid ensures P.ZombieOf(Table(w), c, p) <==> IsChild(w, c, p) && Hangs(w, c) {
    }
    if P.InitSleepsOverZombie(Table(w)) {
      var c: Tid :| P.ZombieOf(Table(w), c, P.INIT);
      assert IsChild(w, c, P.INIT) && Hangs(w, c);
    }
    if InitSleepsOverZombie(w) {
      var c: Tid :| IsChild(w, c, P.INIT) && Hangs(w, c);
      assert P.ZombieOf(Table(w), c, P.INIT);
    }
    if LeavesZombie(w) {
      var c: Tid :| IsChild(w, c, w.k.cur) && Hangs(w, c);
      assert P.ZombieOf(Table(w), c, w.k.cur);
    }
    if P.Is(Table(w), P.INIT, P.Waits) {
      if c: Tid :| P.ZombieOf(Table(w), c, w.k.cur) {
        assert IsChild(w, c, w.k.cur) && Hangs(w, c);
      }
    }
  }

  lemma WaitSleep(w: World)
    requires Inv(w) && Enabled(w, WaitStep)
    ensures Wait(w).Some?
    ensures InitSleepsOverZombie(Wait(w).value) ==> InitSleepsOverZombie(w)
  {
    hide Inv, WaitTurn, P.InitSleepsOverZombie, InitSleepsOverZombie, LeavesZombie;
    var t, me := Table(w), w.k.cur;
    WaitKeeps(w);
    SleepIsInTable(w);
    SleepIsInTable(Wait(w).value);
    CurHasEntry(w);
    match WaitTurn(w)
    case Reaped(c) =>
      WaitTurnIsExact(w);
      ModeKeeps(w, P.User);
      ReapKeeps(w, c);
      P.ModeSleep(t, me, P.User);
      P.ReapedSleep(P.SetMode(t, me, P.User), me, c);
    case NoChild =>
      ModeKeeps(w, P.User);
      P.ModeSleep(t, me, P.User);
    case Sleeps =>
      SchedulerInv(w);
      Runner(w);
      NobodyHangs(w);
      NoZombies(w);
      SleepTable(w);
      P.ModeSleep(t, me, P.InWait);
      P.AsleepSleep(P.SetMode(t, me, P.InWait), me);
  }

  lemma SchedulerInv(w: World)
    requires Inv(w)
    ensures K.Inv(w.k)
  {
  }

  lemma CurHasEntry(w: World)
    requires Inv(w)
    ensures w.k.cur in Table(w).procs && P.Rooted(Table(w))
  {
    InvParts(w);
  }

  lemma BirthSleep(w: World, t: Tid, prio: nat, parent: Option<Tid>, exitStatus: int)
    requires Inv(w) && t !in w.k.status && prio >= 1
    ensures Birth(w, t, prio, parent, exitStatus).Some?
    ensures InitSleepsOverZombie(Birth(w, t, prio, parent, exitStatus).value) <==> InitSleepsOverZombie(w)
  {
    SchedulerInv(w);
    CurHasEntry(w);
    TableKeys(w);
    BirthTable(w, t, prio, parent, exitStatus);
    hide Inv, K.Inv, P.InitSleepsOverZombie, InitSleepsOverZombie, LeavesZombie, Birth;
    SleepIsInTable(w);
    SleepIsInTable(Birth(w, t, prio, parent, exitStatus).value);
    P.BornSleep(Table(w), t, parent, exitStatus);
  }

  lemma ExitEndSleep(w: World)
    requires Inv(w) && Enabled(w, ExitEnd)
    ensures ExitEnds(w).Some?
    ensures InitSleepsOverZombie(ExitEnds(w).value) ==> InitSleepsOverZombie(w)
  {
    ExitFacts(w);
    SchedulerInv(w);
    CurHasEntry(w);
    Runner(w);
    var parent := Of(w, w.k.cur).parent.value;
    ExitEndsTable(w, parent);
    hide Inv, K.Inv, P.InitSleepsOverZombie, InitSleepsOverZombie, LeavesZombie, ExitEnds;
    SleepIsInTable(w);
    SleepIsInTable(ExitEnds(w).value);
    P.HungSleep(Table(w), w.k.cur, parent);
  }

  lemma ExitStartSleep(w: World, status: int)
    requires Inv(w) && Enabled(w, ExitStart(status))
    ensures ExitBegins(w, status).Some?
    ensures InitSleepsOverZombie(ExitBegins(w, status).value) <==> InitSleepsOverZombie(w) || LeavesZombie(w)
  {
    ExitBeginsKeeps(w, status);
    SchedulerInv(w);
    CurHasEntry(w);
    Runner(w);
    hide Inv, K.Inv, P.InitSleepsOverZombie, InitSleepsOverZombie, LeavesZombie, ExitBegins;
    SleepIsInTable(w);
    SleepIsInTable(ExitBegins(w, status).value);
    P.LeavingSleep(Table(w), w.k.cur, status);
  }

  lemma SchedulingSleep(w: World, e: Event)
    requires Inv(w) && Enabled(w, e) && (e.Tick? || e.Yields? || e.Parks? || e.Wakes?)
    ensures Next(w, e).Some?
    ensures InitSleepsOverZombie(Next(w, e).value) <==> InitSleepsOverZombie(w)
  {
    SchedulingKeeps(w, e);
    hide Inv, P.InitSleepsOverZombie, InitSleepsOverZombie, LeavesZombie, Next, Enabled;
    SleepIsInTable(w);
    SleepIsInTable(Next(w, e).value);
  }

  /** Init comes to sleep over a hanging child exactly by an exit of a process that has one while init waits. */
  lemma InitSleepsOverZombieIff(w: World, e: Event)
    requires Inv(w) && Enabled(w, e) && !InitSleepsOverZombie(w)
    ensures Next(w, e).Some?
    ensures InitSleepsOverZombie(Next(w, e).value) <==> e.ExitStart? && LeavesZombie(w)
  {
    hide Inv, InitSleepsOverZombie, LeavesZombie, Birth, ExitBegins, ExitEnds, Wait;
    match e
    case Tick => SchedulingSleep(w, e);
    case Yields => SchedulingSleep(w, e);
    case Parks => SchedulingSleep(w, e);
    case Wakes(t) => SchedulingSleep(w, e);
    case Spawns(t, prio) => BirthSleep(w, t, prio, None, 0);
    case Forks(t) => PriorityIsPositive(w); BirthSleep(w, t, K.PriorityOf(w.k, w.k.cur), Some(w.k.cur), Of(w, w.k.cur).exitStatus);
    case ExitStart(s) => ExitStartSleep(w, s);
    case ExitEnd => ExitEndSleep(w);
    case WaitStep => WaitSleep(w);
  }

  lemma PriorityIsPositive(w: World)
    requires Inv(w)
    ensures K.PriorityOf(w.k, w.k.cur) >= 1
  {
    InvParts(w);
  }

  /** No process leaves a hanging child behind while init waits. */
  ghost predicate LeavesNoZombie(w: World, es: seq<Event>)
    decreases es
  {
    es == [] || (!(es[0].ExitStart? && LeavesZombie(w)) && (Next(w, es[0]).Some? ==> LeavesNoZombie(Next(w, es[0]).value, es[1..])))
  }

  /** In a run without such an exit nobody ever sleeps in sys_wait over a hanging child. */
  lemma {:induction false} NobodySleepsOverZombie(w: World, es: seq<Event>)
    requires Inv(w) && LegalRun(w, es) && LeavesNoZombie(w, es) && !InitSleepsOverZombie(w)
    ensures Run(w, es).Some?
    ensures var z := Run(w, es).value; forall c, p: Tid | IsChild(z, c, p) && Hangs(z, c) :: K.StatusOf(z.k, p) != K.Waiting
    decreases |es|
  {
    hide Inv, InitSleepsOverZombie, LeavesZombie, Next, Enabled, IsChild, Hangs;
    if es == [] {
      NoneSleeps(w);
    } else {
      EventKeeps(w, es[0]);
      InitSleepsOverZombieIff(w, es[0]);
      NobodySleepsOverZombie(Next(w, es[0]).value, es[1..]);
    }
  }

  lemma NoneSleeps(w: World)
    requires Inv(w) && !InitSleepsOverZombie(w)
    ensures forall c, p: Tid | IsChild(w, c, p) && Hangs(w, c) :: K.StatusOf(w.k, p) != K.Waiting
  {
    ParentsAndWaiters(w);
    hide Inv;
  }

  // ---------------------------------------------------------------- and that it happens

  ghost predicate Queues(w: World, cur: Tid, ready: seq<Tid>, all: seq<Tid>, status: map<Tid, K.Status>) {
    w.k.cur == cur && w.k.idle == 3 && w.k.ready == ready && w.k.all == all && w.k.status == status
  }

  ghost predicate Is(w: World, t: Tid, parent: Option<Tid>, mode: P.Mode) {
    t in w.procs && w.procs[t].parent == parent && w.procs[t].mode == mode
  }

  lemma {:induction false} OneMore(w: World, es: seq<Event>, e: Event, z: World)
    requires LegalRun(w, es) && Run(w, es) == Some(z) && Enabled(z, e)
    ensures LegalRun(w, es + [e]) && Run(w, es + [e]) == Next(z, e)
    decreases |es|
  {
    if es == [] {
      assert [e][1..] == [] && [] + [e] == [e];
      assert Next(z, e).Some? ==> LegalRun(Next(z, e).value, []) && Run(Next(z, e).value, []) == Next(z, e);
    } else {
      assert (es + [e])[1..] == es[1..] + [e];
      OneMore(Next(w, es[0]).value, es[1..], e, z);
    }
  }

  lemma ParkTo(w: World, cur: Tid, next: Tid, rest: seq<Tid>, all: seq<Tid>, status: map<Tid, K.Status>) returns (z: World)
    requires Queues(w, cur, [next] + rest, all, status) && cur in w.procs && w.procs[cur].mode.User?
    ensures Enabled(w, Parks) && Next(w, Parks) == Some(z)
    ensures Queues(z, next, rest, all, status[cur := K.Blocked][next := K.Running]) && z.procs == w.procs
  {
    z := Next(w, Parks).value;
    assert ([next] + rest)[1..] == rest;
  }

  lemma YieldTo(w: World, cur: Tid, next: Tid, all: seq<Tid>, status: map<Tid, K.Status>) returns (z: World)
    requires Queues(w, cur, [next], all, status) && cur != next && cur in w.procs && w.procs[cur].mode.User?
    ensures Enabled(w, Yields) && Next(w, Yields) == Some(z)
    ensures Queues(z, next, [cur], all, status[cur := K.Ready][next := K.Running]) && z.procs == w.procs
  {
    z := Next(w, Yields).value;
    assert ([next] + [cur])[1..] == [cur];
  }

  lemma ForkOf(w: World, cur: Tid, ready: seq<Tid>, all: seq<Tid>, status: map<Tid, K.Status>, child: Tid) returns (z: World)
    requires Queues(w, cur, ready, all, status) && cur in w.procs && w.procs[cur].mode.User? && cur != 3
    requires child !in status && child !in ready && child !in all
    ensures Enabled(w, Forks(child)) && Next(w, Forks(child)) == Some(z)
    ensures Queues(z, cur, ready + [child], all + [child], status[child := K.Ready])
    ensures Is(z, child, Some(cur), P.User) && forall t | t != child :: t in z.procs <==> t in w.procs
    ensures forall t | t != child && t in w.procs :: z.procs[t] == w.procs[t]
  {
    z := Next(w, Forks(child)).value;
  }

  lemma SleepsOver(w: World, child: Tid)
    requires Inv(w) && IsChild(w, child, w.k.cur) && forall t | t in w.k.status :: w.k.status[t] != K.Hanging
    ensures WaitTurn(w).Sleeps?
  {
    WaitTurnIsExact(w);
    hide Inv, WaitTurn;
  }

  /** Init waits for a live child. */
  lemma WaitOf(w: World, cur: Tid, next: Tid, rest: seq<Tid>, all: seq<Tid>, status: map<Tid, K.Status>) returns (z: World)
    requires Queues(w, cur, [next] + rest, all, status) && cur in w.procs && w.procs[cur].mode.User? && cur != 3
    requires WaitTurn(w).Sleeps?
    ensures Enabled(w, WaitStep) && Next(w, WaitStep) == Some(z)
    ensures Queues(z, next, rest, all, status[cur := K.Waiting][next := K.Running])
    ensures z.procs == w.procs[cur := w.procs[cur].(mode := P.InWait)]
  {
    hide WaitTurn;
    z := Next(w, WaitStep).value;
    assert ([next] + rest)[1..] == rest;
  }

  lemma ExitStartOf(w: World, cur: Tid, parent: Tid, status: int) returns (z: World)
    requires w.k.cur == cur && Is(w, cur, Some(parent), P.User) && parent != cur
    ensures Enabled(w, ExitStart(status)) && Next(w, ExitStart(status)) == Some(z) && z.k == w.k
    ensures Is(z, cur, Some(parent), P.Exiting) && z.procs.Keys == w.procs.Keys
    ensures forall t, q, m | t != cur && Is(w, t, q, m) :: Is(z, t, if q == Some(cur) then Some(P.INIT) else q, m)
  {
    z := ExitBegins(w, status).value;
  }

  lemma ExitEndTo(w: World, cur: Tid, parent: Tid, next: Tid, rest: seq<Tid>, all: seq<Tid>, status: map<Tid, K.Status>) returns (z: World)
    requires Queues(w, cur, [next] + rest, all, status) && Is(w, cur, Some(parent), P.Exiting) && parent in w.procs
    requires parent != cur && !(parent in status && status[parent] == K.Waiting)
    ensures Enabled(w, ExitEnd) && Next(w, ExitEnd) == Some(z)
    ensures Queues(z, next, rest, all, status[cur := K.Hanging][next := K.Running]) && z.procs == w.procs
  {
    z := ExitEnds(w).value;
    assert ([next] + rest)[1..] == rest;
  }

  /** The last exit finds nobody ready, and idle is woken. */
  lemma ExitEndToIdle(w: World, cur: Tid, parent: Tid, all: seq<Tid>, status: map<Tid, K.Status>) returns (z: World)
    requires Queues(w, cur, [], all, status) && Is(w, cur, Some(parent), P.Exiting) && parent in w.procs
    requires parent != cur && !(parent in status && status[parent] == K.Waiting) && cur != 3 && 3 in status && status[3] == K.Blocked
    ensures Enabled(w, ExitEnd) && Next(w, ExitEnd) == Some(z)
    ensures Queues(z, 3, [], all, status[cur := K.Hanging][3 := K.Ready][3 := K.Running]) && z.procs == w.procs
  {
    z := ExitEnds(w).value;
  }

  /** The statuses at the start, when init waits, and when there are three processes below it. */
  function Start(): map<Tid, K.Status> {
    map[2 := K.Running, 1 := K.Ready, 3 := K.Ready]
  }

  function InitWaits(): map<Tid, K.Status> {
    Start()[2 := K.Blocked][1 := K.Running][4 := K.Ready][1 := K.Waiting][3 := K.Running]
  }

  function ThreeForked(): map<Tid, K.Status> {
    InitWaits()[3 := K.Blocked][4 := K.Running][5 := K.Ready][4 := K.Blocked][5 := K.Running][6 := K.Ready]
  }

  const EVERYBODY: seq<Tid> := [1, 2, 3] + [4] + [5] + [6]

  const TO_WAIT: seq<Event> := [] + [Parks] + [Forks(4)] + [WaitStep]
  const TO_FORKS: seq<Event> := TO_WAIT + [Parks] + [Forks(5)] + [Parks] + [Forks(6)]
  const TO_EXITS: seq<Event> := TO_FORKS + [Yields] + [ExitStart(7)] + [ExitEnd] + [ExitStart(0)] + [ExitEnd]

  lemma AtStart()
    ensures var w := Boot(2, 3);
            Inv(w) && Queues(w, 2, [1] + [3], [1, 2, 3], Start()) && Is(w, 1, None, P.User) && Is(w, 2, None, P.User) && Is(w, 3, None, P.User)
    ensures LegalRun(Boot(2, 3), []) && Run(Boot(2, 3), []) == Some(Boot(2, 3))
  {
    BootInv(2, 3);
    hide Inv;
    RunNothing(Boot(2, 3));
    assert [1] + [3] == [1, 3];
  }

  lemma NotYetThere()
    ensures 4 !in Start()
  {
  }

  /** Main blocks; init forks 4. */
  lemma InitForks() returns (z: World)
    ensures LegalRun(Boot(2, 3), [] + [Parks] + [Forks(4)]) && Run(Boot(2, 3), [] + [Parks] + [Forks(4)]) == Some(z)
    ensures Queues(z, 1, [3] + [4], [1, 2, 3] + [4], Start()[2 := K.Blocked][1 := K.Running][4 := K.Ready])
    ensures Is(z, 1, None, P.User) && Is(z, 3, None, P.User) && Is(z, 4, Some(1), P.User)
  {
    hide Inv, Next, Enabled, LegalRun, Run, Boot, Start;
    AtStart();
    NotYetThere();
    var w := Boot(2, 3);
    var z1 := ParkTo(w, 2, 1, [3], [1, 2, 3], Start());
    z := ForkOf(z1, 1, [3], [1, 2, 3], Start()[2 := K.Blocked][1 := K.Running], 4);
    OneMore(w, [], Parks, w);
    OneMore(w, [] + [Parks], Forks(4), z1);
  }

  lemma SomeStatuses()
    ensures var s := Start()[2 := K.Blocked][1 := K.Running][4 := K.Ready]; forall t | t in s :: s[t] != K.Hanging
  {
  }

  /** ... and waits. */
  lemma InitForksAndWaits() returns (z: World)
    ensures LegalRun(Boot(2, 3), TO_WAIT) && Run(Boot(2, 3), TO_WAIT) == Some(z)
    ensures Queues(z, 3, [4], [1, 2, 3] + [4], InitWaits())
    ensures Is(z, 1, None, P.InWait) && Is(z, 3, None, P.User) && Is(z, 4, Some(1), P.User)
  {
    hide Inv, Next, Enabled, LegalRun, Run, WaitTurn, Boot;
    var z2 := InitForks();
    AtStart();
    RunKeeps(Boot(2, 3), [] + [Parks] + [Forks(4)]);
    SomeStatuses();
    SleepsOver(z2, 4);
    z := WaitOf(z2, 1, 3, [4], [1, 2, 3] + [4], Start()[2 := K.Blocked][1 := K.Running][4 := K.Ready]);
    OneMore(Boot(2, 3), [] + [Parks] + [Forks(4)], WaitStep, z2);
  }

  lemma RunNothing(w: World)
    ensures LegalRun(w, []) && Run(w, []) == Some(w)
  {
  }

  /** Idle blocks; 4 forks 5 and blocks; 5 forks 6. */
  lemma ChildrenFork() returns (z: World)
    ensures LegalRun(Boot(2, 3), TO_FORKS) && Run(Boot(2, 3), TO_FORKS) == Some(z)
    ensures Queues(z, 5, [6], EVERYBODY, ThreeForked())
    ensures Is(z, 1, None, P.InWait) && Is(z, 4, Some(1), P.User) && Is(z, 5, Some(4), P.User) && Is(z, 6, Some(5), P.User)
  {
    hide Inv, Next, Enabled, LegalRun, Run, Boot;
    var w, s := Boot(2, 3), InitWaits();
    var z3 := InitForksAndWaits();
    hide InitWaits;
    var z4 := ParkTo(z3, 3, 4, [], [1, 2, 3] + [4], s);
    OneMore(w, TO_WAIT, Parks, z3);
    var z5 := ForkOf(z4, 4, [], [1, 2, 3] + [4], s[3 := K.Blocked][4 := K.Running], 5);
    OneMore(w, TO_WAIT + [Parks], Forks(5), z4);
    var z6 := ParkTo(z5, 4, 5, [], [1, 2, 3] + [4] + [5], s[3 := K.Blocked][4 := K.Running][5 := K.Ready]);
    OneMore(w, TO_WAIT + [Parks] + [Forks(5)], Parks, z5);
    z := ForkOf(z6, 5, [], [1, 2, 3] + [4] + [5], s[3 := K.Blocked][4 := K.Running][5 := K.Ready][4 := K.Blocked][5 := K.Running], 6);
    OneMore(w, TO_WAIT + [Parks] + [Forks(5)] + [Parks], Forks(6), z6);
  }

  /** 5 yields; 6 exits. */
  lemma ChildExits() returns (z: World)
    ensures LegalRun(Boot(2, 3), TO_FORKS + [Yields] + [ExitStart(7)] + [ExitEnd])
    ensures Run(Boot(2, 3), TO_FORKS + [Yields] + [ExitStart(7)] + [ExitEnd]) == Some(z)
    ensures Queues(z, 5, [], EVERYBODY, ThreeForked()[5 := K.Ready][6 := K.Running][6 := K.Hanging][5 := K.Running])
    ensures Is(z, 4, Some(1), P.User) && Is(z, 5, Some(4), P.User) && Is(z, 6, Some(5), P.Exiting)
  {
    hide Inv, Next, Enabled, LegalRun, Run, ThreeForked, Boot;
    var w, s := Boot(2, 3), ThreeForked();
    var z7 := ChildrenFork();
    var z8 := YieldTo(z7, 5, 6, EVERYBODY, s);
    OneMore(w, TO_FORKS, Yields, z7);
    assert Is(z8, 4, Some(1), P.User) && Is(z8, 5, Some(4), P.User);
    var z9 := ExitStartOf(z8, 6, 5, 7);
    OneMore(w, TO_FORKS + [Yields], ExitStart(7), z8);
    assert Is(z9, 5, Some(4), P.User);
    assert [5] == [5] + [];
    z := ExitEndTo(z9, 6, 5, 5, [], EVERYBODY, s[5 := K.Ready][6 := K.Running]);
    OneMore(w, TO_FORKS + [Yields] + [ExitStart(7)], ExitEnd, z9);
    assert Is(z9, 4, Some(1), P.User);
  }

  lemma ForkedStatuses()
    ensures var s := ThreeForked(); 1 in s && 3 in s && 4 in s && s[1] == K.Waiting && s[3] == K.Blocked && s[4] == K.Blocked
  {
  }

  /** 5 exits over it. Init, which waits, becomes the parent of 6 and is not woken. */
  lemma InitCanSleepOverZombie() returns (z: World)
    ensures LegalRun(Boot(2, 3), TO_EXITS) && Run(Boot(2, 3), TO_EXITS) == Some(z)
    ensures IsChild(z, 6, P.INIT) && Hangs(z, 6) && K.StatusOf(z.k, P.INIT) == K.Waiting && InitSleepsOverZombie(z)
  {
    hide Inv, Next, Enabled, LegalRun, Run, ThreeForked, Boot;
    ForkedStatuses();
    var z10 := ChildExits();
    var w, s := Boot(2, 3), ThreeForked()[5 := K.Ready][6 := K.Running][6 := K.Hanging][5 := K.Running];
    var z11 := ExitStartOf(z10, 5, 4, 0);
    OneMore(w, TO_FORKS + [Yields] + [ExitStart(7)] + [ExitEnd], ExitStart(0), z10);
    assert Is(z11, 4, Some(1), P.User) && Is(z11, 6, Some(P.INIT), P.Exiting);
    z := ExitEndToIdle(z11, 5, 4, EVERYBODY, s);
    OneMore(w, TO_FORKS + [Yields] + [ExitStart(7)] + [ExitEnd] + [ExitStart(0)], ExitEnd, z11);
  }
}
