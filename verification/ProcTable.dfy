/** The process table as fork, sys_exit and sys_wait see it: who is whose child, who waits and who hangs.
    Running, ready and otherwise blocked processes are all Live here. */
module ProcTable {
  import opened Wrappers

  type Tid = nat

  /** The pid that adopts orphans. */
  const INIT: Tid := 1

  datatype Life = Live | Waits | Hangs

  datatype Mode = User | InWait | Exiting

  /** parent None is the source's parent_pid -1. `serial` tells apart processes that had the same pid: no code reads it. */
  datatype Proc = Proc(parent: Option<Tid>, exitStatus: int, mode: Mode, serial: nat)

  datatype Delivery = Delivery(serial: nat, child: Tid, receiver: Tid, status: int)

  /** `exits` and `log` record which exits happened and which waits got one; `adopted` which processes were already
      hanging when init adopted them. */
  datatype Table = Table(idle: Tid, life: map<Tid, Life>, procs: map<Tid, Proc>, next: nat,
                         exits: map<nat, int>, log: seq<Delivery>, adopted: set<nat>)

  function Of(p: Table, t: Tid): Proc {
    if t in p.procs then p.procs[t] else Proc(None, 0, User, 0)
  }

  predicate Is(p: Table, t: Tid, l: Life) {
    t in p.life && p.life[t] == l
  }

  predicate IsChild(p: Table, c: Tid, parent: Tid) {
    c in p.procs && p.procs[c].parent == Some(parent)
  }

  /** The conversion of an int32_t to the int8_t exit_status. */
  function ToInt8(n: int): int {
    var m := n % 256;
    if m >= 128 then m - 256 else m
  }

  /** What is left of the argument of sys_exit in eight bits: a value of that range, the same modulo 256. */
  predicate IsStatus(n: int, status: int) {
    -128 <= status <= 127 && (n - status) % 256 == 0
  }

  lemma ToInt8IsStatus(n: int)
    ensures IsStatus(n, ToInt8(n)) && (-128 <= n <= 127 ==> ToInt8(n) == n)
    ensures forall v | IsStatus(n, v) :: v == ToInt8(n)
  {
    forall v | IsStatus(n, v) ensures v == ToInt8(n) {
      assert (ToInt8(n) - v) % 256 == 0;
    }
  }

  // ---------------------------------------------------------------- the changes

  function Born(p: Table, t: Tid, parent: Option<Tid>, exitStatus: int): Table {
    p.(life := p.life[t := Live], procs := p.procs[t := Proc(parent, exitStatus, User, p.next)], next := p.next + 1)
  }

  function SetMode(p: Table, me: Tid, m: Mode): Table {
    p.(procs := p.procs[me := Of(p, me).(mode := m)])
  }

  /** The status is stored and init adopts the children: the first half of sys_exit. */
  function Leaving(p: Table, me: Tid, status: int): Table {
    p.(procs := map t | t in p.procs ::
         if t == me then p.procs[t].(exitStatus := ToInt8(status), mode := Exiting)
         else if p.procs[t].parent == Some(me) then p.procs[t].(parent := Some(INIT))
         else p.procs[t],
       adopted := p.adopted + set t | t in p.procs && p.procs[t].parent == Some(me) && Is(p, t, Hangs) :: p.procs[t].serial)
  }

  /** A waiting parent is woken and the process hangs: the second half of sys_exit. */
  function Hung(p: Table, me: Tid, parent: Tid): Table {
    var life := if Is(p, parent, Waits) then p.life[parent := Live] else p.life;
    p.(life := life[me := Hangs], exits := p.exits[Of(p, me).serial := Of(p, me).exitStatus])
  }

  function Asleep(p: Table, me: Tid): Table {
    p.(life := p.life[me := Waits])
  }

  function Reaped(p: Table, me: Tid, c: Tid): Table {
    p.(life := p.life - {c}, procs := p.procs - {c},
       log := p.log + [Delivery(Of(p, c).serial, c, me, Of(p, c).exitStatus)])
  }

  // ---------------------------------------------------------------- the invariant

  /** The parent of a live process is live and on its way neither out nor idle. */
  ghost predicate ParentOk(p: Table, t: Tid) {
    var q := Of(p, t).parent;
    q.Some? ==> q.value in p.procs && q.value != t && q.value != p.idle
                && !Of(p, q.value).mode.Exiting? && !Is(p, q.value, Hangs)
  }

  ghost predicate ZombieOk(p: Table, t: Tid) {
    var q := Of(p, t);
    && (Is(p, t, Hangs) ==> q.mode.Exiting? && q.serial in p.exits && p.exits[q.serial] == q.exitStatus)
    && (t in p.procs && !Is(p, t, Hangs) ==> q.serial !in p.exits)
    && (q.mode.Exiting? ==> t != INIT && q.parent.Some?)
  }

  predicate ZombieOf(p: Table, c: Tid, parent: Tid) {
    IsChild(p, c, parent) && Is(p, c, Hangs)
  }

  /** Nobody sleeps in sys_wait while a child hangs, but init over a zombie it adopted. */
  ghost predicate WaiterOk(p: Table, t: Tid) {
    Is(p, t, Waits) ==>
      Of(p, t).mode.InWait? && forall c: Tid | ZombieOf(p, c, t) :: t == INIT && Of(p, c).serial in p.adopted
  }

  ghost predicate ThreadOk(p: Table, t: Tid) {
    ParentOk(p, t) && ZombieOk(p, t) && WaiterOk(p, t)
  }

  ghost predicate SerialsOk(procs: map<Tid, Proc>, next: nat) {
    && (forall t | t in procs :: procs[t].serial < next)
    && (forall t, u | t in procs && u in procs && procs[t].serial == procs[u].serial :: t == u)
  }

  /** A delivery carries the status of its exit, and who was delivered is gone. */
  ghost predicate Delivers(d: Delivery, procs: map<Tid, Proc>, next: nat, exits: map<nat, int>) {
    && d.serial < next && d.serial in exits && exits[d.serial] == d.status
    && forall t | t in procs :: procs[t].serial != d.serial
  }

  ghost predicate LogOk(log: seq<Delivery>, procs: map<Tid, Proc>, next: nat, exits: map<nat, int>) {
    && (forall i | 0 <= i < |log| :: Delivers(log[i], procs, next, exits))
    && (forall i, j | 0 <= i < j < |log| :: log[i].serial != log[j].serial)
  }

  /** t is the hanging process that still holds exit s. */
  ghost predicate Holds(p: Table, t: Tid, s: nat) {
    t in p.procs && p.procs[t].serial == s && Is(p, t, Hangs)
  }

  ghost predicate Logged(log: seq<Delivery>, s: nat) {
    exists i :: 0 <= i < |log| && log[i].serial == s
  }

  ghost predicate ExitsOk(p: Table) {
    forall s | s in p.exits :: s < p.next && (Logged(p.log, s) || exists t :: Holds(p, t, s))
  }

  ghost predicate Rooted(p: Table) {
    && INIT in p.procs && Of(p, INIT).parent.None? && INIT != p.idle
    && p.idle in p.procs && Of(p, p.idle).parent.None? && Of(p, p.idle).mode.User?
    && p.procs.Keys == p.life.Keys
  }

  ghost predicate Inv(p: Table) {
    && Rooted(p)
    && (forall t: Tid :: ThreadOk(p, t))
    && SerialsOk(p.procs, p.next) && LogOk(p.log, p.procs, p.next, p.exits) && ExitsOk(p)
  }

  // ---------------------------------------------------------------- every change keeps it

  /** A change that takes no exit from its holder and drops no delivery. */
  lemma ExitsFrame(p: Table, p1: Table)
    requires ExitsOk(p) && p1.exits == p.exits && p.next <= p1.next && p1.log == p.log
    requires forall t, s | Holds(p, t, s) :: Holds(p1, t, s)
    ensures ExitsOk(p1)
  {
    forall s | s in p1.exits ensures s < p1.next && (Logged(p1.log, s) || exists t :: Holds(p1, t, s)) {
      if !Logged(p.log, s) {
        var t :| Holds(p, t, s);
        assert Holds(p1, t, s);
      }
    }
  }

  /** ... and one that keeps the serials of the processes that stay, and adds only new ones. */
  lemma LogFrame(p: Table, p1: Table)
    requires LogOk(p.log, p.procs, p.next, p.exits) && p1.log == p.log && p1.exits == p.exits && p.next <= p1.next
    requires forall t | t in p1.procs :: (t in p.procs && p1.procs[t].serial == p.procs[t].serial) || p1.procs[t].serial >= p.next
    ensures LogOk(p1.log, p1.procs, p1.next, p1.exits)
  {
    forall i | 0 <= i < |p1.log| ensures Delivers(p1.log[i], p1.procs, p1.next, p1.exits) {
      assert Delivers(p.log[i], p.procs, p.next, p.exits);
    }
  }

  /** One thread's part, where nobody starts to wait and no child of t starts to hang. */
  lemma ThreadFrame(p: Table, p1: Table, t: Tid)
    requires ThreadOk(p, t) && ParentOk(p1, t) && ZombieOk(p1, t)
    requires Is(p1, t, Waits) ==> Is(p, t, Waits) && Of(p1, t).mode == Of(p, t).mode && p.adopted <= p1.adopted
    requires Is(p1, t, Waits) ==> forall c: Tid | ZombieOf(p1, c, t) :: ZombieOf(p, c, t) && Of(p1, c).serial == Of(p, c).serial
    ensures ThreadOk(p1, t)
  {
  }

  lemma BornKeeps(p: Table, t: Tid, parent: Option<Tid>, exitStatus: int)
    requires Inv(p) && t !in p.procs
    requires parent.Some? ==> Is(p, parent.value, Live) && parent.value != p.idle && Of(p, parent.value).mode.User?
    ensures Inv(Born(p, t, parent, exitStatus))
  {
    var p1 := Born(p, t, parent, exitStatus);
    forall u: Tid ensures ThreadOk(p1, u) {
      assert ThreadOk(p, u);
      ThreadFrame(p, p1, u);
    }
    LogFrame(p, p1);
    ExitsFrame(p, p1);
  }

  lemma ModeKeeps(p: Table, me: Tid, m: Mode)
    requires Inv(p) && Is(p, me, Live) && me != p.idle && !Of(p, me).mode.Exiting? && !m.Exiting?
    ensures Inv(SetMode(p, me, m))
  {
    var p1 := SetMode(p, me, m);
    assert ThreadOk(p, me);
    forall u: Tid ensures ThreadOk(p1, u) {
      assert ThreadOk(p, u);
      ThreadFrame(p, p1, u);
    }
    LogFrame(p, p1);
    ExitsFrame(p, p1);
  }

  lemma LeavingKeeps(p: Table, me: Tid, status: int)
    requires Inv(p) && Is(p, me, Live) && Of(p, me).mode.User? && Of(p, me).parent.Some?
    ensures Inv(Leaving(p, me, status))
  {
    var p1 := Leaving(p, me, status);
    assert ThreadOk(p, me) && ThreadOk(p, INIT);
    forall u: Tid ensures ThreadOk(p1, u) { assert ThreadOk(p, u); LeavingThread(p, me, status, u); }
    LogFrame(p, p1);
    ExitsFrame(p, p1);
  }

  lemma LeavingThread(p: Table, me: Tid, status: int, u: Tid)
    requires ThreadOk(p, u) && ThreadOk(p, me) && ThreadOk(p, INIT) && Rooted(p)
    requires Is(p, me, Live) && Of(p, me).parent.Some?
    ensures ThreadOk(Leaving(p, me, status), u)
  {
    var p1 := Leaving(p, me, status);
    if Is(p, u, Waits) {
      forall c: Tid | ZombieOf(p1, c, u) ensures u == INIT && Of(p1, c).serial in p1.adopted {
        assert ZombieOf(p, c, u) || (ZombieOf(p, c, me) && u == INIT);
      }
    }
  }

  lemma HungKeeps(p: Table, me: Tid, parent: Tid)
    requires Inv(p) && Is(p, me, Live) && Of(p, me).mode.Exiting? && Of(p, me).parent == Some(parent)
    ensures Inv(Hung(p, me, parent))
  {
    var p1 := Hung(p, me, parent);
    var s0 := Of(p, me).serial;
    assert ThreadOk(p, me);
    forall u: Tid ensures ThreadOk(p1, u) {
      assert ThreadOk(p, u);
      ThreadFrame(p, p1, u);
    }
    forall i | 0 <= i < |p1.log| ensures Delivers(p1.log[i], p1.procs, p1.next, p1.exits) {
      assert Delivers(p.log[i], p.procs, p.next, p.exits);
    }
    forall s | s in p1.exits ensures s < p1.next && (Logged(p1.log, s) || exists t :: Holds(p1, t, s)) {
      if s == s0 {
        assert Holds(p1, me, s);
      } else if !Logged(p.log, s) {
        var t :| Holds(p, t, s);
        assert Holds(p1, t, s);
      }
    }
  }

  lemma AsleepKeeps(p: Table, me: Tid)
    requires Inv(p) && Is(p, me, Live) && me != p.idle && Of(p, me).mode.InWait?
    requires forall c: Tid :: !ZombieOf(p, c, me)
    ensures Inv(Asleep(p, me))
  {
    var p1 := Asleep(p, me);
    assert ThreadOk(p, me);
    forall u: Tid ensures ThreadOk(p1, u) {
      assert ThreadOk(p, u);
      if u != me {
        ThreadFrame(p, p1, u);
      } else {
        forall c: Tid ensures !ZombieOf(p1, c, me) { assert !ZombieOf(p, c, me); }
      }
    }
    LogFrame(p, p1);
    ExitsFrame(p, p1);
  }

  lemma ReapedExits(p: Table, me: Tid, c: Tid)
    requires ExitsOk(p)
    ensures ExitsOk(Reaped(p, me, c))
  {
    var p1 := Reaped(p, me, c);
    var d := p1.log[|p.log|];
    forall s | s in p1.exits ensures s < p1.next && (Logged(p1.log, s) || exists t :: Holds(p1, t, s)) {
      if s == d.serial {
        assert p1.log[|p.log|].serial == s;
      } else if Logged(p.log, s) {
        var i :| 0 <= i < |p.log| && p.log[i].serial == s;
        assert p1.log[i].serial == s;
      } else {
        var t :| Holds(p, t, s);
        assert Holds(p1, t, s);
      }
    }
  }

  lemma ReapedLog(p: Table, me: Tid, c: Tid)
    requires LogOk(p.log, p.procs, p.next, p.exits) && SerialsOk(p.procs, p.next) && ZombieOk(p, c) && c in p.procs && Is(p, c, Hangs)
    ensures var p1 := Reaped(p, me, c); LogOk(p1.log, p1.procs, p1.next, p1.exits) && SerialsOk(p1.procs, p1.next)
  {
    var p1 := Reaped(p, me, c);
    var d := p1.log[|p.log|];
    forall i | 0 <= i < |p.log| ensures Delivers(p.log[i], p1.procs, p1.next, p1.exits) && p.log[i].serial != d.serial {
      assert Delivers(p.log[i], p.procs, p.next, p.exits);
    }
  }

  lemma ReapedThread(p: Table, me: Tid, c: Tid, u: Tid)
    requires ThreadOk(p, u) && Is(p, c, Hangs) && c in p.procs
    ensures ThreadOk(Reaped(p, me, c), u)
  {
    ThreadFrame(p, Reaped(p, me, c), u);
  }

  lemma ReapedKeeps(p: Table, me: Tid, c: Tid)
    requires Inv(p) && IsChild(p, c, me) && Is(p, c, Hangs)
    ensures Inv(Reaped(p, me, c))
  {
    hide LogOk, SerialsOk, ExitsOk;
    var p1 := Reaped(p, me, c);
    assert ThreadOk(p, c);
    forall u: Tid ensures ThreadOk(p1, u) {
      ReapedThread(p, me, c, u);
    }
    ReapedLog(p, me, c);
    ReapedExits(p, me, c);
  }

  // ---------------------------------------------------------------- what the invariant promises

  lemma InvMeans(p: Table)
    requires Inv(p)
    ensures forall t, q: Tid | IsChild(p, t, q) :: q in p.procs && !Is(p, q, Hangs)
    ensures forall c, t: Tid | Is(p, t, Waits) && ZombieOf(p, c, t) :: t == INIT && Of(p, c).serial in p.adopted
    ensures forall i, j | 0 <= i < j < |p.log| :: p.log[i].serial != p.log[j].serial
    ensures forall i | 0 <= i < |p.log| :: p.log[i].serial in p.exits && p.log[i].status == p.exits[p.log[i].serial]
    ensures forall s | s in p.exits :: Logged(p.log, s) || exists t :: Holds(p, t, s)
    ensures forall s, t | Logged(p.log, s) :: !Holds(p, t, s)
  {
    forall t, q: Tid | IsChild(p, t, q) ensures q in p.procs && !Is(p, q, Hangs) { assert ThreadOk(p, t); }
    forall c, t: Tid | Is(p, t, Waits) && ZombieOf(p, c, t) ensures t == INIT && Of(p, c).serial in p.adopted { assert ThreadOk(p, t); }
    forall i | 0 <= i < |p.log| ensures Delivers(p.log[i], p.procs, p.next, p.exits) { }
  }

  // ---------------------------------------------------------------- when init comes to sleep over a hanging child

  ghost predicate InitSleepsOverZombie(p: Table) {
    Is(p, INIT, Waits) && exists c: Tid :: ZombieOf(p, c, INIT)
  }

  /** Two tables that agree on the children that hang, and on whether init waits. */
  lemma SameSleep(p: Table, p1: Table)
    requires Is(p1, INIT, Waits) <==> Is(p, INIT, Waits)
    requires forall c: Tid :: ZombieOf(p1, c, INIT) <==> ZombieOf(p, c, INIT)
    ensures InitSleepsOverZombie(p1) <==> InitSleepsOverZombie(p)
  {
    if InitSleepsOverZombie(p) {
      var c: Tid :| ZombieOf(p, c, INIT);
      assert ZombieOf(p1, c, INIT);
    }
  }

  lemma BornSleep(p: Table, t: Tid, parent: Option<Tid>, exitStatus: int)
    requires t !in p.procs && t !in p.life && INIT in p.procs
    ensures InitSleepsOverZombie(Born(p, t, parent, exitStatus)) <==> InitSleepsOverZombie(p)
  {
    SameSleep(p, Born(p, t, parent, exitStatus));
  }

  lemma ModeSleep(p: Table, me: Tid, m: Mode)
    requires me in p.procs
    ensures InitSleepsOverZombie(SetMode(p, me, m)) <==> InitSleepsOverZombie(p)
  {
    SameSleep(p, SetMode(p, me, m));
  }

  /** Init adopts the zombies of the process that leaves. */
  lemma LeavingSleep(p: Table, me: Tid, status: int)
    requires Rooted(p) && Is(p, me, Live) && Of(p, me).parent.Some?
    ensures InitSleepsOverZombie(Leaving(p, me, status)) <==>
            InitSleepsOverZombie(p) || (Is(p, INIT, Waits) && exists c: Tid :: ZombieOf(p, c, me))
  {
    var p1 := Leaving(p, me, status);
    forall c: Tid ensures ZombieOf(p1, c, INIT) <==> ZombieOf(p, c, INIT) || ZombieOf(p, c, me) {
    }
    if Is(p, INIT, Waits) {
      if c: Tid :| ZombieOf(p, c, INIT) {
        assert ZombieOf(p1, c, INIT);
      }
      if c: Tid :| ZombieOf(p, c, me) {
        assert ZombieOf(p1, c, INIT);
      }
    }
  }

  /** A child of init that hangs wakes it. */
  lemma HungSleep(p: Table, me: Tid, parent: Tid)
    requires Rooted(p) && Is(p, me, Live) && Of(p, me).parent == Some(parent)
    ensures InitSleepsOverZombie(Hung(p, me, parent)) ==> InitSleepsOverZombie(p)
  {
    var p1 := Hung(p, me, parent);
    if InitSleepsOverZombie(p1) {
      var c: Tid :| ZombieOf(p1, c, INIT);
      assert c != me && ZombieOf(p, c, INIT);
    }
  }

  lemma AsleepSleep(p: Table, me: Tid)
    requires Is(p, me, Live) && forall c: Tid :: !ZombieOf(p, c, me)
    ensures InitSleepsOverZombie(Asleep(p, me)) ==> InitSleepsOverZombie(p)
  {
    var p1 := Asleep(p, me);
    if InitSleepsOverZombie(p1) {
      var c: Tid :| ZombieOf(p1, c, INIT);
      assert c != me && ZombieOf(p, c, INIT);
    }
  }

  lemma ReapedSleep(p: Table, me: Tid, c: Tid)
    requires Is(p, c, Hangs)
    ensures InitSleepsOverZombie(Reaped(p, me, c)) ==> InitSleepsOverZombie(p)
  {
    var p1 := Reaped(p, me, c);
    if InitSleepsOverZombie(p1) {
      var d: Tid :| ZombieOf(p1, d, INIT);
      assert ZombieOf(p, d, INIT);
    }
  }

  // ---------------------------------------------------------------- statuses

  /** `asked` holds the arguments of the calls of sys_exit so far, by the serial of the caller: whoever is on its way out
      or has gone has called it, and nobody else; its status is what eight bits hold of the argument. */
  ghost predicate Asked(procs: map<Tid, Proc>, next: nat, exits: map<nat, int>, asked: map<nat, int>) {
    && (forall t | t in procs && procs[t].mode.Exiting? ::
          procs[t].serial in asked && IsStatus(asked[procs[t].serial], procs[t].exitStatus))
    && (forall s | s in exits :: s in asked && IsStatus(asked[s], exits[s]))
    && (forall s | s in asked :: s < next)
    && (forall t | t in procs && procs[t].serial in asked :: procs[t].mode.Exiting?)
  }

  lemma LeavingAsks(procs: map<Tid, Proc>, procs1: map<Tid, Proc>, next: nat, exits: map<nat, int>, asked: map<nat, int>, me: Tid, n: int)
    requires Asked(procs, next, exits, asked) && SerialsOk(procs, next) && procs1.Keys == procs.Keys
    requires me in procs && procs[me].mode.User? && procs1[me] == procs[me].(exitStatus := ToInt8(n), mode := Exiting)
    requires forall t | t in procs && t != me ::
               procs1[t].serial == procs[t].serial && procs1[t].mode == procs[t].mode && procs1[t].exitStatus == procs[t].exitStatus
    ensures procs[me].serial !in asked && Asked(procs1, next, exits, asked[procs[me].serial := n])
  {
    ToInt8IsStatus(n);
    hide IsStatus, ToInt8;
  }

  lemma HungAsks(procs: map<Tid, Proc>, next: nat, exits: map<nat, int>, asked: map<nat, int>, me: Tid)
    requires Asked(procs, next, exits, asked) && me in procs && procs[me].mode.Exiting?
    ensures Asked(procs, next, exits[procs[me].serial := procs[me].exitStatus], asked)
  {
    hide IsStatus;
  }

  lemma ModeAsks(procs: map<Tid, Proc>, next: nat, exits: map<nat, int>, asked: map<nat, int>, me: Tid, m: Mode)
    requires Asked(procs, next, exits, asked) && me in procs && !procs[me].mode.Exiting? && !m.Exiting?
    ensures Asked(procs[me := procs[me].(mode := m)], next, exits, asked)
  {
    hide IsStatus;
  }

  lemma ReapedAsks(procs: map<Tid, Proc>, next: nat, exits: map<nat, int>, asked: map<nat, int>, c: Tid)
    requires Asked(procs, next, exits, asked)
    ensures Asked(procs - {c}, next, exits, asked)
  {
    hide IsStatus;
  }

  lemma BornAsks(procs: map<Tid, Proc>, next: nat, exits: map<nat, int>, asked: map<nat, int>, t: Tid, parent: Option<Tid>, status: int)
    requires Asked(procs, next, exits, asked)
    ensures Asked(procs[t := Proc(parent, status, User, next)], next + 1, exits, asked)
  {
    hide IsStatus;
  }
}
