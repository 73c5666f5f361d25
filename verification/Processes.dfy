/** sys_wait, sys_exit and sys_fork in their own form: traversals of thread_all_list over fields changed in place. */
module Processes {
  import opened Wrappers
  import K = Threads
  import P = ProcTable
  import W = WaitExit
  import opened Scheduling

  class ProcessTable {
    const sched: Scheduler
    var procs: map<Tid, P.Proc>
    var next: nat
    ghost var exits: map<nat, int>
    ghost var log: seq<P.Delivery>
    ghost var adopted: set<nat>

    constructor (s: Scheduler, main: Tid)
      requires s.View() == K.Initial(main, P.INIT, s.idle) && main != P.INIT && s.idle != P.INIT && main != s.idle
      ensures sched == s && View() == W.Boot(main, s.idle) && W.Inv(View())
      ensures procs.Keys == {P.INIT, main, s.idle} && forall t | t in procs :: procs[t].parent == None && procs[t].mode == P.User
      ensures log == [] && exits == map[]
    {
      sched := s;
      procs := map[P.INIT := P.Proc(None, 0, P.User, 0), main := P.Proc(None, 0, P.User, 1), s.idle := P.Proc(None, 0, P.User, 2)];
      next, exits, log, adopted := 3, map[], [], {};
      new;
      W.BootInv(main, s.idle);
    }

    ghost function View(): W.World
      reads this, sched
    {
      W.World(sched.View(), procs, next, exits, log, adopted)
    }

    /** list_traversal with find_child or find_hanging_child. */
    method FindChild(parent: Tid, hanging: bool) returns (r: Option<Tid>)
      ensures r == W.FindChild(View(), sched.all, parent, hanging)
    {
      var i := 0;
      while i < |sched.all|
        invariant i <= |sched.all|
        invariant W.FindChild(View(), sched.all, parent, hanging) == W.FindChild(View(), sched.all[i..], parent, hanging)
      {
        var t := sched.all[i];
        assert sched.all[i..][0] == t && sched.all[i..][1..] == sched.all[i + 1..];
        if t in procs && procs[t].parent == Some(parent) && (!hanging || (t in sched.status && sched.status[t] == K.Hanging)) {
          return Some(t);
        }
        i := i + 1;
      }
      return None;
    }

    /** One turn of the loop of sys_wait: `done` with a pid, `done` with -1, or the caller went to sleep. */
    method WaitTurn() returns (done: bool, pid: int, status: int)
      requires W.Inv(View()) && W.Enabled(View(), W.WaitStep)
      modifies this, sched
      ensures W.Wait(old(View())) == Some(View())
      ensures var turn := W.WaitTurn(old(View()));
              && (done <==> !turn.Sleeps?) && (turn.NoChild? ==> pid == -1)
              && (turn.Reaped? ==> pid == turn.child && status == W.Of(old(View()), turn.child).exitStatus)
      ensures done && pid != -1 ==> pid >= 0 && pid in old(procs) && old(procs)[pid].parent == Some(old(sched.cur))
                                    && pid !in procs && pid !in sched.status
      ensures !done ==> K.StatusOf(sched.View(), old(sched.cur)) == K.Waiting
    {
      hide W.Inv, K.Inv, W.FindChild, K.Block, K.Exit;
      W.InvParts(View());
      var me := sched.cur;
      var zombie := FindChild(me, true);
      if zombie.Some? {
        W.ZombieIsNobodyElse(View(), zombie.value);
        status := Reap(zombie.value);
        return true, zombie.value, status;
      }
      var child := FindChild(me, false);
      if child.None? {
        procs := procs[me := procs[me].(mode := P.User)];
        return true, -1, 0;
      }
      procs := procs[me := procs[me].(mode := P.InWait)];
      sched.Block(K.Waiting);
      return false, 0, 0;
    }

    method Reap(c: Tid) returns (status: int)
      requires K.Inv(sched.View()) && c != sched.idle && c != sched.cur && c in sched.status && c in procs && sched.cur in procs
      modifies this, sched
      ensures status == old(procs[c].exitStatus)
      ensures K.Exit(old(sched.View()), c, false) == Some(sched.View())
      ensures procs == old(procs)[old(sched.cur) := old(procs)[old(sched.cur)].(mode := P.User)] - {c}
      ensures log == old(log) + [P.Delivery(old(procs)[c].serial, c, old(sched.cur), status)]
      ensures next == old(next) && exits == old(exits) && adopted == old(adopted) && c !in sched.status
    {
      hide K.Inv, K.Exit;
      status := procs[c].exitStatus;
      log := log + [P.Delivery(procs[c].serial, c, sched.cur, status)];
      procs := procs[sched.cur := procs[sched.cur].(mode := P.User)] - {c};
      sched.Exit(c, false);
    }

    /** list_traversal with init_adopt_a_child. */
    method AdoptChildren(me: Tid)
      modifies this`procs
      ensures procs.Keys == old(procs.Keys)
      ensures forall t | t in procs :: procs[t] == Adopted(old(procs), me, t, t in sched.all)
    {
      var i := 0;
      while i < |sched.all|
        invariant i <= |sched.all| && procs.Keys == old(procs.Keys)
        invariant forall t | t in procs :: procs[t] == Adopted(old(procs), me, t, t in sched.all[..i])
      {
        var t := sched.all[i];
        assert sched.all[..i + 1] == sched.all[..i] + [t];
        if t in procs && procs[t].parent == Some(me) {
          procs := procs[t := procs[t].(parent := Some(P.INIT))];
        }
        i := i + 1;
      }
      assert sched.all[..i] == sched.all;
    }

    /** The entry of t once the traversal has passed it or not. */
    static function Adopted(was: map<Tid, P.Proc>, me: Tid, t: Tid, seen: bool): P.Proc
      requires t in was
    {
      if seen && was[t].parent == Some(me) then was[t].(parent := Some(P.INIT)) else was[t]
    }

    /** sys_exit up to release_prog_resource. */
    method ExitBegins(status: int)
      requires W.Inv(View()) && W.Enabled(View(), W.ExitStart(status))
      modifies this
      ensures W.ExitBegins(old(View()), status) == Some(View())
      ensures procs.Keys == old(procs).Keys && forall t | t in procs && t != sched.cur ::
                procs[t] == if old(procs)[t].parent == Some(sched.cur) then old(procs)[t].(parent := Some(P.INIT)) else old(procs)[t]
      ensures sched.cur in procs && -128 <= procs[sched.cur].exitStatus <= 127 && (status - procs[sched.cur].exitStatus) % 256 == 0
    {
      hide W.Inv, K.Inv, K.Core;
      P.ToInt8IsStatus(status);
      W.InvParts(View());
      W.AllAreListed(View());
      ghost var w := View();
      var me := sched.cur;
      var was := procs;
      procs := procs[me := procs[me].(exitStatus := P.ToInt8(status), mode := P.Exiting)];
      AdoptChildren(me);
      adopted := adopted + set t | t in was && was[t].parent == Some(me) && W.Hangs(w, t) :: was[t].serial;
      forall t | t in was ensures procs[t] == W.ExitBegins(w, status).value.procs[t] { }
      assert procs == W.ExitBegins(w, status).value.procs;
    }

    /** sys_exit after release_prog_resource. */
    method ExitEnds()
      requires W.Inv(View()) && W.Enabled(View(), W.ExitEnd)
      modifies this, sched
      ensures W.ExitEnds(old(View())) == Some(View())
      ensures K.StatusOf(sched.View(), old(sched.cur)) == K.Hanging && procs == old(procs)
      ensures var parent := old(W.Of(View(), sched.cur).parent);
              parent.Some? && (old(K.StatusOf(sched.View(), parent.value)) == K.Waiting ==> sched.cur == parent.value)
    {
      hide W.Inv, K.Inv, K.Core, K.Block;
      W.ParentRunsNext(View());
      W.InvParts(View());
      W.ExitFacts(View());
      var me := sched.cur;
      exits := exits[procs[me].serial := procs[me].exitStatus];
      var parent := procs[me].parent.value;
      if sched.status[parent] == K.Waiting {
        sched.Unblock(parent);
      }
      sched.Block(K.Hanging);
    }

    method Fork(child: Tid)
      requires W.Inv(View()) && W.Enabled(View(), W.Forks(child))
      modifies this, sched
      ensures W.Next(old(View()), W.Forks(child)) == Some(View())
      ensures child in procs && procs[child].parent == Some(old(sched.cur)) && procs[child].mode == P.User
      ensures child in sched.priority && child in sched.ticks
      ensures sched.priority[child] == sched.ticks[child] == old(K.PriorityOf(sched.View(), sched.cur))
      ensures sched.ready == old(sched.ready) + [child] && sched.cur == old(sched.cur) && procs - {child} == old(procs) - {child}
    {
      hide W.Inv, K.Inv, K.Start;
      W.InvParts(View());
      var me := sched.cur;
      procs := procs[child := P.Proc(Some(me), procs[me].exitStatus, P.User, next)];
      next := next + 1;
      sched.Start(child, sched.priority[me]);
    }
  }
}
