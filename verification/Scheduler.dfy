/** thread/thread.c and device/timer.c in their own form: fields changed in place. Each method does to the
    fields what the function of the same name in Threads does to their values, and no assertion of the source fails. */
module Scheduling {
  import opened Wrappers
  import T = Threads

  type Tid = T.Tid

  class Scheduler {
    var cur: Tid
    var idle: Tid
    var ready: seq<Tid>
    var all: seq<Tid>
    var status: map<Tid, T.Status>
    var priority: map<Tid, nat>
    var ticks: map<Tid, nat>

    ghost function View(): T.State
      reads this
    {
      T.State(cur, idle, ready, all, status, priority, ticks)
    }

    constructor (main: Tid, init: Tid, idle_: Tid)
      requires main != init && main != idle_ && init != idle_
      ensures View() == T.Initial(main, init, idle_) && T.Inv(View())
      ensures cur == main && ready == [init, idle_] && all == [init, main, idle_] && idle == idle_
      ensures priority == ticks == map[main := 31, init := 31, idle_ := 10]
    {
      cur, idle := main, idle_;
      ready, all := [init, idle_], [init, main, idle_];
      status := map[main := T.Running, init := T.Ready, idle_ := T.Ready];
      priority := map[main := 31, init := 31, idle_ := 10];
      ticks := map[main := 31, init := 31, idle_ := 10];
      new;
      T.InitialInv(main, init, idle_);
    }

    method Unblock(t: Tid)
      requires T.Core(View()) && T.Asleep(T.StatusOf(View(), t))
      modifies this
      ensures Some(View()) == T.Unblock(old(View()), t)
      ensures T.Core(View()) && (T.Inv(old(View())) ==> T.Inv(View()))
      ensures ready == [t] + old(ready) && status == old(status)[t := T.Ready] && cur == old(cur)
    {
      T.UnblockKeeps(View(), t);
      assert T.Asleep(status[t]);
      if status[t] != T.Ready {
        assert t !in ready;
        ready := [t] + ready;
        status := status[t := T.Ready];
      }
    }

    method Schedule()
      requires T.Schedulable(View())
      modifies this
      ensures Some(View()) == T.Schedule(old(View())) && T.Inv(View())
    {
      T.ScheduleKeeps(View());
      if cur in status && status[cur] == T.Running {
        assert cur !in ready;
        ready := ready + [cur];
        ticks := ticks[cur := priority[cur]];
        status := status[cur := T.Ready];
      }
      Switch();
    }

    /** The second half of schedule, up to the switch of stacks. */
    method Switch()
      requires T.Vacant(View())
      modifies this
      ensures Some(View()) == T.Switch(old(View()))
    {
      T.SwitchKeeps(View());
      if ready == [] {
        Unblock(idle);
      }
      var next := ready[0];
      ready := ready[1..];
      status := status[next := T.Running];
      cur := next;
    }

    method Yield()
      requires T.Inv(View())
      modifies this
      ensures Some(View()) == T.Yield(old(View())) && T.Inv(View())
      ensures [cur] + ready == old(ready) + [old(cur)] && ticks == old(ticks)
    {
      T.YieldGoesLast(View());
      T.RequeueKeeps(View(), T.TicksOf(View(), cur));
      assert ticks == ticks[cur := T.TicksOf(View(), cur)];
      assert cur !in ready;
      ready := ready + [cur];
      status := status[cur := T.Ready];
      Schedule();
    }

    method Block(how: T.Status)
      requires T.Inv(View()) && T.Asleep(how) && (cur == idle ==> how == T.Blocked)
      modifies this
      ensures Some(View()) == T.Block(old(View()), how) && T.Inv(View())
      ensures old(ready) != [] ==> [cur] + ready == old(ready) && T.StatusOf(View(), old(cur)) == how
      ensures old(ready) == [] ==> cur == idle && ready == []
      ensures old(cur != idle) ==> T.StatusOf(View(), old(cur)) == how
    {
      T.BlockLeavesTheCpu(View(), how);
      T.BlockKeeps(View(), how);
      status := status[cur := how];
      Schedule();
    }

    method Start(t: Tid, prio: nat)
      requires T.Inv(View()) && t !in status && prio >= 1
      modifies this
      ensures Some(View()) == T.Start(old(View()), t, prio) && T.Inv(View())
      ensures ready == old(ready) + [t] && all == old(all) + [t] && cur == old(cur)
      ensures status == old(status)[t := T.Ready] && ticks == old(ticks)[t := prio] && priority == old(priority)[t := prio]
    {
      T.StartKeeps(View(), t, prio);
      assert t !in ready && t !in all;
      status, priority, ticks := status[t := T.Ready], priority[t := prio], ticks[t := prio];
      ready := ready + [t];
      all := all + [t];
    }

    method Exit(t: Tid, needSchedule: bool)
      requires T.Inv(View()) && t != idle && t in status && (needSchedule <==> t == cur)
      modifies this
      ensures Some(View()) == T.Exit(old(View()), t, needSchedule) && T.Inv(View())
      ensures t !in ready && t !in all && t !in status
    {
      hide T.Inv, T.Vacant, T.Schedule, T.Schedulable, T.Without;
      T.ExitKeeps(View(), t, needSchedule);
      if needSchedule { T.EndedLeavesTheCpu(View()); } else { T.EndedIsGone(View(), t); }
      if t in ready {
        ready := T.Without(ready, t);
      } else {
        T.WithoutAbsent(ready, t);
      }
      all := T.Without(all, t);
      status, priority, ticks := status - {t}, priority - {t}, ticks - {t};
      if needSchedule {
        T.RemovedIsVacant(old(View()), t);
        Schedule();
      }
    }

    method TimerInterrupt()
      requires T.Inv(View())
      modifies this
      ensures Some(View()) == T.Tick(old(View())) && T.Inv(View())
      ensures old(T.TicksOf(View(), cur)) > 1 ==> cur == old(cur) && ready == old(ready) && T.TicksOf(View(), cur) == old(T.TicksOf(View(), cur)) - 1
      ensures old(T.TicksOf(View(), cur)) == 1 ==> [cur] + ready == old(ready) + [old(cur)]
    {
      hide T.Inv, T.Schedulable, T.Schedule;
      if T.TicksOf(View(), cur) == 1 { T.LastTick(View()); }
      T.RunningHasTicks(View());
      T.TickKeeps(View());
      T.InvIsSchedulable(View(), ticks[cur] - 1);
      ticks := ticks[cur := ticks[cur] - 1];
      if ticks[cur] == 0 {
        Schedule();
      }
    }
  }
}
