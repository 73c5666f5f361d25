/** thread/sync.c in its own form. The statements of lock_acquire and lock_release that other threads can come between
    are methods of their own; the ghost `pc` says which of them a thread has reached. */
module Locks {
  import opened Wrappers
  import K = Threads
  import Y = Sync
  import opened Scheduling

  class SyncState {
    const sched: Scheduler
    var sems: seq<Y.Sem>
    var locks: seq<Y.Lock>
    ghost var pc: map<Tid, Y.Pc>
    ghost var depth: map<(Tid, nat), nat>

    /** sema_init and lock_init: `n` locks, and lone semaphores with the given values. */
    constructor (s: Scheduler, n: nat, lone: seq<nat>)
      requires K.Inv(s.View()) && (forall t :: !K.Asleep(K.StatusOf(s.View(), t))) && (forall i | 0 <= i < |lone| :: lone[i] <= 1)
      ensures sched == s && View() == Y.Initial(s.View(), n, lone) && Y.Inv(View())
      ensures |locks| == n && |sems| == n + |lone| && forall l | 0 <= l < n :: locks[l] == Y.Lock(None, 0) && sems[l] == Y.Sem(1, [])
      ensures forall i | 0 <= i < |lone| :: sems[n + i] == Y.Sem(lone[i], [])
    {
      sched := s;
      sems := seq(n, _ => Y.Sem(1, [])) + seq(|lone|, i requires 0 <= i < |lone| => Y.Sem(lone[i], []));
      locks := seq(n, _ => Y.Lock(None, 0));
      pc, depth := map[], map[];
      new;
      Y.InitialInv(s.View(), n, lone);
    }

    ghost function View(): Y.Sys
      reads this, sched
    {
      Y.Sys(sched.View(), sems, locks, pc, depth)
    }

    ghost predicate Before(p: Y.Pc)
      reads this, sched
    {
      Y.Inv(View()) && Y.PcOf(View(), sched.cur) == p
    }

    /** One turn of the loop of sema_down; false when the thread went to sleep. */
    method SemaDownTurn(s: nat, ghost forLock: bool) returns (taken: bool)
      requires Y.Inv(View()) && Y.Entering(View(), s, forLock)
      modifies this, sched
      ensures Y.DownTurn(old(View()), s, forLock) == Some(View())
      ensures taken <==> old(sems[s].value) != 0
      ensures sems == old(sems)[s := Y.Sem(0, old(sems[s].waiters) + if taken then [] else [old(sched.cur)])]
    {
      Y.DownKeeps(View(), s, forLock);
      hide Y.Inv, K.Inv, K.Block;
      var me := sched.cur;
      var sem := sems[s];
      taken := sem.value != 0;
      if sem.value == 0 {
        assert me !in sem.waiters;
        sems := sems[s := sem.(waiters := sem.waiters + [me])];
        pc := pc[me := Y.InDown(s, forLock)];
        KernelInv();
        sched.Block(K.Blocked);
      } else {
        assert sem.value - 1 == 0 && sem.waiters + [] == sem.waiters;
        sems := sems[s := sem.(value := sem.value - 1)];
        pc := pc[me := if forLock then Y.AcqHolder(s) else Y.Normal];
      }
    }

    twostate lemma KernelInv()
      requires old(Y.Inv(View())) && old(sched.View()) == sched.View()
      ensures K.Inv(sched.View())
    {
    }

    method SemaUp(s: nat)
      requires Y.Inv(View()) && s < |sems| && sems[s].value == 0
      modifies this, sched
      ensures Y.SemaUp(old(View()), s) == Some(View())
      ensures K.Inv(sched.View()) && sched.cur == old(sched.cur)
      ensures old(sems[s].waiters) == [] ==> sems == old(sems)[s := Y.Sem(1, [])] && sched.View() == old(sched.View())
      ensures old(sems[s].waiters) != [] ==> sems == old(sems)[s := Y.Sem(1, old(sems[s].waiters)[1..])]
                                             && sched.ready == [old(sems[s].waiters[0])] + old(sched.ready)
    {
      hide Y.Inv, K.Inv, K.Unblock, K.Core;
      Y.SemaUpIsSafe(View(), s);
      var sem := sems[s];
      if sem.waiters != [] {
        sems := sems[s := sem.(waiters := sem.waiters[1..])];
        sched.Unblock(sem.waiters[0]);
      }
      sems := sems[s := sems[s].(value := sems[s].value + 1)];
      assert sems == old(sems)[s := Y.Sem(1, if sem.waiters == [] then [] else sem.waiters[1..])];
    }

    /** `holder != running_thread()`. */
    method AcquireTest(l: nat) returns (mine: bool)
      requires Y.Inv(View()) && Y.Enabled(View(), Y.Acquire(l))
      modifies this
      ensures View() == Y.AcquireTest(old(View()), l) && Y.Inv(View())
      ensures mine <==> Y.Holding(old(View()), sched.cur, l)
    {
      Y.AcquireKeeps(View(), l);
      Y.HolderIsHolding(View(), sched.cur, l);
      hide Y.Inv;
      mine := locks[l].holder == Some(sched.cur);
      pc := pc[sched.cur := if mine then Y.AcqInc(l) else Y.AcqDown(l)];
    }

    method AcquireSetHolder(l: nat)
      requires Before(Y.AcqHolder(l)) && l < |locks| <= |sems|
      modifies this
      ensures Y.Advance(old(View())) == Some(View()) && Y.Inv(View())
      ensures locks == old(locks)[l := old(locks[l]).(holder := Some(sched.cur))]
    {
      Y.StepKeeps(View());
      hide Y.Inv;
      locks := locks[l := locks[l].(holder := Some(sched.cur))];
      pc := pc[sched.cur := Y.AcqRepeat(l)];
    }

    method AcquireSetRepeat(l: nat)
      requires Before(Y.AcqRepeat(l)) && l < |locks| <= |sems|
      modifies this
      ensures Y.Advance(old(View())) == Some(View()) && Y.Inv(View())
      ensures locks == old(locks)[l := old(locks[l]).(repeat := 1)]
    {
      Y.StepKeeps(View());
      hide Y.Inv;
      assert locks[l].repeat == 0;
      locks := locks[l := locks[l].(repeat := 1)];
      pc := pc[sched.cur := Y.Normal];
      depth := depth[(sched.cur, l) := old(Y.DepthOf(View(), sched.cur, l)) + 1];
    }

    method AcquireAgain(l: nat)
      requires Before(Y.AcqInc(l)) && l < |locks| <= |sems|
      modifies this
      ensures Y.Advance(old(View())) == Some(View()) && Y.Inv(View())
      ensures locks == old(locks)[l := old(locks[l]).(repeat := old(locks[l].repeat) + 1)]
    {
      Y.StepKeeps(View());
      hide Y.Inv;
      locks := locks[l := locks[l].(repeat := locks[l].repeat + 1)];
      pc := pc[sched.cur := Y.Normal];
      depth := depth[(sched.cur, l) := old(Y.DepthOf(View(), sched.cur, l)) + 1];
    }

    /** The assertion on the holder, and `holder_repeat_nr > 1`. */
    method ReleaseTest(l: nat) returns (nested: bool)
      requires Y.Inv(View()) && Y.Enabled(View(), Y.Release(l))
      modifies this
      ensures Y.ReleaseTest(old(View()), l) == Some(View()) && Y.Inv(View())
      ensures nested <==> old(Y.DepthOf(View(), sched.cur, l)) > 1
    {
      Y.ReleaseKeeps(View(), l);
      Y.RepeatIsDepth(View(), l);
      hide Y.Inv;
      assert locks[l].holder == Some(sched.cur);
      nested := locks[l].repeat > 1;
      pc := pc[sched.cur := if nested then Y.RelDec(l) else Y.RelHolder(l)];
      depth := depth[(sched.cur, l) := old(Y.DepthOf(View(), sched.cur, l)) - 1];
    }

    method ReleaseOnce(l: nat)
      requires Before(Y.RelDec(l)) && l < |locks| <= |sems|
      modifies this
      ensures Y.Advance(old(View())) == Some(View()) && Y.Inv(View())
      ensures |locks| == |old(locks)| && locks == old(locks)[l := old(locks[l]).(repeat := locks[l].repeat)] && locks[l].repeat == old(locks[l].repeat) - 1
    {
      Y.StepKeeps(View());
      hide Y.Inv;
      locks := locks[l := locks[l].(repeat := locks[l].repeat - 1)];
      pc := pc[sched.cur := Y.Normal];
    }

    method ReleaseClearHolder(l: nat)
      requires Before(Y.RelHolder(l)) && l < |locks| <= |sems|
      modifies this
      ensures Y.Advance(old(View())) == Some(View()) && Y.Inv(View())
      ensures locks == old(locks)[l := old(locks[l]).(holder := None)]
    {
      Y.StepKeeps(View());
      hide Y.Inv;
      assert locks[l].repeat == 1;
      locks := locks[l := locks[l].(holder := None)];
      pc := pc[sched.cur := Y.RelRepeat(l)];
    }

    method ReleaseClearRepeat(l: nat)
      requires Before(Y.RelRepeat(l)) && l < |locks| <= |sems|
      modifies this
      ensures Y.Advance(old(View())) == Some(View()) && Y.Inv(View())
      ensures locks == old(locks)[l := old(locks[l]).(repeat := 0)]
    {
      Y.StepKeeps(View());
      hide Y.Inv;
      locks := locks[l := locks[l].(repeat := 0)];
      pc := pc[sched.cur := Y.RelUp(l)];
    }

    method ReleaseUp(l: nat)
      requires Before(Y.RelUp(l)) && l < |locks| <= |sems|
      modifies this, sched
      ensures Y.Advance(old(View())) == Some(View()) && Y.Inv(View())
    {
      hide Y.Inv, K.Inv, K.Unblock, Y.SemaUp;
      Y.StepKeeps(View());
      Y.ReleaseFindsZero(View(), l);
      SemaUp(l);
      pc := pc[sched.cur := Y.Normal];
    }
  }
}
