/** device/ioqueue.c with its lock and its two waiters around the ring: what IoQueueProtocol says of an abstract queue
    holds of the ring buffer, with room for one byte less than the buffer has. */
module SharedIoQueues {
  import opened Wrappers
  import opened IoQueues
  import P = IoQueueProtocol

  class SharedIoQueue {
    const ring: IoQueue
    /** Whether `producer` and `consumer` point to a thread. */
    var producer: bool
    var consumer: bool
    /** The holder of the queue's lock, and who sleeps in its sema_down. */
    var holder: Option<P.Who>
    var lockWaiter: Option<P.Who>
    ghost var p: P.Pc
    ghost var c: P.Pc
    /** The byte of the ioq_putchar under way. */
    var pending: Byte
    ghost var ins: seq<Byte>
    ghost var outs: seq<Byte>

    ghost predicate Valid()
      reads this, ring, ring.buf
    {
      && ring.Valid() && P.Inv(View())
      && producer == (p == P.InWait(true)) && consumer == (c == P.InWait(true))
      && holder == (if p.InWait? then Some(P.Producer) else if c.InWait? then Some(P.Consumer) else None)
      && lockWaiter == (if p == P.WantsLock(true) then Some(P.Producer)
                        else if c == P.WantsLock(true) then Some(P.Consumer) else None)
    }

    ghost function View(): P.State
      reads this, ring, ring.buf
      requires ring.Valid()
    {
      P.State(ring.buf.Length - 1, ring.Contents(), p, c, pending, ins, outs)
    }

    /** ioqueue_init, when there is memory for the buffer. */
    constructor (size: nat)
      requires size >= 1
      ensures Valid() && View() == P.Initial(size - 1) && fresh(ring) && fresh(ring.buf)
    {
      ring := new IoQueue(size);
      producer, consumer, holder, lockWaiter := false, false, None, None;
      p, c, pending, ins, outs := P.Out, P.Out, 0, [], [];
    }

    /** lock_acquire and ioq_wait, whose assertion holds: nobody else waits on this side. */
    method LockThenSleep(w: P.Who)
      requires Valid() && !P.PcOf(View(), w).InWait? && P.PcOf(View(), w) != P.WantsLock(true)
      modifies this
      ensures Valid() && View() == P.LockThenSleep(old(View()), w)
    {
      if holder != None {
        lockWaiter := Some(w);
        if w == P.Producer { p := P.WantsLock(true); } else { c := P.WantsLock(true); }
      } else if w == P.Producer {
        assert !producer;
        holder, producer, p := Some(w), true, P.InWait(true);
      } else {
        assert !consumer;
        holder, consumer, c := Some(w), true, P.InWait(true);
      }
    }

    method LockRelease(w: P.Who)
      requires Valid() && P.PcOf(View(), w) == P.InWait(false)
      modifies this
      ensures Valid() && View() == P.Release(old(View()), w)
    {
      assert holder == Some(w);
      holder := None;
      if lockWaiter == Some(P.Producer) {
        lockWaiter, p := None, P.WantsLock(false);
      } else if lockWaiter == Some(P.Consumer) {
        lockWaiter, c := None, P.WantsLock(false);
      }
      if w == P.Producer { p := P.Out; } else { c := P.Out; }
    }

    /** The loop of ioq_getchar from the test on, up to its return or to where it sleeps. */
    method GetTurn() returns (b: Option<Byte>)
      requires Valid() && c.Out?
      modifies this, ring, ring.buf
      ensures Valid() && View() == P.Turn(old(View()), P.Consumer)
      ensures b == if old(View()).q == [] then None else Some(old(View()).q[0])
    {
      P.TurnKeeps(View(), P.Consumer);
      hide P.Inv, IoQueue.Contents;
      var empty := ring.Empty();
      if empty {
        LockThenSleep(P.Consumer);
        return None;
      }
      var byte := ring.Take();
      outs, c := outs + [byte], P.Out;
      if producer {
        producer, p := false, P.InWait(false);
      }
      return Some(byte);
    }

    /** ... and that of ioq_putchar. */
    method PutTurn() returns (done: bool)
      requires Valid() && p.Out?
      modifies this, ring, ring.buf
      ensures Valid() && View() == P.Turn(old(View()), P.Producer)
      ensures done <==> |old(View()).q| < ring.buf.Length - 1
    {
      P.TurnKeeps(View(), P.Producer);
      hide P.Inv, IoQueue.Contents;
      var full := ring.Full();
      if full {
        LockThenSleep(P.Producer);
        return false;
      }
      ring.Place(pending);
      ins, p := ins + [pending], P.Out;
      if consumer {
        consumer, c := false, P.InWait(false);
      }
      return true;
    }

    method Getchar() returns (b: Option<Byte>)
      requires Valid() && P.Enabled(View(), P.Get)
      modifies this, ring, ring.buf
      ensures Valid() && View() == P.Next(old(View()), P.Get)
      ensures b == if old(View()).q == [] then None else Some(old(View()).q[0])
      ensures View().q == (if b == None then [] else old(View()).q[1..])
      ensures View().outs == old(View()).outs + (if b == None then [] else [b.value])
    {
      b := GetTurn();
    }

    method Putchar(b: Byte) returns (done: bool)
      requires Valid() && P.Enabled(View(), P.Put(b))
      modifies this, ring, ring.buf
      ensures Valid() && View() == P.Next(old(View()), P.Put(b))
      ensures done <==> |old(View()).q| < ring.buf.Length - 1
      ensures View().q == old(View()).q + if done then [b] else []
      ensures View().ins == old(View()).ins + if done then [b] else []
      ensures if done then View().p.Out? else P.Asleep(View(), P.Producer) && pending == b
    {
      pending := b;
      done := PutTurn();
    }

    /** A woken thread gets the CPU. */
    method Resume(w: P.Who) returns (got: Option<Byte>)
      requires Valid() && P.Enabled(View(), P.Runs(w))
      modifies this, ring, ring.buf
      ensures Valid() && View() == P.Next(old(View()), P.Runs(w))
      ensures View().outs == old(View()).outs + (if got == None then [] else [got.value])
      ensures w == P.Consumer ==>
                got == if old(c).InWait? && old(View()).q != [] then Some(old(View()).q[0]) else None
      ensures w == P.Consumer ==> View().q == if got == None then old(View()).q else old(View()).q[1..]
      ensures w == P.Producer ==> View().q == old(View()).q + if View().p.Out? then [old(pending)] else []
      ensures w == P.Producer ==> View().ins == old(View()).ins + if View().p.Out? then [old(pending)] else []
      ensures w == P.Producer ==> (View().p.Out? <==> old(p).InWait? && |old(View()).q| < ring.buf.Length - 1)
      ensures pending == old(pending)
    {
      got := None;
      if holder != Some(w) {
        LockThenSleep(w);
        return;
      }
      LockRelease(w);
      if w == P.Producer {
        var _ := PutTurn();
      } else {
        got := GetTurn();
      }
    }
  }
}
