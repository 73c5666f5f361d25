/** device/ioqueue.c and shell/pipe.c: the ring buffer and the pipe on top of it. Sleeping and the lock are in IoQueueProtocol. */
module IoQueues {

  type Byte = bv8

  /** PIPE_BUF_SIZE */
  const PIPE_BUF_SIZE: nat := 64

  class IoQueue {
    const buf: array<Byte>
    var head: nat
    var tail: nat

    ghost predicate Valid()
      reads this
    {
      head < buf.Length && tail < buf.Length
    }

    /** The bytes put and not yet taken, oldest first. */
    ghost function Contents(): seq<Byte>
      reads this, buf
      requires Valid()
    {
      if tail <= head then buf[tail..head] else buf[tail..] + buf[..head]
    }

    constructor (size: nat)
      requires size >= 1
      ensures Valid() && fresh(buf) && buf.Length == size && Contents() == []
    {
      buf := new Byte[size](_ => 0);
      head, tail := 0, 0;
    }

    function NextPos(pos: nat): (next: nat)
      requires pos < buf.Length
      ensures next == if pos == buf.Length - 1 then 0 else pos + 1
    {
      (pos + 1) % buf.Length
    }

    /** One slot always stays free. */
    method Full() returns (full: bool)
      requires Valid()
      ensures full <==> |Contents()| == buf.Length - 1
    {
      hide NextPos;
      full := NextPos(head) == tail;
    }

    method Empty() returns (empty: bool)
      requires Valid()
      ensures empty <==> Contents() == []
    {
      empty := head == tail;
    }

    method Length() returns (n: nat)
      requires Valid()
      ensures n == |Contents()| < buf.Length
    {
      if head >= tail {
        n := head - tail;
      } else {
        n := buf.Length - (tail - head);
      }
    }

    /** The part of ioq_getchar after its loop. */
    method Take() returns (b: Byte)
      requires Valid() && Contents() != []
      modifies this`tail
      ensures Valid() && [b] + Contents() == old(Contents())
    {
      hide NextPos;
      b := buf[tail];
      tail := NextPos(tail);
    }

    /** The part of ioq_putchar after its loop. */
    method Place(b: Byte)
      requires Valid() && |Contents()| < buf.Length - 1
      modifies this`head, buf
      ensures Valid() && Contents() == old(Contents()) + [b]
    {
      hide NextPos;
      buf[head] := b;
      head := NextPos(head);
    }

    /** pipe_read: never more than is there, so its calls of ioq_getchar never find the queue empty. */
    method PipeRead(count: nat) returns (out: seq<Byte>)
      requires Valid()
      modifies this`tail
      ensures Valid() && out + Contents() == old(Contents())
      ensures |out| == if count < |old(Contents())| then count else |old(Contents())|
    {
      hide IoQueue.Contents, NextPos;
      var len := Length();
      var size := if len > count then count else len;
      out := [];
      while |out| < size
        invariant Valid() && |out| <= size && out + Contents() == old(Contents())
      {
        ghost var was := Contents();
        assert was != [];
        var b := Take();
        assert out + ([b] + Contents()) == (out + [b]) + Contents();
        out := out + [b];
      }
    }

    /** pipe_write reckons with one more free slot than the queue has: it stops in ioq_putchar, asleep, exactly when the
        data would fill that slot. `written` bytes are in the queue by then. */
    method PipeWrite(data: seq<Byte>) returns (written: nat, asleep: bool)
      requires Valid() && buf.Length == PIPE_BUF_SIZE
      modifies this`head, buf
      ensures Valid() && written <= |data| && Contents() == old(Contents()) + data[..written]
      ensures asleep <==> |data| >= PIPE_BUF_SIZE - |old(Contents())|
      ensures written == if asleep then PIPE_BUF_SIZE - 1 - |old(Contents())| else |data|
    {
      hide IoQueue.Contents, NextPos;
      var len := Length();
      var left := PIPE_BUF_SIZE - len;
      var size := if left > |data| then |data| else left;
      written := 0;
      while written < size
        invariant Valid() && written <= size && Contents() == old(Contents()) + data[..written]
      {
        var full := Full();
        if full {
          return written, true;
        }
        Place(data[written]);
        assert data[..written + 1] == data[..written] + [data[written]];
        written := written + 1;
      }
      Bounded();
      return written, false;
    }

    lemma Bounded()
      requires Valid()
      ensures |Contents()| < buf.Length
    {
    }
  }
}
