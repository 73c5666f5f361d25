/** Sleeping and waking in device/ioqueue.c with one producer and one consumer. Interrupts are off in all of this code, so
    an event is a stretch that ends when its thread sleeps or returns. A sleeper in ioq_wait still holds the queue's lock. */
module IoQueueProtocol {

  type Byte = bv8

  datatype Who = Producer | Consumer

  /** Outside the queue's code; in sema_down of the lock; or in ioq_wait, holding the lock. `asleep`: not yet woken. */
  datatype Pc = Out | WantsLock(asleep: bool) | InWait(asleep: bool)

  /** `pending` is the byte a producer inside ioq_putchar is to put. `ins` and `outs` are the bytes put and taken so far. */
  datatype State = State(cap: nat, q: seq<Byte>, p: Pc, c: Pc, pending: Byte, ins: seq<Byte>, outs: seq<Byte>)

  function PcOf(s: State, w: Who): Pc {
    if w == Producer then s.p else s.c
  }

  function SetPc(s: State, w: Who, pc: Pc): State {
    if w == Producer then s.(p := pc) else s.(c := pc)
  }

  function Other(w: Who): Who {
    if w == Producer then Consumer else Producer
  }

  // ---------------------------------------------------------------- the code

  /** lock_acquire, then ioq_wait: the other holds the lock exactly when it is in ioq_wait. */
  function LockThenSleep(s: State, w: Who): State {
    if PcOf(s, Other(w)).InWait? then SetPc(s, w, WantsLock(true)) else SetPc(s, w, InWait(true))
  }

  /** wakeup of the other side, if it is recorded as a waiter. */
  function Wake(s: State, w: Who): State {
    if PcOf(s, w) == InWait(true) then SetPc(s, w, InWait(false)) else s
  }

  /** The loop of ioq_getchar or ioq_putchar, from the test on. */
  function Turn(s: State, w: Who): State {
    match w
    case Consumer =>
      if s.q == [] then LockThenSleep(s, Consumer)
      else Wake(s.(q := s.q[1..], outs := s.outs + [s.q[0]], c := Out), Producer)
    case Producer =>
      if |s.q| == s.cap then LockThenSleep(s, Producer)
      else Wake(s.(q := s.q + [s.pending], ins := s.ins + [s.pending], p := Out), Consumer)
  }

  /** lock_release wakes whoever sleeps in the lock's sema_down. */
  function Release(s: State, w: Who): State {
    var s1 := SetPc(s, w, Out);
    if PcOf(s, Other(w)) == WantsLock(true) then SetPc(s1, Other(w), WantsLock(false)) else s1
  }

  /** A woken thread gets the CPU: out of ioq_wait it releases the lock and tests again; out of sema_down it takes the
      lock if it is free, and goes to sleep in ioq_wait without testing again. */
  function Resume(s: State, w: Who): State {
    if PcOf(s, w).InWait? then Turn(Release(s, w), w) else LockThenSleep(s, w)
  }

  datatype Event = Get | Put(b: Byte) | Runs(w: Who)

  predicate Enabled(s: State, e: Event) {
    match e
    case Get => s.c.Out?
    case Put(_) => s.p.Out?
    case Runs(w) => PcOf(s, w) == WantsLock(false) || PcOf(s, w) == InWait(false)
  }

  function Next(s: State, e: Event): State {
    match e
    case Get => Turn(s, Consumer)
    case Put(b) => Turn(s.(pending := b), Producer)
    case Runs(w) => Resume(s, w)
  }

  function Initial(cap: nat): State {
    State(cap, [], Out, Out, 0, [], [])
  }

  predicate Legal(s: State, es: seq<Event>)
    decreases es
  {
    es == [] || (Enabled(s, es[0]) && Legal(Next(s, es[0]), es[1..]))
  }

  function Run(s: State, es: seq<Event>): State
    decreases es
  {
    if es == [] then s else Run(Next(s, es[0]), es[1..])
  }

  // ---------------------------------------------------------------- on every run

  /** First in, first out; never more than the capacity; and never both in ioq_wait. */
  ghost predicate Inv(s: State) {
    && s.ins == s.outs + s.q && |s.q| <= s.cap
    && !(s.p.InWait? && s.c.InWait?)
    && (s.p == WantsLock(true) ==> s.c.InWait?) && (s.c == WantsLock(true) ==> s.p.InWait?)
  }

  lemma TurnKeeps(s: State, w: Who)
    requires Inv(s) && PcOf(s, w).Out?
    ensures Inv(Turn(s, w))
  {
    if w == Consumer && s.q != [] {
      assert s.outs + s.q == (s.outs + [s.q[0]]) + s.q[1..];
    } else if w == Producer && |s.q| < s.cap {
      assert (s.outs + s.q) + [s.pending] == s.outs + (s.q + [s.pending]);
    }
  }

  lemma EventKeeps(s: State, e: Event)
    requires Inv(s) && Enabled(s, e)
    ensures Inv(Next(s, e))
  {
    match e
    case Get => TurnKeeps(s, Consumer);
    case Put(b) => TurnKeeps(s.(pending := b), Producer);
    case Runs(w) => if PcOf(s, w).InWait? { TurnKeeps(Release(s, w), w); }
  }

  lemma {:induction false} RunIsFifo(s: State, es: seq<Event>)
    requires Inv(s) && Legal(s, es)
    ensures Inv(Run(s, es))
    decreases |es|
  {
    if es != [] {
      EventKeeps(s, es[0]);
      RunIsFifo(Next(s, es[0]), es[1..]);
    }
  }

  // ---------------------------------------------------------------- what goes in is what was put

  /** The bytes of the calls of ioq_putchar, in their order. */
  function PutBytes(es: seq<Event>): seq<Byte> {
    if es == [] then [] else (if es[0].Put? then [es[0].b] else []) + PutBytes(es[1..])
  }

  /** How often ioq_getchar was called. */
  function GetCalls(es: seq<Event>): nat {
    if es == [] then 0 else (if es[0].Get? then 1 else 0) + GetCalls(es[1..])
  }

  /** What is in, and behind it the byte of a put that is under way. */
  function Given(s: State): seq<Byte> {
    s.ins + if s.p.Out? then [] else [s.pending]
  }

  /** How many bytes are out, and one more for a get that is under way. */
  function Wanted(s: State): nat {
    |s.outs| + if s.c.Out? then 0 else 1
  }

  lemma ConsumerGives(s: State)
    requires s.c.Out?
    ensures Given(Turn(s, Consumer)) == Given(s) && Wanted(Turn(s, Consumer)) == Wanted(s) + 1
  {
  }

  lemma ProducerGives(s: State)
    requires s.p.Out?
    ensures Given(Turn(s, Producer)) == s.ins + [s.pending] && Wanted(Turn(s, Producer)) == Wanted(s)
  {
  }

  lemma SleepGives(s: State, w: Who)
    requires !PcOf(s, w).Out?
    ensures Given(LockThenSleep(s, w)) == Given(s) && Wanted(LockThenSleep(s, w)) == Wanted(s)
  {
  }

  lemma ReleaseGives(s: State, w: Who)
    ensures var t := Release(s, w);
            && PcOf(t, w).Out? && PcOf(t, Other(w)).Out? == PcOf(s, Other(w)).Out?
            && t.ins == s.ins && t.outs == s.outs && t.pending == s.pending
  {
  }

  lemma ResumeGives(s: State, w: Who)
    requires !PcOf(s, w).Out?
    ensures Given(Resume(s, w)) == Given(s) && Wanted(Resume(s, w)) == Wanted(s)
  {
    hide Turn, Release, LockThenSleep;
    if PcOf(s, w).InWait? {
      ReleaseGives(s, w);
      if w == Consumer { ConsumerGives(Release(s, w)); } else { ProducerGives(Release(s, w)); }
    } else {
      SleepGives(s, w);
    }
  }

  lemma EventGives(s: State, e: Event)
    requires Enabled(s, e)
    ensures Given(Next(s, e)) == Given(s) + if e.Put? then [e.b] else []
    ensures Wanted(Next(s, e)) == Wanted(s) + if e.Get? then 1 else 0
  {
    hide Turn, Resume;
    match e
    case Get => ConsumerGives(s);
    case Put(b) => ProducerGives(s.(pending := b));
    case Runs(w) => ResumeGives(s, w);
  }

  /** Over any run the bytes that go in are those of the calls, in that order, less the last one exactly while its call
      has not returned; and every call of ioq_getchar takes one, but for one that has not returned. */
  lemma {:induction false} RunGives(s: State, es: seq<Event>)
    requires Legal(s, es)
    ensures Given(Run(s, es)) == Given(s) + PutBytes(es)
    ensures Wanted(Run(s, es)) == Wanted(s) + GetCalls(es)
    decreases |es|
  {
    if es == [] {
      assert Given(s) + [] == Given(s);
    } else {
      hide Next, Enabled, Given, Wanted;
      EventGives(s, es[0]);
      RunGives(Next(s, es[0]), es[1..]);
      assert forall a: seq<Byte>, b: seq<Byte>, c: seq<Byte> :: (a + b) + c == a + (b + c);
    }
  }

  /** From an empty queue on: what came out, what is in the ring and the byte still to be put are together the bytes of the
      calls of ioq_putchar. */
  lemma OutIsPut(cap: nat, es: seq<Event>)
    requires Legal(Initial(cap), es)
    ensures var t := Run(Initial(cap), es);
            && t.outs + t.q + (if t.p.Out? then [] else [t.pending]) == PutBytes(es)
            && t.outs <= PutBytes(es)
            && |t.outs| + (if t.c.Out? then 0 else 1) == GetCalls(es)
  {
    RunIsFifo(Initial(cap), es);
    RunGives(Initial(cap), es);
  }

  // ---------------------------------------------------------------- who may sleep, and why

  predicate Asleep(s: State, w: Who) {
    PcOf(s, w) == WantsLock(true) || PcOf(s, w) == InWait(true)
  }

  /** Both asleep: nothing can happen any more. */
  predicate Stuck(s: State) {
    Asleep(s, Producer) && Asleep(s, Consumer)
  }

  /** The producer of the keyboard asks ioq_full first; the consumer of a pipe asks ioq_length first. */
  predicate Careful(s: State, es: seq<Event>, w: Who)
    decreases es
  {
    es == [] ||
    ((w == Producer && es[0].Put? ==> |s.q| < s.cap) && (w == Consumer && es[0].Get? ==> s.q != []) &&
     Careful(Next(s, es[0]), es[1..], w))
  }

  /** A careful side never sleeps, and the other sleeps only with reason: a consumer over an empty queue, a producer over
      a full one; and a woken one has something to do. */
  ghost predicate Reasonable(s: State, w: Who) {
    && PcOf(s, w).Out?
    && !PcOf(s, Other(w)).WantsLock?
    && (w == Producer && s.c == InWait(true) ==> s.q == [])
    && (w == Consumer && s.p == InWait(true) ==> |s.q| == s.cap)
  }

  lemma {:induction false} CarefulRunsAreReasonable(s: State, es: seq<Event>, w: Who)
    requires Reasonable(s, w) && s.cap >= 1 && Legal(s, es) && Careful(s, es, w)
    ensures Reasonable(Run(s, es), w) && !Stuck(Run(s, es))
    decreases |es|
  {
    if es != [] {
      CarefulRunsAreReasonable(Next(s, es[0]), es[1..], w);
    }
  }

  // ---------------------------------------------------------------- the two that call it

  /** A pipe. Its reader asks ioq_length once and then takes that many bytes at most; `left` are still to be taken. */
  datatype PipeState = PipeState(queue: State, left: nat)

  datatype PipeEvent = Starts(count: nat) | Takes | Writes(b: Byte) | Resumes(w: Who)

  predicate PipeEnabled(s: PipeState, e: PipeEvent) {
    match e
    case Starts(_) => s.queue.c.Out? && s.left == 0
    case Takes => s.queue.c.Out? && s.left > 0
    case Writes(b) => Enabled(s.queue, Put(b))
    case Resumes(w) => Enabled(s.queue, Runs(w))
  }

  function PipeNext(s: PipeState, e: PipeEvent): PipeState {
    match e
    case Starts(count) => s.(left := if |s.queue.q| > count then count else |s.queue.q|)
    case Takes => PipeState(Next(s.queue, Get), if s.left == 0 then 0 else s.left - 1)
    case Writes(b) => s.(queue := Next(s.queue, Put(b)))
    case Resumes(w) => s.(queue := Next(s.queue, Runs(w)))
  }

  predicate PipeLegal(s: PipeState, es: seq<PipeEvent>)
    decreases es
  {
    es == [] || (PipeEnabled(s, es[0]) && PipeLegal(PipeNext(s, es[0]), es[1..]))
  }

  function PipeRun(s: PipeState, es: seq<PipeEvent>): PipeState
    decreases es
  {
    if es == [] then s else PipeRun(PipeNext(s, es[0]), es[1..])
  }

  ghost predicate PipeInv(s: PipeState) {
    Inv(s.queue) && s.queue.cap >= 1 && Reasonable(s.queue, Consumer) && s.left <= |s.queue.q|
  }

  lemma PipeEventKeeps(s: PipeState, e: PipeEvent)
    requires PipeInv(s) && PipeEnabled(s, e)
    ensures PipeInv(PipeNext(s, e))
  {
    match e
    case Starts(_) =>
    case Takes =>
      EventKeeps(s.queue, Get);
    case Writes(b) =>
      EventKeeps(s.queue, Put(b));
    case Resumes(w) =>
      EventKeeps(s.queue, Runs(w));
  }

  /** A pipe never hangs for good: its reader never sleeps, and its writer only while the queue is full. */
  lemma {:induction false} PipesNeverGetStuck(s: PipeState, es: seq<PipeEvent>)
    requires PipeInv(s) && PipeLegal(s, es)
    ensures PipeInv(PipeRun(s, es)) && !Stuck(PipeRun(s, es).queue)
    ensures PipeRun(s, es).queue.p == InWait(true) ==> |PipeRun(s, es).queue.q| == s.queue.cap
    decreases |es|
  {
    if es != [] {
      PipeEventKeeps(s, es[0]);
      PipesNeverGetStuck(PipeNext(s, es[0]), es[1..]);
    }
  }

  /** The bytes that a pipe's writers put, in their order. */
  function WrittenBytes(es: seq<PipeEvent>): seq<Byte> {
    if es == [] then [] else (if es[0].Writes? then [es[0].b] else []) + WrittenBytes(es[1..])
  }

  lemma {:induction false} PipeRunGives(s: PipeState, es: seq<PipeEvent>)
    requires PipeLegal(s, es)
    ensures Given(PipeRun(s, es).queue) == Given(s.queue) + WrittenBytes(es)
    decreases |es|
  {
    if es == [] {
      assert Given(s.queue) + [] == Given(s.queue);
    } else {
      hide Next, Enabled, Given, Wanted;
      match es[0] {
        case Starts(_) =>
        case Takes => PipeTakes(s);
        case Writes(b) => EventGives(s.queue, Put(b));
        case Resumes(w) => EventGives(s.queue, Runs(w));
      }
      PipeRunGives(PipeNext(s, es[0]), es[1..]);
      assert forall a: seq<Byte>, b: seq<Byte>, c: seq<Byte> :: (a + b) + c == a + (b + c);
    }
  }

  lemma PipeTakes(s: PipeState)
    requires s.queue.c.Out?
    ensures Given(Next(s.queue, Get)) == Given(s.queue)
  {
    EventGives(s.queue, Get);
  }

  /** What comes out of a pipe is what was written, in order: on an empty pipe, all that is not out yet is in the ring,
      but for a byte whose writer sleeps. */
  lemma PipeOutIsWritten(cap: nat, es: seq<PipeEvent>)
    requires cap >= 1 && PipeLegal(PipeState(Initial(cap), 0), es)
    ensures var t := PipeRun(PipeState(Initial(cap), 0), es).queue;
            t.outs + t.q + (if t.p.Out? then [] else [t.pending]) == WrittenBytes(es)
  {
    PipesNeverGetStuck(PipeState(Initial(cap), 0), es);
    PipeRunGives(PipeState(Initial(cap), 0), es);
  }

  /** The keyboard. Its handler asks ioq_full and drops the key if so; its readers call ioq_getchar at any time. */
  datatype KeyEvent = Key(b: Byte) | Reads | ReaderRuns

  predicate KeyEnabled(s: State, e: KeyEvent) {
    match e
    case Key(_) => true
    case Reads => Enabled(s, Get)
    case ReaderRuns => Enabled(s, Runs(Consumer))
  }

  function KeyNext(s: State, e: KeyEvent): State {
    match e
    case Key(b) => if |s.q| == s.cap then s else Next(s, Put(b))
    case Reads => Next(s, Get)
    case ReaderRuns => Next(s, Runs(Consumer))
  }

  predicate KeyLegal(s: State, es: seq<KeyEvent>)
    decreases es
  {
    es == [] || (KeyEnabled(s, es[0]) && KeyLegal(KeyNext(s, es[0]), es[1..]))
  }

  function KeyRun(s: State, es: seq<KeyEvent>): State
    decreases es
  {
    if es == [] then s else KeyRun(KeyNext(s, es[0]), es[1..])
  }

  /** The handler never sleeps, and the reader only while there is no key. */
  lemma {:induction false} KeyboardsNeverGetStuck(s: State, es: seq<KeyEvent>)
    requires Inv(s) && s.cap >= 1 && Reasonable(s, Producer) && KeyLegal(s, es)
    ensures var t := KeyRun(s, es); Inv(t) && Reasonable(t, Producer) && !Stuck(t) && (t.c == InWait(true) ==> t.q == [])
    decreases |es|
  {
    if es != [] {
      match es[0] {
        case Key(b) => if |s.q| < s.cap { EventKeeps(s, Put(b)); }
        case Reads => EventKeeps(s, Get);
        case ReaderRuns => EventKeeps(s, Runs(Consumer));
      }
      KeyboardsNeverGetStuck(KeyNext(s, es[0]), es[1..]);
    }
  }

  /** The keys that found room when they were pressed. */
  function KeptKeys(s: State, es: seq<KeyEvent>): seq<Byte>
    decreases es
  {
    if es == [] then [] else (if es[0].Key? && |s.q| < s.cap then [es[0].b] else []) + KeptKeys(KeyNext(s, es[0]), es[1..])
  }

  lemma {:induction false} KeyRunGives(s: State, es: seq<KeyEvent>)
    requires Inv(s) && s.cap >= 1 && Reasonable(s, Producer) && KeyLegal(s, es)
    ensures KeyRun(s, es).ins == s.ins + KeptKeys(s, es)
    decreases |es|
  {
    if es == [] {
      assert s.ins + [] == s.ins;
    } else {
      var rest := es[1..];
      KeyEventGives(s, es[0]);
      hide Inv, Reasonable, KeyNext, KeyEnabled;
      KeyRunGives(KeyNext(s, es[0]), rest);
      assert forall a: seq<Byte>, b: seq<Byte>, c: seq<Byte> :: (a + b) + c == a + (b + c);
    }
  }

  lemma KeyEventGives(s: State, e: KeyEvent)
    requires Inv(s) && s.cap >= 1 && Reasonable(s, Producer) && KeyEnabled(s, e)
    ensures var t := KeyNext(s, e);
            && Inv(t) && t.cap == s.cap && Reasonable(t, Producer)
            && t.ins == s.ins + if e.Key? && |s.q| < s.cap then [e.b] else []
  {
    match e
    case Key(b) => if |s.q| < s.cap { EventKeeps(s, Put(b)); }
    case Reads => EventKeeps(s, Get);
    case ReaderRuns => EventKeeps(s, Runs(Consumer));
  }

  /** Readers of the keyboard get the keys that found room, in the order in which they were pressed. */
  lemma KeysComeOutInOrder(cap: nat, es: seq<KeyEvent>)
    requires cap >= 1 && KeyLegal(Initial(cap), es)
    ensures var t := KeyRun(Initial(cap), es); t.outs + t.q == KeptKeys(Initial(cap), es)
  {
    KeyboardsNeverGetStuck(Initial(cap), es);
    KeyRunGives(Initial(cap), es);
  }

  // ---------------------------------------------------------------- exactly when both sleep for good

  /** Whether a thread that runs now goes to sleep in the end: it has found the queue empty or full, or it comes out of the
      lock's sema_down, after which the source does not look at the queue again. */
  predicate GoesToSleep(s: State, e: Event) {
    match e
    case Get => s.q == []
    case Put(_) => |s.q| == s.cap
    case Runs(w) => PcOf(s, w) == WantsLock(false)
  }

  function By(e: Event): Who {
    match e case Get => Consumer case Put(_) => Producer case Runs(w) => w
  }

  /** The other side is recorded as a waiter, so it sleeps with the lock. */
  predicate Fatal(s: State, e: Event) {
    PcOf(s, Other(By(e))) == InWait(true) && GoesToSleep(s, e)
  }

  /** One event leads to both sleeping exactly when it is fatal. */
  lemma StuckIffFatal(s: State, e: Event)
    requires Inv(s) && Enabled(s, e) && !Stuck(s)
    ensures Stuck(Next(s, e)) <==> Fatal(s, e)
  {
  }

  /** When both sleep nothing can happen any more. */
  lemma StuckIsFinal(s: State, e: Event)
    requires Stuck(s)
    ensures !Enabled(s, e)
  {
  }

  lemma {:induction false} RunTwice(s: State, es: seq<Event>, fs: seq<Event>)
    ensures Run(s, es + fs) == Run(Run(s, es), fs)
    ensures Legal(s, es + fs) <==> Legal(s, es) && Legal(Run(s, es), fs)
    decreases |es|
  {
    if es == [] {
      assert es + fs == fs;
    } else {
      assert (es + fs)[1..] == es[1..] + fs;
      RunTwice(Next(s, es[0]), es[1..], fs);
    }
  }

  /** A run ends with both asleep exactly when its last event is fatal. */
  lemma StuckRunIff(s: State, es: seq<Event>)
    requires Inv(s) && !Stuck(s) && Legal(s, es)
    ensures Stuck(Run(s, es)) <==> es != [] && Fatal(Run(s, es[..|es| - 1]), es[|es| - 1])
  {
    if es != [] {
      var n := |es| - 1;
      var t, last := Run(s, es[..n]), es[n];
      assert es == es[..n] + [last];
      RunTwice(s, es[..n], [last]);
      assert [last][1..] == [];
      assert Legal(t, [last]) && Run(t, [last]) == Next(t, last);
      RunIsFifo(s, es[..n]);
      if Stuck(t) {
        StuckIsFinal(t, last);
        assert false;
      }
      StuckIffFatal(t, last);
    }
  }

  // ---------------------------------------------------------------- and that it happens, whatever the capacity

  function Puts(n: nat, b: Byte): seq<Event> {
    if n == 0 then [] else [Put(b)] + Puts(n - 1, b)
  }

  function Gets(n: nat): seq<Event> {
    if n == 0 then [] else [Get] + Gets(n - 1)
  }

  /** Puts that find room. */
  lemma {:induction false} PutsFill(s: State, n: nat, b: Byte)
    requires s.p.Out? && s.c == InWait(false) && |s.q| + n <= s.cap
    ensures Legal(s, Puts(n, b))
    ensures var t := Run(s, Puts(n, b)); t.p.Out? && t.c == InWait(false) && |t.q| == |s.q| + n && t.cap == s.cap
    decreases n
  {
    if n > 0 {
      assert Puts(n, b)[1..] == Puts(n - 1, b);
      PutsFill(Next(s, Put(b)), n - 1, b);
    }
  }

  /** Gets that find something, with a producer that wants the lock. */
  lemma {:induction false} GetsDrain(s: State, n: nat)
    requires s.c.Out? && s.p == WantsLock(false) && n <= |s.q|
    ensures Legal(s, Gets(n))
    ensures var t := Run(s, Gets(n)); t.c.Out? && t.p == WantsLock(false) && |t.q| == |s.q| - n && t.cap == s.cap
    decreases n
  {
    if n > 0 {
      assert Gets(n)[1..] == Gets(n - 1);
      GetsDrain(Next(s, Get), n - 1);
    }
  }

  /** The consumer sleeps over the empty queue; the producer fills the queue and wakes it, but sleeps for the lock with the
      next byte; the consumer takes a byte. */
  function Prelude(cap: nat, b: Byte): seq<Event> {
    [Get] + Puts(cap + 1, b) + [Runs(Consumer)]
  }

  lemma AfterPrelude(cap: nat, b: Byte)
    requires cap >= 1
    ensures Legal(Initial(cap), Prelude(cap, b))
    ensures var t := Run(Initial(cap), Prelude(cap, b)); t.c.Out? && t.p == WantsLock(false) && |t.q| == cap - 1 && t.cap == cap
  {
    var s2 := Next(Next(Initial(cap), Get), Put(b));
    FirstTwo(cap, b);
    PutsFill(s2, cap - 1, b);
    var rest := [Put(b), Runs(Consumer)];
    LastTwo(Run(s2, Puts(cap - 1, b)), b);
    RunTwice(s2, Puts(cap - 1, b), rest);
    RunTwice(Initial(cap), [Get, Put(b)], Puts(cap - 1, b) + rest);
    PutsSnoc(cap, b);
    assert Prelude(cap, b) == [Get, Put(b)] + (Puts(cap - 1, b) + rest);
  }

  /** The consumer sleeps, and the first byte wakes it. */
  lemma FirstTwo(cap: nat, b: Byte)
    requires cap >= 1
    ensures var t := Next(Next(Initial(cap), Get), Put(b));
            && Legal(Initial(cap), [Get, Put(b)]) && Run(Initial(cap), [Get, Put(b)]) == t
            && t.p.Out? && t.c == InWait(false) && |t.q| == 1 && t.cap == cap
  {
    var s1 := Next(Initial(cap), Get);
    assert s1.c == InWait(true);
    assert [Get, Put(b)][1..] == [Put(b)] && [Put(b)][1..] == [];
    var t := Next(s1, Put(b));
    assert Legal(t, []) && Run(t, []) == t;
    assert Legal(s1, [Put(b)]) && Run(s1, [Put(b)]) == t;
  }

  /** A put that finds the queue full, and the consumer's turn. */
  lemma LastTwo(s: State, b: Byte)
    requires s.p.Out? && s.c == InWait(false) && |s.q| == s.cap >= 1
    ensures var es := [Put(b), Runs(Consumer)]; var t := Run(s, es);
            Legal(s, es) && t.c.Out? && t.p == WantsLock(false) && |t.q| == s.cap - 1 && t.cap == s.cap
  {
    var s4 := Next(s, Put(b));
    assert s4.p == WantsLock(true);
    assert [Put(b), Runs(Consumer)][1..] == [Runs(Consumer)] && [Runs(Consumer)][1..] == [];
    assert Run(s4, [Runs(Consumer)]) == Next(s4, Runs(Consumer)) && Legal(s4, [Runs(Consumer)]);
  }

  lemma {:induction false} PutsSnoc(n: nat, b: Byte)
    ensures Puts(n + 1, b) == Puts(n, b) + [Put(b)]
    decreases n
  {
    if n > 0 {
      PutsSnoc(n - 1, b);
    }
  }

  /** ... The consumer empties the queue and sleeps with the lock, ahead of the producer. Then both sleep for good. */
  function FatalRun(cap: nat, b: Byte): seq<Event>
    requires cap >= 1
  {
    Prelude(cap, b) + (Gets(cap - 1) + [Get, Runs(Producer)])
  }

  lemma EveryQueueCanGetStuck(cap: nat, b: Byte)
    requires cap >= 1
    ensures Legal(Initial(cap), FatalRun(cap, b)) && Stuck(Run(Initial(cap), FatalRun(cap, b)))
  {
    AfterPrelude(cap, b);
    var s := Run(Initial(cap), Prelude(cap, b));
    GetsDrain(s, cap - 1);
    var t := Run(s, Gets(cap - 1));
    var rest := [Get, Runs(Producer)];
    assert rest[1..] == [Runs(Producer)] && [Runs(Producer)][1..] == [];
    var u := Next(t, Get);
    assert u.c == InWait(true) && Legal(u, [Runs(Producer)]);
    assert Run(u, [Runs(Producer)]) == Next(u, Runs(Producer));
    assert Run(t, rest) == Next(u, Runs(Producer)) && Legal(t, rest);
    RunTwice(s, Gets(cap - 1), rest);
    RunTwice(Initial(cap), Prelude(cap, b), Gets(cap - 1) + rest);
  }

  /** And a producer can go to sleep over a queue that is not full, because it does not test again. */
  lemma ProducerCanSleepOverRoom(cap: nat, b: Byte)
    requires cap >= 1
    ensures Legal(Initial(cap), Prelude(cap, b) + [Runs(Producer)])
    ensures var t := Run(Initial(cap), Prelude(cap, b) + [Runs(Producer)]); t.p == InWait(true) && |t.q| < t.cap
  {
    AfterPrelude(cap, b);
    var s := Run(Initial(cap), Prelude(cap, b));
    assert [Runs(Producer)][1..] == [];
    assert Run(s, [Runs(Producer)]) == Next(s, Runs(Producer)) && Legal(s, [Runs(Producer)]);
    RunTwice(Initial(cap), Prelude(cap, b), [Runs(Producer)]);
  }
}
