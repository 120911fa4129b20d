/**
 * Any number of threads calling `queue_send` and `queue_recv` of lib/queue.c on one queue.
 *
 * A thread is a program counter; the queue's mutex, ring and clock are shared. A step is
 * one action of one thread, or the clock moving on. Waiting follows
 * `pthread_cond_timedwait` of IEEE Std 1003.1: releasing the mutex and falling asleep is
 * one step, a sleeper may wake for no reason, and the mutex is held again on return.
 */
module QueueProtocol {
  import opened Common
  import opened QueueRing
  import opened QueueTime

  type Tid = nat

  datatype Op<T> = Send(msg: T, timeout: int) | Recv(timeout: int)

  /** What `queue_send_wait` and `queue_recv_wait` set up before their loop. */
  datatype Wait = Wait(started: nat, deadline: Timespec)

  datatype Pc<T> =
    | Idle
    | Enter(op: Op<T>)                           // about to lock
    | First(op: Op<T>)                           // locked, first test of full or empty
    | Loop(op: Op<T>, wait: Wait, expired: bool) // locked, at the head of the wait loop
    | Asleep(op: Op<T>, wait: Wait)              // waiting on its condition variable
    | Woken(op: Op<T>, wait: Wait, expired: bool)// signalled, waiting for the mutex
    | Ready(op: Op<T>)                           // locked, room or data found
    | Copied(op: Op<T>, x: T)                    // locked, message copied
    | Advanced(op: Op<T>, x: T)                  // locked, pointer advanced
    | Counted(op: Op<T>, x: T)                   // locked, count updated
    | Notified(op: Op<T>, x: T)                  // locked, other side woken
  {
    /** Program points inside the critical section. */
    predicate Holds() {
      First? || Loop? || Ready? || Copied? || Advanced? || Counted? || Notified?
    }
  }

  /** A finished call, as its caller sees it. */
  datatype Event<T> =
    | Returned(tid: Tid, op: Op<T>, x: T)               // returned 0
    | GaveUp(tid: Tid, op: Op<T>, wait: Wait, at: nat)  // returned -1 at time `at`

  /**
   * `sent` and `received` record, in the order of the critical sections, which thread
   * put in and took out which message; `log` records the calls that have returned.
   */
  datatype State<T> = State(
    ring: Ring<T>,
    lock: Option<Tid>,
    pcs: map<Tid, Pc<T>>,
    clock: nat,
    sent: seq<(Tid, T)>,
    received: seq<(Tid, T)>,
    log: seq<Event<T>>
  )

  datatype Action<T> =
    | Tick(elapsed: nat)
    | Call(tid: Tid, op: Op<T>)
    | Lock(tid: Tid)
    | Test(tid: Tid)
    | Sleep(tid: Tid)
    | Spurious(tid: Tid)
    | Expire(tid: Tid)
    | Reacquire(tid: Tid)
    | Copy(tid: Tid)
    | Advance(tid: Tid)
    | Count(tid: Tid)
    | Notify(tid: Tid)
    | Unlock(tid: Tid)

  /** The condition a caller waits on: full for a sender, empty for a receiver. */
  predicate Blocked<T>(ring: Ring<T>, op: Op<T>) {
    if op.Send? then ring.Full() else ring.Empty()
  }

  predicate Enabled<T>(s: State<T>, a: Action<T>) {
    a.Tick? ||
    (a.tid in s.pcs &&
     var pc := s.pcs[a.tid];
     match a
     case Call(_, _) => pc.Idle?
     case Lock(_) => pc.Enter? && s.lock.None?
     case Test(_) => pc.First? || (pc.Loop? && !CanSleep(s.ring, pc))
     case Sleep(_) => pc.Loop? && CanSleep(s.ring, pc)
     case Spurious(_) => pc.Asleep?
     case Expire(_) => (pc.Asleep? || pc.Woken?) && s.clock >= pc.wait.deadline.Nanos()
     case Reacquire(_) => pc.Woken? && s.lock.None?
     case Copy(_) => pc.Ready? && s.ring.read < |s.ring.slots| && s.ring.write < |s.ring.slots|
     case Advance(_) => pc.Copied?
     case Count(_) => pc.Advanced? && (pc.op.Recv? ==> s.ring.avail > 0)
     case Notify(_) => pc.Counted?
     case Unlock(_) => pc.Notified?)
  }

  /** The wait loop goes round: still blocked, no error yet, and a deadline the wait accepts. */
  predicate CanSleep<T>(ring: Ring<T>, pc: Pc<T>)
    requires pc.Loop?
  {
    Blocked(ring, pc.op) && !pc.expired && pc.wait.deadline.Valid()
  }

  /** `pthread_cond_broadcast`: everyone asleep on the other side's condition is woken. */
  function WakeAll<T>(pcs: map<Tid, Pc<T>>, op: Op<T>): map<Tid, Pc<T>> {
    map t | t in pcs ::
      if pcs[t].Asleep? && pcs[t].op.Send? != op.Send?
      then Woken(pcs[t].op, pcs[t].wait, false) else pcs[t]
  }

  function Goto<T>(s: State<T>, t: Tid, pc: Pc<T>): State<T> {
    s.(pcs := s.pcs[t := pc])
  }

  /**
   * A test of the queue's state: the first one, which may start a wait, or one at the
   * head of the wait loop, which may end the call with an error. A deadline the wait
   * rejects counts as an error of the wait.
   */
  function Tested<T>(s: State<T>, t: Tid, pc: Pc<T>): State<T>
    requires pc.First? || (pc.Loop? && !CanSleep(s.ring, pc))
  {
    if !Blocked(s.ring, pc.op) then
      Goto(s, t, Ready(pc.op))
    else if pc.First? then
      Goto(s, t, Loop(pc.op, Wait(s.clock, Deadline(s.clock, pc.op.timeout)), false))
    else if !pc.expired then
      Goto(s, t, Loop(pc.op, pc.wait, true))
    else
      Goto(s, t, Idle).(lock := None, log := s.log + [GaveUp(t, pc.op, pc.wait, s.clock)])
  }

  function Next<T>(s: State<T>, a: Action<T>): State<T>
    requires Enabled(s, a)
  {
    if a.Tick? then s.(clock := s.clock + a.elapsed) else
    var t, pc := a.tid, s.pcs[a.tid];
    match a
    case Call(_, op) => Goto(s, t, Enter(op))
    case Lock(_) => Goto(s, t, First(pc.op)).(lock := Some(t))
    case Test(_) => Tested(s, t, pc)
    case Sleep(_) => Goto(s, t, Asleep(pc.op, pc.wait)).(lock := None)
    case Spurious(_) => Goto(s, t, Woken(pc.op, pc.wait, false))
    case Expire(_) => Goto(s, t, Woken(pc.op, pc.wait, true))
    case Reacquire(_) => Goto(s, t, Loop(pc.op, pc.wait, pc.expired)).(lock := Some(t))
    case Copy(_) =>
      if pc.op.Send? then Goto(s, t, Copied(pc.op, pc.op.msg)).(ring := s.ring.Store(pc.op.msg))
      else Goto(s, t, Copied(pc.op, s.ring.slots[s.ring.read]))
    case Advance(_) =>
      Goto(s, t, Advanced(pc.op, pc.x)).(
        ring := if pc.op.Send? then s.ring.AdvanceWrite() else s.ring.AdvanceRead())
    case Count(_) =>
      if pc.op.Send? then
        Goto(s, t, Counted(pc.op, pc.x)).(ring := s.ring.CountUp(), sent := s.sent + [(t, pc.x)])
      else
        Goto(s, t, Counted(pc.op, pc.x)).(ring := s.ring.CountDown(), received := s.received + [(t, pc.x)])
    case Notify(_) => s.(pcs := WakeAll(s.pcs, pc.op)[t := Notified(pc.op, pc.x)])
    case Unlock(_) =>
      Goto(s, t, Idle).(lock := None, log := s.log + [Returned(t, pc.op, pc.x)])
  }

  /** A new queue, empty, and threads that have not called it yet. */
  ghost predicate Init<T>(s: State<T>) {
    && |s.ring.slots| > 0 && s.ring.read == s.ring.write == s.ring.avail == 0
    && s.lock.None? && s.sent == [] && s.received == [] && s.log == []
    && forall t | t in s.pcs :: s.pcs[t].Idle?
  }

  /** An interleaving: a sequence of actions, each enabled when it is taken. */
  predicate Legal<T>(s: State<T>, actions: seq<Action<T>>)
    decreases |actions|
  {
    actions == [] || (Enabled(s, actions[0]) && Legal(Next(s, actions[0]), actions[1..]))
  }

  /** The state an interleaving leads to. */
  function Run<T>(s: State<T>, actions: seq<Action<T>>): State<T>
    requires Legal(s, actions)
    decreases |actions|
  {
    if actions == [] then s else Run(Next(s, actions[0]), actions[1..])
  }

  // ---------------------------------------------------------------------
  // Mutual exclusion
  // ---------------------------------------------------------------------

  /** The mutex is held by exactly the one thread that is inside the critical section. */
  ghost predicate Mutex<T>(s: State<T>) {
    && (s.lock.Some? ==> s.lock.value in s.pcs)
    && forall t | t in s.pcs :: s.pcs[t].Holds() <==> s.lock == Some(t)
  }

  lemma MutexStep<T>(s: State<T>, a: Action<T>)
    requires Mutex(s) && Enabled(s, a)
    ensures Mutex(Next(s, a))
  {
  }

  /** The program counter of whoever holds the mutex. */
  function Owner<T>(s: State<T>): Pc<T> {
    if s.lock.Some? && s.lock.value in s.pcs then s.pcs[s.lock.value] else Idle
  }

  // ---------------------------------------------------------------------
  // First in, first out, exactly once
  // ---------------------------------------------------------------------

  /** The slot before `i`, going round at the start. */
  function Previous(i: nat, n: nat): nat {
    if i > 0 then i - 1 else if n > 0 then n - 1 else 0
  }

  /** The read index as it was before a receive in progress moved it. */
  function Base<T>(s: State<T>): nat {
    var owner := Owner(s);
    if owner.Advanced? && owner.op.Recv? then Previous(s.ring.read, |s.ring.slots|) else s.ring.read
  }

  /** The ring, allowing for what the owner of the mutex has done so far. */
  ghost predicate RingOk<T>(s: State<T>) {
    var r, n, base, owner := s.ring, |s.ring.slots|, Base(s), Owner(s);
    && r.read < n && r.write < n && r.avail <= n && base < n
    && r.write == Wrap(base + r.avail + (if owner.Advanced? && owner.op.Send? then 1 else 0), n)
    && (owner.Ready? || owner.Copied? || owner.Advanced? ==> !Blocked(r, owner.op))
    && ((owner.Copied? || owner.Advanced?) && owner.op.Send? ==>
          r.slots[Wrap(base + r.avail, n)] == owner.x)
    && ((owner.Copied? || owner.Advanced?) && owner.op.Recv? ==>
          r.slots[base] == owner.x)
  }

  /** The messages a history records, without the threads. */
  function Messages<T>(h: seq<(Tid, T)>): (m: seq<T>)
    ensures |m| == |h| && forall i | 0 <= i < |h| :: m[i] == h[i].1
  {
    seq(|h|, i requires 0 <= i < |h| => h[i].1)
  }

  /** What was sent is what was received followed by what is queued, in order. */
  ghost predicate Fifo<T>(s: State<T>) {
    RingOk(s) && Messages(s.sent) == Messages(s.received) + Window(s.ring.slots, Base(s), s.ring.avail)
  }

  lemma OwnerIs<T>(s: State<T>, t: Tid)
    requires Mutex(s) && t in s.pcs && s.pcs[t].Holds()
    ensures s.lock == Some(t) && Owner(s) == s.pcs[t]
  {
  }

  /** A step that is no copy, advance or count leaves the ring, and what is said about it, alone. */
  lemma RingOkQuiet<T>(s: State<T>, a: Action<T>)
    requires Mutex(s) && RingOk(s) && Enabled(s, a) && !a.Copy? && !a.Advance? && !a.Count?
    ensures RingOk(Next(s, a)) && Base(Next(s, a)) == Base(s)
  {
    MutexStep(s, a);
    if !a.Tick? && s.pcs[a.tid].Holds() {
      OwnerIs(s, a.tid);
    }
  }

  lemma RingOkTouch<T>(s: State<T>, a: Action<T>)
    requires Mutex(s) && RingOk(s) && Enabled(s, a) && (a.Copy? || a.Advance? || a.Count?)
    ensures RingOk(Next(s, a))
    ensures !a.Count? ==> Base(Next(s, a)) == Base(s)
  {
    OwnerIs(s, a.tid);
    MutexStep(s, a);
    OwnerIs(Next(s, a), a.tid);
    hide Mutex;
  }

  lemma RingOkStep<T>(s: State<T>, a: Action<T>)
    requires Mutex(s) && RingOk(s) && Enabled(s, a)
    ensures RingOk(Next(s, a))
    ensures !a.Count? ==> Base(Next(s, a)) == Base(s)
  {
    hide *;
    if a.Copy? || a.Advance? || a.Count? {
      RingOkTouch(s, a);
    } else {
      RingOkQuiet(s, a);
    }
  }

  lemma OnlyCopyAndCount<T>(s: State<T>, a: Action<T>)
    requires Enabled(s, a) && !a.Count?
    ensures var s' := Next(s, a);
            && s'.ring.avail == s.ring.avail && |s'.ring.slots| == |s.ring.slots|
            && s'.sent == s.sent && s'.received == s.received
            && (!a.Copy? || s.pcs[a.tid].op.Recv? ==> s'.ring.slots == s.ring.slots)
            && (a.Copy? && s.pcs[a.tid].op.Send? ==>
                  s'.ring.slots == s.ring.slots[s.ring.write := s.pcs[a.tid].op.msg])
  {
  }

  lemma CountSend<T>(s: State<T>, t: Tid)
    requires Mutex(s) && RingOk(s) && Enabled(s, Count(t)) && s.pcs[t].op.Send?
    ensures var s', r := Next(s, Count(t)), s.ring;
            && Base(s') == Base(s) < |r.slots| && r.avail < |r.slots|
            && s'.ring.slots == r.slots && s'.ring.avail == r.avail + 1
            && r.slots[Wrap(Base(s) + r.avail, |r.slots|)] == s.pcs[t].x
            && s'.sent == s.sent + [(t, s.pcs[t].x)] && s'.received == s.received
  {
    OwnerIs(s, t);
  }

  lemma CountRecv<T>(s: State<T>, t: Tid)
    requires Mutex(s) && RingOk(s) && Enabled(s, Count(t)) && s.pcs[t].op.Recv?
    ensures var s', r := Next(s, Count(t)), s.ring;
            && Base(s) < |r.slots| && 0 < r.avail <= |r.slots| && Base(s') == Wrap(Base(s) + 1, |r.slots|)
            && s'.ring.slots == r.slots && s'.ring.avail == r.avail - 1
            && r.slots[Base(s)] == s.pcs[t].x
            && s'.received == s.received + [(t, s.pcs[t].x)] && s'.sent == s.sent
  {
    OwnerIs(s, t);
  }

  lemma DeliverSent<T>(sent: seq<(Tid, T)>, received: seq<(Tid, T)>, slots: seq<T>, base: nat, k: nat, t: Tid)
    requires base < |slots| && k < |slots|
    requires Messages(sent) == Messages(received) + Window(slots, base, k)
    ensures Messages(sent + [(t, slots[Wrap(base + k, |slots|)])])
            == Messages(received) + Window(slots, base, k + 1)
  {
    WindowGrow(slots, base, k);
    MessagesSnoc(sent, t, slots[Wrap(base + k, |slots|)]);
  }

  lemma DeliverReceived<T>(sent: seq<(Tid, T)>, received: seq<(Tid, T)>, slots: seq<T>, base: nat, k: nat, t: Tid)
    requires base < |slots| && 0 < k <= |slots|
    requires Messages(sent) == Messages(received) + Window(slots, base, k)
    ensures Messages(sent)
            == Messages(received + [(t, slots[base])]) + Window(slots, Wrap(base + 1, |slots|), k - 1)
  {
    WindowShrink(slots, base, k);
    MessagesSnoc(received, t, slots[base]);
  }

  lemma FifoParts<T>(s: State<T>)
    ensures Fifo(s) <==>
            RingOk(s) && Messages(s.sent) == Messages(s.received) + Window(s.ring.slots, Base(s), s.ring.avail)
  {
  }

  lemma FifoCount<T>(s: State<T>, t: Tid)
    requires Mutex(s) && Fifo(s) && Enabled(s, Count(t))
    ensures Fifo(Next(s, Count(t)))
  {
    RingOkStep(s, Count(t));
    FifoParts(s);
    FifoParts(Next(s, Count(t)));
    if s.pcs[t].op.Send? {
      CountSend(s, t);
      hide *;
      DeliverSent(s.sent, s.received, s.ring.slots, Base(s), s.ring.avail, t);
    } else {
      CountRecv(s, t);
      hide *;
      DeliverReceived(s.sent, s.received, s.ring.slots, Base(s), s.ring.avail, t);
    }
  }

  lemma MessagesSnoc<T>(h: seq<(Tid, T)>, t: Tid, x: T)
    ensures Messages(h + [(t, x)]) == Messages(h) + [x]
  {
  }

  lemma FifoStep<T>(s: State<T>, a: Action<T>)
    requires Mutex(s) && Fifo(s) && Enabled(s, a)
    ensures Fifo(Next(s, a))
  {
    if a.Count? {
      FifoCount(s, a.tid);
    } else {
      RingOkStep(s, a);
      OnlyCopyAndCount(s, a);
      if a.Copy? && s.pcs[a.tid].op.Send? {
        OwnerIs(s, a.tid);
        WindowStore(s.ring.slots, s.ring.read, s.ring.avail, s.pcs[a.tid].op.msg);
      }
      hide Next, Mutex;
    }
  }

  // ---------------------------------------------------------------------
  // No lost wakeups
  // ---------------------------------------------------------------------

  /** The owner has changed the count but not yet woken the side `op` is on. */
  predicate AboutToWake<T>(owner: Pc<T>, op: Op<T>) {
    owner.Counted? && owner.op.Send? != op.Send?
  }

  /** A thread still asleep is blocked, unless it is about to be woken. */
  ghost predicate NoLostWakeup<T>(s: State<T>) {
    forall t | t in s.pcs && s.pcs[t].Asleep? ::
      Blocked(s.ring, s.pcs[t].op) || AboutToWake(Owner(s), s.pcs[t].op)
  }

  lemma NoLostWakeupStep<T>(s: State<T>, a: Action<T>)
    requires Mutex(s) && RingOk(s) && NoLostWakeup(s) && Enabled(s, a)
    ensures NoLostWakeup(Next(s, a))
  {
    MutexStep(s, a);
  }

  // ---------------------------------------------------------------------
  // Deadlines
  // ---------------------------------------------------------------------

  /** A wait that began in the past, with the deadline computed when it began. */
  predicate WaitOk(w: Wait, timeout: int, clock: nat) {
    w.started <= clock && w.deadline == Deadline(w.started, timeout)
  }

  /** Running out of time is only ever reported at the deadline, or for a deadline that is no time. */
  predicate ExpiredOk(w: Wait, clock: nat) {
    w.deadline.Valid() ==> clock >= w.deadline.Nanos()
  }

  ghost predicate PcTiming<T>(pc: Pc<T>, clock: nat) {
    match pc
    case Loop(op, w, expired) => WaitOk(w, op.timeout, clock) && (expired ==> ExpiredOk(w, clock))
    case Woken(op, w, expired) => WaitOk(w, op.timeout, clock) && (expired ==> ExpiredOk(w, clock))
    case Asleep(op, w) => WaitOk(w, op.timeout, clock)
    case _ => true
  }

  ghost predicate EventTiming<T>(e: Event<T>) {
    e.GaveUp? ==> WaitOk(e.wait, e.op.timeout, e.at) && ExpiredOk(e.wait, e.at)
  }

  ghost predicate Timing<T>(s: State<T>) {
    && (forall t | t in s.pcs :: PcTiming(s.pcs[t], s.clock))
    && (forall i | 0 <= i < |s.log| :: EventTiming(s.log[i]))
  }

  lemma TimingStep<T>(s: State<T>, a: Action<T>)
    requires Timing(s) && Enabled(s, a)
    ensures Timing(Next(s, a))
  {
    hide Deadline;
  }

  // ---------------------------------------------------------------------
  // What callers are told is what happened
  // ---------------------------------------------------------------------

  /** The messages thread `t` has in a history, in order. */
  function By<T>(h: seq<(Tid, T)>, t: Tid): seq<T> {
    if h == [] then []
    else By(h[..|h| - 1], t) + if h[|h| - 1].0 == t then [h[|h| - 1].1] else []
  }

  /** The messages thread `t` was told it sent (or received), in order. */
  function Told<T>(log: seq<Event<T>>, t: Tid, sends: bool): seq<T> {
    if log == [] then []
    else
      var e := log[|log| - 1];
      Told(log[..|log| - 1], t, sends) +
      if e.Returned? && e.tid == t && e.op.Send? == sends then [e.x] else []
  }

  /** A message already counted by a call that has not returned yet. */
  function Pending<T>(pc: Pc<T>, sends: bool): seq<T> {
    if (pc.Counted? || pc.Notified?) && pc.op.Send? == sends then [pc.x] else []
  }

  function History<T>(s: State<T>, sends: bool): seq<(Tid, T)> {
    if sends then s.sent else s.received
  }

  ghost predicate AccountedFor<T>(s: State<T>, t: Tid, sends: bool)
    requires t in s.pcs
  {
    By(History(s, sends), t) == Told(s.log, t, sends) + Pending(s.pcs[t], sends)
  }

  /** A call that returned 0 moved exactly one message; a call that returned -1 moved none. */
  ghost predicate Accounted<T>(s: State<T>) {
    forall t, sends | t in s.pcs :: AccountedFor(s, t, sends)
  }

  lemma BySnoc<T>(h: seq<(Tid, T)>, x: (Tid, T), t: Tid)
    ensures By(h + [x], t) == By(h, t) + if x.0 == t then [x.1] else []
  {
    assert (h + [x])[..|h|] == h;
  }

  lemma ToldSnoc<T>(log: seq<Event<T>>, e: Event<T>, t: Tid, sends: bool)
    ensures Told(log + [e], t, sends) ==
            Told(log, t, sends) + if e.Returned? && e.tid == t && e.op.Send? == sends then [e.x] else []
  {
    assert (log + [e])[..|log|] == log;
  }

  lemma HistoryStep<T>(s: State<T>, a: Action<T>, sends: bool)
    requires Enabled(s, a)
    ensures History(Next(s, a), sends) ==
            History(s, sends) +
            if a.Count? && s.pcs[a.tid].op.Send? == sends then [(a.tid, s.pcs[a.tid].x)] else []
  {
  }

  lemma PendingStep<T>(s: State<T>, a: Action<T>, t: Tid, sends: bool)
    requires Enabled(s, a) && t in s.pcs
    ensures t in Next(s, a).pcs
    ensures var before, after := Pending(s.pcs[t], sends), Pending(Next(s, a).pcs[t], sends);
            if a.Count? && a.tid == t then
              before == [] && after == if s.pcs[t].op.Send? == sends then [s.pcs[t].x] else []
            else if a.Unlock? && a.tid == t then
              after == [] && before == if s.pcs[t].op.Send? == sends then [s.pcs[t].x] else []
            else before == after
  {
  }

  /** The log grows by the call that returns, or by one that gives up, or not at all. */
  lemma LogStep<T>(s: State<T>, a: Action<T>) returns (e: Event<T>)
    requires Enabled(s, a)
    ensures Next(s, a).log == s.log || Next(s, a).log == s.log + [e]
    ensures a.Unlock? ==> Next(s, a).log == s.log + [Returned(a.tid, s.pcs[a.tid].op, s.pcs[a.tid].x)]
    ensures a.Unlock? ==> e == Returned(a.tid, s.pcs[a.tid].op, s.pcs[a.tid].x)
    ensures !a.Unlock? ==> e.GaveUp?
  {
    e := if a.Unlock? then Returned(a.tid, s.pcs[a.tid].op, s.pcs[a.tid].x)
         else GaveUp(0, Recv(0), Wait(0, Timespec(0, 0)), 0);
    if Next(s, a).log != s.log {
      e := Next(s, a).log[|s.log|];
    }
  }

  lemma ToldStep<T>(s: State<T>, a: Action<T>, t: Tid, sends: bool)
    requires Enabled(s, a)
    ensures Told(Next(s, a).log, t, sends) ==
            Told(s.log, t, sends) +
            if a.Unlock? && a.tid == t && s.pcs[t].op.Send? == sends then [s.pcs[t].x] else []
  {
    var e := LogStep(s, a);
    ToldSnoc(s.log, e, t, sends);
    hide *;
  }

  lemma ByStep<T>(s: State<T>, a: Action<T>, t: Tid, sends: bool)
    requires Enabled(s, a)
    ensures By(History(Next(s, a), sends), t) ==
            By(History(s, sends), t) +
            if a.Count? && a.tid == t && s.pcs[t].op.Send? == sends then [s.pcs[t].x] else []
  {
    HistoryStep(s, a, sends);
    if a.Count? {
      BySnoc(History(s, sends), (a.tid, s.pcs[a.tid].x), t);
    }
  }

  lemma AccountedForStep<T>(s: State<T>, a: Action<T>, t: Tid, sends: bool)
    requires Enabled(s, a) && t in s.pcs && AccountedFor(s, t, sends)
    ensures t in Next(s, a).pcs && AccountedFor(Next(s, a), t, sends)
  {
    PendingStep(s, a, t, sends);
    ToldStep(s, a, t, sends);
    ByStep(s, a, t, sends);
    hide Enabled, Next, Pending, Told, By, History;
  }

  lemma AccountedStep<T>(s: State<T>, a: Action<T>)
    requires Accounted(s) && Enabled(s, a)
    ensures Accounted(Next(s, a))
  {
    forall t, sends | t in Next(s, a).pcs ensures AccountedFor(Next(s, a), t, sends) {
      assert t in s.pcs && AccountedFor(s, t, sends);
      AccountedForStep(s, a, t, sends);
    }
  }

  /** The message a send moves is its own argument. */
  ghost predicate OwnMessage<T>(s: State<T>) {
    && (forall t | t in s.pcs :: CarriesOwn(s.pcs[t]))
    && (forall i | 0 <= i < |s.log| && s.log[i].Returned? && s.log[i].op.Send? :: s.log[i].x == s.log[i].op.msg)
  }

  ghost predicate CarriesOwn<T>(pc: Pc<T>) {
    (pc.Copied? || pc.Advanced? || pc.Counted? || pc.Notified?) && pc.op.Send? ==> pc.x == pc.op.msg
  }

  lemma OwnMessageStep<T>(s: State<T>, a: Action<T>)
    requires OwnMessage(s) && Enabled(s, a)
    ensures OwnMessage(Next(s, a))
  {
  }

  // ---------------------------------------------------------------------
  // Whole runs
  // ---------------------------------------------------------------------

  ghost predicate Inv<T>(s: State<T>) {
    Mutex(s) && Fifo(s) && NoLostWakeup(s) && Timing(s) && Accounted(s) && OwnMessage(s)
  }

  lemma InitInv<T>(s: State<T>)
    requires Init(s)
    ensures Inv(s)
  {
  }

  lemma Step<T>(s: State<T>, a: Action<T>)
    requires Inv(s) && Enabled(s, a)
    ensures Inv(Next(s, a))
  {
    MutexStep(s, a);
    FifoStep(s, a);
    NoLostWakeupStep(s, a);
    TimingStep(s, a);
    AccountedStep(s, a);
    OwnMessageStep(s, a);
  }

  lemma {:induction false} RunInv<T>(s: State<T>, actions: seq<Action<T>>)
    requires Inv(s) && Legal(s, actions)
    ensures Inv(Run(s, actions))
    decreases |actions|
  {
    hide Inv, Next;
    if actions != [] {
      Step(s, actions[0]);
      RunInv(Next(s, actions[0]), actions[1..]);
    }
  }

  /** At most one thread is in the critical section, in every interleaving. */
  lemma MutualExclusion<T>(s0: State<T>, actions: seq<Action<T>>, t: Tid, u: Tid)
    requires Init(s0) && Legal(s0, actions)
    requires t in Run(s0, actions).pcs && u in Run(s0, actions).pcs
    ensures var pcs := Run(s0, actions).pcs; pcs[t].Holds() && pcs[u].Holds() ==> t == u
  {
    InitInv(s0);
    RunInv(s0, actions);
  }

  /**
   * In every interleaving the messages sent, in the order of the critical sections, are
   * the messages received, in order, followed by the contents of the queue.
   */
  lemma Delivery<T>(s0: State<T>, actions: seq<Action<T>>)
    requires Init(s0) && Legal(s0, actions)
    ensures var s := Run(s0, actions);
            && Messages(s.received) <= Messages(s.sent)
            && (s.lock.None? ==>
                  s.ring.Inv() && Messages(s.sent) == Messages(s.received) + s.ring.Items())
  {
    InitInv(s0);
    RunInv(s0, actions);
  }

  /**
   * Each thread's successful calls account for exactly its messages: what it was told it
   * sent is what it put in, in order, and what it was told it received is what it took.
   */
  lemma CallersAreToldTheTruth<T>(s0: State<T>, actions: seq<Action<T>>, t: Tid)
    requires Init(s0) && Legal(s0, actions)
    requires t in Run(s0, actions).pcs && Run(s0, actions).pcs[t].Idle?
    ensures var s := Run(s0, actions);
            && By(s.sent, t) == Told(s.log, t, true)
            && By(s.received, t) == Told(s.log, t, false)
            && forall i | 0 <= i < |s.log| && s.log[i].Returned? && s.log[i].op.Send? ::
                 s.log[i].x == s.log[i].op.msg
  {
    InitInv(s0);
    RunInv(s0, actions);
    var s := Run(s0, actions);
    assert AccountedFor(s, t, true) && AccountedFor(s, t, false);
  }

  /**
   * With the mutex free, a thread still asleep has a reason to be: a sender sleeps on a
   * full queue and a receiver on an empty one, so the two never sleep at the same time.
   */
  lemma NoLostWakeups<T>(s0: State<T>, actions: seq<Action<T>>, t: Tid, u: Tid)
    requires Init(s0) && Legal(s0, actions)
    requires var s := Run(s0, actions);
             s.lock.None? && t in s.pcs && u in s.pcs && s.pcs[t].Asleep? && s.pcs[u].Asleep?
    ensures var s := Run(s0, actions);
            && s.ring.Inv()
            && (if s.pcs[t].op.Send? then |s.ring.Items()| == |s.ring.slots| else s.ring.Items() == [])
            && s.pcs[t].op.Send? == s.pcs[u].op.Send?
  {
    InitInv(s0);
    RunInv(s0, actions);
    FullIsNoSlotLeft(Run(s0, actions).ring);
  }

  /** Actions by which calls make progress, as opposed to time passing or new calls. */
  predicate Progress<T>(a: Action<T>) {
    !a.Tick? && !a.Call? && !a.Spurious? && !a.Expire?
  }

  /** The next step of the thread that holds the mutex. */
  lemma OwnerCanMove<T>(s: State<T>, t: Tid) returns (a: Action<T>)
    requires Inv(s) && t in s.pcs && s.pcs[t].Holds()
    ensures Enabled(s, a) && Progress(a)
  {
    OwnerIs(s, t);
    match s.pcs[t] {
      case First(_) => a := Test(t);
      case Loop(_, _, _) => a := if CanSleep(s.ring, s.pcs[t]) then Sleep(t) else Test(t);
      case Ready(_) => a := Copy(t);
      case Copied(_, _) => a := Advance(t);
      case Advanced(_, _) => a := Count(t);
      case Counted(_, _) => a := Notify(t);
      case Notified(_, _) => a := Unlock(t);
    }
  }

  /**
   * The mutex is free and every thread is idle or asleep: all sleepers are senders and
   * every slot holds a message, or all are receivers and no slot does.
   */
  ghost predicate Quiet<T>(s: State<T>, sends: bool) {
    && s.lock.None? && s.ring.Inv()
    && (forall t | t in s.pcs :: s.pcs[t].Idle? || (s.pcs[t].Asleep? && s.pcs[t].op.Send? == sends))
    && ((exists t :: t in s.pcs && s.pcs[t].Asleep?) ==>
          if sends then |s.ring.Items()| == |s.ring.slots| else s.ring.Items() == [])
  }

  /**
   * No interleaving gets stuck: some call can take its next step, unless all open calls
   * are sends waiting on a full queue, or all are receives waiting on an empty one.
   */
  lemma NeverStuck<T(!new)>(s0: State<T>, actions: seq<Action<T>>)
    requires Init(s0) && Legal(s0, actions)
    ensures var s := Run(s0, actions);
            (exists a: Action<T> :: Enabled(s, a) && Progress(a)) || Quiet(s, true) || Quiet(s, false)
  {
    InitInv(s0);
    RunInv(s0, actions);
    var s := Run(s0, actions);
    if t :| t in s.pcs && s.pcs[t].Holds() {
      var a := OwnerCanMove(s, t);
    } else if t :| t in s.pcs && s.pcs[t].Enter? {
      assert Enabled(s, Lock(t)) && Progress<T>(Lock(t));
    } else if t :| t in s.pcs && s.pcs[t].Woken? {
      assert Enabled(s, Reacquire(t)) && Progress<T>(Reacquire(t));
    } else {
      assert s.lock.None?;
      FullIsNoSlotLeft(s.ring);
      assert Quiet(s, s.ring.Full()) by {
        hide Run, Legal, Next, Enabled;
      }
    }
  }
}
