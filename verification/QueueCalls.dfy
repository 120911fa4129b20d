/**
 * One call of `queue_send` or `queue_recv` among any number of threads: when it gives up,
 * what it may do on the way, and that it is served when there is room or data.
 */
module QueueCalls {
  import opened Common
  import opened QueueRing
  import opened QueueTime
  import opened QueueProtocol

  /** A state that some interleaving reaches from a new queue. */
  ghost predicate After<T>(s0: State<T>, before: seq<Action<T>>, s: State<T>) {
    Init(s0) && Legal(s0, before) && Run(s0, before) == s
  }

  lemma AfterInv<T>(s0: State<T>, before: seq<Action<T>>, s: State<T>)
    requires After(s0, before, s)
    ensures Inv(s)
  {
    InitInv(s0);
    RunInv(s0, before);
  }

  /** Steps of any threads, among them no new call by `t`. */
  ghost predicate NoCallBy<T>(actions: seq<Action<T>>, t: Tid) {
    forall a | a in actions :: !a.Call? || a.tid != t
  }

  lemma LegalFirst<T>(s: State<T>, actions: seq<Action<T>>)
    requires actions != []
    ensures Legal(s, actions) ==> Enabled(s, actions[0])
  {
  }

  lemma RunFirst<T>(s: State<T>, a: Action<T>, rest: seq<Action<T>>)
    requires Enabled(s, a) && Legal(Next(s, a), rest)
    ensures Legal(s, [a] + rest) && Run(s, [a] + rest) == Run(Next(s, a), rest)
  {
    assert ([a] + rest)[1..] == rest;
  }

  // ---------------------------------------------------------------------
  // A test decides
  // ---------------------------------------------------------------------

  /** With the mutex held at a test, the ring is as its invariant says. */
  lemma RingAtTest<T>(s: State<T>, t: Tid)
    requires Inv(s) && t in s.pcs && (s.pcs[t].First? || s.pcs[t].Loop?)
    ensures s.ring.Inv()
    ensures Blocked(s.ring, s.pcs[t].op) <==>
            if s.pcs[t].op.Send? then |s.ring.Items()| == |s.ring.slots| else s.ring.Items() == []
  {
    OwnerIs(s, t);
    FullIsNoSlotLeft(s.ring);
  }

  /**
   * A sender that tests a queue with a slot left, or a receiver that tests one with a
   * message, goes on to copy: it does not sleep and it does not give up. Only then does it.
   */
  lemma TestDecides<T>(s0: State<T>, before: seq<Action<T>>, s: State<T>, t: Tid)
    requires After(s0, before, s) && t in s.pcs && (s.pcs[t].First? || s.pcs[t].Loop?)
    ensures s.ring.Inv()
    ensures var op := s.pcs[t].op;
            if (if op.Send? then |s.ring.Items()| < |s.ring.slots| else s.ring.Items() != []) then
              && !Enabled(s, Sleep(t)) && Enabled(s, Test(t))
              && Next(s, Test(t)) == s.(pcs := s.pcs[t := Ready(op)])
            else
              && (s.pcs[t].First? ==> Enabled(s, Test(t)))
              && (Enabled(s, Test(t)) ==> Next(s, Test(t)).pcs[t].Loop? || Next(s, Test(t)).pcs[t].Idle?)
  {
    AfterInv(s0, before, s);
    RingAtTest(s, t);
    FullIsNoSlotLeft(s.ring);
    hide Inv, Deadline;
  }

  // ---------------------------------------------------------------------
  // A call that has to wait leaves the queue alone
  // ---------------------------------------------------------------------

  /** The actions by which a call changes the queue. */
  predicate Touches<T>(a: Action<T>) {
    a.Copy? || a.Advance? || a.Count?
  }

  /** A call only ever gives up on a queue that is still full, or still empty, and after an error of its wait. */
  lemma GivesUpOnlyBlocked<T>(s: State<T>, a: Action<T>)
    requires Enabled(s, a)
    requires Next(s, a).log != s.log && Next(s, a).log[|Next(s, a).log| - 1].GaveUp?
    ensures a.Test? && s.pcs[a.tid].Loop? && s.pcs[a.tid].expired
    ensures Blocked(s.ring, s.pcs[a.tid].op) && Next(s, a).ring == s.ring
  {
  }

  lemma OnlyTouchesChange<T>(s: State<T>, a: Action<T>)
    requires Enabled(s, a) && !Touches(a)
    ensures var s' := Next(s, a); s'.ring == s.ring && s'.sent == s.sent && s'.received == s.received
  {
  }

  /** A call that has found room or data, or that is over. */
  predicate Settled<T>(pc: Pc<T>) {
    pc.Idle? || pc.Ready? || pc.Copied? || pc.Advanced? || pc.Counted? || pc.Notified?
  }

  lemma {:induction false} StaysSettled<T>(s: State<T>, actions: seq<Action<T>>, t: Tid)
    requires Legal(s, actions) && t in s.pcs && Settled(s.pcs[t])
    requires NoCallBy(actions, t)
    ensures t in Run(s, actions).pcs && Settled(Run(s, actions).pcs[t])
    decreases |actions|
  {
    if actions != [] {
      SettledStep(s, actions[0], t);
      StaysSettled(Next(s, actions[0]), actions[1..], t);
    }
  }

  lemma SettledStep<T>(s: State<T>, a: Action<T>, t: Tid)
    requires Enabled(s, a) && t in s.pcs && (!a.Call? || a.tid != t)
    ensures t in Next(s, a).pcs
    ensures Settled(s.pcs[t]) ==> Settled(Next(s, a).pcs[t])
    ensures !Settled(s.pcs[t]) ==> a.Tick? || a.tid != t || !Touches(a)
  {
  }

  /** A call still waiting has taken no action that changes the queue. */
  lemma {:induction false} FailedCallsChangeNothing<T>(s: State<T>, actions: seq<Action<T>>, t: Tid)
    requires Legal(s, actions) && t in s.pcs && t in Run(s, actions).pcs
    requires NoCallBy(actions, t)
    requires !Settled(Run(s, actions).pcs[t])
    ensures forall a | a in actions :: a.Tick? || a.tid != t || !Touches(a)
    decreases |actions|
  {
    if actions != [] {
      if Settled(s.pcs[t]) {
        StaysSettled(s, actions, t);
        assert false;
      }
      SettledStep(s, actions[0], t);
      FailedCallsChangeNothing(Next(s, actions[0]), actions[1..], t);
    }
  }

  lemma {:induction false} WaitingMovesNothing<T>(s: State<T>, actions: seq<Action<T>>, t: Tid, sends: bool)
    requires Legal(s, actions) && t in s.pcs
    requires forall a | a in actions :: a.Tick? || a.tid != t || !Touches(a)
    ensures By(History(Run(s, actions), sends), t) == By(History(s, sends), t)
    decreases |actions|
  {
    if actions != [] {
      var a := actions[0];
      ByStep(s, a, t, sends);
      PendingStep(s, a, t, sends);
      hide Enabled, Next, By, History;
      assert a in actions;
      WaitingMovesNothing(Next(s, a), actions[1..], t, sends);
    }
  }

  // ---------------------------------------------------------------------
  // When a call gives up
  // ---------------------------------------------------------------------

  /**
   * From state `s` thread `t` calls `op`; after the steps `between`, of any threads, the
   * call's test of the queue in `last` ends it with -1, which is logged as `e` in `end`.
   */
  ghost predicate GivesUp<T>(
    s: State<T>, t: Tid, op: Op<T>, between: seq<Action<T>>, last: State<T>, e: Event<T>, end: State<T>)
  {
    && Enabled(s, Call(t, op))
    && Legal(Next(s, Call(t, op)), between) && NoCallBy(between, t)
    && Run(Next(s, Call(t, op)), between) == last
    && Enabled(last, Test(t)) && Next(last, Test(t)) == end
    && e.GaveUp? && end.log == last.log + [e]
  }

  /** A call of `op` that began at time `from` or later, seen at any point until it ends. */
  ghost predicate InCall<T>(pc: Pc<T>, op: Op<T>, from: nat) {
    Settled(pc) || (pc.op == op && (pc.Enter? || pc.First? || pc.wait.started >= from))
  }

  /** The wait a call is in. */
  ghost predicate InWait<T>(pc: Pc<T>, op: Op<T>, wait: Wait) {
    Settled(pc) || ((pc.Loop? || pc.Asleep? || pc.Woken?) && pc.op == op && pc.wait == wait)
  }

  lemma CallStep<T>(s: State<T>, a: Action<T>, t: Tid, op: Op<T>, from: nat)
    requires Enabled(s, a) && t in s.pcs && (!a.Call? || a.tid != t)
    requires s.clock >= from && InCall(s.pcs[t], op, from)
    ensures t in Next(s, a).pcs && Next(s, a).clock >= from && InCall(Next(s, a).pcs[t], op, from)
  {
    hide Deadline;
  }

  lemma WaitStep<T>(s: State<T>, a: Action<T>, t: Tid, op: Op<T>, wait: Wait)
    requires Enabled(s, a) && t in s.pcs && (!a.Call? || a.tid != t)
    requires InWait(s.pcs[t], op, wait)
    ensures t in Next(s, a).pcs && InWait(Next(s, a).pcs[t], op, wait)
  {
    hide Deadline;
  }

  lemma {:induction false} CallRun<T>(s: State<T>, actions: seq<Action<T>>, t: Tid, op: Op<T>, from: nat)
    requires Legal(s, actions) && NoCallBy(actions, t) && t in s.pcs
    requires s.clock >= from && InCall(s.pcs[t], op, from)
    ensures var end := Run(s, actions); t in end.pcs && end.clock >= from && InCall(end.pcs[t], op, from)
    decreases |actions|
  {
    if actions != [] {
      CallStep(s, actions[0], t, op, from);
      CallRun(Next(s, actions[0]), actions[1..], t, op, from);
    }
  }

  lemma {:induction false} WaitRun<T>(s: State<T>, actions: seq<Action<T>>, t: Tid, op: Op<T>, wait: Wait)
    requires Legal(s, actions) && NoCallBy(actions, t) && t in s.pcs
    requires InWait(s.pcs[t], op, wait)
    ensures var end := Run(s, actions); t in end.pcs && InWait(end.pcs[t], op, wait)
    decreases |actions|
  {
    if actions != [] {
      WaitStep(s, actions[0], t, op, wait);
      WaitRun(Next(s, actions[0]), actions[1..], t, op, wait);
    }
  }

  /** A wait that ends with -1 has lasted its timeout. */
  lemma WaitLasted<T>(last: State<T>, t: Tid, e: Event<T>)
    requires Inv(last) && Enabled(last, Test(t)) && e.GaveUp? && Next(last, Test(t)).log == last.log + [e]
    ensures last.pcs[t].Loop? && e == GaveUp(t, last.pcs[t].op, last.pcs[t].wait, last.clock)
    ensures e.op.timeout >= 0 ==> last.clock >= e.wait.started + e.op.timeout * MILLISECOND
  {
    assert Next(last, Test(t)).log[|last.log|] == e;
    assert Timing(last) && PcTiming(last.pcs[t], last.clock);
    GivesUpOnlyBlocked(last, Test(t));
    DeadlineExact(e.wait.started, e.op.timeout);
    DeadlineValid(e.wait.started, e.op.timeout);
    hide Inv, Deadline;
  }

  /**
   * A call with a timeout of zero or more milliseconds does not give up before that much
   * time has passed since the moment it was made.
   */
  lemma NeverGivesUpEarly<T>(
    s0: State<T>, before: seq<Action<T>>, s: State<T>, t: Tid, op: Op<T>, between: seq<Action<T>>,
    last: State<T>, e: Event<T>, end: State<T>)
    requires After(s0, before, s) && GivesUp(s, t, op, between, last, e, end)
    ensures e.tid == t && e.op == op && e.at == end.clock
    ensures op.timeout >= 0 ==> end.clock >= s.clock + op.timeout * MILLISECOND
  {
    AfterInv(s0, before, s);
    var s1 := Next(s, Call(t, op));
    Step(s, Call(t, op));
    RunInv(s1, between);
    CallRun(s1, between, t, op, s.clock);
    WaitLasted(last, t, e);
    hide Inv, Deadline, Legal, Run;
  }

  /**
   * A call that gives up found no slot left, or no message, then; and from the step that
   * makes it to the one that ends it, its thread takes no step that changes the queue, and
   * neither puts in nor takes out a message.
   */
  lemma GaveUpChangedNothing<T>(
    s0: State<T>, before: seq<Action<T>>, s: State<T>, t: Tid, op: Op<T>, between: seq<Action<T>>,
    last: State<T>, e: Event<T>, end: State<T>)
    requires After(s0, before, s) && GivesUp(s, t, op, between, last, e, end)
    ensures last.ring.Inv() && end.ring == last.ring
    ensures if op.Send? then |last.ring.Items()| == |last.ring.slots| else last.ring.Items() == []
    ensures forall a | a in between :: a.Tick? || a.tid != t || !Touches(a)
    ensures forall sends :: By(History(end, sends), t) == By(History(s, sends), t)
  {
    NeverGivesUpEarly(s0, before, s, t, op, between, last, e, end);
    AfterInv(s0, before, s);
    var s1 := Next(s, Call(t, op));
    Step(s, Call(t, op));
    RunInv(s1, between);
    WaitLasted(last, t, e);
    assert end.log[|last.log|] == e;
    GivesUpOnlyBlocked(last, Test(t));
    RingAtTest(last, t);
    OnlyTouchesChange(last, Test(t));
    OnlyTouchesChange(s, Call(t, op));
    hide Inv, Deadline, Legal, Run;
    FailedCallsChangeNothing(s1, between, t);
    forall sends ensures By(History(end, sends), t) == By(History(s, sends), t) {
      WaitingMovesNothing(s1, between, t, sends);
    }
  }

  // ---------------------------------------------------------------------
  // From the first test that has to wait
  // ---------------------------------------------------------------------

  /**
   * In `s` thread `t`, calling `op`, tests the queue for the first time and has to wait;
   * after the steps `between`, of any threads, the state is `later`.
   */
  ghost predicate Waiting<T>(s: State<T>, t: Tid, op: Op<T>, between: seq<Action<T>>, later: State<T>) {
    && Enabled(s, Test(t)) && s.pcs[t] == First(op) && !Next(s, Test(t)).pcs[t].Ready?
    && Legal(Next(s, Test(t)), between) && NoCallBy(between, t)
    && Run(Next(s, Test(t)), between) == later
  }

  lemma WaitingIs<T>(s: State<T>, t: Tid, op: Op<T>, between: seq<Action<T>>, later: State<T>)
    requires Waiting(s, t, op, between, later)
    ensures t in later.pcs && InWait(later.pcs[t], op, Wait(s.clock, Deadline(s.clock, op.timeout)))
  {
    WaitRun(Next(s, Test(t)), between, t, op, Wait(s.clock, Deadline(s.clock, op.timeout)));
  }

  /**
   * The wait begins at the clock of the test that started it. A sleeper can run out of time
   * exactly when its timeout has passed since then, to the nanosecond, or one nanosecond
   * later when adding the timeout reaches the next second.
   */
  lemma ExpiresExactly<T>(s: State<T>, t: Tid, op: Op<T>, between: seq<Action<T>>, later: State<T>)
    requires Waiting(s, t, op, between, later)
    requires t in later.pcs && later.pcs[t].Asleep?
    ensures Enabled(later, Expire(t)) <==>
            later.clock >= s.clock + op.timeout * MILLISECOND +
              if op.timeout >= 0 && s.clock % SECOND + op.timeout % 1000 * MILLISECOND >= SECOND then 1 else 0
  {
    WaitingIs(s, t, op, between, later);
    DeadlineExact(s.clock, op.timeout);
    hide Deadline, Legal, Run;
  }

  /**
   * A caller that has to wait falls asleep exactly when its deadline is a time of day: for
   * every timeout of zero or more, and for a negative one that does not borrow from the
   * seconds. Otherwise two tests end the call.
   */
  lemma FallsAsleep<T>(s: State<T>, t: Tid, op: Op<T>, later: State<T>)
    requires Waiting(s, t, op, [], later)
    ensures later == Next(s, Test(t))
    ensures Enabled(later, Sleep(t)) <==>
            op.timeout >= 0 || s.clock % SECOND >= (-op.timeout) % 1000 * MILLISECOND
    ensures Enabled(later, Sleep(t)) <==> !Legal(later, [Test(t), Test(t)])
    ensures !Enabled(later, Sleep(t)) ==>
              Run(later, [Test(t), Test(t)]).log == s.log + [GaveUp(t, op, later.pcs[t].wait, s.clock)]
  {
    DeadlineValid(s.clock, op.timeout);
    WaitingIs(s, t, op, [], later);
    hide Deadline;
    if Enabled(later, Sleep(t)) {
      LegalFirst(later, [Test(t), Test(t)]);
    } else {
      var a: Action<T> := Test(t);
      RunFirst(Next(later, a), a, []);
      RunFirst(later, a, [a]);
      assert [a] + [a] == [a, a] && [a] + [] == [a];
    }
  }

  /** A sleeper that runs out of time on a queue it still has to wait for gives up at its next test. */
  lemma GivesUpOnTime<T>(s0: State<T>, before: seq<Action<T>>, s: State<T>, t: Tid)
    requires After(s0, before, s) && s.lock.None? && t in s.pcs && s.pcs[t].Asleep? && Enabled(s, Expire(t))
    ensures s.ring.Inv()
    ensures Legal(s, [Expire(t), Reacquire(t), Test(t)])
    ensures var op, end := s.pcs[t].op, Run(s, [Expire(t), Reacquire(t), Test(t)]);
            && (if op.Send? then |s.ring.Items()| == |s.ring.slots| else s.ring.Items() == [])
            && end == s.(pcs := s.pcs[t := Idle], log := s.log + [GaveUp(t, op, s.pcs[t].wait, s.clock)])
  {
    AfterInv(s0, before, s);
    FullIsNoSlotLeft(s.ring);
    hide Inv, Deadline;
    var a, b, c: Action<T> := Expire(t), Reacquire(t), Test(t);
    var s2 := Next(Next(s, a), b);
    RunFirst(s2, c, []);
    RunFirst(Next(s, a), b, [c]);
    RunFirst(s, a, [b, c]);
    assert [a] + [b, c] == [a, b, c] && [b] + [c] == [b, c] && [c] + [] == [c];
  }

  // ---------------------------------------------------------------------
  // No sleep after running out of time
  // ---------------------------------------------------------------------

  /** A call that is over, or has found room or data, or leaves its wait at the next test. */
  predicate Leaving<T>(pc: Pc<T>) {
    Settled(pc) || ((pc.Woken? || pc.Loop?) && pc.expired)
  }

  lemma LeavingStep<T>(s: State<T>, a: Action<T>, t: Tid)
    requires Enabled(s, a) && t in s.pcs && (!a.Call? || a.tid != t)
    requires Leaving(s.pcs[t])
    ensures !a.Sleep? || a.tid != t
    ensures t in Next(s, a).pcs && Leaving(Next(s, a).pcs[t])
  {
    hide Deadline;
  }

  lemma {:induction false} LeavingRun<T>(s: State<T>, actions: seq<Action<T>>, t: Tid)
    requires Legal(s, actions) && NoCallBy(actions, t) && t in s.pcs && Leaving(s.pcs[t])
    ensures forall a | a in actions :: !a.Sleep? || a.tid != t
    decreases |actions|
  {
    if actions != [] {
      LeavingStep(s, actions[0], t);
      LeavingRun(Next(s, actions[0]), actions[1..], t);
    }
  }

  /** A thread that has run out of time does not sleep again in the same call. */
  lemma ExpiredNeverSleepsAgain<T>(s: State<T>, t: Tid, actions: seq<Action<T>>)
    requires Enabled(s, Expire(t)) && Legal(Next(s, Expire(t)), actions) && NoCallBy(actions, t)
    ensures forall a | a in actions :: !a.Sleep? || a.tid != t
  {
    LeavingRun(Next(s, Expire(t)), actions, t);
  }

  // ---------------------------------------------------------------------
  // A call that is alone
  // ---------------------------------------------------------------------

  /** A call from start to end with no other thread between its steps, its wait left out. */
  function Alone<T>(t: Tid, op: Op<T>): seq<Action<T>> {
    [Call(t, op), Lock(t), Test(t)] + Served(t)
  }

  /** What a call does once it has found room or data. */
  function Served<T>(t: Tid): seq<Action<T>> {
    [Copy(t), Advance(t), Count(t), Notify(t), Unlock(t)]
  }

  lemma RunThree<T>(s: State<T>, a: Action<T>, b: Action<T>, c: Action<T>, rest: seq<Action<T>>)
    requires Enabled(s, a) && Enabled(Next(s, a), b) && Enabled(Next(Next(s, a), b), c)
    requires Legal(Next(Next(Next(s, a), b), c), rest)
    ensures Legal(s, [a, b, c] + rest)
    ensures Run(s, [a, b, c] + rest) == Run(Next(Next(Next(s, a), b), c), rest)
  {
    RunFirst(Next(Next(s, a), b), c, rest);
    RunFirst(Next(s, a), b, [c] + rest);
    RunFirst(s, a, [b] + ([c] + rest));
    assert [a] + ([b] + ([c] + rest)) == [a, b, c] + rest;
  }

  /** The three updates of a send, taken together, are `Put`. */
  lemma CopyToCountSend<T>(s: State<T>, t: Tid)
    requires t in s.pcs && s.pcs[t].Ready? && s.pcs[t].op.Send?
    requires s.ring.read < |s.ring.slots| && s.ring.write < |s.ring.slots|
    ensures Enabled(s, Copy(t)) && Enabled(Next(s, Copy(t)), Advance(t))
    ensures Enabled(Next(Next(s, Copy(t)), Advance(t)), Count(t))
    ensures var op := s.pcs[t].op;
            Next(Next(Next(s, Copy(t)), Advance(t)), Count(t)) == s.(
              ring := s.ring.Put(op.msg), pcs := s.pcs[t := Counted(op, op.msg)],
              sent := s.sent + [(t, op.msg)])
  {
  }

  /** The two updates of a receive, taken together, are `Take`. */
  lemma CopyToCountRecv<T>(s: State<T>, t: Tid)
    requires t in s.pcs && s.pcs[t].Ready? && s.pcs[t].op.Recv?
    requires s.ring.read < |s.ring.slots| && s.ring.write < |s.ring.slots| && s.ring.avail > 0
    ensures Enabled(s, Copy(t)) && Enabled(Next(s, Copy(t)), Advance(t))
    ensures Enabled(Next(Next(s, Copy(t)), Advance(t)), Count(t))
    ensures var op, x := s.pcs[t].op, s.ring.slots[s.ring.read];
            Next(Next(Next(s, Copy(t)), Advance(t)), Count(t)) == s.(
              ring := s.ring.Take(), pcs := s.pcs[t := Counted(op, x)],
              received := s.received + [(t, x)])
  {
  }

  lemma NotifyThenUnlock<T>(s: State<T>, t: Tid)
    requires t in s.pcs && s.pcs[t].Counted?
    ensures Legal(s, [Notify(t), Unlock(t)])
    ensures var pc := s.pcs[t];
            Run(s, [Notify(t), Unlock(t)]) == s.(
              lock := None, pcs := WakeAll(s.pcs, pc.op)[t := Idle],
              log := s.log + [Returned(t, pc.op, pc.x)])
  {
    var a, b: Action<T> := Notify(t), Unlock(t);
    RunFirst(Next(s, a), b, []);
    RunFirst(s, a, [b]);
    assert [a] + [b] == [a, b] && [b] + [] == [b];
  }

  lemma ServedIs<T>(t: Tid)
    ensures Served<T>(t) == [Copy(t), Advance(t), Count(t)] + [Notify(t), Unlock(t)]
  {
  }

  lemma ServedSend<T>(s: State<T>, t: Tid)
    requires s.ring.Inv() && |s.ring.Items()| < |s.ring.slots|
    requires t in s.pcs && s.pcs[t].Ready? && s.pcs[t].op.Send?
    ensures Legal(s, Served(t))
    ensures var op := s.pcs[t].op;
            Run(s, Served(t)) == s.(
              ring := s.ring.Put(op.msg), lock := None, pcs := WakeAll(s.pcs, op)[t := Idle],
              sent := s.sent + [(t, op.msg)], log := s.log + [Returned(t, op, op.msg)])
  {
    FullIsNoSlotLeft(s.ring);
    CopyToCountSend(s, t);
    var s3 := Next(Next(Next(s, Copy(t)), Advance(t)), Count(t));
    NotifyThenUnlock(s3, t);
    ServedIs<T>(t);
    WakeAllKeeps(s.pcs, s.pcs[t].op, t, s3.pcs[t]);
    hide *;
    RunThree<T>(s, Copy(t), Advance(t), Count(t), [Notify(t), Unlock(t)]);
  }

  lemma ServedRecv<T>(s: State<T>, t: Tid)
    requires s.ring.Inv() && s.ring.Items() != []
    requires t in s.pcs && s.pcs[t].Ready? && s.pcs[t].op.Recv?
    ensures Legal(s, Served(t))
    ensures var op, x := s.pcs[t].op, s.ring.slots[s.ring.read];
            Run(s, Served(t)) == s.(
              ring := s.ring.Take(), lock := None, pcs := WakeAll(s.pcs, op)[t := Idle],
              received := s.received + [(t, x)], log := s.log + [Returned(t, op, x)])
  {
    FullIsNoSlotLeft(s.ring);
    CopyToCountRecv(s, t);
    var s3 := Next(Next(Next(s, Copy(t)), Advance(t)), Count(t));
    NotifyThenUnlock(s3, t);
    ServedIs<T>(t);
    WakeAllKeeps(s.pcs, s.pcs[t].op, t, s3.pcs[t]);
    hide *;
    RunThree<T>(s, Copy(t), Advance(t), Count(t), [Notify(t), Unlock(t)]);
  }

  /** Waking the others does not depend on where the caller is. */
  lemma WakeAllKeeps<T>(pcs: map<Tid, Pc<T>>, op: Op<T>, t: Tid, pc: Pc<T>)
    requires t in pcs
    ensures WakeAll(pcs[t := pc], op)[t := Idle] == WakeAll(pcs, op)[t := Idle]
  {
  }

  lemma CallToReady<T>(s: State<T>, t: Tid, op: Op<T>)
    requires s.lock.None? && t in s.pcs && s.pcs[t].Idle? && !Blocked(s.ring, op)
    ensures Enabled(s, Call(t, op)) && Enabled(Next(s, Call(t, op)), Lock(t))
    ensures Enabled(Next(Next(s, Call(t, op)), Lock(t)), Test(t))
    ensures Next(Next(Next(s, Call(t, op)), Lock(t)), Test(t)) ==
            s.(lock := Some(t), pcs := s.pcs[t := Ready(op)])
  {
    hide Deadline;
  }

  /**
   * With the mutex free and a slot left, a send made by an idle thread can run through
   * without waiting: it returns 0 having appended its message, and has woken every receiver.
   */
  lemma SendCompletes<T>(s0: State<T>, before: seq<Action<T>>, s: State<T>, t: Tid, msg: T, timeout: int)
    requires After(s0, before, s) && s.lock.None? && t in s.pcs && s.pcs[t].Idle?
    ensures s.ring.Inv()
    ensures |s.ring.Items()| < |s.ring.slots| ==>
              var op := Send(msg, timeout);
              && Legal(s, Alone(t, op))
              && var end := Run(s, Alone(t, op));
                 && end.ring.Inv() && |end.ring.slots| == |s.ring.slots|
                 && end.ring.Items() == s.ring.Items() + [msg]
                 && end.sent == s.sent + [(t, msg)] && end.received == s.received
                 && end.log == s.log + [Returned(t, op, msg)]
                 && end.lock.None? && end.clock == s.clock && end.pcs.Keys == s.pcs.Keys
                 && forall u | u in s.pcs :: end.pcs[u] ==
                      if s.pcs[u].Asleep? && s.pcs[u].op.Recv?
                      then Woken(s.pcs[u].op, s.pcs[u].wait, false) else s.pcs[u]
  {
    AfterInv(s0, before, s);
    FullIsNoSlotLeft(s.ring);
    if |s.ring.Items()| < |s.ring.slots| {
      var op := Send(msg, timeout);
      CallToReady(s, t, op);
      var s3 := s.(lock := Some(t), pcs := s.pcs[t := Ready(op)]);
      ServedSend(s3, t);
      PutAppends(s.ring, msg);
      AloneIs(t, op);
      RunThree<T>(s, Call(t, op), Lock(t), Test(t), Served(t));
      hide Inv, Next, Enabled, Legal, Run, Ring.Items, Ring.Full, Ring.Inv;
    }
  }

  /**
   * With the mutex free and a message queued, a receive made by an idle thread can run
   * through without waiting: it returns 0 with the oldest message, which is gone from the
   * queue, and has woken every sender.
   */
  lemma RecvCompletes<T>(s0: State<T>, before: seq<Action<T>>, s: State<T>, t: Tid, timeout: int)
    requires After(s0, before, s) && s.lock.None? && t in s.pcs && s.pcs[t].Idle?
    ensures s.ring.Inv()
    ensures s.ring.Items() != [] ==>
              var op, x := Recv(timeout), s.ring.Items()[0];
              && Legal(s, Alone(t, op))
              && var end := Run(s, Alone(t, op));
                 && end.ring.Inv() && |end.ring.slots| == |s.ring.slots|
                 && end.ring.Items() == s.ring.Items()[1..]
                 && end.received == s.received + [(t, x)] && end.sent == s.sent
                 && end.log == s.log + [Returned(t, op, x)]
                 && end.lock.None? && end.clock == s.clock && end.pcs.Keys == s.pcs.Keys
                 && forall u | u in s.pcs :: end.pcs[u] ==
                      if s.pcs[u].Asleep? && s.pcs[u].op.Send?
                      then Woken(s.pcs[u].op, s.pcs[u].wait, false) else s.pcs[u]
  {
    AfterInv(s0, before, s);
    FullIsNoSlotLeft(s.ring);
    if s.ring.Items() != [] {
      var op := Recv(timeout);
      CallToReady(s, t, op);
      var s3 := s.(lock := Some(t), pcs := s.pcs[t := Ready(op)]);
      ServedRecv(s3, t);
      TakeRemoves(s.ring);
      AloneIs(t, op);
      RunThree<T>(s, Call(t, op), Lock(t), Test(t), Served(t));
      hide Inv, Next, Enabled, Legal, Run, Ring.Items, Ring.Full, Ring.Inv;
    }
  }

  lemma AloneIs<T>(t: Tid, op: Op<T>)
    ensures Alone(t, op) == [Call(t, op), Lock(t), Test(t)] + Served(t)
  {
  }
}
