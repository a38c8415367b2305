/** What each operation of the scheduler and of thread.c does to the thread that it is given, to all others, and to the order
    of the ready lists. */
module SchedCalls {
  import opened RtDef
  import opened RtList
  import opened ReadyIndex
  import opened SchedModel

  /** The thread that an operation is about */
  function Subject(s: Sched, op: Op): int {
    match op
    case Create(t, prio) => t
    case Startup(t) => t
    case Suspend(t) => t
    case Resume(t) => t
    case Timeout(t) => t
    case SetPriority(t, prio) => t
    case Exit => s.current
    case Close(t) => t
    case _ => NULL
  }

  /** No other thread changes, and no thread comes or goes but a created one. */
  ghost predicate OthersSame(s: Sched, s': Sched, t: int) {
    forall x :: x != t ==> (x in s.threads <==> x in s'.threads) && (x in s.threads ==> s'.threads[x] == s.threads[x])
  }

  /** The lists are the same but for t, which comes last in its own one if it is queued anew. */
  ghost predicate InTurn(s: Sched, s': Sched, t: int, anew: bool) {
    && |s'.ready| == |s.ready|
    && (forall p :: 0 <= p < |s.ready| ==> Without(s'.ready[p], t) == Without(s.ready[p], t))
    && (anew && t in s'.threads && s'.threads[t].stat == READY && s'.threads[t].prio < |s.ready| ==>
          s'.ready[s'.threads[t].prio] != [] && s'.ready[s'.threads[t].prio][|s'.ready[s'.threads[t].prio]| - 1] == t)
  }

  /** Where a thread that can run again goes */
  function Able(s: Sched, t: int): Stat { if t == s.current then RUNNING else READY }

  /** What an operation makes of its thread */
  ghost predicate BecomesOf(s: Sched, op: Op, t: int, x: Thread)
    requires Allowed(s, op) && t == Subject(s, op)
  {
    match op
    case Create(_, prio) => x == Thread(INIT, prio, prio)
    case Startup(_) => t in s.threads && x == Thread(READY, s.threads[t].initPrio, s.threads[t].initPrio)
    case Suspend(_) =>
      x == if s.threads[t].stat == READY || s.threads[t].stat == RUNNING then s.threads[t].(stat := SUSPEND) else s.threads[t]
    case Resume(_) => x == if s.threads[t].stat == SUSPEND then s.threads[t].(stat := Able(s, t)) else s.threads[t]
    case Timeout(_) => x == s.threads[t].(stat := Able(s, t))
    case SetPriority(_, prio) => x == s.threads[t].(prio := prio)
    case Exit => t in s.threads && x == s.threads[t].(stat := CLOSE)
    case Close(_) => x == s.threads[t].(stat := CLOSE)
    case _ => true
  }

  /** What an operation has made of the state */
  ghost predicate Does(s: Sched, op: Op, s': Sched)
    requires Allowed(s, op)
  {
    var t := Subject(s, op);
    && OthersSame(s, s', t)
    && (t != NULL ==> t in s'.threads && BecomesOf(s, op, t, s'.threads[t]))
    && InTurn(s, s', t, op.SetPriority? || (t in s.threads && s.threads[t].stat != READY))
    && s'.current == s.current && s'.idle == s.idle
    && s'.lock == (if op.Lock? then s.lock + 1 else if op.Unlock? && s.lock > 0 then s.lock - 1 else s.lock)
  }

  /** Up to its call of rt_schedule an operation changes its own thread, as it is meant to, and no other; a thread that is queued
      anew comes last in the list of its priority; and only the nesting of the lock changes beside. */
  lemma ApplyComesTo(s: Sched, op: Op)
    requires Inv(s) && Allowed(s, op) && !op.Start?
    ensures Ready(s) && (s.current != NULL ==> s.current in s.threads)
    ensures Does(s, op, Apply(s, op))
  {
    hide Does, Inv, Apply, QueuesOk;
    InvReady(s);
    match op
    case Startup(t) => ApplyQueues(s, op, t);
    case Resume(t) => ApplyQueues(s, op, t);
    case Timeout(t) => ApplyQueues(s, op, t);
    case Suspend(t) => ApplyLeaves(s, op, t);
    case Exit => ApplyLeaves(s, op, s.current);
    case Close(t) => ApplyLeaves(s, op, t);
    case _ => ApplyRest(s, op);
  }

  lemma ApplyQueues(s: Sched, op: Op, t: int)
    requires Inv(s) && Allowed(s, op) && (op.Startup? || op.Resume? || op.Timeout?) && t == Subject(s, op)
    requires Ready(s) && (s.current != NULL ==> s.current in s.threads)
    ensures Does(s, op, Apply(s, op))
  {
    hide QueuesOk, Without;
    WithoutAppended(s, if op.Startup? then s.threads[t].initPrio else s.threads[t].prio, t);
  }

  lemma ApplyLeaves(s: Sched, op: Op, t: int)
    requires Inv(s) && Allowed(s, op) && (op.Suspend? || op.Exit? || op.Close?) && t == Subject(s, op)
    requires Ready(s) && (s.current != NULL ==> s.current in s.threads)
    ensures Does(s, op, Apply(s, op))
  {
    hide QueuesOk, Without;
    WithoutTwice(s, s.threads[t].prio, t);
  }

  lemma ApplyRest(s: Sched, op: Op)
    requires Inv(s) && Allowed(s, op) && (op.Create? || op.SetPriority? || op.Yield? || op.Lock? || op.Unlock?)
    requires Ready(s) && (s.current != NULL ==> s.current in s.threads)
    ensures Does(s, op, Apply(s, op))
  {
    hide QueuesOk, Without, Reprioritized;
    if op.SetPriority? { Moved(s, op.t, op.prio); }
  }

  lemma WithoutAppended(s: Sched, p: nat, t: int)
    requires Inv(s) && p < |s.ready| && t in s.threads
    ensures s.threads[t].stat != READY ==> Without(s.ready[p] + [t], t) == s.ready[p] == Without(s.ready[p], t)
    ensures s.threads[t].stat != READY ==> forall q :: 0 <= q < |s.ready| ==> t !in s.ready[q]
    ensures (s.ready[p] + [t])[|s.ready[p] + [t]| - 1] == t
  {
    if s.threads[t].stat != READY {
      forall q | 0 <= q < |s.ready|
        ensures t !in s.ready[q]
      {
        assert Queued(s, q);
      }
      WithoutLast(s.ready[p], t);
    }
  }

  lemma {:induction false} WithoutLast(list: seq<int>, t: int)
    requires t !in list
    ensures Without(list + [t], t) == list && Without(list, t) == list
  {
    if list != [] {
      WithoutLast(list[1..], t);
      assert (list + [t])[1..] == list[1..] + [t];
    } else {
      assert (list + [t])[1..] == [];
    }
  }

  lemma WithoutTwice(s: Sched, p: nat, t: int)
    requires Inv(s) && p < |s.ready|
    ensures Without(Without(s.ready[p], t), t) == Without(s.ready[p], t)
  {
    assert Queued(s, p);
    WithoutSpec(s.ready[p], t);
    WithoutNone(Without(s.ready[p], t), t);
  }

  lemma Moved(s: Sched, t: int, prio: nat)
    requires Inv(s) && t in s.threads && prio < |s.ready|
    ensures var s' := Reprioritized(s, t, prio);
            InTurn(s, s', t, true) && OthersSame(s, s', t) && t in s'.threads && s'.threads[t] == s.threads[t].(prio := prio)
            && s'.current == s.current && s'.idle == s.idle && s'.lock == s.lock
  {
    hide Without;
    var s' := Reprioritized(s, t, prio);
    if s.threads[t].stat == READY {
      forall p | 0 <= p < |s.ready|
        ensures Without(s'.ready[p], t) == Without(s.ready[p], t)
      {
        assert Queued(s, p);
        WithoutSpec(s.ready[p], t);
        var list := if p == s.threads[t].prio then Without(s.ready[p], t) else s.ready[p];
        assert t !in list;
        WithoutLast(list, t);
      }
    }
  }

  /** The scheduler starts with the first thread of the most urgent list. */
  lemma StartComesTo(s: Sched)
    requires Inv(s) && Allowed(s, Op.Start)
    ensures FirstBusy(s.ready, 0) < |s.ready| && s.ready[FirstBusy(s.ready, 0)] != [] && s.ready[FirstBusy(s.ready, 0)][0] in s.threads
    ensures var s', t := Started(s), s.ready[FirstBusy(s.ready, 0)][0];
            && s'.current == t && s'.threads[t] == s.threads[t].(stat := RUNNING) && OthersSame(s, s', t) && InTurn(s, s', t, false)
            && s'.lock == s.lock && s'.idle == s.idle
            && forall x :: x in s.threads && s.threads[x].stat == READY ==> s.threads[t].prio <= s.threads[x].prio
  {
    StartedOk(s);
    FirstIsBest(s);
    var t := s.ready[FirstBusy(s.ready, 0)][0];
    WithoutTwice(s, s.threads[t].prio, t);
  }

  /** rt_schedule does nothing while it is locked, when nobody is ready, or when the running thread is more urgent than all that
      are; otherwise the first thread of the most urgent list runs next, and one that was running waits behind all ready
      threads of its priority. */
  lemma ScheduleComesTo(s: Sched)
    requires Inv(s) && s.current != NULL
    ensures Ready(s) && s.current in s.threads
    ensures var s', h := Schedule(s), FirstBusy(s.ready, 0);
            if s.lock != 0 || h == |s.ready| || (s.threads[s.current].stat == RUNNING && s.threads[s.current].prio < h) then s' == s
            else
              var t, from := s.ready[h][0], s.current;
              && t in s.threads && s'.current == t && s'.threads[t] == s.threads[t].(stat := RUNNING)
              && (from != t ==> s'.threads[from] == if s.threads[from].stat == RUNNING then s.threads[from].(stat := READY) else s.threads[from])
              && (forall x :: x != t && x != from ==>
                    (x in s.threads <==> x in s'.threads) && (x in s.threads ==> s'.threads[x] == s.threads[x]))
              && s'.lock == s.lock && s'.idle == s.idle && |s'.ready| == |s.ready|
              && s.ready[h] == [t] + s.ready[h][1..]
              && forall p :: 0 <= p < |s.ready| ==>
                   s'.ready[p] == (if p == h then s.ready[p][1..] else s.ready[p])
                                  + (if s.threads[from].stat == RUNNING && p == s.threads[from].prio then [from] else [])
  {
    InvReady(s);
    FirstIsBest(s);
    var h := FirstBusy(s.ready, 0);
    if h < |s.ready| {
      FirstBusyIsFirst(s.ready, 0);
      var t, from := s.ready[h][0], s.current;
      assert t != from;
      assert (s.ready[h] + [from])[1..] == s.ready[h][1..] + [from];
    }
  }

  /** Suspending, resuming, closing, changing a priority, creating, locking, unlocking but for the last time, and starting up
      before the scheduler does, do not reschedule. */
  lemma StaysCurrent(s: Sched, op: Op)
    requires Inv(s) && Allowed(s, op)
    requires op.Create? || op.Suspend? || op.Resume? || op.Close? || op.SetPriority? || op.Lock? || (op.Unlock? && s.lock > 1)
             || (op.Startup? && s.current == NULL)
    ensures Ready(s) && (s.current != NULL ==> s.current in s.threads) && Step(s, op) == Apply(s, op) && Step(s, op).current == s.current
  {
    hide Inv, Apply;
    InvReady(s);
    ApplyOk(s, op);
    SameCurrent(s, op);
  }
}
