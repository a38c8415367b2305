/** Priority inheritance when threads hold several mutexes, of either flag: which steps keep every owner at
    least as urgent as its waiters, and which do not. */
module MutexNesting {
  import opened RtDef
  import opened RtList
  import opened IpcList
  import opened MutexModel

  // ---- the shape of a state ----

  /** What holds of every mutex however its threads nest. */
  ghost predicate ShapeAt(s: Sys, m: int)
    requires m in s.mutexes
  {
    var x := s.mutexes[m];
    && (if x.owner == NULL then x.value == 1 && x.hold == 0 && x.waiters == []
        else x.value == 0 && 0 < x.hold <= MAX_HOLD && x.owner in s.prio && x.owner !in x.waiters)
    && NoDup(x.waiters)
    && forall t :: t in x.waiters <==> t in s.phase && s.phase[t] == Waiting(m)
  }

  ghost predicate Shaped(s: Sys) {
    && NULL !in s.prio && s.prio.Keys == s.phase.Keys
    && forall m :: m in s.mutexes ==> ShapeAt(s, m)
  }

  /** Every owner runs at least as urgently as all its waiters. */
  ghost predicate AllUrgent(s: Sys) {
    forall m :: m in s.mutexes ==> OwnerUrgent(s.mutexes[m], s.prio)
  }

  // ---- the guard ----

  /** The take blocks and raises the owner of the mutex. */
  predicate Raises(x: Mutex, prio: map<int, nat>, t: int, wait: bool) {
    x.owner != t && x.value == 0 && wait && Prio(prio, t) < Prio(prio, x.owner)
  }

  /** If the owner that is raised waits for another mutex itself, that one's owner is as urgent as t already;
      the code does not pass the priority on. */
  ghost predicate RaiseReaches(s: Sys, t: int, o: int) {
    forall n :: n in s.mutexes && o in s.mutexes[n].waiters ==> Prio(s.prio, s.mutexes[n].owner) <= Prio(s.prio, t)
  }

  /** The priority that t goes back to suits the waiters of every mutex that t keeps. */
  ghost predicate RestoreSuits(s: Sys, t: int, m: int)
    requires m in s.mutexes
  {
    forall n, w :: n in s.mutexes && n != m && s.mutexes[n].owner == t && w in s.mutexes[n].waiters ==>
      s.mutexes[m].original <= Prio(s.prio, w)
  }

  /** No waiter is more urgent than the first one. */
  ghost predicate FirstIsUrgent(x: Mutex, prio: map<int, nat>) {
    x.waiters != [] ==> forall w :: w in x.waiters[1..] ==> Prio(prio, x.waiters[0]) <= Prio(prio, w)
  }

  ghost predicate KeepsUrgent(s: Sys, op: Op)
    requires Possible(s, op)
  {
    match op
    case TakeOp(t, m, wait) => Raises(s.mutexes[m], s.prio, t, wait) ==> RaiseReaches(s, t, s.mutexes[m].owner)
    case ReleaseOp(t, m) =>
      s.mutexes[m].owner == t && s.mutexes[m].hold == 1 ==>
        RestoreSuits(s, t, m) && FirstIsUrgent(s.mutexes[m], s.prio)
    case TimeoutOp(t) => true
    case ReturnOp(t) => true
  }

  // ---- every step keeps the shape ----

  lemma TakeShaped(s: Sys, t: int, m: int, wait: bool)
    requires Shaped(s) && Possible(s, TakeOp(t, m, wait))
    ensures Shaped(DoTake(s, t, m, wait))
  {
    hide NoDup, Enqueued;
    var s' := DoTake(s, t, m, wait);
    var x := s.mutexes[m];
    assert ShapeAt(s, m);
    if x.owner != t && x.value == 0 && wait { EnqueuedMembers(x.waiters, s'.prio, x.flag, t); }
    forall n | n in s'.mutexes
      ensures ShapeAt(s', n)
    {
      assert ShapeAt(s, n);
    }
  }

  lemma ReleaseShaped(s: Sys, t: int, m: int)
    requires Shaped(s) && Possible(s, ReleaseOp(t, m))
    ensures Shaped(DoRelease(s, t, m))
  {
    hide NoDup;
    var s' := DoRelease(s, t, m);
    var x := s.mutexes[m];
    assert ShapeAt(s, m);
    if x.waiters != [] { var w := NoDupTail(x.waiters); }
    forall n | n in s'.mutexes
      ensures ShapeAt(s', n)
    {
      assert ShapeAt(s, n);
    }
  }

  lemma StepShaped(s: Sys, op: Op)
    requires Shaped(s) && Possible(s, op)
    ensures Shaped(Step(s, op))
  {
    hide NoDup, Without, DoTake, DoRelease;
    match op
    case TakeOp(t, m, wait) => TakeShaped(s, t, m, wait);
    case ReleaseOp(t, m) => ReleaseShaped(s, t, m);
    case TimeoutOp(t) =>
      var s' := DoTimeout(s, t);
      forall n | n in s'.mutexes
        ensures ShapeAt(s', n)
      {
        assert ShapeAt(s, n);
        WithoutSpec(s.mutexes[n].waiters, t);
      }
    case ReturnOp(t) =>
      var s' := Step(s, op);
      forall n | n in s'.mutexes
        ensures ShapeAt(s', n)
      {
        assert ShapeAt(s, n);
      }
  }

  // ---- which steps keep the urgency ----

  /** A running thread waits for nothing. */
  lemma RunningWaitsNot(s: Sys, t: int, n: int)
    requires Shaped(s) && n in s.mutexes && t in s.phase && s.phase[t] == Free
    ensures t !in s.mutexes[n].waiters
  {
    hide NoDup;
    assert ShapeAt(s, n);
  }

  lemma TakeUrgent(s: Sys, t: int, m: int, wait: bool)
    requires Shaped(s) && AllUrgent(s) && Possible(s, TakeOp(t, m, wait))
    ensures AllUrgent(DoTake(s, t, m, wait)) <==> KeepsUrgent(s, TakeOp(t, m, wait))
  {
    hide NoDup, Enqueued;
    var s' := DoTake(s, t, m, wait);
    var x := s.mutexes[m];
    assert ShapeAt(s, m);
    RunningWaitsNot(s, t, m);
    if x.owner != t && x.value == 0 && wait {
      EnqueuedMembers(x.waiters, s'.prio, x.flag, t);
      forall n | n in s.mutexes
        ensures OwnerUrgent(s'.mutexes[n], s'.prio) <==>
                (Raises(x, s.prio, t, wait) && x.owner in s.mutexes[n].waiters ==> Prio(s.prio, s.mutexes[n].owner) <= Prio(s.prio, t))
      {
        BlockedUrgentAt(s, t, m, n);
      }
    } else {
      forall n | n in s.mutexes
        ensures OwnerUrgent(s'.mutexes[n], s'.prio)
      {
        assert OwnerUrgent(s.mutexes[n], s.prio);
      }
    }
  }

  /** One mutex across a blocking take */
  lemma BlockedUrgentAt(s: Sys, t: int, m: int, n: int)
    requires Shaped(s) && AllUrgent(s) && Possible(s, TakeOp(t, m, true)) && n in s.mutexes
    requires s.mutexes[m].owner != t && s.mutexes[m].value == 0
    ensures var s', o := DoTake(s, t, m, true), s.mutexes[m].owner;
            OwnerUrgent(s'.mutexes[n], s'.prio) <==>
              (Prio(s.prio, t) < Prio(s.prio, o) && o in s.mutexes[n].waiters ==> Prio(s.prio, s.mutexes[n].owner) <= Prio(s.prio, t))
  {
    hide NoDup, Enqueued;
    var s' := DoTake(s, t, m, true);
    var x, y, o := s.mutexes[m], s.mutexes[n], s.mutexes[m].owner;
    assert ShapeAt(s, m) && ShapeAt(s, n) && OwnerUrgent(y, s.prio);
    RunningWaitsNot(s, t, m);
    RunningWaitsNot(s, t, n);
    EnqueuedMembers(x.waiters, s'.prio, x.flag, t);
    if Prio(s.prio, t) < Prio(s.prio, o) && o in y.waiters {
      assert y.owner != o && n != m;
      assert o in s'.mutexes[n].waiters;
    }
  }

  lemma ReleaseUrgent(s: Sys, t: int, m: int)
    requires Shaped(s) && AllUrgent(s) && Possible(s, ReleaseOp(t, m))
    ensures AllUrgent(DoRelease(s, t, m)) <==> KeepsUrgent(s, ReleaseOp(t, m))
  {
    hide NoDup;
    var s' := DoRelease(s, t, m);
    var x := s.mutexes[m];
    assert ShapeAt(s, m);
    if x.owner == t && x.hold == 1 {
      forall n | n in s.mutexes
        ensures OwnerUrgent(s'.mutexes[n], s'.prio) <==>
                if n == m then FirstIsUrgent(x, s.prio)
                else s.mutexes[n].owner == t ==> forall w :: w in s.mutexes[n].waiters ==> x.original <= Prio(s.prio, w)
      {
        ReleasedUrgentAt(s, t, m, n);
      }
    } else {
      forall n | n in s.mutexes
        ensures OwnerUrgent(s'.mutexes[n], s'.prio)
      {
        assert OwnerUrgent(s.mutexes[n], s.prio);
      }
    }
  }

  /** One mutex across the last release of m */
  lemma ReleasedUrgentAt(s: Sys, t: int, m: int, n: int)
    requires Shaped(s) && AllUrgent(s) && Possible(s, ReleaseOp(t, m)) && n in s.mutexes
    requires s.mutexes[m].owner == t && s.mutexes[m].hold == 1
    ensures var s', x := DoRelease(s, t, m), s.mutexes[m];
            OwnerUrgent(s'.mutexes[n], s'.prio) <==>
              if n == m then FirstIsUrgent(x, s.prio)
              else s.mutexes[n].owner == t ==> forall w :: w in s.mutexes[n].waiters ==> x.original <= Prio(s.prio, w)
  {
    hide NoDup;
    var s' := DoRelease(s, t, m);
    var x := s.mutexes[m];
    assert ShapeAt(s, m) && ShapeAt(s, n) && OwnerUrgent(s.mutexes[n], s.prio);
    RunningWaitsNot(s, t, m);
    RunningWaitsNot(s, t, n);
    forall u | u != t
      ensures Prio(s'.prio, u) == Prio(s.prio, u)
    {
    }
    assert Prio(s'.prio, t) == x.original;
    if x.waiters != [] { var w := NoDupTail(x.waiters); }
  }

  lemma TimeoutUrgent(s: Sys, t: int)
    requires Shaped(s) && AllUrgent(s) && Possible(s, TimeoutOp(t))
    ensures AllUrgent(DoTimeout(s, t))
  {
    hide NoDup, Without;
    var s' := DoTimeout(s, t);
    forall n | n in s'.mutexes
      ensures OwnerUrgent(s'.mutexes[n], s'.prio)
    {
      assert ShapeAt(s, n) && OwnerUrgent(s.mutexes[n], s.prio);
      WithoutSpec(s.mutexes[n].waiters, t);
    }
  }

  /** From a state in which every owner is urgent enough, a step keeps that if and only if: a release of the
      last hold hands over to the most urgent waiter and sends the thread back to a priority that suits the
      waiters of all mutexes it keeps; and a take that raises an owner does not raise one that waits for a
      less urgent owner itself. */
  lemma StepUrgent(s: Sys, op: Op)
    requires Shaped(s) && AllUrgent(s) && Possible(s, op)
    ensures AllUrgent(Step(s, op)) <==> KeepsUrgent(s, op)
  {
    hide Shaped, DoTake, DoRelease, DoTimeout, KeepsUrgent, OwnerUrgent;
    match op
    case TakeOp(t, m, wait) => TakeUrgent(s, t, m, wait);
    case ReleaseOp(t, m) => ReleaseUrgent(s, t, m);
    case TimeoutOp(t) => TimeoutUrgent(s, t); AlwaysKeeps(s, op);
    case ReturnOp(t) => AlwaysKeeps(s, op);
  }

  lemma AlwaysKeeps(s: Sys, op: Op)
    requires Possible(s, op) && (op.TimeoutOp? || op.ReturnOp?)
    ensures KeepsUrgent(s, op)
    ensures op.ReturnOp? ==> Step(s, op).mutexes == s.mutexes && Step(s, op).prio == s.prio
  {
  }

  // ---- runs ----

  /** Every owner is urgent enough in every state of the run. */
  ghost predicate UrgentThroughout(s: Sys, ops: seq<Op>)
    requires PossibleRun(s, ops)
    decreases |ops|
  {
    AllUrgent(s) && (ops != [] ==> UrgentThroughout(Step(s, ops[0]), ops[1..]))
  }

  /** The guard holds at every step of the run. */
  ghost predicate GuardedThroughout(s: Sys, ops: seq<Op>)
    requires PossibleRun(s, ops)
    decreases |ops|
  {
    ops != [] ==> KeepsUrgent(s, ops[0]) && GuardedThroughout(Step(s, ops[0]), ops[1..])
  }

  /** However the threads of a run nest their mutexes, inheritance holds in all its states exactly if the guard
      holds at all its steps. */
  lemma {:induction false} RunUrgent(s: Sys, ops: seq<Op>)
    requires Shaped(s) && AllUrgent(s) && PossibleRun(s, ops)
    ensures UrgentThroughout(s, ops) <==> GuardedThroughout(s, ops)
    decreases |ops|
  {
    hide Shaped, AllUrgent, Step, KeepsUrgent, Possible;
    if ops != [] {
      StepShaped(s, ops[0]);
      StepUrgent(s, ops[0]);
      if AllUrgent(Step(s, ops[0])) { RunUrgent(Step(s, ops[0]), ops[1..]); }
    }
  }

  lemma InitialShaped(base: map<int, nat>, mutexes: set<int>, flag: Flag)
    requires NULL !in base
    ensures Shaped(Initial(base, mutexes, flag)) && AllUrgent(Initial(base, mutexes, flag))
  {
    var s := Initial(base, mutexes, flag);
    NoDupEmpty<int>();
    forall m | m in s.mutexes
      ensures ShapeAt(s, m)
    {
    }
  }

  /** The same of a run from threads that hold nothing. */
  lemma StartUrgent(base: map<int, nat>, mutexes: set<int>, flag: Flag, ops: seq<Op>)
    requires NULL !in base && PossibleRun(Initial(base, mutexes, flag), ops)
    ensures UrgentThroughout(Initial(base, mutexes, flag), ops) <==> GuardedThroughout(Initial(base, mutexes, flag), ops)
  {
    InitialShaped(base, mutexes, flag);
    RunUrgent(Initial(base, mutexes, flag), ops);
  }

  // ---- the two ways to fail, and a third for the own priority ----

  /** A release that sends a thread back too far: thread 1 takes mutexes 0 and 1, the more urgent thread 2 waits
      for mutex 0, and the release of mutex 1 puts thread 1 back to its own priority. */
  lemma ReleaseLosesInheritance()
    ensures var s := Initial(map[1 := 9, 2 := 5], {0, 1}, PRIO);
            var a, b, c, d := TakeOp(1, 0, true), TakeOp(1, 1, true), TakeOp(2, 0, true), ReleaseOp(1, 1);
            && FourPossible(s, a, b, c, d)
            && 0 in Step(Step(Step(Step(s, a), b), c), d).mutexes
            && !AllUrgent(Step(Step(Step(Step(s, a), b), c), d))
  {
    hide OwnerUrgent, DoTake;
    var s := Initial(map[1 := 9, 2 := 5], {0, 1}, PRIO);
    TakesNew(s, 1, 0);
    var s1 := Step(s, TakeOp(1, 0, true));
    TakesNew(s1, 1, 1);
    var s2 := Step(s1, TakeOp(1, 1, true));
    BlocksAlone(s2, 2, 0);
    var s3 := Step(s2, TakeOp(2, 0, true));
    var s4 := Step(s3, ReleaseOp(1, 1));
    assert s4.prio[1] == 9 && s4.mutexes[0] == s3.mutexes[0];
    NotUrgent(s4.mutexes[0], s4.prio, 2);
  }

  /** A take that raises a thread which waits itself: thread 1 holds mutex 0 and waits for mutex 1 of thread 2;
      when the more urgent thread 3 waits for mutex 0, thread 1 is raised and thread 2 is not. */
  lemma TakeLosesInheritance()
    ensures var s := Initial(map[1 := 9, 2 := 7, 3 := 5], {0, 1}, PRIO);
            var a, b, c, d := TakeOp(1, 0, true), TakeOp(2, 1, true), TakeOp(1, 1, true), TakeOp(3, 0, true);
            && FourPossible(s, a, b, c, d)
            && 1 in Step(Step(Step(Step(s, a), b), c), d).mutexes
            && !AllUrgent(Step(Step(Step(Step(s, a), b), c), d))
  {
    hide OwnerUrgent, DoTake;
    var s := Initial(map[1 := 9, 2 := 7, 3 := 5], {0, 1}, PRIO);
    TakesNew(s, 1, 0);
    var s1 := Step(s, TakeOp(1, 0, true));
    TakesNew(s1, 2, 1);
    var s2 := Step(s1, TakeOp(2, 1, true));
    BlocksAlone(s2, 1, 1);
    var s3 := Step(s2, TakeOp(1, 1, true));
    BlocksAlone(s3, 3, 0);
    var s4 := Step(s3, TakeOp(3, 0, true));
    NotUrgent(s4.mutexes[1], s4.prio, 1);
  }

  /** A thread that blocks on a mutex nobody waits for */
  lemma BlocksAlone(s: Sys, t: int, m: int)
    requires m in s.mutexes && s.mutexes[m].waiters == [] && s.mutexes[m].owner != t && s.mutexes[m].value == 0
    ensures var s', x := DoTake(s, t, m, true), s.mutexes[m];
            && s'.prio == (if Prio(s.prio, t) < Prio(s.prio, x.owner) then s.prio[x.owner := Prio(s.prio, t)] else s.prio)
            && s'.mutexes == s.mutexes[m := s'.mutexes[m]] && s'.phase == s.phase[t := Waiting(m)] && s'.base == s.base && s'.held == s.held
            && s'.mutexes[m] == x.(waiters := s'.mutexes[m].waiters) && |s'.mutexes[m].waiters| == 1 && t in s'.mutexes[m].waiters
  {
    hide Enqueued, Prio;
    NoDupEmpty<int>();
    var x := s.mutexes[m];
    var prio := if Prio(s.prio, t) < Prio(s.prio, x.owner) then s.prio[x.owner := Prio(s.prio, t)] else s.prio;
    EnqueuedMembers([], prio, x.flag, t);
  }

  // ---- the priority of a thread that holds nothing ----

  ghost predicate HoldsNothing(s: Sys, t: int) {
    forall m :: m in s.mutexes ==> s.mutexes[m].owner != t
  }

  /** t gives a mutex up. */
  predicate GivesUp(s: Sys, op: Op, t: int) {
    op.ReleaseOp? && op.t == t && op.m in s.mutexes && s.mutexes[op.m].owner == t && s.mutexes[op.m].hold == 1
  }

  /** The priority saved in the mutex that t gives up last in the run, or `last` if it gives up none */
  function SavedLast(s: Sys, ops: seq<Op>, t: int, last: nat): nat
    requires PossibleRun(s, ops)
    decreases |ops|
  {
    if ops == [] then last
    else SavedLast(Step(s, ops[0]), ops[1..], t, if GivesUp(s, ops[0], t) then s.mutexes[ops[0].m].original else last)
  }

  /** While a thread holds nothing nobody changes its priority. */
  lemma StepSaves(s: Sys, op: Op, t: int, last: nat)
    requires Shaped(s) && Possible(s, op) && t in s.prio
    requires HoldsNothing(s, t) ==> s.prio[t] == last
    ensures t in Step(s, op).prio
    ensures HoldsNothing(Step(s, op), t) ==>
              Step(s, op).prio[t] == if GivesUp(s, op, t) then s.mutexes[op.m].original else last
  {
    hide Enqueued, NoDup, Without;
    match op
    case TakeOp(u, m, wait) => assert ShapeAt(s, m); OwnersStay(s, op, t, m);
    case ReleaseOp(u, m) => assert ShapeAt(s, m); OwnersStay(s, op, t, m);
    case TimeoutOp(u) => assert ShapeAt(s, s.phase[u].m); OwnersStay(s, op, t, s.phase[u].m);
    case ReturnOp(u) =>
  }

  /** A region on mutex m takes no other mutex from its owner. */
  lemma OwnersStay(s: Sys, op: Op, t: int, m: int)
    requires Possible(s, op) && !op.ReturnOp?
    requires m == if op.TimeoutOp? then s.phase[op.t].m else op.m
    ensures Step(s, op).mutexes.Keys == s.mutexes.Keys
    ensures forall n :: n in s.mutexes && n != m ==> Step(s, op).mutexes[n] == s.mutexes[n]
    ensures HoldsNothing(Step(s, op), t) && Step(s, op).mutexes[m].owner == s.mutexes[m].owner ==> HoldsNothing(s, t)
    ensures HoldsNothing(Step(s, op), t) && s.mutexes[m].owner != t ==> HoldsNothing(s, t)
  {
    hide Take, Release, Without;
    var s' := Step(s, op);
    if HoldsNothing(s', t) && (s'.mutexes[m].owner == s.mutexes[m].owner || s.mutexes[m].owner != t) {
      forall n | n in s.mutexes
        ensures s.mutexes[n].owner != t
      {
        assert n in s'.mutexes;
      }
    }
  }

  lemma {:induction false} RunSaves(s: Sys, ops: seq<Op>, t: int, last: nat)
    requires Shaped(s) && PossibleRun(s, ops) && t in s.prio
    requires HoldsNothing(s, t) ==> s.prio[t] == last
    ensures t in RunOf(s, ops).prio
    ensures HoldsNothing(RunOf(s, ops), t) ==> RunOf(s, ops).prio[t] == SavedLast(s, ops, t, last)
    decreases |ops|
  {
    hide Shaped, Step, HoldsNothing, Possible;
    if ops != [] {
      StepShaped(s, ops[0]);
      StepSaves(s, ops[0], t, last);
      RunSaves(Step(s, ops[0]), ops[1..], t, if GivesUp(s, ops[0], t) then s.mutexes[ops[0].m].original else last);
    }
  }

  /** However mutexes are nested, FIFO or PRIO: a thread that holds nothing has the priority that was saved in the mutex
      it gave up last.  That is its own one if and only if it took that mutex at its own priority. */
  lemma RunRestoresBase(base: map<int, nat>, mutexes: set<int>, flag: Flag, ops: seq<Op>, t: int)
    requires NULL !in base && PossibleRun(Initial(base, mutexes, flag), ops) && t in base
    requires HoldsNothing(RunOf(Initial(base, mutexes, flag), ops), t)
    ensures var s := RunOf(Initial(base, mutexes, flag), ops);
            var saved := SavedLast(Initial(base, mutexes, flag), ops, t, base[t]);
            t in s.prio && s.prio[t] == saved && (s.prio[t] == base[t] <==> saved == base[t])
  {
    InitialShaped(base, mutexes, flag);
    RunSaves(Initial(base, mutexes, flag), ops, t, base[t]);
  }

  /** A thread that ends up with another priority: thread 1 takes mutex 0, is raised by thread 2, takes mutex 1
      and releases both in the order it took them; it then holds nothing and keeps the priority of thread 2. */
  lemma NestingKeepsRaisedPriority()
    ensures var s := Initial(map[1 := 9, 2 := 5], {0, 1}, PRIO);
            var a, b, c, d, e := TakeOp(1, 0, true), TakeOp(2, 0, true), TakeOp(1, 1, true), ReleaseOp(1, 0), ReleaseOp(1, 1);
            && FourPossible(s, a, b, c, d)
            && (var s4 := Step(Step(Step(Step(s, a), b), c), d);
                Possible(s4, e)
                && (var s5 := Step(s4, e);
                    && (forall m :: m in s5.mutexes ==> s5.mutexes[m].owner != 1)
                    && 1 in s5.prio && 1 in s5.base && s5.prio[1] == 5 && s5.base[1] == 9))
  {
    hide DoTake;
    var s := Initial(map[1 := 9, 2 := 5], {0, 1}, PRIO);
    TakesNew(s, 1, 0);
    var s1 := Step(s, TakeOp(1, 0, true));
    BlocksAlone(s1, 2, 0);
    var s2 := Step(s1, TakeOp(2, 0, true));
    TakesNew(s2, 1, 1);
    var s3 := Step(s2, TakeOp(1, 1, true));
    var s4 := Step(s3, ReleaseOp(1, 0));
    assert s4.mutexes[0].owner == 2 && s4.prio[1] == 9 && s4.mutexes[1] == Mutex(PRIO, 0, 1, 5, 1, []);
    var s5 := Step(s4, ReleaseOp(1, 1));
    assert s5.mutexes[0].owner == 2 && s5.mutexes[1].owner == NULL && s5.mutexes.Keys == {0, 1};
  }
}
