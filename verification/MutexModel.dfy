/** Mutexes with priority inheritance (ipc.c with rt_thread_control and rt_thread_timeout of thread.c), as a
    machine whose steps are the interrupt-free regions of take, release and timeout. */
module MutexModel {
  import opened RtDef
  import opened RtList
  import opened IpcList

  const NO_PRIORITY := 0xff      // original_priority of a mutex without owner
  const MAX_HOLD := 0xff         // hold is 8 bits wide

  datatype Mutex = Mutex(flag: Flag, value: nat, owner: int, original: nat, hold: nat, waiters: seq<int>)

  /** What one call of rt_mutex_take has come to. */
  datatype Outcome = Done | Refused | Blocked

  // ---- one mutex ----

  function New(flag: Flag): Mutex {
    Mutex(flag, 1, NULL, NO_PRIORITY, 0, [])
  }

  /** rt_mutex_take by thread t up to its return or its suspension: the mutex, the priorities, the outcome */
  function Take(x: Mutex, prio: map<int, nat>, t: int, wait: bool): (Mutex, map<int, nat>, Outcome) {
    if x.owner == t then (x.(hold := (x.hold + 1) % 256), prio, Done)
    else if x.value > 0 then (x.(value := x.value - 1, owner := t, original := Prio(prio, t), hold := (x.hold + 1) % 256), prio, Done)
    else if !wait then (x, prio, Refused)
    else
      var prio' := if Prio(prio, t) < Prio(prio, x.owner) then prio[x.owner := Prio(prio, t)] else prio;
      (x.(waiters := Enqueued(x.waiters, prio', x.flag, t)), prio', Blocked)
  }

  /** rt_mutex_release by thread t; false stands for -RT_ERROR */
  function Release(x: Mutex, prio: map<int, nat>, t: int): (Mutex, map<int, nat>, bool) {
    if x.owner != t || x.hold == 0 then (x, prio, false)
    else if x.hold > 1 then (x.(hold := x.hold - 1), prio, true)
    else
      var prio' := if x.original != Prio(prio, t) then prio[t := x.original] else prio;
      if x.waiters != [] then
        var w := x.waiters[0];
        (x.(owner := w, original := Prio(prio', w), hold := 1, waiters := x.waiters[1..]), prio', true)
      else (x.(value := x.value + 1, owner := NULL, original := NO_PRIORITY, hold := 0), prio', true)
  }

  /** The thread at the head gets the mutex when the owner releases it for the last time. */
  predicate HandsOver(x: Mutex, t: int) {
    x.owner == t && x.hold == 1 && x.waiters != []
  }

  // ---- all threads and mutexes ----

  /** Where a thread stands: outside any wait; blocked; or made ready again, with success or with an error,
      but not back from rt_mutex_take yet. */
  datatype Phase = Free | Waiting(m: int) | Granted(m: int) | Failed(m: int)

  /** base are the priorities of the threads as their creator set them, held the mutex that each has. */
  datatype Sys = Sys(prio: map<int, nat>, base: map<int, nat>, phase: map<int, Phase>, held: map<int, int>,
                     mutexes: map<int, Mutex>)

  datatype Op =
    | TakeOp(t: int, m: int, wait: bool)
    | ReleaseOp(t: int, m: int)
    | TimeoutOp(t: int)
    | ReturnOp(t: int)

  predicate Known(s: Sys, t: int) {
    t in s.prio && t in s.base && t in s.phase && t in s.held
  }

  /** A thread calls take or release only while it runs, and counts no further than `hold` can. */
  predicate Possible(s: Sys, op: Op) {
    match op
    case TakeOp(t, m, wait) =>
      Known(s, t) && s.phase[t] == Free && m in s.mutexes && (s.mutexes[m].owner == t ==> s.mutexes[m].hold < MAX_HOLD)
    case ReleaseOp(t, m) => Known(s, t) && s.phase[t] == Free && m in s.mutexes
    case TimeoutOp(t) => Known(s, t) && s.phase[t].Waiting? && s.phase[t].m in s.mutexes
    case ReturnOp(t) => Known(s, t) && (s.phase[t].Granted? || s.phase[t].Failed?)
  }

  /** And it takes no second mutex. */
  predicate Legal(s: Sys, op: Op) {
    Possible(s, op) && (op.TakeOp? ==> s.held[op.t] == NULL || s.held[op.t] == op.m)
  }

  function DoTake(s: Sys, t: int, m: int, wait: bool): Sys
    requires m in s.mutexes
  {
    var (x, prio, out) := Take(s.mutexes[m], s.prio, t, wait);
    s.(mutexes := s.mutexes[m := x], prio := prio,
       phase := if out == Blocked then s.phase[t := Waiting(m)] else s.phase,
       held := if out == Done then s.held[t := m] else s.held)
  }

  function DoRelease(s: Sys, t: int, m: int): Sys
    requires m in s.mutexes
  {
    var x := s.mutexes[m];
    var (x', prio, ok) := Release(x, s.prio, t);
    var s1 := s.(mutexes := s.mutexes[m := x'], prio := prio);
    if !ok || x.hold > 1 then s1
    else if x.waiters == [] then s1.(held := s.held[t := NULL])
    else s1.(held := s.held[t := NULL][x.waiters[0] := m], phase := s.phase[x.waiters[0] := Granted(m)])
  }

  /** rt_thread_timeout of a waiting thread */
  function DoTimeout(s: Sys, t: int): Sys
    requires t in s.phase && s.phase[t].Waiting? && s.phase[t].m in s.mutexes
  {
    var m := s.phase[t].m;
    var x := s.mutexes[m];
    s.(mutexes := s.mutexes[m := x.(waiters := Without(x.waiters, t))], phase := s.phase[t := Failed(m)])
  }

  function Step(s: Sys, op: Op): Sys
    requires Possible(s, op)
  {
    match op
    case TakeOp(t, m, wait) => DoTake(s, t, m, wait)
    case ReleaseOp(t, m) => DoRelease(s, t, m)
    case TimeoutOp(t) => DoTimeout(s, t)
    case ReturnOp(t) => s.(phase := s.phase[t := Free])
  }

  // ---- the invariant ----

  /** The owner runs at least as urgently as every waiter. */
  ghost predicate OwnerUrgent(x: Mutex, prio: map<int, nat>) {
    forall w :: w in x.waiters ==> Prio(prio, x.owner) <= Prio(prio, w)
  }

  ghost predicate MutexOk(s: Sys, m: int)
    requires m in s.mutexes
  {
    var x := s.mutexes[m];
    && x.flag == PRIO
    && (if x.owner == NULL then x.value == 1 && x.hold == 0 && x.waiters == [] else x.value == 0 && 0 < x.hold <= MAX_HOLD)
    && (x.owner != NULL ==> Known(s, x.owner) && s.held[x.owner] == m && x.original == s.base[x.owner])
    && NoDup(x.waiters) && ByPriority(x.waiters, s.prio) && OwnerUrgent(x, s.prio)
    && forall t :: t in x.waiters <==> t in s.phase && s.phase[t] == Waiting(m)
  }

  ghost predicate ThreadOk(s: Sys, t: int)
    requires t in s.prio
  {
    && Known(s, t)
    && (if s.held[t] == NULL then s.prio[t] == s.base[t]
        else s.held[t] in s.mutexes && s.mutexes[s.held[t]].owner == t && s.prio[t] <= s.base[t])
    && (match s.phase[t]
        case Free => true
        case Waiting(m) => s.held[t] == NULL && m in s.mutexes
        case Granted(m) => s.held[t] == m && m in s.mutexes && s.mutexes[m].hold == 1
        case Failed(m) => s.held[t] == NULL)
  }

  ghost predicate Inv(s: Sys) {
    && NULL !in s.prio && NULL !in s.mutexes
    && s.prio.Keys == s.base.Keys == s.phase.Keys == s.held.Keys
    && (forall m :: m in s.mutexes ==> MutexOk(s, m))
    && forall t :: t in s.prio ==> ThreadOk(s, t)
  }

  /** A mutex that a step does not touch stays as it was, if its owner's and waiters' data do. */
  lemma Untouched(s: Sys, s': Sys, m: int)
    requires m in s.mutexes && MutexOk(s, m) && m in s'.mutexes && s'.mutexes[m] == s.mutexes[m] && s'.base == s.base
    requires s.phase.Keys == s'.phase.Keys && s.prio.Keys == s'.prio.Keys && s.held.Keys == s'.held.Keys
    requires var x := s.mutexes[m];
             && (x.owner in s.prio ==> s'.prio[x.owner] == s.prio[x.owner] && (x.owner in s.held ==> s'.held[x.owner] == s.held[x.owner]))
             && forall t :: t in x.waiters ==> Prio(s'.prio, t) == Prio(s.prio, t)
    requires forall t :: t in s.phase ==> (s.phase[t] == Waiting(m) <==> s'.phase[t] == Waiting(m))
    ensures MutexOk(s', m)
  {
    ByPriorityFrame(s.mutexes[m].waiters, s.prio, s'.prio);
  }

  lemma TakeFreeInv(s: Sys, t: int, m: int, wait: bool)
    requires Inv(s) && Legal(s, TakeOp(t, m, wait))
    requires s.mutexes[m].owner == t || s.mutexes[m].value > 0
    ensures Inv(DoTake(s, t, m, wait))
  {
    hide ByPriority, NoDup, Enqueued;
    var s' := DoTake(s, t, m, wait);
    var x := s.mutexes[m];
    assert MutexOk(s, m) && ThreadOk(s, t);
    forall n | n in s'.mutexes
      ensures MutexOk(s', n)
    {
      assert MutexOk(s, n);
      if n != m { Untouched(s, s', n); }
    }
    forall u | u in s'.prio
      ensures ThreadOk(s', u)
    {
      assert ThreadOk(s, u);
    }
  }

  lemma TakeBlockedInv(s: Sys, t: int, m: int)
    requires Inv(s) && Legal(s, TakeOp(t, m, true))
    requires s.mutexes[m].owner != t && s.mutexes[m].value == 0
    ensures Inv(DoTake(s, t, m, true))
  {
    hide ByPriority, NoDup, Enqueued;
    var s' := DoTake(s, t, m, true);
    var x := s.mutexes[m];
    var o := x.owner;
    assert MutexOk(s, m) && ThreadOk(s, t) && ThreadOk(s, o);
    assert o !in x.waiters && t !in x.waiters;
    ByPriorityFrame(x.waiters, s.prio, s'.prio);
    EnqueuedByPriority(x.waiters, s'.prio, t);
    EnqueuedMembers(x.waiters, s'.prio, PRIO, t);
    forall n | n in s'.mutexes
      ensures MutexOk(s', n)
    {
      assert MutexOk(s, n);
      if n != m { Untouched(s, s', n); }
    }
    forall u | u in s'.prio
      ensures ThreadOk(s', u)
    {
      assert ThreadOk(s, u);
    }
  }

  lemma TimeoutInv(s: Sys, t: int)
    requires Inv(s) && Legal(s, TimeoutOp(t))
    ensures Inv(DoTimeout(s, t))
  {
    hide ByPriority, NoDup, Without;
    var s' := DoTimeout(s, t);
    var m := s.phase[t].m;
    var x := s.mutexes[m];
    assert MutexOk(s, m) && ThreadOk(s, t);
    WithoutSpec(x.waiters, t);
    ByPriorityWithout(x.waiters, s.prio, t);
    assert x.owner != NULL;
    forall n | n in s'.mutexes
      ensures MutexOk(s', n)
    {
      assert MutexOk(s, n);
      if n != m { Untouched(s, s', n); }
    }
    forall u | u in s'.prio
      ensures ThreadOk(s', u)
    {
      assert ThreadOk(s, u);
    }
  }

  lemma ReleaseInv(s: Sys, t: int, m: int)
    requires Inv(s) && Legal(s, ReleaseOp(t, m))
    ensures Inv(DoRelease(s, t, m))
  {
    hide ByPriority, NoDup, ThreadOk, Inv;
    var x := s.mutexes[m];
    InvAt(s, t, m);
    if HandsOver(x, t) {
      HandOverInv(s, t, m);
    } else if x.owner == t && x.hold == 1 {
      ReleaseLastInv(s, t, m);
    } else {
      ReleaseKeepsInv(s, t, m);
    }
  }

  lemma InvAt(s: Sys, t: int, m: int)
    requires Inv(s) && m in s.mutexes && t in s.prio
    ensures MutexOk(s, m) && ThreadOk(s, t) && t != NULL
  {
  }

  /** A refused release, or one of several holds. */
  lemma ReleaseKeepsInv(s: Sys, t: int, m: int)
    requires Inv(s) && Legal(s, ReleaseOp(t, m)) && (s.mutexes[m].owner != t || s.mutexes[m].hold > 1)
    ensures Inv(DoRelease(s, t, m))
  {
    hide ByPriority, NoDup;
    var s' := DoRelease(s, t, m);
    InvAt(s, t, m);
    forall n | n in s'.mutexes
      ensures MutexOk(s', n)
    {
      assert MutexOk(s, n);
      if n != m { Untouched(s, s', n); }
    }
    forall u | u in s'.prio
      ensures ThreadOk(s', u)
    {
      assert ThreadOk(s, u);
    }
  }

  /** The last release, with nobody waiting. */
  lemma ReleaseLastInv(s: Sys, t: int, m: int)
    requires Inv(s) && Legal(s, ReleaseOp(t, m))
    requires s.mutexes[m].owner == t && s.mutexes[m].hold == 1 && s.mutexes[m].waiters == []
    ensures Inv(DoRelease(s, t, m))
  {
    hide ByPriority, NoDup;
    var s' := DoRelease(s, t, m);
    InvAt(s, t, m);
    ByPriorityFrame([], s.prio, s'.prio) by { assert ByPriority(s.mutexes[m].waiters, s.prio); }
    forall n | n in s'.mutexes
      ensures MutexOk(s', n)
    {
      assert MutexOk(s, n);
      if n != m { Untouched(s, s', n); }
    }
    forall u | u in s'.prio
      ensures ThreadOk(s', u)
    {
      assert ThreadOk(s, u);
    }
  }

  lemma HandOverMutex(s: Sys, t: int, m: int)
    requires Inv(s) && Legal(s, ReleaseOp(t, m)) && HandsOver(s.mutexes[m], t)
    ensures MutexOk(DoRelease(s, t, m), m)
  {
    hide ByPriority, NoDup, Inv, Prio;
    var s' := DoRelease(s, t, m);
    var x := s.mutexes[m];
    var w := x.waiters[0];
    assert w in x.waiters;
    InvAt(s, t, m);
    WaiterKnown(s, w, m);
    FirstIsMostUrgent(x.waiters, s.prio);
    assert Dropped(x.waiters, 0) == x.waiters[1..];
    MemberDropped(x.waiters, 0);
    ByPriorityDropped(x.waiters, s.prio, 0);
    forall u | u in x.waiters
      ensures Prio(s.prio, u) == Prio(s'.prio, u)
    {
      SamePrio(s.prio, s'.prio, t, u);
    }
    ByPriorityFrame(x.waiters[1..], s.prio, s'.prio);
    SamePrio(s.prio, s'.prio, t, w);
    HeadPrio(s.prio, w);
  }

  lemma WaiterKnown(s: Sys, w: int, m: int)
    requires Inv(s) && m in s.mutexes && w in s.mutexes[m].waiters
    ensures Known(s, w) && ThreadOk(s, w) && w != NULL && s.prio[w] == s.base[w]
  {
    assert MutexOk(s, m);
    assert ThreadOk(s, w);
  }

  lemma SamePrio(prio: map<int, nat>, prio': map<int, nat>, t: int, u: int)
    requires u != t && (prio' == prio || (t in prio' && prio' == prio[t := prio'[t]]))
    ensures Prio(prio, u) == Prio(prio', u)
  {
  }

  lemma HeadPrio(prio: map<int, nat>, w: int)
    requires w in prio
    ensures Prio(prio, w) == prio[w]
  {
  }

  /** The last release, with the mutex going to the first waiter. */
  lemma HandOverInv(s: Sys, t: int, m: int)
    requires Inv(s) && Legal(s, ReleaseOp(t, m)) && HandsOver(s.mutexes[m], t)
    ensures Inv(DoRelease(s, t, m))
  {
    hide ByPriority, NoDup;
    var s' := DoRelease(s, t, m);
    var x := s.mutexes[m];
    var w := x.waiters[0];
    assert w in x.waiters;
    HandOverMutex(s, t, m);
    InvAt(s, t, m);
    InvAt(s, w, m);
    forall n | n in s'.mutexes
      ensures MutexOk(s', n)
    {
      assert MutexOk(s, n);
      if n != m { Untouched(s, s', n); }
    }
    forall u | u in s'.prio
      ensures ThreadOk(s', u)
    {
      assert ThreadOk(s, u);
    }
  }

  lemma ReturnInv(s: Sys, t: int)
    requires Inv(s) && Legal(s, ReturnOp(t))
    ensures Inv(s.(phase := s.phase[t := Free]))
  {
    hide ByPriority, NoDup;
    var s' := s.(phase := s.phase[t := Free]);
    assert ThreadOk(s, t);
    forall n | n in s'.mutexes
      ensures MutexOk(s', n)
    {
      assert MutexOk(s, n);
      Untouched(s, s', n);
    }
    forall u | u in s'.prio
      ensures ThreadOk(s', u)
    {
      assert ThreadOk(s, u);
    }
  }

  // ---- runs ----

  lemma StepInv(s: Sys, op: Op)
    requires Inv(s) && Legal(s, op)
    ensures Inv(Step(s, op))
  {
    hide Inv, DoTake, DoRelease, DoTimeout;
    match op
    case TakeOp(t, m, wait) =>
      var x := s.mutexes[m];
      if x.owner == t || x.value > 0 { TakeFreeInv(s, t, m, wait); }
      else if wait { TakeBlockedInv(s, t, m); }
      else { TakeRefused(s, t, m); }
    case ReleaseOp(t, m) => ReleaseInv(s, t, m);
    case TimeoutOp(t) => TimeoutInv(s, t);
    case ReturnOp(t) => ReturnInv(s, t);
  }

  lemma TakeRefused(s: Sys, t: int, m: int)
    requires m in s.mutexes && s.mutexes[m].owner != t && s.mutexes[m].value == 0
    ensures DoTake(s, t, m, false) == s
  {
    assert s.mutexes == s.mutexes[m := s.mutexes[m]];
  }

  predicate PossibleRun(s: Sys, ops: seq<Op>)
    decreases |ops|
  {
    ops == [] || (Possible(s, ops[0]) && PossibleRun(Step(s, ops[0]), ops[1..]))
  }

  function RunOf(s: Sys, ops: seq<Op>): Sys
    requires PossibleRun(s, ops)
    decreases |ops|
  {
    if ops == [] then s else RunOf(Step(s, ops[0]), ops[1..])
  }

  /** No thread takes a second mutex in the whole run. */
  predicate NeverNested(s: Sys, ops: seq<Op>)
    requires PossibleRun(s, ops)
    decreases |ops|
  {
    ops == [] || (Legal(s, ops[0]) && NeverNested(Step(s, ops[0]), ops[1..]))
  }

  predicate LegalRun(s: Sys, ops: seq<Op>) {
    PossibleRun(s, ops) && NeverNested(s, ops)
  }

  lemma {:induction false} RunInv(s: Sys, ops: seq<Op>)
    requires Inv(s) && LegalRun(s, ops)
    ensures Inv(RunOf(s, ops))
    decreases |ops|
  {
    hide Inv, Step, Possible;
    if ops != [] {
      StepInv(s, ops[0]);
      RunInv(Step(s, ops[0]), ops[1..]);
    }
  }

  /** All threads outside any mutex, all mutexes free. */
  function Initial(base: map<int, nat>, mutexes: set<int>, flag: Flag): Sys {
    Sys(base, base, map t | t in base :: Free, map t | t in base :: NULL, map m | m in mutexes :: New(flag))
  }

  lemma InitialInv(base: map<int, nat>, mutexes: set<int>)
    requires NULL !in base && NULL !in mutexes
    ensures Inv(Initial(base, mutexes, PRIO))
  {
    var s := Initial(base, mutexes, PRIO);
    forall m | m in s.mutexes
      ensures MutexOk(s, m)
    {
      assert ByPriority([], s.prio);
    }
  }

  /** In every reachable state of a system with PRIO mutexes whose threads hold at most one: every owner runs
      at least as urgently as all its waiters, a thread that holds nothing has its own priority, and a blocked
      take that is going to return RT_EOK has made its caller the owner. */
  lemma PriorityInheritance(base: map<int, nat>, mutexes: set<int>, ops: seq<Op>)
    requires NULL !in base && NULL !in mutexes && LegalRun(Initial(base, mutexes, PRIO), ops)
    ensures var s := RunOf(Initial(base, mutexes, PRIO), ops);
            && (forall m, w :: m in s.mutexes && w in s.mutexes[m].waiters ==> Prio(s.prio, s.mutexes[m].owner) <= Prio(s.prio, w))
            && (forall t :: t in s.prio && (forall m :: m in s.mutexes ==> s.mutexes[m].owner != t) ==> t in s.base && s.prio[t] == s.base[t])
            && (forall t :: t in s.phase && s.phase[t].Granted? ==> s.phase[t].m in s.mutexes && s.mutexes[s.phase[t].m].owner == t)
            && (forall t :: t in s.phase && s.phase[t].Failed? ==> forall m :: m in s.mutexes ==> s.mutexes[m].owner != t)
  {
    InitialInv(base, mutexes);
    RunInv(Initial(base, mutexes, PRIO), ops);
    InvMeans(RunOf(Initial(base, mutexes, PRIO), ops));
  }

  lemma InvMeans(s: Sys)
    requires Inv(s)
    ensures forall m, w :: m in s.mutexes && w in s.mutexes[m].waiters ==> Prio(s.prio, s.mutexes[m].owner) <= Prio(s.prio, w)
    ensures forall t :: t in s.prio && (forall m :: m in s.mutexes ==> s.mutexes[m].owner != t) ==> t in s.base && s.prio[t] == s.base[t]
    ensures forall t :: t in s.phase && s.phase[t].Granted? ==> s.phase[t].m in s.mutexes && s.mutexes[s.phase[t].m].owner == t
    ensures forall t :: t in s.phase && s.phase[t].Failed? ==> forall m :: m in s.mutexes ==> s.mutexes[m].owner != t
  {
    hide NoDup, ByPriority;
    forall m, w | m in s.mutexes && w in s.mutexes[m].waiters
      ensures Prio(s.prio, s.mutexes[m].owner) <= Prio(s.prio, w)
    {
      assert MutexOk(s, m);
    }
    forall t | t in s.prio && (forall m :: m in s.mutexes ==> s.mutexes[m].owner != t)
      ensures t in s.base && s.prio[t] == s.base[t]
    {
      assert ThreadOk(s, t);
    }
    forall t | t in s.phase && s.phase[t].Granted?
      ensures s.phase[t].m in s.mutexes && s.mutexes[s.phase[t].m].owner == t
    {
      assert ThreadOk(s, t);
    }
    forall t, m | t in s.phase && s.phase[t].Failed? && m in s.mutexes
      ensures s.mutexes[m].owner != t
    {
      assert ThreadOk(s, t);
      assert MutexOk(s, m);
    }
  }

  // ---- where inheritance ends ----

  /** When a mutex is handed over, the new owner is urgent enough for the others exactly if none of them is
      more urgent than the first waiter: always in a list by priority, not always in a FIFO list. */
  lemma HandOverUrgent(x: Mutex, prio: map<int, nat>, t: int)
    requires HandsOver(x, t) && t !in x.waiters
    ensures var (x', prio', ok) := Release(x, prio, t);
            ok && (OwnerUrgent(x', prio') <==> forall w :: w in x.waiters[1..] ==> Prio(prio, x.waiters[0]) <= Prio(prio, w))
  {
    var (x', prio', ok) := Release(x, prio, t);
    var h := x.waiters[0];
    assert h in x.waiters;
    assert forall w :: w in x.waiters[1..] ==> w in x.waiters;
  }

  lemma RunOfMore(s: Sys, op: Op, ops: seq<Op>)
    requires Possible(s, op) && PossibleRun(Step(s, op), ops)
    ensures PossibleRun(s, [op] + ops) && RunOf(s, [op] + ops) == RunOf(Step(s, op), ops)
    ensures Legal(s, op) && NeverNested(Step(s, op), ops) ==> NeverNested(s, [op] + ops)
  {
    hide Possible, Step;
    assert ([op] + ops)[1..] == ops;
  }

  predicate FourPossible(s: Sys, a: Op, b: Op, c: Op, d: Op) {
    && Possible(s, a) && Possible(Step(s, a), b) && Possible(Step(Step(s, a), b), c)
    && Possible(Step(Step(Step(s, a), b), c), d)
  }

  lemma RunOfFour(s: Sys, a: Op, b: Op, c: Op, d: Op)
    requires FourPossible(s, a, b, c, d)
    ensures PossibleRun(s, [a, b, c, d]) && RunOf(s, [a, b, c, d]) == Step(Step(Step(Step(s, a), b), c), d)
    ensures Legal(s, a) && Legal(Step(s, a), b) && Legal(Step(Step(s, a), b), c) && Legal(Step(Step(Step(s, a), b), c), d) ==>
              LegalRun(s, [a, b, c, d])
  {
    hide Possible, Step;
    var s1 := Step(s, a);
    var s2 := Step(s1, b);
    var s3 := Step(s2, c);
    RunOfMore(s3, d, []);
    assert [d] + [] == [d];
    RunOfMore(s2, c, [d]);
    RunOfMore(s1, b, [c, d]);
    RunOfMore(s, a, [b, c, d]);
    assert [a, b, c, d] == [a] + [b, c, d] && [b, c, d] == [b] + [c, d] && [c, d] == [c] + [d];
  }

  /** A FIFO mutex fails: thread 1 holds it, thread 2 waits, then the more urgent thread 3; after the release
      thread 2 owns the mutex and thread 3 waits for it at a more urgent priority. */
  lemma FifoLosesInheritance()
    ensures var s := Initial(map[1 := 1, 2 := 7, 3 := 5], {0}, FIFO);
            var ops := [TakeOp(1, 0, true), TakeOp(2, 0, true), TakeOp(3, 0, true), ReleaseOp(1, 0)];
            && LegalRun(s, ops)
            && 0 in RunOf(s, ops).mutexes && !OwnerUrgent(RunOf(s, ops).mutexes[0], RunOf(s, ops).prio)
  {
    hide PossibleRun, NeverNested, RunOf, OwnerUrgent, DoTake, Take, Enqueued;
    var s := Initial(map[1 := 1, 2 := 7, 3 := 5], {0}, FIFO);
    TakesNew(s, 1, 0);
    var s1 := Step(s, TakeOp(1, 0, true));
    FifoBlocks(s1, 2, 0);
    var s2 := Step(s1, TakeOp(2, 0, true));
    FifoBlocks(s2, 3, 0);
    var s3 := Step(s2, TakeOp(3, 0, true));
    var s4 := Step(s3, ReleaseOp(1, 0));
    RunOfFour(s, TakeOp(1, 0, true), TakeOp(2, 0, true), TakeOp(3, 0, true), ReleaseOp(1, 0));
    assert s3.mutexes[0].waiters == [2, 3] && [2, 3][1..] == [3];
    assert s4.mutexes[0].owner == 2 && s4.mutexes[0].waiters == [3] && s4.prio == s.prio;
    NotUrgent(s4.mutexes[0], s4.prio, 3);
  }

  lemma TakesNew(s: Sys, t: int, m: int)
    requires m in s.mutexes && s.mutexes[m] == New(s.mutexes[m].flag) && t != NULL
    ensures var s', f := DoTake(s, t, m, true), s.mutexes[m].flag;
            && s'.prio == s.prio && s'.phase == s.phase && s'.base == s.base && s'.held == s.held[t := m]
            && s'.mutexes == s.mutexes[m := Mutex(f, 0, t, Prio(s.prio, t), 1, [])]
  {
  }

  lemma FifoBlocks(s: Sys, t: int, m: int)
    requires m in s.mutexes && s.mutexes[m].flag == FIFO && s.mutexes[m].owner != t && s.mutexes[m].value == 0
    requires Prio(s.prio, s.mutexes[m].owner) <= Prio(s.prio, t)
    ensures var x := s.mutexes[m];
            DoTake(s, t, m, true) == s.(mutexes := s.mutexes[m := x.(waiters := x.waiters + [t])], phase := s.phase[t := Waiting(m)])
  {
    hide Prio;
    var x := s.mutexes[m];
    assert x.waiters[..|x.waiters|] == x.waiters;
    assert Enqueued(x.waiters, s.prio, FIFO, t) == x.waiters + [t];
  }

  lemma NotUrgent(x: Mutex, prio: map<int, nat>, w: int)
    requires w in x.waiters && Prio(prio, w) < Prio(prio, x.owner)
    ensures !OwnerUrgent(x, prio)
  {
  }
}
