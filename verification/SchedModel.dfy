/** The single-core scheduler on values: thread states, priorities and the ready lists (scheduler.c and
    thread.c). */
module SchedModel {
  import opened RtDef
  import opened RtList
  import opened ReadyIndex

  datatype Stat = INIT | READY | SUSPEND | RUNNING | CLOSE

  /** The parts of struct rt_thread that scheduling depends on. */
  datatype Thread = Thread(stat: Stat, prio: nat, initPrio: nat)

  /** Threads are numbered; current is rt_current_thread (NULL before the scheduler starts), lock is
      rt_scheduler_lock_nest, idle is the idle thread. */
  datatype Sched = Sched(threads: map<int, Thread>, ready: seq<seq<int>>, current: int, lock: nat, idle: int)

  ghost predicate Queued(s: Sched, p: nat)
    requires p < |s.ready|
  {
    && NoDup(s.ready[p])
    && forall t :: t in s.ready[p] <==> t in s.threads && s.threads[t].stat == READY && s.threads[t].prio == p
  }

  /** Exactly the READY threads are queued, each once, at its current priority. */
  ghost predicate QueuesOk(s: Sched) {
    forall p :: 0 <= p < |s.ready| ==> Queued(s, p)
  }

  predicate Sized(s: Sched) {
    && 0 < |s.ready| <= 256
    && forall t :: t in s.threads ==> s.threads[t].prio < |s.ready| && s.threads[t].initPrio < |s.ready|
  }

  /** Only the current thread runs, and the idle thread can always run. */
  predicate CurrentOk(s: Sched) {
    && NULL !in s.threads
    && (forall t :: t in s.threads && s.threads[t].stat == RUNNING ==> t == s.current)
    && (s.current != NULL ==>
          && s.current in s.threads && s.threads[s.current].stat != READY && s.threads[s.current].stat != INIT
          && s.idle in s.threads && (s.threads[s.idle].stat == READY || s.threads[s.idle].stat == RUNNING))
  }

  ghost predicate Inv(s: Sched) {
    Sized(s) && QueuesOk(s) && CurrentOk(s)
  }

  // ---- operations ----

  function SetStat(s: Sched, t: int, stat: Stat): Sched
    requires t in s.threads
  {
    s.(threads := s.threads[t := s.threads[t].(stat := stat)])
  }

  /** rt_schedule_insert_thread */
  function InsertThread(s: Sched, t: int): Sched
    requires t in s.threads && s.threads[t].prio < |s.ready|
  {
    var p := s.threads[t].prio;
    if t == s.current then SetStat(s, t, RUNNING)
    else SetStat(s, t, READY).(ready := s.ready[p := s.ready[p] + [t]])
  }

  /** rt_schedule_remove_thread */
  function RemoveThread(s: Sched, t: int): Sched
    requires t in s.threads && s.threads[t].prio < |s.ready|
  {
    var p := s.threads[t].prio;
    s.(ready := s.ready[p := Without(s.ready[p], t)])
  }

  /** The thread that rt_schedule switches to from current, when some list is not empty. */
  predicate KeepsRunning(s: Sched)
    requires s.current in s.threads
  {
    s.threads[s.current].stat == RUNNING && s.threads[s.current].prio < FirstBusy(s.ready, 0)
  }

  /** Make t the current thread; the thread that ran before is queued if it still wants to run. */
  function SwitchTo(s: Sched, t: int): Sched
    requires s.current in s.threads && t in s.threads && Sized(s)
  {
    var s1 := s.(current := t);
    var s2 := if s.threads[s.current].stat == RUNNING && t != s.current then InsertThread(s1, s.current) else s1;
    SetStat(RemoveThread(s2, t), t, RUNNING)
  }

  /** rt_schedule */
  function Schedule(s: Sched): Sched
    requires s.current in s.threads && Sized(s)
    requires forall p :: 0 <= p < |s.ready| ==> forall t :: t in s.ready[p] ==> t in s.threads
  {
    var h := FirstBusy(s.ready, 0);
    if s.lock != 0 || h == |s.ready| || KeepsRunning(s) then s
    else
      var t := s.ready[h][0];
      assert t in s.ready[h];
      SwitchTo(s, t)
  }

  // ---- what every operation keeps ----

  /** Only thread t changes, and only the lists at its old and new priority. */
  lemma InsertOk(s: Sched, t: int)
    requires Inv(s) && t in s.threads
    requires t == s.current || s.threads[t].stat == SUSPEND
    ensures Inv(InsertThread(s, t))
  {
    var s' := InsertThread(s, t);
    forall p | 0 <= p < |s.ready|
      ensures Queued(s', p)
    {
      assert Queued(s, p);
      if t != s.current && p == s.threads[t].prio { NoDupAppended(s.ready[p], t); }
    }
  }

  /** A thread that leaves the ready lists for another state. */
  lemma RemoveOk(s: Sched, t: int, stat: Stat)
    requires Inv(s) && t in s.threads && stat != READY
    requires stat == RUNNING ==> t == s.current
    requires stat == INIT ==> t != s.current
    requires t == s.idle && s.current != NULL ==> stat == RUNNING
    ensures Inv(SetStat(RemoveThread(s, t), t, stat))
  {
    var s' := SetStat(RemoveThread(s, t), t, stat);
    forall p | 0 <= p < |s.ready|
      ensures Queued(s', p)
    {
      assert Queued(s, p);
      if p == s.threads[t].prio { WithoutSpec(s.ready[p], t); }
    }
  }

  /** A state with t current, while t is still queued as READY. */
  lemma SwitchOk(s: Sched, t: int)
    requires Inv(s) && s.current != NULL && t in s.threads && s.threads[t].stat == READY
    ensures Inv(SwitchTo(s, t))
    ensures SwitchTo(s, t).current == t && SwitchTo(s, t).threads[t].stat == RUNNING
    ensures forall x :: x in s.threads ==> x in SwitchTo(s, t).threads && SwitchTo(s, t).threads[x].prio == s.threads[x].prio
    ensures forall x :: x in SwitchTo(s, t).threads && SwitchTo(s, t).threads[x].stat == READY ==>
              x in s.threads && (s.threads[x].stat == READY || (x == s.current && s.threads[x].stat == RUNNING))
  {
    var from := s.current;
    var again := s.threads[from].stat == RUNNING;
    var s1 := s.(current := t);
    var s2 := if again then InsertThread(s1, from) else s1;
    var s' := SwitchTo(s, t);
    forall p | 0 <= p < |s.ready|
      ensures Queued(s', p)
    {
      assert Queued(s, p);
      if again && p == s.threads[from].prio { NoDupAppended(s.ready[p], from); }
      if p == s.threads[t].prio { WithoutSpec(s2.ready[p], t); }
    }
  }

  lemma ListsKnown(s: Sched)
    requires QueuesOk(s)
    ensures forall p :: 0 <= p < |s.ready| ==> forall t :: t in s.ready[p] ==> t in s.threads
  {
    forall p | 0 <= p < |s.ready|
      ensures forall t :: t in s.ready[p] ==> t in s.threads
    {
      assert Queued(s, p);
    }
  }

  /** The first thread of the most urgent list is READY, and no READY thread is more urgent. */
  lemma FirstIsBest(s: Sched)
    requires Inv(s)
    ensures var h := FirstBusy(s.ready, 0);
            && (forall t :: t in s.threads && s.threads[t].stat == READY ==> h <= s.threads[t].prio)
            && (h < |s.ready| ==> s.ready[h][0] in s.threads && s.threads[s.ready[h][0]].stat == READY && s.threads[s.ready[h][0]].prio == h)
  {
    var h := FirstBusy(s.ready, 0);
    FirstBusyIsFirst(s.ready, 0);
    forall t | t in s.threads && s.threads[t].stat == READY
      ensures h <= s.threads[t].prio
    {
      var p := s.threads[t].prio;
      assert Queued(s, p);
      assert t in s.ready[p];
    }
    if h < |s.ready| {
      assert Queued(s, h);
      var t := s.ready[h][0];
      assert t in s.ready[h];
    }
  }

  /** After an unlocked rt_schedule the current thread runs, and no ready thread is more urgent. */
  lemma ScheduleOk(s: Sched)
    requires Inv(s) && s.current != NULL
    ensures forall p :: 0 <= p < |s.ready| ==> forall t :: t in s.ready[p] ==> t in s.threads
    ensures Inv(Schedule(s)) && Schedule(s).current != NULL
    ensures s.lock == 0 ==>
              var s' := Schedule(s);
              && s'.threads[s'.current].stat == RUNNING
              && forall t :: t in s'.threads && s'.threads[t].stat == READY ==> s'.threads[s'.current].prio <= s'.threads[t].prio
  {
    hide FirstBusy, QueuesOk, SwitchTo;
    ListsKnown(s);
    FirstIsBest(s);
    var h := FirstBusy(s.ready, 0);
    if s.lock == 0 && h < |s.ready| && !KeepsRunning(s) {
      SwitchOk(s, s.ready[h][0]);
    }
  }

  /** A running thread gives way to the first of the most urgent list when it is not strictly more urgent
      itself, and then waits behind all ready threads of its priority. */
  lemma RoundRobin(s: Sched)
    requires Inv(s) && s.current != NULL && s.lock == 0 && FirstBusy(s.ready, 0) < |s.ready|
    requires s.threads[s.current].stat == RUNNING && FirstBusy(s.ready, 0) <= s.threads[s.current].prio
    ensures (ListsKnown(s);
             var h, p, s' := FirstBusy(s.ready, 0), s.threads[s.current].prio, Schedule(s);
             && s'.current == s.ready[h][0]
             && s'.ready[p] == (if p == h then s.ready[h][1..] else s.ready[p]) + [s.current]
             && (h != p ==> s'.ready[h] == s.ready[h][1..]))
  {
    ListsKnown(s);
    FirstIsBest(s);
    var h := FirstBusy(s.ready, 0);
    assert (s.ready[h] + [s.current])[1..] == s.ready[h][1..] + [s.current];
  }

  // ---- operations of thread.c ----

  datatype Op =
    | Create(t: int, prio: nat)     // rt_thread_init
    | Start                         // rt_system_scheduler_start
    | Startup(t: int)               // rt_thread_startup
    | Suspend(t: int)               // rt_thread_suspend
    | Resume(t: int)                // rt_thread_resume
    | Timeout(t: int)               // rt_thread_timeout
    | SetPriority(t: int, prio: nat) // rt_thread_control
    | Exit                          // rt_thread_exit
    | Close(t: int)                 // rt_thread_detach, rt_thread_delete
    | Yield                         // rt_schedule
    | Lock                          // rt_enter_critical
    | Unlock                        // rt_exit_critical

  /** What the code asserts or its callers promise; the idle thread is never suspended or ended. */
  ghost predicate Allowed(s: Sched, op: Op) {
    match op
    case Create(t, prio) => t !in s.threads && t != NULL && prio < |s.ready|
    case Start => s.current == NULL && s.idle in s.threads && s.threads[s.idle].stat == READY
    case Startup(t) => t in s.threads && s.threads[t].stat == INIT && t != NULL
    case Suspend(t) => t in s.threads && t != s.idle && (s.threads[t].stat == RUNNING ==> t == s.current)
    case Resume(t) => t in s.threads
    case Timeout(t) => t in s.threads && s.threads[t].stat == SUSPEND && s.current != NULL
    case SetPriority(t, prio) => t in s.threads && prio < |s.ready|
    case Exit => s.current != NULL && s.current != s.idle && (s.current in s.threads ==> s.threads[s.current].stat != CLOSE)
    case Close(t) => t in s.threads && t != s.idle && s.threads[t].stat != CLOSE
    case Yield => s.current != NULL
    case Lock => true
    case Unlock => s.current != NULL
  }

  ghost predicate Ready(s: Sched) {
    Sized(s) && forall p :: 0 <= p < |s.ready| ==> forall t :: t in s.ready[p] ==> t in s.threads
  }

  lemma InvReady(s: Sched)
    requires Inv(s)
    ensures Ready(s) && (s.current != NULL ==> s.current in s.threads)
  {
    ListsKnown(s);
  }

  /** rt_thread_control: a queued thread changes its list. */
  function Reprioritized(s: Sched, t: int, prio: nat): Sched
    requires t in s.threads && s.threads[t].prio < |s.ready| && prio < |s.ready|
  {
    if s.threads[t].stat == READY then
      var s1 := RemoveThread(s, t);
      InsertThread(s1.(threads := s1.threads[t := s1.threads[t].(prio := prio)]), t)
    else s.(threads := s.threads[t := s.threads[t].(prio := prio)])
  }

  function Resumed(s: Sched, t: int): Sched
    requires t in s.threads && s.threads[t].prio < |s.ready|
  {
    if s.threads[t].stat != SUSPEND then s else InsertThread(s, t)
  }

  function Started(s: Sched): Sched
    requires Sized(s) && FirstBusy(s.ready, 0) < |s.ready| && s.ready[FirstBusy(s.ready, 0)][0] in s.threads
  {
    var t := s.ready[FirstBusy(s.ready, 0)][0];
    SetStat(RemoveThread(s.(current := t), t), t, RUNNING)
  }

  function StartedUp(s: Sched, t: int): Sched
    requires t in s.threads && s.threads[t].initPrio < |s.ready|
  {
    InsertThread(s.(threads := s.threads[t := s.threads[t].(stat := SUSPEND, prio := s.threads[t].initPrio)]), t)
  }

  function Suspended(s: Sched, t: int): Sched
    requires t in s.threads && s.threads[t].prio < |s.ready|
  {
    var stat := s.threads[t].stat;
    if stat != READY && stat != RUNNING then s else SetStat(RemoveThread(s, t), t, SUSPEND)
  }

  function Closed(s: Sched, t: int): Sched
    requires t in s.threads && s.threads[t].prio < |s.ready|
  {
    SetStat(if s.threads[t].stat != INIT then RemoveThread(s, t) else s, t, CLOSE)
  }

  /** The state that an operation leaves before its own call of rt_schedule, if it makes one. */
  function Apply(s: Sched, op: Op): Sched
    requires Ready(s) && Allowed(s, op) && (s.current != NULL ==> s.current in s.threads)
    requires op.Start? ==> FirstBusy(s.ready, 0) < |s.ready| && s.ready[FirstBusy(s.ready, 0)][0] in s.threads
  {
    match op
    case Create(t, prio) => s.(threads := s.threads[t := Thread(INIT, prio, prio)])
    case Start => Started(s)
    case Startup(t) => StartedUp(s, t)
    case Suspend(t) => Suspended(s, t)
    case Resume(t) => Resumed(s, t)
    case Timeout(t) => InsertThread(s, t)
    case SetPriority(t, prio) => Reprioritized(s, t, prio)
    case Exit => SetStat(RemoveThread(s, s.current), s.current, CLOSE)
    case Close(t) => Closed(s, t)
    case Yield => s
    case Lock => s.(lock := s.lock + 1)
    case Unlock => s.(lock := if s.lock <= 1 then 0 else s.lock - 1)
  }

  /** The operations that end with rt_schedule. */
  predicate Reschedules(s: Sched, op: Op) {
    (op.Startup? && s.current != NULL) || op.Timeout? || op.Exit? || op.Yield? || (op.Unlock? && s.lock <= 1)
  }

  lemma ReprioritizedOk(s: Sched, t: int, prio: nat)
    requires Inv(s) && t in s.threads && prio < |s.ready|
    ensures Inv(Reprioritized(s, t, prio))
  {
    var s' := Reprioritized(s, t, prio);
    var list := Without(s.ready[s.threads[t].prio], t);
    forall p | 0 <= p < |s.ready|
      ensures Queued(s', p)
    {
      assert Queued(s, p);
      WithoutSpec(s.ready[p], t);
      if p == prio {
        NoDupAppended(if p == s.threads[t].prio then list else s.ready[p], t);
        if p != s.threads[t].prio { WithoutNone(s.ready[p], t); }
      }
    }
  }

  lemma StartedOk(s: Sched)
    requires Inv(s) && Allowed(s, Start)
    ensures FirstBusy(s.ready, 0) < |s.ready| && s.ready[FirstBusy(s.ready, 0)][0] in s.threads
    ensures Inv(Started(s)) && Started(s).current != NULL
  {
    FirstIsBest(s);
    var h := FirstBusy(s.ready, 0);
    var t := s.ready[h][0];
    var s' := Started(s);
    forall p | 0 <= p < |s.ready|
      ensures Queued(s', p)
    {
      assert Queued(s, p);
      if p == h { WithoutSpec(s.ready[p], t); }
    }
  }

  lemma StartedUpOk(s: Sched, t: int)
    requires Inv(s) && Allowed(s, Startup(t))
    ensures Inv(StartedUp(s, t))
  {
    var s' := StartedUp(s, t);
    var q := s.threads[t].initPrio;
    forall p | 0 <= p < |s.ready|
      ensures Queued(s', p)
    {
      assert Queued(s, p);
      if p == q { NoDupAppended(s.ready[p], t); }
    }
  }

  lemma CreatedOk(s: Sched, t: int, prio: nat)
    requires Inv(s) && Allowed(s, Create(t, prio))
    ensures Inv(s.(threads := s.threads[t := Thread(INIT, prio, prio)]))
  {
    var s' := s.(threads := s.threads[t := Thread(INIT, prio, prio)]);
    forall p | 0 <= p < |s.ready|
      ensures Queued(s', p)
    {
      assert Queued(s, p);
    }
  }

  lemma LockOk(s: Sched, n: nat)
    requires Inv(s)
    ensures Inv(s.(lock := n))
  {
    var s' := s.(lock := n);
    forall p | 0 <= p < |s.ready|
      ensures Queued(s', p)
    {
      assert Queued(s, p);
    }
  }

  lemma ClosedOk(s: Sched, t: int)
    requires Inv(s) && Allowed(s, Close(t))
    ensures Inv(Closed(s, t))
  {
    if s.threads[t].stat != INIT {
      RemoveOk(s, t, CLOSE);
    } else {
      NotReady(s, t);
      WithoutNone(s.ready[s.threads[t].prio], t);
      assert RemoveThread(s, t) == s;
      RemoveOk(s, t, CLOSE);
    }
  }

  lemma NotReady(s: Sched, t: int)
    requires Inv(s) && t in s.threads && s.threads[t].stat != READY
    ensures t !in s.ready[s.threads[t].prio]
  {
    assert Queued(s, s.threads[t].prio);
  }

  /** Every operation keeps the invariant, up to its call of rt_schedule. */
  lemma ApplyOk(s: Sched, op: Op)
    requires Inv(s) && Allowed(s, op)
    ensures Ready(s) && (s.current != NULL ==> s.current in s.threads)
    ensures op.Start? ==> FirstBusy(s.ready, 0) < |s.ready| && s.ready[FirstBusy(s.ready, 0)][0] in s.threads
    ensures Inv(Apply(s, op))
    ensures Apply(s, op).current != NULL <==> s.current != NULL || op.Start?
  {
    hide Inv, InsertThread, FirstBusy, QueuesOk;
    InvReady(s);
    match op
    case Create(t, prio) => CreatedOk(s, t, prio);
    case Start => StartedOk(s);
    case Startup(t) => StartedUpOk(s, t); SameCurrent(s, op);
    case Suspend(t) =>
      if s.threads[t].stat == READY || s.threads[t].stat == RUNNING { RemoveOk(s, t, SUSPEND); }
    case Resume(t) =>
      if s.threads[t].stat == SUSPEND { InsertOk(s, t); }
      SameCurrent(s, op);
    case Timeout(t) => InsertOk(s, t); SameCurrent(s, op);
    case SetPriority(t, prio) => ReprioritizedOk(s, t, prio); SameCurrent(s, op);
    case Exit => RemoveOk(s, s.current, CLOSE);
    case Close(t) => ClosedOk(s, t);
    case Yield =>
    case Lock => LockOk(s, s.lock + 1);
    case Unlock => LockOk(s, if s.lock <= 1 then 0 else s.lock - 1);
  }

  lemma SameCurrent(s: Sched, op: Op)
    requires Ready(s) && Allowed(s, op) && (s.current != NULL ==> s.current in s.threads) && !op.Start?
    ensures Apply(s, op).current == s.current
  {
    hide FirstBusy, QueuesOk;
  }

  /** An operation with its call of rt_schedule. */
  ghost function Step(s: Sched, op: Op): Sched
    requires Inv(s) && Allowed(s, op)
  {
    ApplyOk(s, op);
    var s' := Apply(s, op);
    if Reschedules(s, op) then
      ScheduleOk(s');
      InvReady(s');
      Schedule(s')
    else s'
  }

  lemma StepOk(s: Sched, op: Op)
    requires Inv(s) && Allowed(s, op)
    ensures Inv(Step(s, op))
  {
    hide Inv, Apply, Schedule;
    ApplyOk(s, op);
    if Reschedules(s, op) { ScheduleOk(Apply(s, op)); }
  }

  /** A run of operations, all of them allowed when they come. */
  ghost predicate LegalRun(s: Sched, ops: seq<Op>)
    requires Inv(s)
    decreases |ops|
  {
    ops == [] || (Allowed(s, ops[0]) && (StepOk(s, ops[0]); LegalRun(Step(s, ops[0]), ops[1..])))
  }

  ghost function RunOf(s: Sched, ops: seq<Op>): Sched
    requires Inv(s) && LegalRun(s, ops)
    decreases |ops|
  {
    if ops == [] then s else StepOk(s, ops[0]); RunOf(Step(s, ops[0]), ops[1..])
  }

  /** In every reachable state the ready lists hold exactly the READY threads at their priorities, only the
      current thread is RUNNING and it is in no list. */
  lemma {:induction false} RunInv(s: Sched, ops: seq<Op>)
    requires Inv(s) && LegalRun(s, ops)
    ensures Inv(RunOf(s, ops))
    decreases |ops|
  {
    hide Inv, Step, Allowed;
    if ops != [] {
      StepOk(s, ops[0]);
      RunInv(Step(s, ops[0]), ops[1..]);
    }
  }

  function Initial(levels: nat, idle: int): Sched {
    Sched(map[], seq(levels, _ => []), NULL, 0, idle)
  }

  lemma InitialInv(levels: nat, idle: int)
    requires 0 < levels <= 256
    ensures Inv(Initial(levels, idle))
  {
    forall p | 0 <= p < levels
      ensures Queued(Initial(levels, idle), p)
    {
    }
  }

  /** The run can go on with op, which ends with the scheduler unlocked in a call of rt_schedule: a thread starts up, wakes at
      its timeout, exits or yields, or the last lock goes. */
  ghost predicate EndsUnlocked(s: Sched, op: Op) {
    && Allowed(s, op) && s.current != NULL
    && ((s.lock == 0 && (op.Startup? || op.Timeout? || op.Exit? || op.Yield?)) || (s.lock <= 1 && op.Unlock?))
  }

  /** After any run that ends in an operation which reschedules with the scheduler unlocked, the current
      thread is running and no ready thread is more urgent. */
  lemma RunLeavesTheBestRunning(s: Sched, ops: seq<Op>, op: Op)
    requires Inv(s) && LegalRun(s, ops) && EndsUnlocked(RunOf(s, ops), op)
    ensures Inv(RunOf(s, ops))
    ensures var s' := Step(RunOf(s, ops), op);
            && s'.current in s'.threads && s'.threads[s'.current].stat == RUNNING
            && forall t :: t in s'.threads && s'.threads[t].stat == READY ==> s'.threads[s'.current].prio <= s'.threads[t].prio
  {
    RunInv(s, ops);
    StepLeavesTheBest(RunOf(s, ops), op);
  }

  lemma StepLeavesTheBest(s: Sched, op: Op)
    requires Inv(s) && Allowed(s, op) && Reschedules(s, op) && (s.lock == 0 || op.Unlock?)
    ensures var s' := Step(s, op);
            && s'.current in s'.threads && s'.threads[s'.current].stat == RUNNING
            && forall t :: t in s'.threads && s'.threads[t].stat == READY ==> s'.threads[s'.current].prio <= s'.threads[t].prio
  {
    hide Inv, Schedule;
    ApplyOk(s, op);
    ScheduleOk(Apply(s, op));
    InvReady(Schedule(Apply(s, op)));
    LockKept(s, op);
  }

  lemma LockKept(s: Sched, op: Op)
    requires Ready(s) && Allowed(s, op) && Reschedules(s, op) && (s.lock == 0 || op.Unlock?) && (s.current != NULL ==> s.current in s.threads)
    ensures Apply(s, op).lock == 0
  {
  }
}
