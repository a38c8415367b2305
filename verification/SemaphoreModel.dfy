/** Semaphores (rt_sem_take, rt_sem_release and the reset of rt_sem_control in ipc.c) as a machine whose steps
    are the interrupt-free regions of these calls and the timeouts of blocked threads. */
module SemaphoreModel {
  import opened RtList
  import opened IpcList

  const MAX_VALUE := 0xffff      // value is 16 bits wide

  /** The semaphore object; the granted threads have been resumed by a release, the failed ones with an error,
      and neither have run yet. */
  datatype Sem = Sem(flag: Flag, value: nat, waiters: seq<int>, granted: set<int>, failed: set<int>)

  datatype Outcome = Done | Refused | Blocked

  /** rt_sem_take up to its return or its suspension */
  function Take(s: Sem, prio: map<int, nat>, t: int, wait: bool): (Sem, Outcome) {
    if s.value > 0 then (s.(value := s.value - 1), Done)
    else if wait then (s.(waiters := Enqueued(s.waiters, prio, s.flag, t)), Blocked)
    else (s, Refused)
  }

  /** rt_sem_release */
  function Release(s: Sem): Sem {
    if s.waiters != [] then s.(waiters := s.waiters[1..], granted := s.granted + {s.waiters[0]})
    else s.(value := (s.value + 1) % (MAX_VALUE + 1))
  }

  /** rt_sem_control with RT_IPC_CMD_RESET */
  function Reset(s: Sem, value: nat): Sem {
    s.(value := value % (MAX_VALUE + 1), waiters := [], failed := s.failed + set t | t in s.waiters)
  }

  datatype Op =
    | TakeOp(t: int, wait: bool)
    | ReleaseOp
    | TimeoutOp(t: int)
    | ReturnOp(t: int)
    | ResetOp(value: nat)

  /** A release is called with room in the counter. */
  ghost predicate Legal(s: Sem, op: Op) {
    match op
    case TakeOp(t, wait) => t !in s.waiters && t !in s.granted && t !in s.failed
    case ReleaseOp => s.value < MAX_VALUE
    case TimeoutOp(t) => t in s.waiters
    case ReturnOp(t) => t in s.granted || t in s.failed
    case ResetOp(value) => true
  }

  function Step(s: Sem, prio: map<int, nat>, op: Op): Sem {
    match op
    case TakeOp(t, wait) => Take(s, prio, t, wait).0
    case ReleaseOp => Release(s)
    case TimeoutOp(t) => s.(waiters := Without(s.waiters, t), failed := s.failed + {t})
    case ReturnOp(t) => s.(granted := s.granted - {t}, failed := s.failed - {t})
    case ResetOp(value) => Reset(s, value)
  }

  /** Nobody waits while there is something to take, and nobody waits twice or is woken while waiting. */
  ghost predicate Inv(s: Sem) {
    && s.value <= MAX_VALUE && (s.value > 0 ==> s.waiters == [])
    && NoDup(s.waiters) && forall t :: t in s.waiters ==> t !in s.granted && t !in s.failed
  }

  lemma StepInv(s: Sem, prio: map<int, nat>, op: Op)
    requires Inv(s) && Legal(s, op)
    ensures Inv(Step(s, prio, op))
  {
    hide NoDup, Enqueued, Without;
    NoDupEmpty<int>();
    match op
    case TakeOp(t, wait) =>
      if s.value == 0 && wait { EnqueuedMembers(s.waiters, prio, s.flag, t); }
    case ReleaseOp =>
      if s.waiters != [] {
        var x := s.waiters[0];
        assert Dropped(s.waiters, 0) == s.waiters[1..];
        MemberDropped(s.waiters, 0);
      }
    case TimeoutOp(t) => WithoutSpec(s.waiters, t);
    case ReturnOp(t) =>
    case ResetOp(value) =>
  }

  // ---- what a call comes to ----

  /** A take succeeds at once if and only if there is something to take, and otherwise waits if it may. */
  lemma TakeComesTo(s: Sem, prio: map<int, nat>, t: int, wait: bool)
    requires t !in s.waiters
    ensures var (s', out) := Take(s, prio, t, wait);
            && (out == Done <==> s.value > 0)
            && (out == Blocked <==> s.value == 0 && wait)
            && (out == Done ==> s'.value + 1 == s.value && s' == s.(value := s'.value))
            && (out == Blocked ==> s' == s.(waiters := s'.waiters) && t in s'.waiters && Without(s'.waiters, t) == s.waiters)
            && (out == Refused ==> s' == s)
  {
    EnqueuedKeeps(s.waiters, prio, s.flag, t);
  }

  /** A release goes to the first waiter, or else into the counter. */
  lemma ReleaseComesTo(s: Sem)
    requires s.value < MAX_VALUE
    ensures var s' := Release(s);
            if s.waiters == [] then s'.value == s.value + 1 && s' == s.(value := s'.value)
            else && s.waiters == [s.waiters[0]] + s'.waiters && s' == s.(waiters := s'.waiters, granted := s'.granted)
                 && forall t :: t in s'.granted <==> t in s.granted || t == s.waiters[0]
  {
  }

  /** A timeout takes the thread off the list and lets its take fail; a thread that goes on leaves nothing behind; a reset
      fails all that wait and sets the value, in 16 bits. */
  lemma OthersComeTo(s: Sem, prio: map<int, nat>, t: int, v: nat)
    requires Inv(s)
    ensures t in s.waiters ==>
              var s' := Step(s, prio, TimeoutOp(t));
              && s' == s.(waiters := s'.waiters, failed := s'.failed)
              && (forall u :: u in s'.waiters <==> u in s.waiters && u != t) && (forall u :: u in s'.failed <==> u in s.failed || u == t)
    ensures var s' := Step(s, prio, ReturnOp(t));
            && s' == s.(granted := s'.granted, failed := s'.failed)
            && (forall u :: u in s'.granted <==> u in s.granted && u != t) && (forall u :: u in s'.failed <==> u in s.failed && u != t)
    ensures var s' := Step(s, prio, ResetOp(v));
            && s' == s.(value := s'.value, waiters := [], failed := s'.failed) && (v <= MAX_VALUE ==> s'.value == v)
            && (forall u :: u in s'.failed <==> u in s.failed || u in s.waiters)
  {
    hide NoDup, Without;
    WithoutSpec(s.waiters, t);
  }

  datatype Move = Move(op: Op, prio: map<int, nat>)

  ghost predicate LegalRun(s: Sem, moves: seq<Move>)
    decreases |moves|
  {
    moves == [] || (Legal(s, moves[0].op) && LegalRun(Step(s, moves[0].prio, moves[0].op), moves[1..]))
  }

  function RunOf(s: Sem, moves: seq<Move>): Sem
    decreases |moves|
  {
    if moves == [] then s else RunOf(Step(s, moves[0].prio, moves[0].op), moves[1..])
  }

  /** The takes that a run grants, at once or by a release. */
  function Takes(s: Sem, moves: seq<Move>): nat
    decreases |moves|
  {
    if moves == [] then 0
    else
      var op := moves[0].op;
      (if (op.TakeOp? && s.value > 0) || (op.ReleaseOp? && s.waiters != []) then 1 else 0)
      + Takes(Step(s, moves[0].prio, op), moves[1..])
  }

  function Releases(moves: seq<Move>): nat {
    if moves == [] then 0 else (if moves[0].op.ReleaseOp? then 1 else 0) + Releases(moves[1..])
  }

  /** In every reachable state nobody waits for a semaphore that has something to give, and between resets
      every release has been taken by one take or is in the counter. */
  lemma {:induction false} RunKeepsCount(s: Sem, moves: seq<Move>)
    requires Inv(s) && LegalRun(s, moves) && forall i :: 0 <= i < |moves| ==> !moves[i].op.ResetOp?
    ensures Inv(RunOf(s, moves))
    ensures s.value + Releases(moves) == RunOf(s, moves).value + Takes(s, moves)
    decreases |moves|
  {
    hide NoDup, Enqueued, Without;
    if moves != [] {
      var op, prio := moves[0].op, moves[0].prio;
      StepInv(s, prio, op);
      RunKeepsCount(Step(s, prio, op), moves[1..]);
    }
  }
}
