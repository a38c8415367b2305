/** What a call of rt_mutex_take or rt_mutex_release comes to, and how often an owner has to release: recursive holds over
    whole runs, with mutexes of either flag and nested in any way. */
module MutexHolds {
  import opened RtDef
  import opened RtList
  import opened IpcList
  import opened MutexModel
  import opened MutexNesting

  // ---- one call ----

  /** What holds of a mutex between calls */
  predicate Settled(x: Mutex) {
    if x.owner == NULL then x.value == 1 && x.hold == 0 && x.waiters == []
    else x.value == 0 && 0 < x.hold <= MAX_HOLD && x.owner !in x.waiters
  }

  /** A take succeeds at once if and only if nobody else owns the mutex, and counts one hold more; otherwise the thread waits
      if it may, and lends the owner its priority if that is more urgent. */
  lemma TakeComesTo(x: Mutex, prio: map<int, nat>, t: int, wait: bool)
    requires Settled(x) && t != NULL && t !in x.waiters && (x.owner == t ==> x.hold < MAX_HOLD)
    ensures var (x', prio', out) := Take(x, prio, t, wait);
            && (out == Done <==> x.owner == NULL || x.owner == t)
            && (out == Blocked <==> x.owner != NULL && x.owner != t && wait)
            && (out == Done ==>
                  && x'.owner == t && x'.hold == x.hold + 1 && x'.value == 0 && prio' == prio
                  && x'.original == (if x.owner == t then x.original else Prio(prio, t))
                  && x'.waiters == x.waiters && x'.flag == x.flag)
            && (out == Refused ==> x' == x && prio' == prio)
            && (out == Blocked ==>
                  && x' == x.(waiters := x'.waiters) && t in x'.waiters && Without(x'.waiters, t) == x.waiters
                  && (forall u :: u != x.owner ==> Prio(prio', u) == Prio(prio, u))
                  && Prio(prio', x.owner) == Urgent(Prio(prio, t), Prio(prio, x.owner)))
  {
    var (x', prio', out) := Take(x, prio, t, wait);
    if out == Blocked { EnqueuedKeeps(x.waiters, prio', x.flag, t); }
  }

  /** The more urgent of two priorities */
  function Urgent(p: nat, q: nat): nat { if p < q then p else q }

  /** A release counts one hold less.  The last one gives the thread the priority back that it had at its first take, and
      the mutex to the first waiter, or to nobody; only the owner can release. */
  lemma ReleaseComesTo(x: Mutex, prio: map<int, nat>, t: int)
    requires Settled(x) && t != NULL
    ensures var (x', prio', ok) := Release(x, prio, t);
            && (ok <==> x.owner == t)
            && (!ok ==> x' == x && prio' == prio)
            && (ok && x.hold > 1 ==> x' == x.(hold := x'.hold) && x'.hold + 1 == x.hold && prio' == prio)
            && (ok && x.hold == 1 ==>
                  && Prio(prio', t) == x.original && (forall u :: u != t ==> Prio(prio', u) == Prio(prio, u))
                  && (x.waiters == [] ==> x' == New(x.flag))
                  && (x.waiters != [] ==>
                        && x'.owner == x.waiters[0] && x'.hold == 1 && x'.original == Prio(prio, x.waiters[0])
                        && x.waiters == [x'.owner] + x'.waiters && x'.value == 0 && x'.flag == x.flag))
  {
    if x.waiters != [] {
      var w := x.waiters[0];
      assert w in x.waiters;
    }
  }

  /** A region on one mutex leaves all others alone, and the phases of all threads but the caller and the one that is given
      the mutex. */
  lemma StepFrame(s: Sys, op: Op)
    requires Possible(s, op) && (op.TakeOp? || op.ReleaseOp?)
    ensures var s' := Step(s, op);
            && s'.mutexes.Keys == s.mutexes.Keys && s'.base == s.base
            && (forall n :: n in s.mutexes && n != op.m ==> s'.mutexes[n] == s.mutexes[n])
            && (op.TakeOp? ==>
                  var (x, prio, out) := Take(s.mutexes[op.m], s.prio, op.t, op.wait);
                  s'.mutexes[op.m] == x && s'.prio == prio && s'.phase == if out == Blocked then s.phase[op.t := Waiting(op.m)] else s.phase)
            && (op.ReleaseOp? ==>
                  var (x, prio, ok) := Release(s.mutexes[op.m], s.prio, op.t);
                  && s'.mutexes[op.m] == x && s'.prio == prio
                  && s'.phase == if HandsOver(s.mutexes[op.m], op.t) then s.phase[x.owner := Granted(op.m)] else s.phase)
  {
    hide Enqueued;
  }

  /** A timeout takes the thread off the list and lets its take fail; when a thread goes on nothing else changes. */
  lemma TimeoutFrame(s: Sys, op: Op)
    requires Shaped(s) && Possible(s, op) && (op.TimeoutOp? || op.ReturnOp?)
    ensures var s' := Step(s, op);
            && s'.prio == s.prio && s'.base == s.base && s'.mutexes.Keys == s.mutexes.Keys
            && s'.phase == s.phase[op.t := if op.TimeoutOp? then Phase.Failed(s.phase[op.t].m) else Free]
            && forall n :: n in s.mutexes ==>
                 && s'.mutexes[n] == s.mutexes[n].(waiters := s'.mutexes[n].waiters)
                 && forall u :: u in s'.mutexes[n].waiters <==> u in s.mutexes[n].waiters && u != op.t
  {
    hide NoDup, Without;
    var s' := Step(s, op);
    forall n | n in s.mutexes
      ensures s'.mutexes[n] == s.mutexes[n].(waiters := s'.mutexes[n].waiters)
      ensures forall u :: u in s'.mutexes[n].waiters <==> u in s.mutexes[n].waiters && u != op.t
    {
      assert ShapeAt(s, n);
      WithoutSpec(s.mutexes[n].waiters, op.t);
    }
  }

  // ---- runs ----

  /** The holds of the owner of m after one step, by takes and releases alone: n before */
  function Counted(s: Sys, op: Op, m: int, n: int): int
    requires Possible(s, op) && m in s.mutexes && m in Step(s, op).mutexes
  {
    var o, o' := s.mutexes[m].owner, Step(s, op).mutexes[m].owner;
    if o' != o then if o' == NULL then 0 else 1
    else if op.TakeOp? && op.m == m && op.t == o then n + 1
    else if op.ReleaseOp? && op.m == m && op.t == o then n - 1
    else n
  }

  /** The takes that the owner of m has made since it got the mutex, less its releases */
  ghost function Balance(s: Sys, ops: seq<Op>, m: int, n: int): int
    requires PossibleRun(s, ops) && m in s.mutexes
    decreases |ops|
  {
    if ops == [] then n
    else
      SameMutexes(s, ops[0]);
      Balance(Step(s, ops[0]), ops[1..], m, Counted(s, ops[0], m, n))
  }

  lemma SameMutexes(s: Sys, op: Op)
    requires Possible(s, op)
    ensures Step(s, op).mutexes.Keys == s.mutexes.Keys
  {
    hide Enqueued;
  }

  lemma ShapeSettled(s: Sys, m: int)
    requires Shaped(s) && m in s.mutexes
    ensures Settled(s.mutexes[m])
    ensures forall t :: t in s.mutexes[m].waiters ==> t in s.phase && s.phase[t] == Waiting(m) && t != NULL
  {
    assert ShapeAt(s, m);
  }

  /** The owner changes when a thread takes a mutex that nobody owns, and when the owner gives up its last hold, and never
      else; the hold counts. */
  lemma StepOwner(s: Sys, op: Op, m: int)
    requires Shaped(s) && Possible(s, op) && m in s.mutexes
    ensures m in Step(s, op).mutexes
    ensures var x, x' := s.mutexes[m], Step(s, op).mutexes[m];
            && x'.hold == Counted(s, op, m, x.hold)
            && (x.owner != NULL ==> (x'.owner != x.owner <==> op == ReleaseOp(x.owner, m) && x.hold == 1))
            && (x.owner == NULL ==> x'.owner == if op.TakeOp? && op.m == m then op.t else NULL)
            && (x.owner != NULL && x'.owner != x.owner ==> x'.owner == if x.waiters == [] then NULL else x.waiters[0])
  {
    hide Shaped, Take, Release, Enqueued, Without;
    SameMutexes(s, op);
    ShapeSettled(s, m);
    CallerKnown(s, op);
    var x := s.mutexes[m];
    match op
    case TakeOp(t, n, wait) =>
      StepFrame(s, op);
      if n == m { TakeComesTo(x, s.prio, t, wait); }
    case ReleaseOp(t, n) =>
      StepFrame(s, op);
      if n == m {
        ReleaseComesTo(x, s.prio, t);
        if x.waiters != [] {
          var w := x.waiters[0];
          assert w in x.waiters;
        }
      }
    case TimeoutOp(t) =>
    case ReturnOp(t) =>
  }

  lemma CallerKnown(s: Sys, op: Op)
    requires Shaped(s) && Possible(s, op)
    ensures op.t != NULL
    ensures op.TakeOp? || op.ReleaseOp? ==> forall m :: m in s.mutexes ==> op.t !in s.mutexes[m].waiters
  {
    forall m | m in s.mutexes && (op.TakeOp? || op.ReleaseOp?)
      ensures op.t !in s.mutexes[m].waiters
    {
      assert ShapeAt(s, m);
    }
  }

  /** In every state of a run `hold` is the number of takes that the owner has made since it got the mutex, less its releases;
      so only the release that balances its first take gives the mutex up. */
  lemma {:induction false} RunHolds(s: Sys, ops: seq<Op>, m: int)
    requires Shaped(s) && PossibleRun(s, ops) && m in s.mutexes
    ensures m in RunOf(s, ops).mutexes && RunOf(s, ops).mutexes[m].hold == Balance(s, ops, m, s.mutexes[m].hold)
    decreases |ops|
  {
    hide Shaped, Step, Possible, Counted;
    if ops != [] {
      SameMutexes(s, ops[0]);
      StepShaped(s, ops[0]);
      StepOwner(s, ops[0], m);
      RunHolds(Step(s, ops[0]), ops[1..], m);
    }
  }

  /** Two takes of a free mutex and one release leave it with its owner. */
  lemma HeldTwice(s: Sys, t: int, m: int)
    requires Shaped(s) && m in s.mutexes && s.mutexes[m].owner == NULL && Possible(s, TakeOp(t, m, true))
    ensures var ops := [TakeOp(t, m, true), TakeOp(t, m, true), ReleaseOp(t, m)];
            PossibleRun(s, ops) && m in RunOf(s, ops).mutexes && RunOf(s, ops).mutexes[m].owner == t
  {
    hide Shaped, Take, Release, Enqueued;
    CallerKnown(s, TakeOp(t, m, true));
    ShapeSettled(s, m);
    var s1 := Step(s, TakeOp(t, m, true));
    TakeComesTo(s.mutexes[m], s.prio, t, true);
    StepFrame(s, TakeOp(t, m, true));
    TakeComesTo(s1.mutexes[m], s1.prio, t, true);
    StaysKnown(s, t, m);
    var s2 := Step(s1, TakeOp(t, m, true));
    StepFrame(s1, TakeOp(t, m, true));
    StaysKnown(s1, t, m);
    var s3 := Step(s2, ReleaseOp(t, m));
    StepFrame(s2, ReleaseOp(t, m));
    ReleaseComesTo(s2.mutexes[m], s2.prio, t);
    RunOfThree(s, TakeOp(t, m, true), TakeOp(t, m, true), ReleaseOp(t, m));
  }

  lemma StaysKnown(s: Sys, t: int, m: int)
    requires Possible(s, TakeOp(t, m, true)) && Take(s.mutexes[m], s.prio, t, true).2 == Done
    ensures var s' := Step(s, TakeOp(t, m, true));
            s'.phase == s.phase && Known(s', t) && Take(s.mutexes[m], s.prio, t, true).1 == s.prio
  {
    hide Enqueued;
  }

  lemma RunOfThree(s: Sys, a: Op, b: Op, c: Op)
    requires Possible(s, a) && Possible(Step(s, a), b) && Possible(Step(Step(s, a), b), c)
    ensures PossibleRun(s, [a, b, c]) && RunOf(s, [a, b, c]) == Step(Step(Step(s, a), b), c)
  {
    hide Possible, Step;
    var s1, s2 := Step(s, a), Step(Step(s, a), b);
    RunOfMore(s2, c, []);
    assert [c] + [] == [c];
    RunOfMore(s1, b, [c]);
    RunOfMore(s, a, [b, c]);
    assert [a, b, c] == [a] + [b, c] && [b, c] == [b] + [c];
  }
}
