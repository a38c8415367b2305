/** When the loop of rt_timer_check (timer.c) comes to an end. */
module TimerLoop {
  import opened RtDef
  import opened RtList
  import opened TimerModel
  import opened TimerList

  /** The pending timers in the order of the bottom row, and the number of the next start */
  datatype Queue = Queue(keys: map<int, Key>, row: seq<int>, stamp: nat)

  /** What the timers are like: the fields that a check only reads */
  datatype Kinds = Kinds(periodic: map<int, bool>, initTick: map<int, nat>)

  predicate Periodic(k: Kinds, t: int) {
    t in k.periodic && k.periodic[t] && t in k.initTick
  }

  /** The test of the loop */
  predicate HeadDue(q: Queue, now: int) {
    q.row != [] && SeenDue(now % WORD, Due(q.keys, q.row[0]) % WORD)
  }

  /** One turn: the first timer leaves, and is started again if it is periodic. */
  function Turn(q: Queue, k: Kinds, now: int): Queue
    requires q.row != []
  {
    var t := q.row[0];
    if Periodic(k, t) then
      var keys := q.keys[t := Key(now + k.initTick[t], q.stamp)];
      Queue(keys, StableInsert(keys, q.row[1..], t), q.stamp + 1)
    else q.(row := q.row[1..])
  }

  /** The loop makes n turns at least. */
  predicate Turns(q: Queue, k: Kinds, now: int, n: nat)
    decreases n
  {
    n == 0 || (HeadDue(q, now) && Turns(Turn(q, k, now), k, now, n - 1))
  }

  /** The row is in order and in the window in which 32-bit ticks compare like true ones, restarts included. */
  ghost predicate Fit(q: Queue, k: Kinds, now: int, late: nat) {
    && Sorted(q.keys, q.row) && InWindow(q.keys, q.row, now, late)
    && (forall t :: t in q.row ==> t in q.keys && q.keys[t].stamp < q.stamp)
    && forall t :: t in q.row && Periodic(k, t) ==> k.initTick[t] + Late(q.keys, t, now) < HALF
  }

  /** A periodic timer of zero ticks is due. */
  ghost predicate ZeroDue(q: Queue, k: Kinds, now: int) {
    exists t :: t in q.row && Periodic(k, t) && k.initTick[t] == 0 && Due(q.keys, t) <= now
  }

  /** The timers of a row behind its head, and after a turn */
  lemma TurnRow(q: Queue, k: Kinds, now: int, late: nat)
    requires Fit(q, k, now, late) && q.row != []
    ensures var t, q' := q.row[0], Turn(q, k, now);
            && Sorted(q'.keys, q'.row)
            && (forall s :: s in q'.row <==> (s in q.row && s != t) || (s == t && Periodic(k, t)))
            && t in q.row && (forall s :: s in q.row && s != t ==> Due(q'.keys, s) == Due(q.keys, s))
            && (Periodic(k, t) ==> Due(q'.keys, t) == now + k.initTick[t])
  {
    hide Place;
    var t := Member(q.row, 0);
    RowTail(q.keys, q.row, now);
    if Periodic(k, t) {
      var keys := q.keys[t := Key(now + k.initTick[t], q.stamp)];
      SortedFrame(q.keys, keys, q.row[1..]);
      StableInsertSorted(keys, q.row[1..], t);
    }
  }

  lemma TurnFit(q: Queue, k: Kinds, now: int, late: nat)
    requires Fit(q, k, now, late) && q.row != []
    ensures Fit(Turn(q, k, now), k, now, late)
  {
    hide Sorted, StableInsert;
    TurnRow(q, k, now, late);
  }

  /** The head is due if any timer is. */
  lemma HeadFirst(q: Queue, k: Kinds, now: int, late: nat)
    requires Fit(q, k, now, late)
    ensures HeadDue(q, now) <==> exists t :: t in q.row && Due(q.keys, t) <= now
    ensures HeadDue(q, now) ==> Due(q.keys, q.row[0]) <= now
  {
    if q.row != [] {
      var h := Member(q.row, 0);
      SeenDueExact(now, Due(q.keys, h));
      forall t | t in q.row
        ensures Due(q.keys, h) <= Due(q.keys, t)
      {
        FirstIsLeast(q.keys, q.row, IndexOf(q.row, t));
      }
    }
  }

  lemma {:induction false} TurnsForever(q: Queue, k: Kinds, now: int, late: nat, n: nat)
    requires Fit(q, k, now, late) && ZeroDue(q, k, now)
    ensures Turns(q, k, now, n)
    decreases n
  {
    hide Fit, HeadDue, Turn;
    if n > 0 {
      HeadFirst(q, k, now, late);
      TurnsHere(q, now);
      TurnFit(q, k, now, late);
      ZeroStays(q, k, now, late);
      TurnsForever(Turn(q, k, now), k, now, late, n - 1);
    }
  }

  lemma TurnsHere(q: Queue, now: int)
    requires HeadDue(q, now)
    ensures q.row != []
  {
  }

  lemma ZeroStays(q: Queue, k: Kinds, now: int, late: nat)
    requires Fit(q, k, now, late) && q.row != []
    ensures ZeroDue(q, k, now) ==> ZeroDue(Turn(q, k, now), k, now)
    ensures ZeroDue(Turn(q, k, now), k, now) ==> ZeroDue(q, k, now) || (Periodic(k, q.row[0]) && k.initTick[q.row[0]] == 0)
  {
    hide Fit, Turn;
    TurnRow(q, k, now, late);
    var q' := Turn(q, k, now);
    if ZeroDue(q, k, now) {
      var t :| t in q.row && Periodic(k, t) && k.initTick[t] == 0 && Due(q.keys, t) <= now;
      assert t in q'.row && Due(q'.keys, t) <= now;
    }
  }

  /** A turn takes one due timer away, if the head is no periodic one of zero ticks. */
  lemma FewerDue(q: Queue, k: Kinds, now: int, late: nat)
    requires Fit(q, k, now, late) && HeadDue(q, now) && !ZeroDue(q, k, now)
    ensures Place(q.keys, q.row, now) == Place(Turn(q, k, now).keys, Turn(q, k, now).row, now) + 1
  {
    hide Place, Sorted, InWindow, StableInsert, ZeroDue, HeadDue;
    TurnsHere(q, now);
    HeadFirst(q, k, now, late);
    PlaceSplits(q.keys, q.row, now);
    RowTail(q.keys, q.row, now);
    if Periodic(k, q.row[0]) {
      HeadNotZero(q, k, now, late);
      TurnRow(q, k, now, late);
      Restarted(q, k, now);
    }
  }

  lemma Restarted(q: Queue, k: Kinds, now: int)
    requires q.row != [] && Periodic(k, q.row[0]) && k.initTick[q.row[0]] > 0
    requires Sorted(q.keys, q.row) && Sorted(Turn(q, k, now).keys, Turn(q, k, now).row)
    ensures Place(Turn(q, k, now).keys, Turn(q, k, now).row, now) == Place(q.keys, q.row[1..], now)
  {
    hide Place, Sorted, StableInsert;
    var t, tail := q.row[0], q.row[1..];
    var keys := q.keys[t := Key(now + k.initTick[t], q.stamp)];
    RowTail(q.keys, q.row, now);
    SortedKeys(q.keys, tail);
    SortedFrame(q.keys, keys, tail);
    RestartPlace(q.keys, keys, tail, t, now);
  }

  lemma {:induction false} TurnsEnd(q: Queue, k: Kinds, now: int, late: nat)
    requires Fit(q, k, now, late) && !ZeroDue(q, k, now)
    ensures !Turns(q, k, now, Place(q.keys, q.row, now) + 1)
    decreases Place(q.keys, q.row, now)
  {
    hide Fit, Turn, Place, ZeroDue, HeadDue;
    if HeadDue(q, now) {
      TurnsHere(q, now);
      FewerDue(q, k, now, late);
      TurnFit(q, k, now, late);
      HeadFirst(q, k, now, late);
      HeadNotZero(q, k, now, late);
      ZeroStays(q, k, now, late);
      TurnsEnd(Turn(q, k, now), k, now, late);
    }
  }

  lemma HeadNotZero(q: Queue, k: Kinds, now: int, late: nat)
    requires q.row != [] && Due(q.keys, q.row[0]) <= now && !ZeroDue(q, k, now)
    ensures !(Periodic(k, q.row[0]) && k.initTick[q.row[0]] == 0)
  {
    var t := Member(q.row, 0);
  }

  /** The loop of a check goes on forever if and only if a periodic timer of zero ticks is due. */
  lemma CheckNeverEnds(q: Queue, k: Kinds, now: int, late: nat)
    requires Fit(q, k, now, late)
    ensures (forall n: nat :: Turns(q, k, now, n)) <==> ZeroDue(q, k, now)
  {
    hide Fit, Turns, ZeroDue;
    if ZeroDue(q, k, now) {
      forall n: nat
        ensures Turns(q, k, now, n)
      {
        TurnsForever(q, k, now, late, n);
      }
    } else {
      TurnsEnd(q, k, now, late);
    }
  }
}
