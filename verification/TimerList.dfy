/** timer.c: the hard timers in a skip list, started, stopped and checked. */
module TimerList {
  import opened RtDef
  import opened RtList
  import opened Bits
  import opened TimerModel
  import opened TimerRows
  import TimerRuns

  ghost predicate RowsOk(next: map<Node, Node>, prev: map<Node, Node>, rows: seq<seq<int>>, known: set<int>) {
    forall i :: 0 <= i < |rows| ==> RowOk(next, prev, rows[i], i, known)
  }

  ghost predicate RowsSorted(keys: map<int, Key>, rows: seq<seq<int>>) {
    forall i :: 0 <= i < |rows| ==> Sorted(keys, rows[i])
  }

  /** A timer of row i is in all rows below it, too. */
  ghost predicate InBelow(rows: seq<seq<int>>, i: nat) {
    i + 1 < |rows| ==> forall t :: t in rows[i] ==> t in rows[i + 1]
  }

  ghost predicate Nested(rows: seq<seq<int>>) {
    forall i :: 0 <= i < |rows| ==> InBelow(rows, i)
  }

  lemma {:induction false} NestedTo(rows: seq<seq<int>>, i: nat, j: nat)
    requires Nested(rows) && i <= j < |rows|
    ensures forall t :: t in rows[i] ==> t in rows[j]
    decreases j - i
  {
    if i < j {
      assert InBelow(rows, i);
      NestedTo(rows, i + 1, j);
    }
  }

  /** The rows once timer t is taken out of the first n. */
  function Cleared(rows: seq<seq<int>>, t: int, n: nat): (r: seq<seq<int>>)
    ensures |r| == |rows|
  {
    seq(|rows|, i requires 0 <= i < |rows| => if i < n then Without(rows[i], t) else rows[i])
  }

  /** The rows once timer t is put into those from `from` on, each at its sorted place. */
  function Raised(keys: map<int, Key>, rows: seq<seq<int>>, t: int, from: int): (r: seq<seq<int>>)
    ensures |r| == |rows|
  {
    seq(|rows|, i requires 0 <= i < |rows| => if i >= from then StableInsert(keys, rows[i], t) else rows[i])
  }

  /** The bottom row: all pending timers. */
  function Bottom(rows: seq<seq<int>>): seq<int> {
    if |rows| > 0 then rows[|rows| - 1] else []
  }

  ghost predicate RowsGood(keys: map<int, Key>, rows: seq<seq<int>>) {
    RowsSorted(keys, rows) && Nested(rows)
  }

  /** timeout_tick is the low half of the true deadline, and starts are numbered upwards. */
  ghost predicate Clock(pending: seq<int>, keys: map<int, Key>, stamp: nat, timeoutTick: map<int, nat>) {
    && (forall t :: t in keys ==> keys[t].stamp < stamp)
    && forall t :: t in pending ==> t in keys && t in timeoutTick && timeoutTick[t] == keys[t].deadline % WORD
  }

  ghost predicate Flags(pending: seq<int>, activated: map<int, bool>) {
    forall t :: t in activated ==> (activated[t] <==> t in pending)
  }

  class Timers {
    const levels: nat              // RT_TIMER_SKIP_LIST_LEVEL
    const mask: nat                // RT_TIMER_SKIP_LIST_MASK
    const links: Links<Node>
    var initTick: map<int, nat>    // the fields of struct rt_timer, by timer
    var timeoutTick: map<int, nat>
    var periodic: map<int, bool>
    var activated: map<int, bool>
    var tick: nat                  // rt_tick
    var randomNr: nat
    ghost var now: int             // the ticks since ever
    ghost var rows: seq<seq<int>>
    ghost var keys: map<int, Key>
    ghost var stamp: nat

    ghost predicate Shape()
      reads this
    {
      && levels > 0 && |rows| == levels && tick == now % WORD
      && initTick.Keys == timeoutTick.Keys == periodic.Keys == activated.Keys
    }

    ghost predicate Valid()
      reads this, links
    {
      && Shape()
      && RowsOk(links.next, links.prev, rows, initTick.Keys) && RowsGood(keys, rows)
      && Clock(Bottom(rows), keys, stamp, timeoutTick)
      && Flags(Bottom(rows), activated)
    }

    /** rt_system_timer_init */
    constructor (levels: nat, mask: nat, tick: nat)
      requires levels > 0 && tick < WORD
      ensures Valid() && fresh(links) && initTick == map[] && Bottom(rows) == []
      ensures this.levels == levels && this.mask == mask && this.now == tick
    {
      var l := new Links<Node>();
      var i := 0;
      ghost var rs := seq(levels, _ => []);
      while i < levels
        invariant 0 <= i <= levels && fresh(l)
        invariant forall j :: 0 <= j < i ==> Loop(l.next, l.prev, Node(HEAD, j))
      {
        l.Init(Node(HEAD, i));
        i := i + 1;
      }
      this.levels, this.mask, links := levels, mask, l;
      initTick, timeoutTick, periodic, activated := map[], map[], map[], map[];
      this.tick := tick;
      randomNr := 0;
      this.now := tick;
      rows := rs;
      keys := map[];
      stamp := 0;
      new;
      forall j | 0 <= j < levels
        ensures RowOk(links.next, links.prev, rows[j], j, {})
      {
        assert Loop(l.next, l.prev, Node(HEAD, j));
        assert Nodes([], j) == [Node(HEAD, j)];
        assert LinkedAt(links.next, links.prev, Nodes([], j), 0);
      }
    }

    /** _rt_timer_init */
    method Init(t: int, time: nat, isPeriodic: bool)
      requires Valid() && t !in initTick && t != HEAD
      modifies this, links
      ensures Valid()
      ensures initTick == old(initTick)[t := time] && periodic == old(periodic)[t := isPeriodic]
      ensures activated == old(activated)[t := false]
      ensures now == old(now) && rows == old(rows) && keys == old(keys) && stamp == old(stamp)
    {
      hide RowsOk, RowsKnow, RowsGood, Clock, Flags;
      ghost var known := initTick.Keys;
      KnowNone(links.next, links.prev, rows, known, t);
      var i := 0;
      while i < levels
        invariant 0 <= i <= levels
        invariant unchanged(this)
        invariant RowsKnow(links.next, links.prev, rows, known, t, i)
      {
        RowsLearn(links.next, links.prev, rows, known, t, i);
        links.Init(Node(t, i));
        i := i + 1;
      }
      NotPending(Bottom(rows), keys, stamp, timeoutTick, activated, t);
      assert timeoutTick.Keys == known && periodic.Keys == known && activated.Keys == known;
      NewKey(initTick, t, time);
      NewKey(timeoutTick, t, 0);
      NewKey(periodic, t, isPeriodic);
      NewKey(activated, t, false);
      initTick := initTick[t := time];
      timeoutTick := timeoutTick[t := 0];
      periodic := periodic[t := isPeriodic];
      activated := activated[t := false];
      AllKnow(links.next, links.prev, rows, known, t);
    }

    /** _rt_timer_remove */
    method Unlink(t: int)
      requires Shape() && t in initTick && RowsOk(links.next, links.prev, rows, initTick.Keys)
      modifies links
      ensures RowsOk(links.next, links.prev, Cleared(rows, t, levels), initTick.Keys)
    {
      hide RowOk, Without, Sorted, InBelow;
      var i := 0;
      while i < levels
        invariant 0 <= i <= levels
        invariant RowsOk(links.next, links.prev, Cleared(rows, t, i), initTick.Keys)
      {
        ghost var nx, pv := links.next, links.prev;
        ghost var before, after := Cleared(rows, t, i), Cleared(rows, t, i + 1);
        RemoveFromRow(nx, pv, before[i], i, initTick.Keys, t);
        links.Remove(Node(t, i));
        forall j | 0 <= j < levels
          ensures RowOk(links.next, links.prev, after[j], j, initTick.Keys)
        {
          if j != i {
            assert after[j] == before[j];
            RowFrame(nx, pv, links.next, links.prev, before[j], j, initTick.Keys, i);
          }
        }
        i := i + 1;
      }
    }

    /** The search along one row, from a node on the way to the place of t. */
    method SearchRow(i: nat, from: Node, t: int, ghost k: nat) returns (h: Node)
      requires Shape() && i < levels
      requires RowOk(links.next, links.prev, rows[i], i, initTick.Keys) && Sorted(keys, rows[i])
      requires t in timeoutTick && Comparable(keys, timeoutTick, rows[i], t)
      requires k <= Place(keys, rows[i], Due(keys, t)) && from == Nodes(rows[i], i)[k]
      ensures h == Nodes(rows[i], i)[Place(keys, rows[i], Due(keys, t))]
    {
      hide RowOk, Sorted, Place, Nodes;
      ghost var row := rows[i];
      ghost var d := Due(keys, t);
      ghost var j := k;
      h := from;
      PlaceSplits(keys, row, d);
      RowHop(links.next, links.prev, row, i, initTick.Keys, j);
      while h != links.prev[Node(HEAD, i)]
        invariant unchanged(this) && unchanged(links)
        invariant j <= Place(keys, row, d) && h == Nodes(row, i)[j]
        invariant Node(HEAD, i) in links.prev && (h == links.prev[Node(HEAD, i)] <==> j == |row|)
        decreases |row| - j
      {
        RowHop(links.next, links.prev, row, i, initTick.Keys, j);
        var p := links.next[h];
        var s := p.timer;
        Compared(keys, timeoutTick, row, t, j);
        if SeenLater(timeoutTick[s], timeoutTick[t]) { break; }
        h := p;
        j := j + 1;
        RowHop(links.next, links.prev, row, i, initTick.Keys, j);
      }
      PlaceIs(keys, row, d, j);
    }

    /** The search of rt_timer_start through all rows: the nodes behind which t belongs. */
    method Search(t: int) returns (rowHead: array<Node>)
      requires Shape() && RowsOk(links.next, links.prev, rows, initTick.Keys) && RowsGood(keys, rows)
      requires t in timeoutTick && forall i :: 0 <= i < levels ==> Comparable(keys, timeoutTick, rows[i], t)
      ensures fresh(rowHead) && rowHead.Length == levels
      ensures forall i :: 0 <= i < levels ==> rowHead[i] == Nodes(rows[i], i)[Place(keys, rows[i], Due(keys, t))]
    {
      hide RowOk, Sorted, Nodes, Comparable, Place, Nested;
      rowHead := new Node[levels];
      rowHead[0] := Node(HEAD, 0);
      NodesHead(rows[0], 0);
      ghost var k: nat := 0;
      ghost var d := Due(keys, t);
      var i := 0;
      while i < levels
        invariant 0 <= i <= levels && unchanged(this) && unchanged(links)
        invariant forall j :: 0 <= j < i ==> rowHead[j] == Nodes(rows[j], j)[Place(keys, rows[j], d)]
        invariant i < levels ==> k <= Place(keys, rows[i], d) && rowHead[i] == Nodes(rows[i], i)[k]
      {
        rowHead[i] := SearchRow(i, rowHead[i], t, k);
        if i != levels - 1 {
          k := StepDown(keys, rows, i, d);
          rowHead[i + 1] := Node(rowHead[i].timer, i + 1);
        }
        i := i + 1;
      }
    }

    /** Insert t into the bottom row and, by the insert counter, into some rows above it. */
    method InsertRows(t: int, rowHead: array<Node>)
      requires Shape() && RowsOk(links.next, links.prev, rows, initTick.Keys) && RowsGood(keys, rows)
      requires t in keys && t in initTick && forall i :: 0 <= i < levels ==> t !in rows[i]
      requires rowHead.Length == levels
      requires forall i :: 0 <= i < levels ==> rowHead[i] == Nodes(rows[i], i)[Place(keys, rows[i], Due(keys, t))]
      modifies links
      ensures RowsOk(links.next, links.prev, Raised(keys, rows, t, levels - 1 - Tower(randomNr, mask, levels - 1)), initTick.Keys)
    {
      hide RowsOk, RowsGood, Raised;
      var tst := randomNr;
      RaisedNone(keys, rows, t);
      RaiseRow(links.next, links.prev, keys, rows, t, levels, initTick.Keys);
      links.InsertAfter(rowHead[levels - 1], Node(t, levels - 1));
      var lvl := 2;
      while lvl <= levels
        invariant 2 <= lvl <= levels + 1 && unchanged(this)
        invariant RowsOk(links.next, links.prev, Raised(keys, rows, t, levels + 1 - lvl), initTick.Keys)
        invariant Tower(randomNr, mask, levels - 1) == lvl - 2 + Tower(tst, mask, levels + 1 - lvl)
      {
        if And(tst, mask) != 0 { break; }
        RaiseRow(links.next, links.prev, keys, rows, t, levels + 1 - lvl, initTick.Keys);
        links.InsertAfter(rowHead[levels - lvl], Node(t, levels - lvl));
        tst := Shr(tst, (mask + 1) / 2);
        lvl := lvl + 1;
      }
    }

    /** The first half of rt_timer_start: take t out of every row and give it its new time. */
    method Rearm(t: int)
      requires Valid() && t in initTick && initTick[t] < HALF
      requires forall s :: s in Bottom(rows) && s != t ==> -HALF < Due(keys, s) - (now + initTick[t]) < HALF
      modifies this`timeoutTick, this`activated, this`rows, this`keys, this`stamp, links
      ensures Shape() && RowsOk(links.next, links.prev, rows, initTick.Keys) && RowsGood(keys, rows)
      ensures Clock(Bottom(rows), keys, stamp, timeoutTick) && Flags(Bottom(rows), activated)
      ensures keys == old(keys)[t := Key(now + initTick[t], old(stamp))] && stamp == old(stamp) + 1
      ensures activated == old(activated)[t := false]
      ensures t in timeoutTick && timeoutTick[t] == keys[t].deadline % WORD
      ensures rows == Cleared(old(rows), t, levels) && forall i :: 0 <= i < levels ==> t !in rows[i]
      ensures forall i :: 0 <= i < levels ==> Comparable(keys, timeoutTick, rows[i], t)
      ensures forall i :: 0 <= i < levels ==> forall s :: s in rows[i] ==> keys[s].stamp < keys[t].stamp
    {
      hide RowsOk, RowsGood, Without, Clock, Flags, Cleared, Comparable, Bottom;
      Unlink(t);
      ghost var base := Cleared(rows, t, levels);
      ClearedOk(keys, rows, t);
      BottomNoDup(keys, rows);
      FlagsCleared(rows, activated, t);
      activated := activated[t := false];
      ghost var due := now + initTick[t];
      ModSum(now, initTick[t]);
      ghost var keys0, tt := keys, timeoutTick;
      timeoutTick := timeoutTick[t := (tick + initTick[t]) % WORD];
      keys := keys[t := Key(due, stamp)];
      StartReady(keys0, keys, rows, base, tt, timeoutTick, t, stamp);
      rows := base;
      stamp := stamp + 1;
    }

    /** The second half: search, count the start, insert. */
    method Insert(t: int)
      requires Shape() && RowsOk(links.next, links.prev, rows, initTick.Keys) && RowsGood(keys, rows)
      requires t in keys && t in initTick && forall i :: 0 <= i < levels ==> t !in rows[i]
      requires forall i :: 0 <= i < levels ==> Comparable(keys, timeoutTick, rows[i], t)
      modifies this`randomNr, links
      ensures randomNr == (old(randomNr) + 1) % WORD
      ensures RowsOk(links.next, links.prev, Raised(keys, rows, t, levels - 1 - Tower(randomNr, mask, levels - 1)), initTick.Keys)
    {
      hide RowsOk, RowsGood, Comparable, Raised, Due, Place, Nodes, Tower;
      var rowHead := Search(t);
      randomNr := (randomNr + 1) % WORD;
      InsertRows(t, rowHead);
    }

    /** rt_timer_start */
    method Start(t: int)
      requires Valid() && t in initTick && initTick[t] < HALF
      requires forall s :: s in Bottom(rows) && s != t ==> -HALF < Due(keys, s) - (now + initTick[t]) < HALF
      modifies this`timeoutTick, this`activated, this`randomNr, this`rows, this`keys, this`stamp, links
      ensures Valid()
      ensures keys == old(keys)[t := Key(now + initTick[t], old(stamp))] && stamp == old(stamp) + 1
      ensures activated == old(activated)[t := true] && randomNr == (old(randomNr) + 1) % WORD
      ensures rows == Raised(keys, Cleared(old(rows), t, levels), t, levels - 1 - Tower(randomNr, mask, levels - 1))
      ensures Bottom(rows) == StableInsert(keys, Without(old(Bottom(rows)), t), t)
    {
      hide RowsOk, RowsGood, Without, Clock, Flags, Cleared, Comparable, Raised, Due, Place, Nodes, Tower, StableInsert, Bottom;
      Rearm(t);
      Insert(t);
      ghost var from := levels - 1 - Tower(randomNr, mask, levels - 1);
      StartDone(keys, old(rows), rows, t, from, stamp, timeoutTick, activated);
      rows := Raised(keys, rows, t, from);
      activated := activated[t := true];
    }

    /** Take t out of the rows and mark it inactive. */
    method Take(t: int)
      requires Shape() && RowsOk(links.next, links.prev, rows, initTick.Keys) && RowsGood(keys, rows)
      requires Clock(Bottom(rows), keys, stamp, timeoutTick) && Flags(Bottom(rows), activated) && t in initTick
      modifies this`activated, this`rows, links
      ensures Valid()
      ensures rows == Cleared(old(rows), t, levels) && Bottom(rows) == Without(old(Bottom(rows)), t)
      ensures activated == old(activated)[t := false]
    {
      hide RowsOk, RowsGood, Without, Clock, Flags, Cleared, Bottom;
      Unlink(t);
      ClearedOk(keys, rows, t);
      BottomNoDup(keys, rows);
      FlagsCleared(rows, activated, t);
      BaseBottom(rows, t);
      ClockLess(rows, keys, stamp, timeoutTick, t);
      activated := activated[t := false];
      rows := Cleared(rows, t, levels);
    }

    /** rt_timer_stop: false stands for -RT_ERROR */
    method Stop(t: int) returns (ok: bool)
      requires Valid() && t in initTick
      modifies this`activated, this`rows, links
      ensures Valid()
      ensures ok <==> t in old(Bottom(rows))
      ensures Bottom(rows) == Without(old(Bottom(rows)), t)
      ensures activated == old(activated)[t := false]
    {
      hide RowsOk, RowsGood, Without, Clock, Cleared, Bottom;
      ok := activated[t];
      if ok {
        Take(t);
      } else {
        WithoutNone(Bottom(rows), t);
        assert activated == activated[t := false];
      }
    }

    /** rt_timer_next_timeout_tick: the low half of the earliest deadline */
    method NextTimeout() returns (r: nat)
      requires Valid()
      ensures Bottom(rows) == [] ==> r == TICK_MAX
      ensures Bottom(rows) != [] ==> exists t :: t in Bottom(rows) && r == keys[t].deadline % WORD
                                       && forall s :: s in Bottom(rows) ==> keys[t].deadline <= keys[s].deadline
    {
      hide Ring, Nested, Nodes;
      var i := levels - 1;
      assert RowOk(links.next, links.prev, rows[i], i, initTick.Keys);
      RowHop(links.next, links.prev, rows[i], i, initTick.Keys, 0);
      NodesHead(rows[i], i);
      var empty := links.IsEmpty(Node(HEAD, i), Nodes(rows[i], i));
      if empty {
        r := TICK_MAX;
      } else {
        var t := links.next[Node(HEAD, i)].timer;
        r := timeoutTick[t];
        Earliest(keys, Bottom(rows));
      }
    }

    /** What rt_timer_check does with a due timer at the head: take it out, call it, restart it if periodic. */
    method Fire(t: int, ghost late: nat, ghost keys0: map<int, Key>, ghost pending: seq<int>, ghost m: nat, ghost j: nat)
      requires Valid() && InWindow(keys, Bottom(rows), now, late)
      requires Progress(keys0, pending, m, now, j, keys, Bottom(rows), periodic, initTick)
      requires j < m && Bottom(rows) != [] && Bottom(rows)[0] == t == pending[j] && t in initTick
      requires Renewable(keys0, pending, now, periodic, initTick)
      modifies this`timeoutTick, this`activated, this`randomNr, this`rows, this`keys, this`stamp, links
      ensures Valid() && InWindow(keys, Bottom(rows), now, late)
      ensures Progress(keys0, pending, m, now, j + 1, keys, Bottom(rows), periodic, initTick)
    {
      hide RowsOk, RowsGood, Flags, Bottom, Due, Place, Sorted, Progress, InWindow, Without, StableInsert, Clock, Renewable;
      ghost var before, keysBefore := Bottom(rows), keys;
      var again := periodic[t] && activated[t];
      RenewIt(keys0, pending, m, now, j, keys, before, periodic, initTick);
      BottomNoDup(keys, rows);
      ActiveFlag(Bottom(rows), activated, t);
      Take(t);
      WithoutHead(before, t);
      WindowTail(keys, before, now, late);
      if again {
        WindowStart(keys, before, now, late, initTick[t]);
        WithoutSelf(keys, before, t);
        Start(t);
        BottomNoDup(keys, rows);
        ProgressRestart(keys0, pending, m, now, j, keysBefore, before, periodic, initTick, late, keys[t].stamp);
      } else {
        ProgressEnd(keys0, pending, m, now, j, keys, before, periodic, initTick);
      }
    }

    /** rt_timer_check, at most `late` ticks after the first timer was due.  `fired` are the timers whose
        callbacks run, in order. */
    method Check(ghost late: nat) returns (fired: seq<int>)
      requires Valid() && InWindow(keys, Bottom(rows), now, late)
      requires Renewable(keys, Bottom(rows), now, periodic, initTick)
      modifies this`timeoutTick, this`activated, this`randomNr, this`rows, this`keys, this`stamp, links
      ensures Valid()
      ensures fired == old(Bottom(rows))[..Place(old(keys), old(Bottom(rows)), now)]
      ensures forall t :: t in fired <==> t in old(Bottom(rows)) && Due(old(keys), t) <= now
      ensures forall t :: t in Bottom(rows) <==> t in old(Bottom(rows)) && (t !in fired || (t in periodic && periodic[t]))
      ensures forall t :: t in Bottom(rows) ==> t in initTick && Due(keys, t) == if t in fired then now + initTick[t] else Due(old(keys), t)
      ensures forall t :: t in Bottom(rows) ==> now < Due(keys, t) < now + HALF
    {
      hide RowsOk, RowsGood, Flags, Bottom, Due, Place, Sorted, Progress, InWindow, Without, StableInsert, Clock, Renewable;
      ghost var pending, keys0 := Bottom(rows), keys;
      ghost var m := Place(keys, pending, now);
      fired := [];
      BottomNoDup(keys, rows);
      BottomLinks(links.next, links.prev, rows, initTick.Keys);
      ProgressStart(keys, pending, now, periodic, initTick);
      var current := tick;
      var i := levels - 1;
      while true
        invariant Valid() && InWindow(keys, Bottom(rows), now, late)
        invariant i == levels - 1 && current == tick && |fired| <= m
        invariant Progress(keys0, pending, m, now, |fired|, keys, Bottom(rows), periodic, initTick)
        invariant fired == pending[..|fired|]
        decreases m - |fired|
      {
        BottomLinks(links.next, links.prev, rows, initTick.Keys);
        ProgressHead(keys0, pending, m, now, |fired|, keys, Bottom(rows), periodic, initTick);
        var empty := links.IsEmpty(Node(HEAD, i), Nodes(Bottom(rows), i));
        if empty { break; }
        var t := links.next[Node(HEAD, i)].timer;
        DueNow(keys, Bottom(rows), stamp, timeoutTick, now, late, t);
        if !SeenDue(current, timeoutTick[t]) { break; }
        Fire(t, late, keys0, pending, m, |fired|);
        current := tick;
        fired := fired + [t];
        assert fired == pending[..|fired|];
      }
      ProgressDone(keys0, pending, m, now, |fired|, keys, Bottom(rows), periodic, initTick, late);
    }

    ghost function Pending(): TimerRuns.Sys
      reads this
    {
      PendingOf(now, keys, Bottom(rows))
    }

    ghost function Settings(): TimerRuns.Config
      reads this
    {
      TimerRuns.Config(initTick, set t | t in periodic && periodic[t])
    }

    /** ++rt_tick */
    method Advance()
      requires Valid()
      modifies this`tick, this`now
      ensures Valid() && now == old(now) + 1
    {
      hide RowsOk, RowsGood, Flags, Bottom, Clock;
      ModSum(now, 1);
      tick := (tick + 1) % WORD;
      now := now + 1;
    }

    /** The timer half of rt_tick_increase: one more tick, and a check. */
    method TickIncrease() returns (fired: seq<int>)
      requires Valid() && TimerRuns.Sane(Settings()) && TimerRuns.InWindow(Settings(), Pending())
      modifies this
      modifies links
      ensures Valid() && Settings() == old(Settings())
      ensures Pending() == TimerRuns.Ticked(Settings(), old(Pending()))
      ensures TimerRuns.Members(fired) == TimerRuns.Fired(old(Pending()))
      ensures |fired| <= |old(Bottom(rows))| && fired == old(Bottom(rows))[..|fired|]
      ensures TimerRuns.InWindow(Settings(), Pending())
    {
      hide RowsOk, RowsGood, Flags, Bottom, Due, Place, Clock, TimerRuns.Ticked, TimerRuns.Fired, TimerRuns.InWindow, TimerRuns.Sane, PendingOf, InWindow, Renewable;
      ghost var row, keys0 := Bottom(rows), keys;
      PendingWindow(now, keys, row, initTick, periodic, Settings());
      Advance();
      fired := Check(1);
      TickedIs(now - 1, keys0, row, keys, Bottom(rows), fired, Settings());
    }

    /** One call, or one tick */
    method Do(op: TimerRuns.Op) returns (fired: seq<int>)
      requires Valid() && TimerRuns.Sane(Settings()) && TimerRuns.InWindow(Settings(), Pending())
      requires !op.Tick? ==> op.t in initTick
      modifies this, links
      ensures Valid() && Settings() == old(Settings())
      ensures Pending() == TimerRuns.Step(Settings(), old(Pending()), op)
      ensures op.Tick? ==> TimerRuns.Members(fired) == TimerRuns.Fired(old(Pending()))
    {
      hide RowsOk, RowsGood, Flags, Bottom, Due, StableInsert, Without, Cleared, Raised, TimerRuns.Ticked, TimerRuns.Fired,
           TimerRuns.InWindow, PendingOf;
      fired := [];
      BottomNoDup(keys, rows);
      match op {
        case Start(t) =>
          StartWindow(now, keys, Bottom(rows), t, initTick, Settings());
          StartIs(now, keys, Bottom(rows), t, stamp, Settings());
          Start(t);
        case Stop(t) =>
          StopIs(now, keys, Bottom(rows), t, Settings());
          var ok := Stop(t);
        case Tick =>
          fired := TickIncrease();
      }
    }

    /** Any run of starts, stops and ticks: what is pending for when, and what each tick fires, is as in the users'
        view. */
    method Session(ops: seq<TimerRuns.Op>) returns (fired: seq<seq<int>>)
      requires Valid() && TimerRuns.Sane(Settings()) && TimerRuns.InWindow(Settings(), Pending())
      requires TimerRuns.Known(Settings(), ops)
      modifies this, links
      ensures Valid() && Settings() == old(Settings())
      ensures Pending() == TimerRuns.After(Settings(), old(Pending()), ops)
      ensures |fired| == |ops| && forall i :: 0 <= i < |ops| ==> TimerRuns.FiresAt(Settings(), old(Pending()), ops, i, fired[i])
    {
      hide Valid, TimerRuns.InWindow, TimerRuns.Step, TimerRuns.Sane, TimerRuns.Fired, Bottom, PendingOf;
      fired := [];
      ghost var c, s := Settings(), Pending();
      for n := 0 to |ops|
        invariant Valid() && Settings() == c && Pending() == TimerRuns.After(c, s, ops[..n]) && TimerRuns.InWindow(c, Pending())
        invariant |fired| == n && forall i :: 0 <= i < n ==> TimerRuns.FiresAt(c, s, ops, i, fired[i])
      {
        assert ops[..n + 1][..n] == ops[..n];
        var row := Do(ops[n]);
        TimerRuns.StepInWindow(c, TimerRuns.After(c, s, ops[..n]), ops[n]);
        fired := fired + [row];
      }
      assert ops[..|ops|] == ops;
    }
  }

  ghost function PendingOf(now: int, keys: map<int, Key>, row: seq<int>): TimerRuns.Sys {
    TimerRuns.Sys(now, map t | t in row :: Due(keys, t))
  }

  lemma StartWindow(now: int, keys: map<int, Key>, row: seq<int>, t: int, initTick: map<int, nat>, c: TimerRuns.Config)
    requires TimerRuns.Sane(c) && TimerRuns.InWindow(c, PendingOf(now, keys, row)) && c.time == initTick && t in initTick
    ensures initTick[t] < HALF && forall s :: s in row && s != t ==> -HALF < Due(keys, s) - (now + initTick[t]) < HALF
  {
    hide Due;
    var p := PendingOf(now, keys, row);
    forall s | s in row
      ensures now <= Due(keys, s) < now + HALF
    {
      assert s in p.due;
    }
  }

  lemma PendingWindow(now: int, keys: map<int, Key>, row: seq<int>, initTick: map<int, nat>, periodic: map<int, bool>,
                      c: TimerRuns.Config)
    requires TimerRuns.Sane(c) && TimerRuns.InWindow(c, PendingOf(now, keys, row))
    requires c == TimerRuns.Config(initTick, set t | t in periodic && periodic[t])
    ensures InWindow(keys, row, now + 1, 1) && Renewable(keys, row, now + 1, periodic, initTick)
  {
    hide Due;
    var s := PendingOf(now, keys, row);
    forall t | t in row
      ensures t in c.time && now <= Due(keys, t) < now + HALF && (t in c.periodic ==> now < Due(keys, t))
    {
      assert t in s.due;
    }
  }

  lemma TickedIs(now: int, keys: map<int, Key>, row: seq<int>, keys': map<int, Key>, row': seq<int>, fired: seq<int>, c: TimerRuns.Config)
    requires forall t :: t in fired <==> t in row && Due(keys, t) <= now + 1
    requires forall t :: t in row' <==> t in row && (t !in fired || t in c.periodic)
    requires forall t :: t in row' ==> t in c.time && Due(keys', t) == if t in fired then now + 1 + c.time[t] else Due(keys, t)
    requires forall t :: t in row' ==> now + 1 < Due(keys', t) < now + 1 + HALF
    ensures PendingOf(now + 1, keys', row') == TimerRuns.Ticked(c, PendingOf(now, keys, row))
    ensures TimerRuns.Members(fired) == TimerRuns.Fired(PendingOf(now, keys, row))
    ensures TimerRuns.InWindow(c, PendingOf(now + 1, keys', row'))
  {
    hide Due;
    var s := PendingOf(now, keys, row);
    assert forall t :: t in row <==> t in s.due;
    assert forall t :: t in fired <==> t in TimerRuns.Fired(s);
    assert PendingOf(now + 1, keys', row').due == TimerRuns.Ticked(c, s).due;
  }

  /** The stable insertion of rt_timer_start is a start in the users' view. */
  lemma StartIs(now: int, keys: map<int, Key>, row: seq<int>, t: int, stamp: nat, c: TimerRuns.Config)
    requires Sorted(keys, row) && t in c.time && forall s :: s in row ==> keys[s].stamp < stamp
    ensures var keys' := keys[t := Key(now + c.time[t], stamp)];
            PendingOf(now, keys', StableInsert(keys', Without(row, t), t))
            == TimerRuns.Step(c, PendingOf(now, keys, row), TimerRuns.Start(t))
  {
    hide Sorted, Place, StableInsert, Without;
    var keys' := keys[t := Key(now + c.time[t], stamp)];
    var row' := Without(row, t);
    WithoutSorted(keys, row, t);
    SortedKeys(keys, row);
    SortedFrame(keys, keys', row');
    StableInsertSorted(keys', row', t);
    SameDue(keys, keys', row, StableInsert(keys', row', t), t);
    var before := PendingOf(now, keys, row).due;
    var after := PendingOf(now, keys', StableInsert(keys', row', t)).due;
    assert after == before[t := now + c.time[t]];
  }

  lemma SameDue(keys: map<int, Key>, keys': map<int, Key>, row: seq<int>, row': seq<int>, t: int)
    requires t in keys' && keys' == keys[t := keys'[t]]
    requires forall s :: s in row' <==> s in row || s == t
    requires forall s :: s in row ==> s in keys
    ensures forall s :: s in row' ==> Due(keys', s) == if s == t then keys'[t].deadline else Due(keys, s)
  {
  }

  /** And the removal of rt_timer_stop is a stop. */
  lemma StopIs(now: int, keys: map<int, Key>, row: seq<int>, t: int, c: TimerRuns.Config)
    requires Sorted(keys, row)
    ensures PendingOf(now, keys, Without(row, t)) == TimerRuns.Step(c, PendingOf(now, keys, row), TimerRuns.Stop(t))
  {
    hide Sorted, Due;
    WithoutSorted(keys, row, t);
    assert PendingOf(now, keys, Without(row, t)).due == PendingOf(now, keys, row).due - {t};
  }

  /** An unknown timer is not pending. */
  lemma NotPending(pending: seq<int>, keys: map<int, Key>, stamp: nat, timeoutTick: map<int, nat>,
                   activated: map<int, bool>, t: int)
    requires Clock(pending, keys, stamp, timeoutTick) && t !in timeoutTick && Flags(pending, activated)
    ensures t !in pending
    ensures Clock(pending, keys, stamp, timeoutTick[t := 0]) && Flags(pending, activated[t := false])
  {
  }

  lemma NewKey<V>(m: map<int, V>, t: int, v: V)
    ensures m[t := v].Keys == m.Keys + {t}
  {
  }

  /** The first n rows know timer t, the others do not yet. */
  ghost predicate RowsKnow(next: map<Node, Node>, prev: map<Node, Node>, rows: seq<seq<int>>, known: set<int>, t: int, n: nat) {
    forall j :: 0 <= j < |rows| ==> RowOk(next, prev, rows[j], j, if j < n then known + {t} else known)
  }

  lemma KnowNone(next: map<Node, Node>, prev: map<Node, Node>, rows: seq<seq<int>>, known: set<int>, t: int)
    requires RowsOk(next, prev, rows, known)
    ensures RowsKnow(next, prev, rows, known, t, 0)
  {
    hide RowOk;
  }

  lemma RowsLearn(next: map<Node, Node>, prev: map<Node, Node>, rows: seq<seq<int>>, known: set<int>, t: int, i: nat)
    requires RowsKnow(next, prev, rows, known, t, i) && i < |rows| && t !in known && t != HEAD
    ensures RowsKnow(next[Node(t, i) := Node(t, i)], prev[Node(t, i) := Node(t, i)], rows, known, t, i + 1)
  {
    hide RowOk, OtherRows;
    var n := Node(t, i);
    NewInRow(next, prev, rows[i], i, known, t);
    forall j | 0 <= j < |rows|
      ensures RowOk(next[n := n], prev[n := n], rows[j], j, if j < i + 1 then known + {t} else known)
    {
      if j != i { RowFrame(next, prev, next[n := n], prev[n := n], rows[j], j, if j < i then known + {t} else known, i); }
    }
  }

  lemma AllKnow(next: map<Node, Node>, prev: map<Node, Node>, rows: seq<seq<int>>, known: set<int>, t: int)
    requires RowsKnow(next, prev, rows, known, t, |rows|)
    ensures RowsOk(next, prev, rows, known + {t})
  {
    hide RowOk;
  }

  lemma NewInRow(next: map<Node, Node>, prev: map<Node, Node>, row: seq<int>, i: nat, known: set<int>, t: int)
    requires RowOk(next, prev, row, i, known) && t !in known && t != HEAD
    ensures var n := Node(t, i);
            RowOk(next[n := n], prev[n := n], row, i, known + {t}) && OtherRows(next, next[n := n], i) && OtherRows(prev, prev[n := n], i)
  {
    hide Ring;
    var n := Node(t, i);
    NodeIn(row, i, t);
    RingParts(next, prev, Nodes(row, i));
    RingFrame(next, prev, next[n := n], prev[n := n], Nodes(row, i));
    forall u | u in known + {t} && u !in row
      ensures Loop(next[n := n], prev[n := n], Node(u, i))
    {
      if u != t { assert Loop(next, prev, Node(u, i)); }
    }
  }

  /** Taking a timer out of every row leaves sorted, nested rows. */
  lemma ClearedOk(keys: map<int, Key>, rows: seq<seq<int>>, t: int)
    requires RowsGood(keys, rows)
    ensures var r := Cleared(rows, t, |rows|);
            RowsGood(keys, r) && forall i :: 0 <= i < |r| ==> t !in r[i]
  {
    hide Sorted, Without;
    var r := Cleared(rows, t, |rows|);
    forall i | 0 <= i < |r|
      ensures Sorted(keys, r[i]) && InBelow(r, i) && t !in r[i]
    {
      WithoutSorted(keys, rows[i], t);
      if i + 1 < |r| {
        WithoutSorted(keys, rows[i + 1], t);
        assert InBelow(rows, i);
      }
    }
  }

  // ---- facts for the methods ----

  /** The low 32 bits of the deadlines are known, and t's is less than HALF away from all. */
  ghost predicate Comparable(keys: map<int, Key>, timeoutTick: map<int, nat>, row: seq<int>, t: int) {
    && t in timeoutTick && timeoutTick[t] == Due(keys, t) % WORD
    && forall s :: s in row ==> s in timeoutTick && timeoutTick[s] == Due(keys, s) % WORD && -HALF < Due(keys, s) - Due(keys, t) < HALF
  }

  lemma Compared(keys: map<int, Key>, timeoutTick: map<int, nat>, row: seq<int>, t: int, k: nat)
    requires Comparable(keys, timeoutTick, row, t) && k < |row|
    ensures row[k] in timeoutTick && t in timeoutTick
    ensures SeenLater(timeoutTick[row[k]], timeoutTick[t]) <==> Due(keys, row[k]) > Due(keys, t)
  {
    var s := Member(row, k);
    SeenLaterExact(Due(keys, s), Due(keys, t));
  }

  lemma NodesHead(row: seq<int>, i: nat)
    ensures Nodes(row, i)[0] == Node(HEAD, i)
  {
  }

  lemma RowHop(next: map<Node, Node>, prev: map<Node, Node>, row: seq<int>, i: nat, known: set<int>, k: nat)
    requires RowOk(next, prev, row, i, known) && k <= |row|
    ensures Node(HEAD, i) in prev && (Nodes(row, i)[k] == prev[Node(HEAD, i)] <==> k == |row|)
    ensures k < |row| ==> Nodes(row, i)[k] in next && next[Nodes(row, i)[k]] == Nodes(row, i)[k + 1] == Node(row[k], i)
  {
    hide Ring, NoDup;
    var s := Nodes(row, i);
    RingParts(next, prev, s);
    RingHop(next, prev, s, 0);
    RingHop(next, prev, s, k);
    Unique(s, |row|);
  }

  /** One row down from the place of d in row i: not beyond the place of d in row i + 1. */
  lemma StepDown(keys: map<int, Key>, rows: seq<seq<int>>, i: nat, d: int) returns (k: nat)
    requires RowsGood(keys, rows) && i + 1 < |rows|
    ensures k <= Place(keys, rows[i + 1], d)
    ensures Nodes(rows[i + 1], i + 1)[k] == Node(Nodes(rows[i], i)[Place(keys, rows[i], d)].timer, i + 1)
  {
    hide Sorted, Place;
    var p := Place(keys, rows[i], d);
    k := 0;
    if p > 0 {
      var s := Member(rows[i], p - 1);
      assert InBelow(rows, i);
      k := IndexOf(rows[i + 1], s) + 1;
      PlaceSplits(keys, rows[i], d);
      PlaceSplits(keys, rows[i + 1], d);
    }
  }

  lemma RaisedNone(keys: map<int, Key>, rows: seq<seq<int>>, t: int)
    ensures Raised(keys, rows, t, |rows|) == rows
  {
  }

  /** One more row, from below. */
  lemma RaiseRow(next: map<Node, Node>, prev: map<Node, Node>, keys: map<int, Key>, rows: seq<seq<int>>, t: int, from: nat, known: set<int>)
    requires RowsOk(next, prev, Raised(keys, rows, t, from), known) && 0 < from <= |rows|
    requires t in known && t !in rows[from - 1]
    ensures var i := from - 1;
            var l, n := Nodes(rows[i], i)[Place(keys, rows[i], Due(keys, t))], Node(t, i);
            && l in next && n != l
            && RowsOk(NextInserted(next, l, n), PrevInserted(next, prev, l, n), Raised(keys, rows, t, i), known)
  {
    hide RowOk, OtherRows, Nodes, Place, Due;
    var i := from - 1;
    var k := Place(keys, rows[i], Due(keys, t));
    var l, n := Nodes(rows[i], i)[k], Node(t, i);
    var before, after := Raised(keys, rows, t, from), Raised(keys, rows, t, i);
    assert before[i] == rows[i];
    InsertIntoRow(next, prev, rows[i], i, known, t, k);
    var nx, pv := NextInserted(next, l, n), PrevInserted(next, prev, l, n);
    forall j | 0 <= j < |rows|
      ensures RowOk(nx, pv, after[j], j, known)
    {
      if j != i {
        assert after[j] == before[j];
        RowFrame(next, prev, nx, pv, before[j], j, known, i);
      }
    }
  }

  lemma RaisedOk(keys: map<int, Key>, rows: seq<seq<int>>, t: int, from: int)
    requires RowsGood(keys, rows) && t in keys && from < |rows| && |rows| > 0
    requires forall i :: 0 <= i < |rows| ==> t !in rows[i] && forall s :: s in rows[i] ==> keys[s].stamp < keys[t].stamp
    ensures RowsGood(keys, Raised(keys, rows, t, from))
    ensures forall s :: s in Bottom(Raised(keys, rows, t, from)) <==> s in Bottom(rows) || s == t
  {
    hide Sorted, Place, Due, StableInsert;
    var r := Raised(keys, rows, t, from);
    forall i | 0 <= i < |rows|
      ensures Sorted(keys, r[i])
      ensures forall s :: s in r[i] <==> s in rows[i] || (i >= from && s == t)
    {
      StableInsertSorted(keys, rows[i], t);
    }
    forall i | 0 <= i < |rows|
      ensures InBelow(r, i)
    {
      assert InBelow(rows, i);
    }
  }

  lemma ModSum(a: int, b: int)
    ensures (a % WORD + b) % WORD == (a + b) % WORD
  {
    TickSubMod(a, -b);
    TickSubMod(a % WORD, -b);
  }

  /** With t taken out and given its new deadline, the rows are ready for the search. */
  lemma StartReady(keys: map<int, Key>, keys': map<int, Key>, rows: seq<seq<int>>, base: seq<seq<int>>,
                   tt: map<int, nat>, timeoutTick: map<int, nat>, t: int, stamp: nat)
    requires RowsGood(keys, base) && t in keys' && keys' == keys[t := keys'[t]] && keys'[t].stamp == stamp
    requires |rows| > 0 && |base| == |rows| && base == Cleared(rows, t, |rows|) && (forall i :: 0 <= i < |base| ==> t !in base[i])
    requires RowsGood(keys, rows)
    requires Clock(Bottom(rows), keys, stamp, tt) && timeoutTick == tt[t := Due(keys', t) % WORD]
    requires forall s :: s in Bottom(rows) && s != t ==> -HALF < Due(keys, s) - Due(keys', t) < HALF
    ensures RowsGood(keys', base)
    ensures forall i :: 0 <= i < |base| ==> Comparable(keys', timeoutTick, base[i], t)
    ensures forall i :: 0 <= i < |base| ==> forall s :: s in base[i] ==> keys'[s].stamp < keys'[t].stamp
    ensures Clock(Bottom(base), keys', stamp + 1, timeoutTick)
  {
    hide Sorted, Due, Without, Nested;
    BaseBottom(rows, t);
    forall i | 0 <= i < |base|
      ensures Sorted(keys', base[i])
      ensures forall s :: s in base[i] ==> s in Bottom(rows) && s != t && s in keys && keys'[s] == keys[s]
    {
      BaseRow(keys, rows, t, i);
      SortedFrame(keys, keys', base[i]);
    }
    forall s | s in keys && s != t
      ensures Due(keys', s) == Due(keys, s) == keys[s].deadline
    {
      DueSame(keys, keys', s);
    }
  }

  lemma DueSame(keys: map<int, Key>, keys': map<int, Key>, s: int)
    requires s in keys && s in keys' && keys[s] == keys'[s]
    ensures Due(keys, s) == Due(keys', s) == keys[s].deadline
  {
  }

  lemma BaseRow(keys: map<int, Key>, rows: seq<seq<int>>, t: int, i: nat)
    requires RowsGood(keys, rows) && i < |rows|
    ensures forall s :: s in Without(rows[i], t) ==> s in Bottom(rows) && s != t && s in keys
  {
    hide Sorted;
    WithoutSorted(keys, rows[i], t);
    NestedTo(rows, i, |rows| - 1);
    SortedKeys(keys, rows[i]);
  }

  lemma BaseBottom(rows: seq<seq<int>>, t: int)
    requires |rows| > 0
    ensures Bottom(Cleared(rows, t, |rows|)) == Without(Bottom(rows), t)
  {
  }

  lemma SortedKeys(keys: map<int, Key>, row: seq<int>)
    requires Sorted(keys, row)
    ensures forall s :: s in row ==> s in keys
  {
  }

  lemma FlagsCleared(rows: seq<seq<int>>, activated: map<int, bool>, t: int)
    requires Flags(Bottom(rows), activated) && |rows| > 0 && NoDup(Bottom(rows)) && t in activated
    ensures Flags(Bottom(Cleared(rows, t, |rows|)), activated[t := false])
  {
    hide Without;
    BaseBottom(rows, t);
    WithoutSpec(Bottom(rows), t);
  }

  lemma StartDone(keys: map<int, Key>, rows0: seq<seq<int>>, rows: seq<seq<int>>, t: int, from: int, stamp: nat,
                  timeoutTick: map<int, nat>, activated: map<int, bool>)
    requires RowsGood(keys, rows) && t in keys && from < |rows| && |rows| > 0 && rows == Cleared(rows0, t, |rows0|)
    requires forall i :: 0 <= i < |rows| ==> t !in rows[i] && forall s :: s in rows[i] ==> keys[s].stamp < keys[t].stamp
    requires Clock(Bottom(rows), keys, stamp, timeoutTick) && Flags(Bottom(rows), activated) && t in activated
    requires t in timeoutTick && timeoutTick[t] == keys[t].deadline % WORD
    ensures var r := Raised(keys, rows, t, from);
            && RowsGood(keys, r) && Bottom(r) == StableInsert(keys, Without(Bottom(rows0), t), t)
            && Clock(Bottom(r), keys, stamp, timeoutTick) && Flags(Bottom(r), activated[t := true])
  {
    hide RowsGood, StableInsert, Without;
    BaseBottom(rows0, t);
    RaisedOk(keys, rows, t, from);
  }

  lemma BottomNoDup(keys: map<int, Key>, rows: seq<seq<int>>)
    requires RowsGood(keys, rows) && |rows| > 0
    ensures NoDup(Bottom(rows)) && Sorted(keys, Bottom(rows))
  {
    SortedNoDup(keys, Bottom(rows));
  }

  /** No pending timer is overdue by more than `late`, and none is due HALF ticks ahead. */
  ghost predicate InWindow(keys: map<int, Key>, pending: seq<int>, now: int, late: nat) {
    late < HALF && forall t :: t in pending ==> now - late <= Due(keys, t) < now + HALF
  }

  function Late(keys: map<int, Key>, t: int, now: int): (r: nat) {
    if Due(keys, t) < now then now - Due(keys, t) else 0
  }

  /** Each periodic timer that is due can be restarted: its time is a tick at least, and together with its lateness
      less than HALF. */
  ghost predicate Renewable(keys: map<int, Key>, pending: seq<int>, now: int, periodic: map<int, bool>, initTick: map<int, nat>) {
    forall t :: t in pending && Due(keys, t) <= now && t in initTick && t in periodic && periodic[t] ==>
      1 <= initTick[t] && initTick[t] + Late(keys, t, now) < HALF
  }

  /** How a check stands once it has fired the j first of its m due timers: the other due timers still come
      first, a periodic timer that fired is pending again, and nothing else has changed. */
  ghost predicate Progress(keys0: map<int, Key>, pending: seq<int>, m: nat, now: int, j: nat,
                           keys: map<int, Key>, row: seq<int>, periodic: map<int, bool>, initTick: map<int, nat>) {
    && Sorted(keys0, pending) && Sorted(keys, row) && Place(keys0, pending, now) == m
    && j <= m <= |pending| && m - j <= |row| && row[..m - j] == pending[j..m] && Place(keys, row, now) == m - j
    && (forall t :: t in row <==> t in pending && (t !in pending[..j] || (t in periodic && periodic[t])))
    && (forall t :: t in row ==> t in initTick)
    && forall t :: t in row ==> if t in pending[..j] then Due(keys, t) == now + initTick[t] else t in keys0 && keys[t] == keys0[t]
  }

  lemma ClockLess(rows: seq<seq<int>>, keys: map<int, Key>, stamp: nat, timeoutTick: map<int, nat>, t: int)
    requires |rows| > 0 && Clock(Bottom(rows), keys, stamp, timeoutTick) && NoDup(Bottom(rows))
    ensures Clock(Bottom(Cleared(rows, t, |rows|)), keys, stamp, timeoutTick)
  {
    BaseBottom(rows, t);
    WithoutSpec(Bottom(rows), t);
  }

  lemma Earliest(keys: map<int, Key>, row: seq<int>)
    requires Sorted(keys, row) && row != []
    ensures row[0] in row && forall s :: s in row ==> Due(keys, row[0]) <= Due(keys, s) && s in keys
  {
    var x := Member(row, 0);
    forall s | s in row
      ensures Due(keys, row[0]) <= Due(keys, s)
    {
      FirstIsLeast(keys, row, IndexOf(row, s));
    }
  }

  lemma ProgressStart(keys: map<int, Key>, pending: seq<int>, now: int, periodic: map<int, bool>, initTick: map<int, nat>)
    requires Sorted(keys, pending) && forall t :: t in pending ==> t in initTick
    ensures Progress(keys, pending, Place(keys, pending, now), now, 0, keys, pending, periodic, initTick)
  {
    hide Place;
  }

  lemma BottomLinks(next: map<Node, Node>, prev: map<Node, Node>, rows: seq<seq<int>>, known: set<int>)
    requires RowsOk(next, prev, rows, known) && |rows| > 0
    ensures var i, row := |rows| - 1, Bottom(rows);
            && Ring(next, prev, Nodes(row, i)) && Nodes(row, i)[0] == Node(HEAD, i) && Node(HEAD, i) in next
            && (row != [] ==> next[Node(HEAD, i)] == Node(row[0], i))
            && (forall t :: t in row ==> t in known)
  {
    hide Ring;
    var i, row := |rows| - 1, Bottom(rows);
    assert RowOk(next, prev, rows[i], i, known);
    RingParts(next, prev, Nodes(row, i));
    RowHop(next, prev, row, i, known, 0);
    NodesHead(row, i);
    NodeIn(row, i, HEAD);
  }

  lemma DueNow(keys: map<int, Key>, row: seq<int>, stamp: nat, timeoutTick: map<int, nat>, now: int, late: nat, t: int)
    requires Clock(row, keys, stamp, timeoutTick) && InWindow(keys, row, now, late) && row != [] && row[0] == t
    ensures t in row && t in timeoutTick && t in keys
    ensures SeenDue(now % WORD, timeoutTick[t]) <==> Due(keys, t) <= now
  {
    assert t in row;
    SeenDueExact(now, keys[t].deadline);
  }

  lemma ProgressHead(keys0: map<int, Key>, pending: seq<int>, m: nat, now: int, j: nat,
                     keys: map<int, Key>, row: seq<int>, periodic: map<int, bool>, initTick: map<int, nat>)
    requires Progress(keys0, pending, m, now, j, keys, row, periodic, initTick)
    ensures row == [] ==> j == m
    ensures row != [] ==> (Due(keys, row[0]) <= now <==> j < m) && row[0] in initTick
    ensures row != [] && j < m ==> row[0] == pending[j]
  {
    hide Place, Sorted;
    if row != [] {
      var t := Member(row, 0);
      PlaceSplits(keys, row, now);
      if j < m {
        assert row[..m - j][0] == pending[j..m][0];
      }
    }
  }

  lemma ActiveFlag(row: seq<int>, activated: map<int, bool>, t: int)
    requires Flags(row, activated) && t in row && t in activated
    ensures activated[t]
  {
  }

  lemma WithoutHead(row: seq<int>, t: int)
    requires row != [] && row[0] == t
    ensures Without(row, t) == row[1..]
  {
  }

  lemma WindowTail(keys: map<int, Key>, row: seq<int>, now: int, late: nat)
    requires InWindow(keys, row, now, late) && row != []
    ensures InWindow(keys, row[1..], now, late)
  {
  }

  /** Those behind the head are no later than it, and so not too late for a restart of it. */
  lemma WindowStart(keys: map<int, Key>, row: seq<int>, now: int, late: nat, time: nat)
    requires InWindow(keys, row, now, late) && Sorted(keys, row) && row != []
    requires time + Late(keys, row[0], now) < HALF
    ensures forall s :: s in row[1..] ==> -HALF < Due(keys, s) - (now + time) < HALF
  {
    forall s | s in row[1..]
      ensures s in row && Due(keys, row[0]) <= Due(keys, s)
    {
      FirstIsLeast(keys, row, IndexOf(row[1..], s) + 1);
    }
  }

  /** The timer about to fire can be restarted. */
  lemma RenewIt(keys0: map<int, Key>, pending: seq<int>, m: nat, now: int, j: nat,
                keys: map<int, Key>, row: seq<int>, periodic: map<int, bool>, initTick: map<int, nat>)
    requires Progress(keys0, pending, m, now, j, keys, row, periodic, initTick)
    requires Renewable(keys0, pending, now, periodic, initTick)
    requires j < m && row != [] && row[0] == pending[j] && row[0] in periodic && row[0] in initTick
    ensures periodic[row[0]] ==> 1 <= initTick[row[0]] && initTick[row[0]] + Late(keys, row[0], now) < HALF
  {
    hide Place, Sorted;
    FiredNext(keys0, pending, j);
    SortedKeys(keys, row);
    PlaceSplits(keys0, pending, now);
    var t := Member(row, 0);
  }

  /** A timer just taken out is not pending a second time. */
  lemma WithoutSelf(keys: map<int, Key>, row: seq<int>, t: int)
    requires Sorted(keys, row) && row != [] && row[0] == t
    ensures Without(row[1..], t) == row[1..] && t !in row[1..]
  {
    SortedNoDup(keys, row);
    MemberDropped(row, 0);
    assert Dropped(row, 0) == row[1..];
    WithoutNone(row[1..], t);
  }

  lemma ProgressEnd(keys0: map<int, Key>, pending: seq<int>, m: nat, now: int, j: nat,
                    keys: map<int, Key>, row: seq<int>, periodic: map<int, bool>, initTick: map<int, nat>)
    requires Progress(keys0, pending, m, now, j, keys, row, periodic, initTick)
    requires j < m && row != [] && row[0] == pending[j] && !(row[0] in periodic && periodic[row[0]])
    ensures Progress(keys0, pending, m, now, j + 1, keys, row[1..], periodic, initTick)
  {
    hide Place, Sorted, Due;
    var t := Member(row, 0);
    RowTail(keys, row, now);
    FiredNext(keys0, pending, j);
    assert row[1..][..m - j - 1] == row[..m - j][1..];
    assert pending[j + 1..m] == pending[j..m][1..];
  }

  /** pending[j] joins the fired ones. */
  lemma FiredNext(keys: map<int, Key>, pending: seq<int>, j: nat)
    requires Sorted(keys, pending) && j < |pending|
    ensures pending[j] in pending && pending[j] !in pending[..j]
    ensures forall t :: t in pending[..j + 1] <==> t in pending[..j] || t == pending[j]
  {
    SortedNoDup(keys, pending);
    Unique(pending, j);
    assert pending[..j + 1] == pending[..j] + [pending[j]];
    var x := pending[j];
    assert x in pending;
  }

  lemma RowTail(keys: map<int, Key>, row: seq<int>, now: int)
    requires Sorted(keys, row) && row != []
    ensures Sorted(keys, row[1..]) && (forall t :: t in row[1..] <==> t in row && t != row[0])
    ensures Place(keys, row, now) > 0 ==> Place(keys, row[1..], now) == Place(keys, row, now) - 1
  {
    hide Place;
    SortedNoDup(keys, row);
    MemberDropped(row, 0);
    SortedDropped(keys, row, 0);
    assert Dropped(row, 0) == row[1..];
    PlaceSplits(keys, row, now);
    if Place(keys, row, now) > 0 {
      PlaceIs(keys, row[1..], now, Place(keys, row, now) - 1);
    }
  }

  lemma ProgressRestart(keys0: map<int, Key>, pending: seq<int>, m: nat, now: int, j: nat,
                        keys: map<int, Key>, row: seq<int>, periodic: map<int, bool>, initTick: map<int, nat>,
                        late: nat, stamp: nat)
    requires Progress(keys0, pending, m, now, j, keys, row, periodic, initTick)
    requires j < m && row != [] && row[0] == pending[j] && row[0] in periodic && periodic[row[0]]
    requires row[0] in initTick && 1 <= initTick[row[0]] < HALF
    requires InWindow(keys, row[1..], now, late)
    requires var t := row[0];
             var keys' := keys[t := Key(now + initTick[t], stamp)];
             Sorted(keys', StableInsert(keys', row[1..], t))
    ensures var t := row[0];
            var keys' := keys[t := Key(now + initTick[t], stamp)];
            var row' := StableInsert(keys', row[1..], t);
            InWindow(keys', row', now, late) && Progress(keys0, pending, m, now, j + 1, keys', row', periodic, initTick)
  {
    hide Place, Sorted;
    var t := Member(row, 0);
    var keys' := keys[t := Key(now + initTick[t], stamp)];
    var tail := row[1..];
    var row' := StableInsert(keys', tail, t);
    RowTail(keys, row, now);
    FiredNext(keys0, pending, j);
    assert tail[..m - j - 1] == row[..m - j][1..];
    assert pending[j + 1..m] == pending[j..m][1..];
    SortedKeys(keys, row);
    SortedFrame(keys, keys', tail);
    RestartPlace(keys, keys', tail, t, now);
    assert tail == tail[..Place(keys', tail, Due(keys', t))] + tail[Place(keys', tail, Due(keys', t))..];
    assert row'[..m - j - 1] == tail[..m - j - 1];
  }

  /** A deadline in the future is put behind all timers that are due, which stay as many as they were. */
  lemma RestartPlace(keys: map<int, Key>, keys': map<int, Key>, tail: seq<int>, t: int, now: int)
    requires Sorted(keys, tail) && Sorted(keys', tail) && (forall s :: s in tail ==> keys[s] == keys'[s])
    requires Due(keys', t) > now && Sorted(keys', StableInsert(keys', tail, t))
    ensures Place(keys', tail, Due(keys', t)) >= Place(keys, tail, now)
    ensures Place(keys', StableInsert(keys', tail, t), now) == Place(keys, tail, now)
  {
    hide Place, Sorted;
    var p, q := Place(keys, tail, now), Place(keys', tail, Due(keys', t));
    PlaceSplits(keys, tail, now);
    PlaceSplits(keys', tail, Due(keys', t));
    forall i | 0 <= i < |tail|
      ensures Due(keys, tail[i]) == Due(keys', tail[i])
    {
      var s := Member(tail, i);
      InKeys(keys, tail, s);
      InKeys(keys', tail, s);
    }
    var r := StableInsert(keys', tail, t);
    assert p > 0 ==> r[p - 1] == tail[p - 1];
    assert r[p] == if p < q then tail[p] else t;
    PlaceIs(keys', r, now, p);
  }

  lemma InKeys(keys: map<int, Key>, row: seq<int>, s: int)
    requires Sorted(keys, row) && s in row
    ensures s in keys
  {
  }

  lemma ProgressDone(keys0: map<int, Key>, pending: seq<int>, m: nat, now: int, j: nat,
                     keys: map<int, Key>, row: seq<int>, periodic: map<int, bool>, initTick: map<int, nat>, late: nat)
    requires Progress(keys0, pending, m, now, j, keys, row, periodic, initTick) && j == m
    requires InWindow(keys, row, now, late)
    ensures forall t :: t in pending[..m] <==> t in pending && Due(keys0, t) <= now
    ensures forall t :: t in row <==> t in pending && (t !in pending[..m] || (t in periodic && periodic[t]))
    ensures forall t :: t in row ==> t in initTick && Due(keys, t) == if t in pending[..m] then now + initTick[t] else Due(keys0, t)
    ensures forall t :: t in row ==> now < Due(keys, t) < now + HALF
  {
    hide Place, Sorted;
    SortedKeys(keys, row);
    PlaceSplits(keys0, pending, now);
    PlaceSplits(keys, row, now);
    forall t
      ensures t in pending[..m] <==> t in pending && Due(keys0, t) <= now
    {
      if t in pending {
        var i := IndexOf(pending, t);
        if i < m { assert pending[..m][i] == t; }
      }
    }
    forall t | t in row
      ensures now < Due(keys, t)
    {
      var i := IndexOf(row, t);
    }
  }

  /** Each row is a subsequence of the bottom row. */
  lemma RowIsSubsequence(keys: map<int, Key>, rows: seq<seq<int>>, i: nat)
    requires RowsGood(keys, rows) && i < |rows|
    ensures Subsequence(rows[i], Bottom(rows))
  {
    NestedTo(rows, i, |rows| - 1);
    SubsetIsSubsequence(keys, rows[i], Bottom(rows));
  }
}
