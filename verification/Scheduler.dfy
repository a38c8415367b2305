/** scheduler.c and the thread operations of thread.c on their own data: the ready lists, the bitmaps that
    index them, and the fields of the threads. */
module Scheduler {
  import opened RtDef
  import opened RtList
  import opened Bits
  import opened ReadyIndex
  import opened SchedModel

  /** The bits that stand for a priority: its own, or those of its byte and within the byte. */
  datatype Masks = Masks(number: nat, numberMask: nat, highMask: nat)

  function MasksOf(levels: nat, prio: nat): Masks {
    if levels > 32 then Masks(prio / 8, Shl1(prio / 8), Shl1(prio % 8)) else Masks(0, Shl1(prio), 0)
  }

  /** Every thread that may be queued knows its bits. */
  ghost predicate MasksOk(levels: nat, threads: map<int, Thread>, masks: map<int, Masks>) {
    threads.Keys == masks.Keys && forall t :: t in threads && threads[t].stat != INIT && threads[t].stat != CLOSE ==>
       masks[t] == MasksOf(levels, threads[t].prio)
  }

  ghost predicate IndexOk(group: nat, table: seq<nat>, ready: seq<seq<int>>) {
    if |ready| > 32 then TwoLevel(group, table, ready) else OneLevel(group, ready)
  }

  class ReadyQueues {
    var threads: map<int, Thread>          // the fields of struct rt_thread, by thread
    var masks: map<int, Masks>
    var ready: seq<seq<int>>               // rt_thread_priority_table
    var group: nat                         // rt_thread_ready_priority_group
    const table: array<nat>                // rt_thread_ready_table
    var current: int                       // rt_current_thread
    var lockNest: nat                      // rt_scheduler_lock_nest
    ghost const idle: int

    ghost function State(): Sched
      reads this
    {
      Sched(threads, ready, current, lockNest, idle)
    }

    /** The bitmaps say which lists have threads, and every thread knows its bits. */
    ghost predicate Index()
      reads this, table
    {
      table.Length == 32 && IndexOk(group, table[..], ready) && MasksOk(|ready|, threads, masks)
    }

    ghost predicate Valid()
      reads this, table
    {
      Index() && SchedModel.Inv(State())
    }

    /** rt_system_scheduler_init */
    constructor (levels: nat, ghost idle: int)
      requires 0 < levels <= 256
      ensures Valid() && State() == Initial(levels, idle)
      ensures fresh(table)
    {
      threads, masks := map[], map[];
      ready := seq(levels, _ => []);
      group := 0;
      table := new nat[32](_ => 0);
      current := NULL;
      lockNest := 0;
      this.idle := idle;
      new;
      InitialInv(levels, idle);
      forall k: nat
        ensures !Bit(0, k)
      {
        BitZero(k);
      }
      assert levels > 32 ==> forall n :: 0 <= n < 32 ==> ByteMatches(table[..], ready, n);
    }

    /** rt_schedule_insert_thread */
    method InsertThread(t: int)
      requires Index() && t in threads && threads[t].prio < |ready| <= 256
      requires t != current ==> masks[t] == MasksOf(|ready|, threads[t].prio)
      requires t == current ==> threads[t].stat != INIT && threads[t].stat != CLOSE
      modifies this, table
      ensures Index() && State() == SchedModel.InsertThread(old(State()), t) && masks == old(masks)
    {
      hide IndexOk;
      ghost var p := threads[t].prio;
      ghost var tb := table[..];
      if t == current {
        threads := threads[t := threads[t].(stat := RUNNING)];
      } else {
        var prio := threads[t].prio;
        threads := threads[t := threads[t].(stat := READY)];
        var list := ready[prio] + [t];
        IndexSet(group, tb, ready, p, list);
        var m := masks[t];
        if |ready| > 32 {
          table[m.number] := Or(table[m.number], m.highMask);
        }
        group := Or(group, m.numberMask);
        ready := ready[prio := list];
      }
      assert table[..] == if t == current || |ready| <= 32 then tb else tb[p / 8 := Or(tb[p / 8], Shl1(p % 8))];
    }

    /** rt_schedule_remove_thread */
    method RemoveThread(t: int)
      requires Index() && t in threads && threads[t].prio < |ready| <= 256
      requires masks[t] == MasksOf(|ready|, threads[t].prio)
      modifies this`ready, this`group, table
      ensures Index() && State() == SchedModel.RemoveThread(old(State()), t)
    {
      hide IndexOk;
      var prio := threads[t].prio;
      var list := Without(ready[prio], t);
      ghost var tb := table[..];
      IndexClear(group, tb, ready, prio, list);
      if list == [] {
        var m := masks[t];
        if |ready| > 32 {
          table[m.number] := AndNot(table[m.number], m.highMask);
          assert table[..] == tb[m.number := AndNot(tb[m.number], m.highMask)];
          if table[m.number] == 0 {
            group := AndNot(group, m.numberMask);
          }
        } else {
          group := AndNot(group, m.numberMask);
        }
      }
      ready := ready[prio := list];
    }

    /** _get_highest_priority_thread */
    method GetHighest() returns (t: int, highest: nat)
      requires Index() && group != 0
      ensures highest == FirstBusy(ready, 0) < |ready| && t == ready[highest][0]
    {
      hide IndexOk, FirstBusy, Ffs, MasksOk, Shl1;
      IndexFind(group, table[..], ready);
      if |ready| > 32 {
        var number := Ffs(group) - 1;
        highest := 8 * number + Ffs(table[number]) - 1;
      } else {
        highest := Ffs(group) - 1;
      }
      t := ready[highest][0];
    }

    /** The switch of rt_schedule to another thread. */
    method Switch(to: int, insert: bool)
      requires Index() && Sized(State()) && current in threads && to in threads && to != current
      requires threads[to].stat == READY && (insert <==> threads[current].stat == RUNNING)
      modifies this, table
      ensures Index() && State() == SchedModel.SwitchTo(old(State()), to) && masks == old(masks)
    {
      hide IndexOk, Without;
      var from := current;
      current := to;
      if insert {
        InsertThread(from);
      }
      RemoveThread(to);
      threads := threads[to := threads[to].(stat := RUNNING)];
    }

    /** What rt_schedule does when the current thread stays: nothing that shows. */
    method Keep()
      requires Valid() && current != NULL && threads[current].stat == RUNNING
      modifies this, table
      ensures Index() && State() == old(State()) && masks == old(masks)
    {
      hide SchedModel.Inv, IndexOk;
      ghost var s := State();
      ThreadsOk(s);
      CurrentNotQueued(s);
      RemoveThread(current);
      threads := threads[current := threads[current].(stat := RUNNING)];
    }

    /** rt_schedule */
    method Schedule()
      requires Valid() && current != NULL
      modifies this, table
      ensures Valid() && current != NULL
      ensures (ScheduleOk(old(State())); State() == SchedModel.Schedule(old(State())))
      ensures masks == old(masks)
    {
      hide SchedModel.Inv, IndexOk, FirstBusy, QueuesOk, SchedModel.SwitchTo, MasksOk, CurrentOk;
      ghost var s := State();
      ThreadsOk(s);
      ScheduleOk(s);
      InvReady(s);
      IndexFind(group, table[..], ready);
      FirstIsBest(s);
      if lockNest == 0 && group != 0 {
        var insert := false;
        var to, highest := GetHighest();
        if threads[current].stat == RUNNING {
          if threads[current].prio < highest {
            to := current;
          } else {
            insert := true;
          }
        }
        if to != current {
          Switch(to, insert);
        } else {
          Keep();
        }
      }
    }

    /** _rt_thread_init */
    method Init(t: int, prio: nat)
      requires Valid() && Allowed(State(), Create(t, prio))
      modifies this, table
      ensures Valid() && State() == Step(old(State()), Create(t, prio))
    {
      hide SchedModel.Inv, IndexOk, FirstBusy, QueuesOk, SchedModel.Schedule, CurrentOk;
      ghost var s := State();
      ThreadsOk(s);
      ApplyOk(s, Create(t, prio));
      StepOk(s, Create(t, prio));
      threads := threads[t := Thread(INIT, prio, prio)];
      masks := masks[t := Masks(0, 0, 0)];
    }

    /** Make the first thread of the most urgent list the current one. */
    method FirstSwitch(to: int)
      requires Index() && Sized(State()) && FirstBusy(ready, 0) < |ready| && to == ready[FirstBusy(ready, 0)][0]
      requires to in threads && threads[to].stat == READY
      modifies this, table
      ensures Index() && State() == Started(old(State()))
    {
      hide MasksOk, IndexOk, FirstBusy, Without;
      MasksKnown(|ready|, threads, masks, to);
      current := to;
      RemoveThread(to);
      MasksStay(|ready|, threads, masks, to, threads[to].(stat := RUNNING));
      threads := threads[to := threads[to].(stat := RUNNING)];
    }

    /** rt_system_scheduler_start */
    method SchedulerStart()
      requires Valid() && Allowed(State(), Start)
      modifies this, table
      ensures Valid() && State() == Step(old(State()), Start)
    {
      hide SchedModel.Inv, MasksOk, IndexOk, FirstBusy, QueuesOk, SchedModel.Schedule, CurrentOk, Started;
      ghost var s := State();
      ThreadsOk(s);
      ApplyOk(s, Start);
      StepOk(s, Start);
      IndexFind(group, table[..], ready);
      var to, _ := GetHighest();
      StartedFromReady(s);
      FirstSwitch(to);
    }

    /** The computation of a thread's bits from its current priority, in rt_thread_startup and rt_thread_control */
    method SetMasks(t: int)
      requires t in threads && t in masks
      modifies this`masks
      ensures masks == old(masks)[t := MasksOf(|ready|, threads[t].prio)]
    {
      var m := masks[t];
      var prio := threads[t].prio;
      if |ready| > 32 {
        m := m.(number := prio / 8);
        m := m.(numberMask := Shl1(m.number));
        m := m.(highMask := Shl1(prio % 8));
      } else {
        m := Masks(0, Shl1(prio), 0);
      }
      masks := masks[t := m];
    }

    /** rt_thread_startup */
    method ThreadStartup(t: int)
      requires Valid() && Allowed(State(), Startup(t))
      modifies this, table
      ensures Valid() && State() == Step(old(State()), Startup(t))
    {
      hide SchedModel.Inv, IndexOk, FirstBusy, QueuesOk, SchedModel.Schedule, CurrentOk;
      ghost var s := State();
      ThreadsOk(s);
      ApplyOk(s, Startup(t));
      StepOk(s, Startup(t));
      threads := threads[t := threads[t].(prio := threads[t].initPrio)];
      SetMasks(t);
      threads := threads[t := threads[t].(stat := SUSPEND)];
      assert threads == s.threads[t := s.threads[t].(stat := SUSPEND, prio := s.threads[t].initPrio)];
      InsertThread(t);
      assert State() == Apply(s, Startup(t));
      if current != NULL {
        Schedule();
      }
    }

    /** rt_thread_suspend: false stands for -RT_ERROR */
    method ThreadSuspend(t: int) returns (ok: bool)
      requires Valid() && Allowed(State(), Suspend(t))
      modifies this, table
      ensures Valid() && State() == Step(old(State()), Suspend(t))
      ensures ok <==> old(threads)[t].stat in {READY, RUNNING}
    {
      hide SchedModel.Inv, IndexOk, FirstBusy, QueuesOk, SchedModel.Schedule, CurrentOk;
      ghost var s := State();
      ThreadsOk(s);
      ApplyOk(s, Suspend(t));
      StepOk(s, Suspend(t));
      ok := threads[t].stat == READY || threads[t].stat == RUNNING;
      if ok {
        RemoveThread(t);
        threads := threads[t := threads[t].(stat := SUSPEND)];
      }
    }

    /** rt_thread_resume: false stands for -RT_ERROR */
    method ThreadResume(t: int) returns (ok: bool)
      requires Valid() && Allowed(State(), Resume(t))
      modifies this, table
      ensures Valid() && State() == Step(old(State()), Resume(t))
      ensures ok <==> old(threads)[t].stat == SUSPEND
    {
      hide SchedModel.Inv, IndexOk, FirstBusy, QueuesOk, SchedModel.Schedule, CurrentOk;
      ghost var s := State();
      ThreadsOk(s);
      ApplyOk(s, Resume(t));
      StepOk(s, Resume(t));
      ok := threads[t].stat == SUSPEND;
      if ok {
        InsertThread(t);
      }
    }

    /** rt_thread_timeout */
    method ThreadTimeout(t: int)
      requires Valid() && Allowed(State(), Timeout(t))
      modifies this, table
      ensures Valid() && State() == Step(old(State()), Timeout(t))
    {
      hide SchedModel.Inv, IndexOk, FirstBusy, QueuesOk, SchedModel.Schedule, CurrentOk;
      ghost var s := State();
      ThreadsOk(s);
      ApplyOk(s, Timeout(t));
      StepOk(s, Timeout(t));
      InsertThread(t);
      Schedule();
    }

    /** rt_thread_control with RT_THREAD_CTRL_CHANGE_PRIORITY */
    method ChangePriority(t: int, prio: nat)
      requires Valid() && Allowed(State(), SetPriority(t, prio))
      modifies this, table
      ensures Valid() && State() == Step(old(State()), SetPriority(t, prio))
    {
      hide SchedModel.Inv, IndexOk, FirstBusy, QueuesOk, SchedModel.Schedule, CurrentOk;
      ghost var s := State();
      ThreadsOk(s);
      ApplyOk(s, SetPriority(t, prio));
      StepOk(s, SetPriority(t, prio));
      if threads[t].stat == READY {
        RemoveThread(t);
        threads := threads[t := threads[t].(prio := prio)];
        SetMasks(t);
        NotCurrent(s, t);
        InsertThread(t);
      } else {
        threads := threads[t := threads[t].(prio := prio)];
        SetMasks(t);
      }
    }

    /** rt_thread_exit */
    method ThreadExit()
      requires Valid() && Allowed(State(), Exit)
      modifies this, table
      ensures Valid() && State() == Step(old(State()), Exit)
    {
      hide SchedModel.Inv, IndexOk, FirstBusy, QueuesOk, SchedModel.Schedule, CurrentOk;
      ghost var s := State();
      ThreadsOk(s);
      ApplyOk(s, Exit);
      StepOk(s, Exit);
      RemoveThread(current);
      threads := threads[current := threads[current].(stat := CLOSE)];
      Schedule();
    }

    /** rt_thread_detach and rt_thread_delete */
    method ThreadClose(t: int)
      requires Valid() && Allowed(State(), Close(t))
      modifies this, table
      ensures Valid() && State() == Step(old(State()), Close(t))
    {
      hide SchedModel.Inv, IndexOk, FirstBusy, QueuesOk, SchedModel.Schedule, CurrentOk;
      ghost var s := State();
      ThreadsOk(s);
      ApplyOk(s, Close(t));
      StepOk(s, Close(t));
      if threads[t].stat != INIT {
        RemoveThread(t);
      }
      threads := threads[t := threads[t].(stat := CLOSE)];
    }

    /** rt_enter_critical */
    method EnterCritical()
      requires Valid() && Allowed(State(), Lock)
      modifies this, table
      ensures Valid() && State() == Step(old(State()), Lock)
    {
      hide SchedModel.Inv, IndexOk, FirstBusy, QueuesOk, SchedModel.Schedule, CurrentOk;
      ghost var s := State();
      ThreadsOk(s);
      ApplyOk(s, Lock);
      StepOk(s, Lock);
      lockNest := lockNest + 1;
    }

    /** rt_exit_critical */
    method ExitCritical()
      requires Valid() && Allowed(State(), Unlock)
      modifies this, table
      ensures Valid() && State() == Step(old(State()), Unlock)
    {
      hide SchedModel.Inv, IndexOk, FirstBusy, QueuesOk, SchedModel.Schedule, CurrentOk;
      ghost var s := State();
      ThreadsOk(s);
      ApplyOk(s, Unlock);
      StepOk(s, Unlock);
      if lockNest <= 1 {
        lockNest := 0;
        Schedule();
      } else {
        lockNest := lockNest - 1;
      }
    }
  }

  /** The bits of a queued thread serve it in any other state, too. */
  lemma MasksStay(levels: nat, threads: map<int, Thread>, masks: map<int, Masks>, t: int, thread: Thread)
    requires MasksOk(levels, threads, masks) && t in threads && threads[t].stat != INIT && threads[t].stat != CLOSE
    requires thread.prio == threads[t].prio
    ensures MasksOk(levels, threads[t := thread], masks)
  {
    assert threads[t := thread].Keys == threads.Keys;
  }

  lemma MasksKnown(levels: nat, threads: map<int, Thread>, masks: map<int, Masks>, t: int)
    requires MasksOk(levels, threads, masks) && t in threads && threads[t].stat != INIT && threads[t].stat != CLOSE
    ensures t in masks && masks[t] == MasksOf(levels, threads[t].prio)
  {
  }

  lemma StartedFromReady(s: Sched)
    requires SchedModel.Inv(s) && Allowed(s, Start)
    ensures var h := FirstBusy(s.ready, 0); h < |s.ready| && s.ready[h][0] in s.threads && s.threads[s.ready[h][0]].stat == READY
  {
    FirstIsBest(s);
  }

  lemma NotCurrent(s: Sched, t: int)
    requires SchedModel.Inv(s) && t in s.threads && s.threads[t].stat == READY
    ensures t != s.current
  {
  }

  /** The bits of a list that gets a thread. */
  lemma IndexSet(group: nat, table: seq<nat>, ready: seq<seq<int>>, p: nat, list: seq<int>)
    requires IndexOk(group, table, ready) && p < |ready| <= 256 && list != []
    requires |table| == 32
    ensures var m := MasksOf(|ready|, p);
            if |ready| > 32 then m.number < 32 && IndexOk(Or(group, m.numberMask), table[m.number := Or(table[m.number], m.highMask)], ready[p := list])
            else IndexOk(Or(group, m.numberMask), table, ready[p := list])
  {
    if |ready| > 32 {
      TwoLevelSet(group, table, ready, p / 8, p % 8, list);
    } else {
      OneLevelSet(group, ready, p, list);
    }
  }

  /** The bits of a list that loses a thread. */
  lemma IndexClear(group: nat, table: seq<nat>, ready: seq<seq<int>>, p: nat, list: seq<int>)
    requires IndexOk(group, table, ready) && p < |ready| <= 256 && |table| == 32
    requires ready[p] == [] ==> list == []
    ensures var m := MasksOf(|ready|, p);
            && (|ready| > 32 ==> m.number < 32)
            && if list != [] then IndexOk(group, table, ready[p := list])
               else if |ready| > 32 then
                 var byte := AndNot(table[m.number], m.highMask);
                 IndexOk(if byte == 0 then AndNot(group, m.numberMask) else group, table[m.number := byte], ready[p := list])
               else IndexOk(AndNot(group, m.numberMask), table, ready[p := list])
  {
    if list != [] {
      IndexSame(group, table, ready, p, list);
    } else if |ready| > 32 {
      TwoLevelClear(group, table, ready, p / 8, p % 8);
    } else {
      OneLevelClear(group, ready, p);
    }
  }

  lemma IndexSame(group: nat, table: seq<nat>, ready: seq<seq<int>>, p: nat, list: seq<int>)
    requires IndexOk(group, table, ready) && p < |ready| && ready[p] != [] && list != []
    ensures IndexOk(group, table, ready[p := list])
  {
    if |ready| > 32 {
      var ready' := ready[p := list];
      forall n | 0 <= n < 32
        ensures ByteMatches(table, ready', n)
      {
        assert ByteMatches(table, ready, n);
      }
    }
  }

  lemma IndexFind(group: nat, table: seq<nat>, ready: seq<seq<int>>)
    requires IndexOk(group, table, ready) && |table| == 32
    ensures group < Shl1(32) && (group == 0 <==> FirstBusy(ready, 0) == |ready|)
    ensures group != 0 && |ready| <= 32 ==> Ffs(group) - 1 == FirstBusy(ready, 0)
    ensures group != 0 && |ready| > 32 ==>
              var n := Ffs(group) - 1;
              0 <= n < 32 && table[n] < Shl1(32) && 8 * n + Ffs(table[n]) - 1 == FirstBusy(ready, 0)
  {
    if |ready| > 32 { TwoLevelFind(group, table, ready); } else { OneLevelFind(group, ready); }
  }

  lemma ThreadsOk(s: Sched)
    requires SchedModel.Inv(s)
    ensures Sized(s)
    ensures s.current != NULL ==> s.current in s.threads && s.threads[s.current].stat != INIT && s.threads[s.current].stat != READY
  {
  }

  /** The current thread is in no ready list, so removing it changes nothing. */
  lemma CurrentNotQueued(s: Sched)
    requires SchedModel.Inv(s) && s.current != NULL
    ensures s.current in s.threads && s.ready == s.ready[s.threads[s.current].prio := Without(s.ready[s.threads[s.current].prio], s.current)]
  {
    NotReady(s, s.current);
    WithoutNone(s.ready[s.threads[s.current].prio], s.current);
  }
}
