/** rt_mutex_take and rt_mutex_release on the mutex object and the thread fields, region by region. */
module Mutexes {
  import opened RtDef
  import opened IpcList
  import opened MutexModel

  const EOK := 0
  const ETIMEOUT := -2           // -RT_ETIMEOUT

  /** The fields of struct rt_thread that a mutex works on, by thread. */
  class ThreadTable {
    var prio: map<int, nat>      // current_priority
    var error: map<int, int>

    constructor (prio: map<int, nat>)
      ensures this.prio == prio && error == map[]
    {
      this.prio, error := prio, map[];
    }

    /** rt_thread_control with RT_THREAD_CTRL_CHANGE_PRIORITY, as far as the thread itself goes */
    method ChangePriority(t: int, p: nat)
      modifies this`prio
      ensures prio == old(prio)[t := p]
    {
      prio := prio[t := p];
    }
  }

  class MutexObject {
    const flag: Flag
    var value: nat
    var owner: int
    var originalPriority: nat
    var hold: nat
    var suspended: seq<int>      // the suspend_thread list

    ghost function State(): Mutex
      reads this
    {
      Mutex(flag, value, owner, originalPriority, hold, suspended)
    }

    /** rt_mutex_init */
    constructor (flag: Flag)
      ensures State() == New(flag)
    {
      this.flag := flag;
      value := 1;
      owner := NULL;
      originalPriority := NO_PRIORITY;
      hold := 0;
      suspended := [];
    }

    /** rt_mutex_take by thread t, up to its return or to rt_schedule */
    method Take(ts: ThreadTable, t: int, time: int) returns (out: Outcome)
      requires t in ts.prio
      modifies this, ts
      ensures (State(), ts.prio, out) == MutexModel.Take(old(State()), old(ts.prio), t, time != 0)
      ensures ts.error == old(ts.error)[t := if out == Refused then ETIMEOUT else EOK]
    {
      ts.error := ts.error[t := EOK];
      if owner == t {
        hold := (hold + 1) % 256;
        out := Done;
      } else if value > 0 {
        value := value - 1;
        owner := t;
        originalPriority := Prio(ts.prio, t);
        hold := (hold + 1) % 256;
        out := Done;
      } else if time == 0 {
        ts.error := ts.error[t := ETIMEOUT];
        out := Refused;
      } else {
        if Prio(ts.prio, t) < Prio(ts.prio, owner) {
          ts.ChangePriority(owner, Prio(ts.prio, t));
        }
        suspended := Suspend(suspended, ts.prio, flag, t);
        out := Blocked;
      }
    }

    /** rt_mutex_release by thread t, up to rt_schedule; false stands for -RT_ERROR */
    method Release(ts: ThreadTable, t: int) returns (ok: bool, ready: int)
      requires owner == t ==> hold > 0
      modifies this, ts
      ensures (State(), ts.prio, ok) == MutexModel.Release(old(State()), old(ts.prio), t)
      ensures ready == if old(HandsOver(State(), t)) then old(suspended)[0] else NULL
      ensures ts.error == if ok then old(ts.error) else old(ts.error)[t := ERROR]
    {
      ready := NULL;
      if t != owner {
        ts.error := ts.error[t := ERROR];
        return false, NULL;
      }
      hold := hold - 1;
      if hold == 0 {
        if originalPriority != Prio(ts.prio, owner) {
          ts.ChangePriority(owner, originalPriority);
        }
        if suspended != [] {
          var thread := suspended[0];
          owner := thread;
          originalPriority := Prio(ts.prio, thread);
          hold := hold + 1;
          suspended := suspended[1..];
          ready := thread;
        } else {
          value := value + 1;
          owner := NULL;
          originalPriority := NO_PRIORITY;
        }
      }
      ok := true;
    }
  }
}
