/** The semaphore object of ipc.c, region by region. */
module Semaphores {
  import opened RtDef
  import opened IpcList
  import opened SemaphoreModel

  class SemaphoreObject {
    const flag: Flag
    var value: nat
    var suspended: seq<int>
    ghost var granted: set<int>
    ghost var failed: set<int>

    ghost function State(): Sem
      reads this
    {
      Sem(flag, value, suspended, granted, failed)
    }

    /** rt_sem_init */
    constructor (flag: Flag, value: nat)
      requires value <= MAX_VALUE
      ensures State() == Sem(flag, value, [], {}, {}) && Inv(State())
    {
      this.flag, this.value := flag, value;
      suspended, granted, failed := [], {}, {};
    }

    /** rt_sem_take by thread t, up to its return or to rt_schedule */
    method Take(t: int, time: int, prio: map<int, nat>) returns (out: Outcome)
      modifies this
      ensures (State(), out) == SemaphoreModel.Take(old(State()), prio, t, time != 0)
    {
      if value > 0 {
        value := value - 1;
        out := Done;
      } else if time == 0 {
        out := Refused;
      } else {
        suspended := Suspend(suspended, prio, flag, t);
        out := Blocked;
      }
    }

    /** rt_sem_release, up to rt_schedule; `ready` is the thread made ready */
    method Release() returns (ready: int)
      modifies this
      ensures State() == SemaphoreModel.Release(old(State()))
      ensures ready == if old(suspended) != [] then old(suspended)[0] else NULL
    {
      ready := NULL;
      if suspended != [] {
        ready := suspended[0];
        suspended := suspended[1..];
        granted := granted + {ready};
      } else {
        value := (value + 1) % (MAX_VALUE + 1);
      }
    }

    /** rt_sem_control with RT_IPC_CMD_RESET; `ready` are the threads woken with an error */
    method ResetRegion(v: nat, error: map<int, int>) returns (ready: seq<int>, error': map<int, int>)
      modifies this
      ensures State() == Reset(old(State()), v) && ready == old(suspended) && error' == Failed(error, ready)
    {
      ready, error' := ResumeAll(suspended, error);
      failed := failed + set t | t in suspended;
      suspended := [];
      value := v % (MAX_VALUE + 1);
    }
  }
}
