/** The mailbox object of ipc.c, region by region. */
module Mailboxes {
  import opened RtDef
  import opened RtList
  import opened IpcList
  import opened MailboxModel

  class MailboxObject {
    const flag: Flag
    const msgPool: array<int>
    var entry: nat
    var inOffset: nat
    var outOffset: nat
    var suspended: seq<int>          // receivers, in the list of the parent object
    var suspendedSenders: seq<int>
    ghost var wokenReceivers: set<int>
    ghost var wokenSenders: set<int>
    ghost var failed: set<int>
    ghost var mail: map<int, int>

    ghost function State(): Mailbox
      reads this, msgPool
    {
      Mailbox(flag, msgPool.Length, msgPool[..], entry, inOffset, outOffset, suspended, suspendedSenders,
              wokenReceivers, wokenSenders, failed, mail)
    }

    /** rt_mb_init */
    constructor (flag: Flag, pool: array<int>)
      ensures State() == New(flag, pool[..]) && Inv(State()) && msgPool == pool
    {
      this.flag, msgPool := flag, pool;
      entry, inOffset, outOffset := 0, 0, 0;
      suspended, suspendedSenders := [], [];
      wokenReceivers, wokenSenders, failed, mail := {}, {}, {}, map[];
    }

    /** rt_mb_send_wait by thread t from its start or from where it goes on after a wait, to its end or to the
        next wait; `ready` is the thread it makes ready. */
    method SendRegion(t: int, value: int, prio: map<int, nat>, timeout: int) returns (out: Outcome, ready: int)
      requires RingOk(State())
      modifies this, msgPool
      ensures (State(), out) == TrySend(old(State()), prio, t, value, timeout != 0)
      ensures ready == if out == Done && old(suspended) != [] then old(suspended)[0] else NULL
    {
      ready := NULL;
      if entry == msgPool.Length {
        if timeout == 0 {
          out := Refused;
        } else {
          suspendedSenders := Suspend(suspendedSenders, prio, flag, t);
          mail := mail[t := value];
          out := Blocked;
        }
      } else {
        msgPool[inOffset] := value;
        inOffset := inOffset + 1;
        if inOffset >= msgPool.Length {
          inOffset := 0;
        }
        entry := entry + 1;
        if suspended != [] {
          ready := suspended[0];
          suspended := suspended[1..];
          wokenReceivers := wokenReceivers + {ready};
        }
        out := Done;
      }
    }

    /** rt_mb_recv likewise */
    method RecvRegion(t: int, prio: map<int, nat>, timeout: int) returns (out: Outcome, value: int, ready: int)
      requires RingOk(State())
      modifies this
      ensures (State(), out, value) == TryRecv(old(State()), prio, t, timeout != 0)
      ensures ready == if out == Done && old(suspendedSenders) != [] then old(suspendedSenders)[0] else NULL
    {
      value, ready := 0, NULL;
      if entry == 0 {
        if timeout == 0 {
          out := Refused;
        } else {
          suspended := Suspend(suspended, prio, flag, t);
          out := Blocked;
        }
      } else {
        value := msgPool[outOffset];
        outOffset := outOffset + 1;
        if outOffset >= msgPool.Length {
          outOffset := 0;
        }
        entry := entry - 1;
        if suspendedSenders != [] {
          ready := suspendedSenders[0];
          suspendedSenders := suspendedSenders[1..];
          wokenSenders := wokenSenders + {ready};
        }
        out := Done;
      }
    }

    /** rt_ipc_list_resume_all on both lists, then an empty ring; `ready` are the threads woken with an error */
    method ResetRegion(error: map<int, int>) returns (ready: seq<int>, error': map<int, int>)
      modifies this
      ensures State() == Reset(old(State()))
      ensures ready == old(suspended) + old(suspendedSenders)
      ensures error' == Failed(Failed(error, old(suspended)), old(suspendedSenders))
    {
      var receivers, error1 := ResumeAll(suspended, error);
      var senders;
      senders, error' := ResumeAll(suspendedSenders, error1);
      failed := failed + (set t | t in suspended) + (set t | t in suspendedSenders);
      suspended, suspendedSenders := [], [];
      ready := receivers + senders;
      entry, inOffset, outOffset := 0, 0, 0;
    }
  }
}
