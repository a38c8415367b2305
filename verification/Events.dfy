/** The event object of ipc.c, region by region. */
module Events {
  import opened RtList
  import opened Bits
  import opened IpcList
  import opened EventModel

  class EventObject {
    const flag: Flag
    var bits: nat                   // event->set
    var suspended: seq<int>
    var wants: map<int, Want>        // event_set and event_info of the threads
    ghost var failed: set<int>
    ghost var ready: map<int, nat>

    ghost function State(): Event
      reads this
    {
      Event(flag, bits, suspended, wants, failed, ready)
    }

    /** rt_event_init */
    constructor (flag: Flag)
      ensures State() == New(flag) && Inv(State())
    {
      this.flag := flag;
      bits, suspended, wants, failed, ready := 0, [], map[], {}, map[];
    }

    /** rt_event_send; `woken` are the threads made ready, with the event_set they will find */
    method Send(set': nat) returns (ok: bool, woken: seq<Woken>)
      modifies this
      ensures ok <==> set' != 0
      ensures State() == EventModel.Send(old(State()), set')
      ensures woken == if ok then Pass(Or(old(bits), set'), old(suspended), wants).2 else []
    {
      hide Met, Got, Left, WantOf, Or;
      woken := [];
      if set' == 0 { return false, []; }
      bits := Or(bits, set');
      ghost var all := Pass(bits, suspended, wants);
      ghost var list := suspended;
      var n := 0;
      assert suspended[n..] == suspended;
      while n < |suspended|
        invariant 0 <= n <= |suspended| && wants == old(wants) && failed == old(failed) && ready == old(ready)
        invariant var rest := Pass(bits, suspended[n..], wants);
                  all.0 == rest.0 && all.1 == suspended[..n] + rest.1 && all.2 == woken + rest.2
        decreases |suspended| - n
      {
        var thread := suspended[n];
        var w := WantOf(wants, thread);
        ghost var rest := suspended[n..];
        assert rest[1..] == suspended[n + 1..];
        if Met(w, bits) {
          var got := Got(w, bits);
          bits := Left(w, bits);
          ghost var before := woken;
          woken := woken + [Woken(thread, got)];
          assert before + ([Woken(thread, got)] + Pass(bits, rest[1..], wants).2) == woken + Pass(bits, rest[1..], wants).2;
          assert (suspended[..n] + suspended[n + 1..])[n..] == suspended[n + 1..];
          suspended := suspended[..n] + suspended[n + 1..];
        } else {
          assert suspended[..n + 1] == suspended[..n] + [thread];
          n := n + 1;
        }
      }
      assert suspended[n..] == [] && suspended[..n] == suspended;
      assert all.0 == bits && all.1 == suspended && all.2 == woken;
      ready := Readied(ready, woken);
      ok := true;
    }

    /** rt_event_recv by thread t, up to its return or to rt_schedule */
    method Recv(t: int, w: Want, timeout: int, prio: map<int, nat>) returns (out: Outcome)
      requires w.option.all || w.option.any
      modifies this
      ensures (State(), out) == EventModel.Recv(old(State()), prio, t, w, timeout != 0)
    {
      hide And, AndNot, Enqueued;
      if w.bits == 0 { return Refused; }
      var status := false;
      if w.option.all {
        if And(bits, w.bits) == w.bits { status := true; }
      } else if w.option.any {
        if And(bits, w.bits) != 0 { status := true; }
      }
      AndCommutes(bits, w.bits);
      if status {
        out := Received(And(bits, w.bits));
        if w.option.clear {
          bits := AndNot(bits, w.bits);
        }
      } else if timeout == 0 {
        out := Refused;
      } else {
        wants := wants[t := w];
        suspended := Suspend(suspended, prio, flag, t);
        out := Blocked;
      }
    }

    /** rt_event_control with RT_IPC_CMD_RESET */
    method ResetRegion(error: map<int, int>) returns (woken: seq<int>, error': map<int, int>)
      modifies this
      ensures State() == Reset(old(State())) && woken == old(suspended) && error' == Failed(error, woken)
    {
      woken, error' := ResumeAll(suspended, error);
      failed := failed + set t | t in suspended;
      suspended := [];
      bits := 0;
    }
  }
}
