/** Events (rt_event_send, rt_event_recv and the reset of rt_event_control in ipc.c) as a machine whose steps
    are the interrupt-free regions of these calls and the timeouts of waiting threads. */
module EventModel {
  import opened RtList
  import opened Bits
  import opened IpcList

  /** The option bits RT_EVENT_FLAG_AND, _OR and _CLEAR */
  datatype Option = Option(all: bool, any: bool, clear: bool)

  /** What a waiting thread asked for: its event_set and event_info */
  datatype Want = Want(bits: nat, option: Option)

  /** A thread that has been woken, and the bits that it received. */
  datatype Woken = Woken(t: int, got: nat)

  datatype Event = Event(flag: Flag, bits: nat, waiters: seq<int>, wants: map<int, Want>, failed: set<int>, ready: map<int, nat>)

  predicate Met(w: Want, bits: nat) {
    if w.option.all then And(w.bits, bits) == w.bits else w.option.any && And(w.bits, bits) != 0
  }

  /** The bits that a thread receives when its condition is met. */
  function Got(w: Want, bits: nat): nat {
    if w.option.all then w.bits else And(w.bits, bits)
  }

  function Left(w: Want, bits: nat): nat {
    if w.option.clear then AndNot(bits, Got(w, bits)) else bits
  }

  function WantOf(wants: map<int, Want>, t: int): Want {
    if t in wants then wants[t] else Want(0, Option(true, false, false))
  }

  /** One pass along the waiters: the bits that are left, who goes on waiting, and who is woken with what. */
  function Pass(bits: nat, list: seq<int>, wants: map<int, Want>): (nat, seq<int>, seq<Woken>)
    decreases |list|
  {
    if list == [] then (bits, [], [])
    else
      var t := list[0];
      var w := WantOf(wants, t);
      if Met(w, bits) then
        var (b, kept, woken) := Pass(Left(w, bits), list[1..], wants);
        (b, kept, [Woken(t, Got(w, bits))] + woken)
      else
        var (b, kept, woken) := Pass(bits, list[1..], wants);
        (b, [t] + kept, woken)
  }

  // ---- the bits ----

  lemma LeftWithin(w: Want, bits: nat)
    ensures Within(Left(w, bits), bits)
  {
    WithinSelf(bits);
    AndNotWithin(bits, Got(w, bits));
  }

  /** Fewer bits meet no more conditions. */
  lemma MetWithin(w: Want, a: nat, b: nat)
    requires Within(a, b) && Met(w, a)
    ensures Met(w, b)
  {
    if w.option.all { WithinTrans(w.bits, a, b); } else { AndMonotone(w.bits, a, b); }
  }

  lemma GotWithin(w: Want, bits: nat)
    requires Met(w, bits)
    ensures Within(Got(w, bits), bits) && Within(Got(w, bits), w.bits)
  {
    AndWithin(w.bits, bits);
    WithinSelf(w.bits);
  }

  /** What a thread waits for: every bit that it asked for, or some of them. */
  ghost predicate Holds(w: Want, bits: nat) {
    if w.option.all then Covered(w.bits, bits)
    else w.option.any && exists k: nat :: Share(w.bits, bits, k)
  }

  /** The tests of the source find it out. */
  lemma MetIs(w: Want, bits: nat)
    ensures Met(w, bits) <==> Holds(w, bits)
  {
    hide And, Bit;
    if w.option.all {
      WithinCovered(w.bits, bits);
    } else {
      CommonBit(w.bits, bits);
    }
  }

  /** Of the bits that are there a woken thread gets all that it asked for, and a clearing one takes them along. */
  ghost predicate Takes(w: Want, bits: nat, got: nat, left: nat) {
    && (forall k: nat :: Bit(got, k) <==> Bit(w.bits, k) && Bit(bits, k))
    && (forall k: nat :: Bit(left, k) <==> Bit(bits, k) && !(w.option.clear && Bit(w.bits, k)))
  }

  lemma TakesIs(w: Want, bits: nat)
    requires Met(w, bits)
    ensures Takes(w, bits, Got(w, bits), Left(w, bits))
  {
    MetIs(w, bits);
    forall k: nat
      ensures Bit(Got(w, bits), k) <==> Bit(w.bits, k) && Bit(bits, k)
      ensures Bit(Left(w, bits), k) <==> Bit(bits, k) && !(w.option.clear && Bit(w.bits, k))
    {
      BitAnd(w.bits, bits, k);
      BitAndNot(bits, Got(w, bits), k);
    }
  }

  /** The pass goes along the list: each thread in its turn is woken if and only if what it waits for holds of the bits
      that those before it have left. */
  lemma {:induction false} PassTurn(bits: nat, list: seq<int>, wants: map<int, Want>, i: nat)
    requires i < |list|
    ensures var (b, kept, woken) := Pass(bits, list[..i], wants);
            var (b', kept', woken') := Pass(bits, list[..i + 1], wants);
            var t := list[i];
            if Holds(WantOf(wants, t), b)
            then kept' == kept && exists got :: woken' == woken + [Woken(t, got)] && Takes(WantOf(wants, t), b, got, b')
            else b' == b && kept' == kept + [t] && woken' == woken
    decreases |list|
  {
    hide Met, Got, Left, Holds, Takes, WantOf;
    var t := list[0];
    var w := WantOf(wants, t);
    MetIs(w, bits);
    if i == 0 {
      assert list[..0] == [] && list[..1] == [t] && [t][1..] == [];
      if Met(w, bits) {
        TakesIs(w, bits);
        assert Pass(bits, list[..1], wants).2 == [] + [Woken(t, Got(w, bits))];
      }
    } else {
      PassTurn(if Met(w, bits) then Left(w, bits) else bits, list[1..], wants, i - 1);
      assert list[..i][1..] == list[1..][..i - 1] && list[..i + 1][1..] == list[1..][..i];
      PassStarts(bits, list[..i], wants);
      PassStarts(bits, list[..i + 1], wants);
      var bits1 := if Met(w, bits) then Left(w, bits) else bits;
      var (b, kept, woken) := Pass(bits1, list[1..][..i - 1], wants);
      var (b', kept', woken') := Pass(bits1, list[1..][..i], wants);
      if Holds(WantOf(wants, list[i]), b) {
        var got :| woken' == woken + [Woken(list[i], got)] && Takes(WantOf(wants, list[i]), b, got, b');
        if Met(w, bits) {
          assert [Woken(t, Got(w, bits))] + (woken + [Woken(list[i], got)]) == [Woken(t, Got(w, bits))] + woken + [Woken(list[i], got)];
        }
      } else if !Met(w, bits) {
        assert [t] + (kept + [list[i]]) == [t] + kept + [list[i]];
      }
    }
  }

  lemma PassStarts(bits: nat, list: seq<int>, wants: map<int, Want>)
    requires list != []
    ensures var t := list[0];
            var w := WantOf(wants, t);
            var (b, kept, woken) := Pass(if Met(w, bits) then Left(w, bits) else bits, list[1..], wants);
            Pass(bits, list, wants) ==
              if Met(w, bits) then (b, kept, [Woken(t, Got(w, bits))] + woken) else (b, [t] + kept, woken)
  {
  }

  // ---- one pass is enough ----

  /** After one pass nobody who still waits has its condition met, although the bits shrink on the way. */
  lemma {:induction false} OnePassSuffices(bits: nat, list: seq<int>, wants: map<int, Want>)
    ensures var (b, kept, woken) := Pass(bits, list, wants);
            Within(b, bits) && forall t :: t in kept ==> t in list && !Met(WantOf(wants, t), b)
    decreases |list|
  {
    hide Met, Got, Left, Within;
    if list != [] {
      var t := list[0];
      var w := WantOf(wants, t);
      var rest := list[1..];
      assert list == [t] + rest;
      if Met(w, bits) {
        OnePassSuffices(Left(w, bits), rest, wants);
        LeftWithin(w, bits);
        WithinTrans(Pass(Left(w, bits), rest, wants).0, Left(w, bits), bits);
      } else {
        OnePassSuffices(bits, rest, wants);
        if Met(w, Pass(bits, rest, wants).0) { MetWithin(w, Pass(bits, rest, wants).0, bits); }
      }
    } else {
      WithinSelf(bits);
    }
  }

  function Names(woken: seq<Woken>): (r: seq<int>)
    ensures |r| == |woken|
  {
    if woken == [] then [] else [woken[0].t] + Names(woken[1..])
  }

  /** Every waiter is woken or goes on waiting, in order. */
  lemma {:induction false} PassSplits(bits: nat, list: seq<int>, wants: map<int, Want>)
    requires NoDup(list)
    ensures var (b, kept, woken) := Pass(bits, list, wants);
            NoDup(kept) && forall t :: (t in list <==> t in kept || t in Names(woken)) && !(t in kept && t in Names(woken))
    decreases |list|
  {
    hide NoDup, Met, Got, Left;
    if list != [] {
      var t := list[0];
      var w := WantOf(wants, t);
      assert Dropped(list, 0) == list[1..];
      MemberDropped(list, 0);
      assert t in list;
      var bits1 := if Met(w, bits) then Left(w, bits) else bits;
      PassSplits(bits1, list[1..], wants);
      var (b1, kept1, woken1) := Pass(bits1, list[1..], wants);
      if Met(w, bits) {
        assert ([Woken(t, Got(w, bits))] + woken1)[1..] == woken1;
      } else {
        NoDupPushed(kept1, t);
      }
    } else {
      NoDupEmpty<int>();
    }
  }

  lemma GotWanted(w: Want, bits: nat)
    requires Met(w, bits)
    ensures if w.option.all then Got(w, bits) == w.bits else Got(w, bits) != 0
  {
  }

  /** What a woken thread receives was there when the pass began, and is what it asked for: all of it, or a part
      that is not empty. */
  lemma {:induction false} WokenGetWhatTheyWant(bits: nat, list: seq<int>, wants: map<int, Want>, i: nat)
    requires i < |Pass(bits, list, wants).2|
    ensures var x := Pass(bits, list, wants).2[i];
            var w := WantOf(wants, x.t);
            && Within(x.got, bits)
            && (if w.option.all then x.got == w.bits else Within(x.got, w.bits) && x.got != 0)
    decreases |list|
  {
    hide Met, Got, Left, Within;
    var t := list[0];
    var w := WantOf(wants, t);
    if Met(w, bits) {
      GotWithin(w, bits);
      GotWanted(w, bits);
      if i > 0 {
        WokenGetWhatTheyWant(Left(w, bits), list[1..], wants, i - 1);
        LeftWithin(w, bits);
        WithinTrans(Pass(bits, list, wants).2[i].got, Left(w, bits), bits);
      }
    } else {
      WokenGetWhatTheyWant(bits, list[1..], wants, i);
    }
  }

  lemma ClearedGone(w: Want, bits: nat, later: nat)
    requires w.option.clear && Within(later, Left(w, bits))
    ensures And(Got(w, bits), later) == 0
  {
    ClearedApart(bits, Got(w, bits), later);
  }

  /** The bits that a clearing thread receives are received by nobody behind it. */
  lemma {:induction false} ClearedBitsGoOnce(bits: nat, list: seq<int>, wants: map<int, Want>, i: nat, j: nat)
    requires i < j < |Pass(bits, list, wants).2|
    requires WantOf(wants, Pass(bits, list, wants).2[i].t).option.clear
    ensures And(Pass(bits, list, wants).2[i].got, Pass(bits, list, wants).2[j].got) == 0
    decreases |list|
  {
    hide Met, Got, Left, Within, And;
    var t := list[0];
    var w := WantOf(wants, t);
    var rest := list[1..];
    if Met(w, bits) {
      if i > 0 {
        ClearedBitsGoOnce(Left(w, bits), rest, wants, i - 1, j - 1);
      } else {
        WokenGetWhatTheyWant(Left(w, bits), rest, wants, j - 1);
        ClearedGone(w, bits, Pass(bits, list, wants).2[j].got);
      }
    } else {
      ClearedBitsGoOnce(bits, rest, wants, i, j);
    }
  }

  /** And they are not in the event set any more when the pass is over. */
  lemma {:induction false} ClearedBitsAreGone(bits: nat, list: seq<int>, wants: map<int, Want>, i: nat)
    requires i < |Pass(bits, list, wants).2|
    requires WantOf(wants, Pass(bits, list, wants).2[i].t).option.clear
    ensures And(Pass(bits, list, wants).2[i].got, Pass(bits, list, wants).0) == 0
    decreases |list|
  {
    hide Met, Got, Left, Within, And;
    var t := list[0];
    var w := WantOf(wants, t);
    var rest := list[1..];
    if Met(w, bits) {
      if i > 0 {
        ClearedBitsAreGone(Left(w, bits), rest, wants, i - 1);
      } else {
        OnePassSuffices(Left(w, bits), rest, wants);
        ClearedGone(w, bits, Pass(bits, list, wants).0);
      }
    } else {
      ClearedBitsAreGone(bits, rest, wants, i);
    }
  }

  // ---- the regions ----

  function Readied(ready: map<int, nat>, woken: seq<Woken>): map<int, nat>
    decreases |woken|
  {
    if woken == [] then ready else Readied(ready[woken[0].t := woken[0].got], woken[1..])
  }

  /** rt_event_send; a call without bits is refused */
  function Send(e: Event, bits: nat): Event {
    if bits == 0 then e
    else
      var (b, kept, woken) := Pass(Or(e.bits, bits), e.waiters, e.wants);
      e.(bits := b, waiters := kept, ready := Readied(e.ready, woken))
  }

  datatype Outcome = Received(got: nat) | Refused | Blocked

  /** rt_event_recv up to its return or its wait */
  function Recv(e: Event, prio: map<int, nat>, t: int, w: Want, wait: bool): (Event, Outcome) {
    if w.bits == 0 then (e, Refused)
    else if Met(w, e.bits) then (e.(bits := if w.option.clear then AndNot(e.bits, w.bits) else e.bits), Received(And(e.bits, w.bits)))
    else if !wait then (e, Refused)
    else (e.(wants := e.wants[t := w], waiters := Enqueued(e.waiters, prio, e.flag, t)), Blocked)
  }

  function Reset(e: Event): Event {
    e.(bits := 0, waiters := [], failed := e.failed + set t | t in e.waiters)
  }

  datatype Op =
    | SendOp(bits: nat)
    | RecvOp(t: int, w: Want, wait: bool)
    | TimeoutOp(t: int)
    | ReturnOp(t: int)
    | ResetOp

  ghost predicate Legal(e: Event, op: Op) {
    match op
    case SendOp(bits) => true
    case RecvOp(t, w, wait) => t !in e.waiters && t !in e.failed && t !in e.ready && (w.option.all || w.option.any)
    case TimeoutOp(t) => t in e.waiters
    case ReturnOp(t) => t in e.failed || t in e.ready
    case ResetOp => true
  }

  function Step(e: Event, prio: map<int, nat>, op: Op): Event {
    match op
    case SendOp(bits) => Send(e, bits)
    case RecvOp(t, w, wait) => Recv(e, prio, t, w, wait).0
    case TimeoutOp(t) => e.(waiters := Without(e.waiters, t), failed := e.failed + {t})
    case ReturnOp(t) => e.(failed := e.failed - {t}, ready := e.ready - {t})
    case ResetOp => Reset(e)
  }

  /** Nobody waits for what is there. */
  ghost predicate Inv(e: Event) {
    && NoDup(e.waiters)
    && (forall t :: t in e.waiters ==> t in e.wants && e.wants[t].bits != 0 && (e.wants[t].option.all || e.wants[t].option.any))
    && forall t :: t in e.waiters ==> !Met(e.wants[t], e.bits)
  }

  lemma SendInv(e: Event, bits: nat)
    requires Inv(e)
    ensures Inv(Send(e, bits))
  {
    hide NoDup, Met, Or;
    if bits != 0 {
      OnePassSuffices(Or(e.bits, bits), e.waiters, e.wants);
      PassSplits(Or(e.bits, bits), e.waiters, e.wants);
    }
  }

  lemma RecvInv(e: Event, prio: map<int, nat>, t: int, w: Want, wait: bool)
    requires Inv(e) && Legal(e, RecvOp(t, w, wait))
    ensures Inv(Recv(e, prio, t, w, wait).0)
  {
    hide NoDup, Enqueued, Met, Within, AndNot, And;
    var e' := Recv(e, prio, t, w, wait).0;
    if w.bits != 0 {
      if Met(w, e.bits) {
        AndNotWithin(e.bits, w.bits);
        WithinSelf(e.bits);
        forall u | u in e'.waiters
          ensures !Met(e'.wants[u], e'.bits)
        {
          if Met(e.wants[u], e'.bits) { MetWithin(e.wants[u], e'.bits, e.bits); }
        }
      } else if wait {
        EnqueuedMembers(e.waiters, prio, e.flag, t);
      }
    }
  }

  lemma StepInv(e: Event, prio: map<int, nat>, op: Op)
    requires Inv(e) && Legal(e, op)
    ensures Inv(Step(e, prio, op))
  {
    hide Met, Without, Send, Recv, NoDup;
    NoDupEmpty<int>();
    match op
    case SendOp(bits) => SendInv(e, bits);
    case RecvOp(t, w, wait) => RecvInv(e, prio, t, w, wait);
    case TimeoutOp(t) => WithoutSpec(e.waiters, t);
    case ReturnOp(t) =>
    case ResetOp =>
  }

  // ---- what a call comes to ----

  /** rt_event_recv returns at once if and only if what the thread asks for holds, with the bits asked for that are in the
      set, and takes them along if it is to clear them; otherwise it waits if it may, and nothing else changes. */
  lemma RecvComesTo(e: Event, prio: map<int, nat>, t: int, w: Want, wait: bool)
    requires w.bits != 0 && t !in e.waiters
    ensures var (e', out) := Recv(e, prio, t, w, wait);
            && (out.Received? <==> Holds(w, e.bits))
            && (out.Blocked? <==> !Holds(w, e.bits) && wait)
            && (out.Received? ==> Takes(w, e.bits, out.got, e'.bits) && e' == e.(bits := e'.bits))
            && (out.Refused? ==> e' == e)
            && (out.Blocked? ==>
                  e' == e.(waiters := e'.waiters, wants := e.wants[t := w]) && Without(e'.waiters, t) == e.waiters && t in e'.waiters)
  {
    MetIs(w, e.bits);
    if Met(w, e.bits) {
      forall k: nat
        ensures Bit(And(e.bits, w.bits), k) <==> Bit(w.bits, k) && Bit(e.bits, k)
        ensures Bit(AndNot(e.bits, w.bits), k) <==> Bit(e.bits, k) && !Bit(w.bits, k)
      {
        BitAnd(e.bits, w.bits, k);
        BitAndNot(e.bits, w.bits, k);
      }
    } else if wait {
      EnqueuedKeeps(e.waiters, prio, e.flag, t);
    }
  }

  /** A call that asks for no bits is refused. */
  lemma NothingAsked(e: Event, prio: map<int, nat>, t: int, w: Want, wait: bool)
    requires w.bits == 0
    ensures Recv(e, prio, t, w, wait) == (e, Refused) && Send(e, 0) == e
  {
  }

  /** rt_event_send adds the bits to the set and makes one pass: who is woken, as PassTurn has it, finds what it got, all
      others find what they found before, and nothing else changes. */
  lemma SendComesTo(e: Event, bits: nat) returns (all: nat, woken: seq<Woken>)
    requires Inv(e) && bits != 0
    ensures forall k: nat :: Bit(all, k) <==> Bit(e.bits, k) || Bit(bits, k)
    ensures var e' := Send(e, bits);
            && (e'.bits, e'.waiters, woken) == Pass(all, e.waiters, e.wants)
            && e' == e.(bits := e'.bits, waiters := e'.waiters, ready := e'.ready)
            && (forall i :: 0 <= i < |woken| ==> woken[i].t in e'.ready && e'.ready[woken[i].t] == woken[i].got)
            && (forall t :: t !in Names(woken) ==> (t in e'.ready <==> t in e.ready) && (t in e.ready ==> e'.ready[t] == e.ready[t]))
    ensures e.waiters == [] ==> Send(e, bits).bits == all && woken == []
  {
    hide Met, Or;
    all := Or(e.bits, bits);
    woken := Pass(all, e.waiters, e.wants).2;
    forall k: nat
      ensures Bit(all, k) <==> Bit(e.bits, k) || Bit(bits, k)
    {
      BitOr(e.bits, bits, k);
    }
    PassNames(all, e.waiters, e.wants);
    ReadiedIs(e.ready, woken);
  }

  /** Nobody is woken twice. */
  lemma {:induction false} PassNames(bits: nat, list: seq<int>, wants: map<int, Want>)
    requires NoDup(list)
    ensures NoDup(Names(Pass(bits, list, wants).2))
    ensures forall t :: t in Names(Pass(bits, list, wants).2) ==> t in list
    decreases |list|
  {
    hide NoDup, Met, Got, Left;
    NoDupEmpty<int>();
    if list != [] {
      var t := NoDupTail(list);
      var w := WantOf(wants, t);
      var bits1 := if Met(w, bits) then Left(w, bits) else bits;
      PassNames(bits1, list[1..], wants);
      var woken := Pass(bits1, list[1..], wants).2;
      if Met(w, bits) {
        assert ([Woken(t, Got(w, bits))] + woken)[1..] == woken;
        NoDupPushed(Names(woken), t);
      }
    }
  }

  lemma {:induction false} ReadiedIs(ready: map<int, nat>, woken: seq<Woken>)
    requires NoDup(Names(woken))
    ensures forall i :: 0 <= i < |woken| ==> woken[i].t in Readied(ready, woken) && Readied(ready, woken)[woken[i].t] == woken[i].got
    ensures forall t :: t !in Names(woken) ==>
              (t in Readied(ready, woken) <==> t in ready) && (t in ready ==> Readied(ready, woken)[t] == ready[t])
    decreases |woken|
  {
    hide NoDup;
    if woken != [] {
      var x := NoDupTail(Names(woken));
      assert Names(woken)[1..] == Names(woken[1..]);
      ReadiedIs(ready[woken[0].t := woken[0].got], woken[1..]);
      NamesAre(woken);
    }
  }

  lemma {:induction false} NamesAre(woken: seq<Woken>)
    ensures forall i :: 0 <= i < |woken| ==> woken[i].t in Names(woken)
    ensures forall i :: 0 <= i < |woken| ==> Names(woken)[i] == woken[i].t
  {
    if woken != [] { NamesAre(woken[1..]); }
  }

  /** A timeout takes the thread off the list and fails it; a thread that goes on leaves nothing behind. */
  lemma TimeoutComesTo(e: Event, prio: map<int, nat>, t: int)
    requires Inv(e)
    ensures t in e.waiters ==>
              var e' := Step(e, prio, TimeoutOp(t));
              && (forall u :: u in e'.waiters <==> u in e.waiters && u != t) && (forall u :: u in e'.failed <==> u in e.failed || u == t)
              && e' == e.(waiters := e'.waiters, failed := e'.failed)
    ensures var e' := Step(e, prio, ReturnOp(t));
            && t !in e'.failed && t !in e'.ready && e' == e.(failed := e'.failed, ready := e'.ready)
            && (forall u :: u != t ==> (u in e'.failed <==> u in e.failed) && (u in e'.ready <==> u in e.ready))
            && forall u :: u in e'.ready ==> e'.ready[u] == e.ready[u]
  {
    hide NoDup, Without, Met;
    WithoutSpec(e.waiters, t);
  }

  /** A reset empties the set, and wakes all that wait with an error. */
  lemma ResetComesTo(e: Event)
    ensures var e' := Reset(e);
            && e'.bits == 0 && e'.waiters == [] && e' == e.(bits := 0, waiters := [], failed := e'.failed)
            && forall t :: t in e'.failed <==> t in e.failed || t in e.waiters
  {
  }

  datatype Move = Move(op: Op, prio: map<int, nat>)

  ghost predicate LegalRun(e: Event, moves: seq<Move>)
    decreases |moves|
  {
    moves == [] || (Legal(e, moves[0].op) && LegalRun(Step(e, moves[0].prio, moves[0].op), moves[1..]))
  }

  function RunOf(e: Event, moves: seq<Move>): Event
    decreases |moves|
  {
    if moves == [] then e else RunOf(Step(e, moves[0].prio, moves[0].op), moves[1..])
  }

  lemma {:induction false} RunInv(e: Event, moves: seq<Move>)
    requires Inv(e) && LegalRun(e, moves)
    ensures Inv(RunOf(e, moves))
    decreases |moves|
  {
    hide Inv, Step, Legal;
    if moves != [] {
      StepInv(e, moves[0].prio, moves[0].op);
      RunInv(Step(e, moves[0].prio, moves[0].op), moves[1..]);
    }
  }

  function New(flag: Flag): Event {
    Event(flag, 0, [], map[], {}, map[])
  }

  /** In every state that sends, receives, timeouts and resets can reach, a thread that waits for all its bits lacks one
      of them, and one that waits for any has none in the set. */
  lemma NobodyWaitsForWhatIsThere(flag: Flag, moves: seq<Move>)
    requires LegalRun(New(flag), moves)
    ensures var e := RunOf(New(flag), moves);
            forall t :: t in e.waiters ==> Lacks(e, t)
  {
    hide Met;
    assert Inv(New(flag));
    RunInv(New(flag), moves);
    var e := RunOf(New(flag), moves);
    forall t | t in e.waiters
      ensures Lacks(e, t)
    {
      MetIs(e.wants[t], e.bits);
    }
  }

  /** Some bit that the thread asked for is missing, or all of them. */
  ghost predicate Lacks(e: Event, t: int) {
    && t in e.wants && (e.wants[t].option.all || e.wants[t].option.any)
    && (e.wants[t].option.all ==> exists k: nat :: Bit(e.wants[t].bits, k) && !Bit(e.bits, k))
    && (!e.wants[t].option.all ==> forall k: nat :: !Share(e.wants[t].bits, e.bits, k))
  }
}
