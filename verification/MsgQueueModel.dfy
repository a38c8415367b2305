/** Message queues (rt_mq_send, rt_mq_urgent, rt_mq_recv and the reset of rt_mq_control in ipc.c) as a machine
    whose steps are the interrupt-free regions of these calls, the timeouts of blocked receivers, and the
    single bytes that are copied between the regions. */
module MsgQueueModel {
  import opened RtDef
  import opened RtList
  import opened IpcList

  /** A call between its two regions: it has a block of the pool to itself and is copying. */
  datatype Flight =
    | Sending(block: int, data: seq<int>, urgent: bool, copied: nat)
    | Receiving(block: int, size: nat, got: seq<int>)

  /** Where a block is. */
  datatype Place = InFree | InQueue | InFlight(t: int)

  /** content are the bytes of the blocks; place and sent are bookkeeping: where each block is, and the message
      that was last put into it. */
  datatype Queue = Queue(flag: Flag, msgSize: nat, content: map<int, seq<int>>, free: seq<int>, queue: seq<int>, entry: nat,
                         receivers: seq<int>, woken: set<int>, failed: set<int>, flight: map<int, Flight>,
                         place: map<int, Place>, sent: map<int, seq<int>>)

  datatype Op =
    | Send(t: int, data: seq<int>, urgent: bool)  // first region of rt_mq_send or rt_mq_urgent
    | CopyIn(t: int)                              // one more byte into the block
    | Link(t: int)                                // second region
    | Recv(t: int, size: nat, wait: bool)         // first region of rt_mq_recv
    | RecvOn(t: int, size: nat, wait: bool)       // the same, by a woken receiver
    | CopyOut(t: int)                             // one more byte out of the block
    | Release(t: int)                             // last region of rt_mq_recv
    | Timeout(t: int)
    | Fail(t: int)                                // a receiver woken with an error returns
    | Clear                                       // RT_IPC_CMD_RESET

  ghost predicate Outside(q: Queue, t: int) {
    t !in q.receivers && t !in q.woken && t !in q.failed && t !in q.flight
  }

  function Smaller(a: nat, b: nat): nat {
    if a < b then a else b
  }

  ghost predicate Legal(q: Queue, op: Op) {
    match op
    case Send(t, data, urgent) => Outside(q, t) && 0 < |data| <= q.msgSize
    case CopyIn(t) => t in q.flight && q.flight[t].Sending? && q.flight[t].copied < |q.flight[t].data|
    case Link(t) => t in q.flight && q.flight[t].Sending? && q.flight[t].copied == |q.flight[t].data|
    case Recv(t, size, wait) => Outside(q, t) && size > 0
    case RecvOn(t, size, wait) => t in q.woken && size > 0
    case CopyOut(t) => t in q.flight && q.flight[t].Receiving? && |q.flight[t].got| < Smaller(q.flight[t].size, q.msgSize)
    case Release(t) => t in q.flight && q.flight[t].Receiving? && |q.flight[t].got| == Smaller(q.flight[t].size, q.msgSize)
    case Timeout(t) => t in q.receivers
    case Fail(t) => t in q.failed
    case Clear => true
  }

  // ---- the regions ----

  /** False stands for -RT_EFULL. */
  function Start(q: Queue, t: int, data: seq<int>, urgent: bool): (Queue, bool) {
    if q.free == [] then (q, false)
    else
      var b := q.free[0];
      (q.(free := q.free[1..], flight := q.flight[t := Sending(b, data, urgent, 0)], place := q.place[b := InFlight(t)],
          sent := q.sent[b := data]), true)
  }

  function Wake(q: Queue): Queue {
    if q.receivers == [] then q else q.(receivers := q.receivers[1..], woken := q.woken + {q.receivers[0]})
  }

  function LinkIn(q: Queue, t: int): Queue
    requires t in q.flight && q.flight[t].Sending?
  {
    Wake(Linked(q, t))
  }

  datatype Outcome = Done | Refused | Blocked

  function TryRecv(q: Queue, prio: map<int, nat>, t: int, size: nat, wait: bool): (Queue, Outcome) {
    if q.entry == 0 || q.queue == [] then
      if wait then (q.(receivers := Enqueued(q.receivers, prio, q.flag, t)), Blocked) else (q, Refused)
    else
      var b := q.queue[0];
      (q.(queue := q.queue[1..], entry := q.entry - 1, flight := q.flight[t := Receiving(b, size, [])],
          place := q.place[b := InFlight(t)]), Done)
  }

  function PutBack(q: Queue, t: int): Queue
    requires t in q.flight
  {
    var b := q.flight[t].block;
    q.(free := [b] + q.free, flight := q.flight - {t}, place := q.place[b := InFree])
  }

  function Reversed(s: seq<int>): seq<int> {
    if s == [] then [] else Reversed(s[1..]) + [s[0]]
  }

  function Members(list: seq<int>): set<int> {
    set t | t in list
  }

  function Drained(place: map<int, Place>): map<int, Place> {
    map b | b in place :: if place[b] == InQueue then InFree else place[b]
  }

  function Reset(q: Queue): Queue {
    q.(receivers := [], failed := q.failed + Members(q.receivers), queue := [], entry := 0,
       free := Reversed(q.queue) + q.free,
       place := Drained(q.place))
  }

  function ByteIn(q: Queue, t: int): Queue
    requires t in q.flight && q.flight[t].Sending? && q.flight[t].copied < |q.flight[t].data|
    requires q.flight[t].block in q.content && q.flight[t].copied < |q.content[q.flight[t].block]|
  {
    var f := q.flight[t];
    q.(content := q.content[f.block := q.content[f.block][f.copied := f.data[f.copied]]],
       flight := q.flight[t := f.(copied := f.copied + 1)])
  }

  function ByteOut(q: Queue, t: int): Queue
    requires t in q.flight && q.flight[t].Receiving?
    requires q.flight[t].block in q.content && |q.flight[t].got| < |q.content[q.flight[t].block]|
  {
    var f := q.flight[t];
    q.(flight := q.flight[t := f.(got := f.got + [q.content[f.block][|f.got|]])])
  }

  // ---- the invariant ----

  /** Every block is in exactly one place, and only the blocks of the pool are anywhere. */
  ghost predicate BlocksOk(q: Queue) {
    && q.place.Keys == q.content.Keys == q.sent.Keys
    && NoDup(q.free) && NoDup(q.queue) && q.entry == |q.queue|
    && (forall b :: b in q.free <==> b in q.place && q.place[b] == InFree)
    && (forall b :: b in q.queue <==> b in q.place && q.place[b] == InQueue)
    && (forall t :: t in q.flight ==> q.flight[t].block in q.place && q.place[q.flight[t].block] == InFlight(t))
    && (forall b :: b in q.place && q.place[b].InFlight? ==> q.place[b].t in q.flight && q.flight[q.place[b].t].block == b)
  }

  /** The first n bytes of block b are those of the message sent in it. */
  ghost predicate Carries(q: Queue, b: int, n: nat) {
    b in q.content && b in q.sent && n <= |q.sent[b]| <= |q.content[b]| && q.content[b][..n] == q.sent[b][..n]
  }

  ghost predicate FlightOk(q: Queue, t: int)
    requires t in q.flight
  {
    match q.flight[t]
    case Sending(b, data, urgent, copied) => b in q.sent && q.sent[b] == data && copied <= |data| && Carries(q, b, copied)
    case Receiving(b, size, got) =>
      && b in q.sent && Carries(q, b, |q.sent[b]|)
      && |got| <= Smaller(size, q.msgSize) && |got| <= |q.content[b]| && got == q.content[b][..|got|]
  }

  ghost predicate ContentOk(q: Queue) {
    && (forall b :: b in q.content ==> |q.content[b]| == q.msgSize && b in q.sent && |q.sent[b]| <= q.msgSize)
    && (forall b :: b in q.queue ==> b in q.sent && Carries(q, b, |q.sent[b]|))
    && forall t :: t in q.flight ==> FlightOk(q, t)
  }

  ghost predicate WaitOk(q: Queue) {
    && NoDup(q.receivers)
    && (forall t :: t in q.receivers ==> t !in q.woken && t !in q.failed && t !in q.flight)
    && (forall t :: t in q.woken ==> t !in q.failed && t !in q.flight)
    && (forall t :: t in q.failed ==> t !in q.flight)
    && (q.receivers != [] ==> |q.woken| >= q.entry)
  }

  ghost predicate Inv(q: Queue) {
    BlocksOk(q) && ContentOk(q) && WaitOk(q)
  }

  /** A block that two calls copy at once does not exist. */
  lemma BlocksNotShared(q: Queue, t: int, u: int)
    requires BlocksOk(q) && t in q.flight && u in q.flight && t != u
    ensures q.flight[t].block != q.flight[u].block
    ensures q.flight[t].block !in q.free && q.flight[t].block !in q.queue
  {
  }

  lemma StartBlocks(q: Queue, t: int, data: seq<int>, urgent: bool)
    requires BlocksOk(q) && t !in q.flight
    ensures BlocksOk(Start(q, t, data, urgent).0)
    ensures q.free != [] ==> q.free[0] in q.place && q.place[q.free[0]] == InFree
  {
    hide NoDup;
    if q.free != [] { var b := NoDupTail(q.free); }
  }

  lemma StartInv(q: Queue, t: int, data: seq<int>, urgent: bool)
    requires Inv(q) && Outside(q, t) && 0 < |data| <= q.msgSize
    ensures Inv(Start(q, t, data, urgent).0)
  {
    hide NoDup;
    StartBlocks(q, t, data, urgent);
    if q.free != [] {
      var q' := Start(q, t, data, urgent).0;
      forall u | u in q'.flight
        ensures FlightOk(q', u)
      {
        if u != t { assert FlightOk(q, u); }
      }
      hide BlocksOk;
    }
  }

  lemma WakeInv(q: Queue)
    requires BlocksOk(q) && ContentOk(q) && WaitOk(q.(entry := if q.entry > 0 then q.entry - 1 else 0))
    ensures Inv(Wake(q))
  {
    hide NoDup;
    if q.receivers != [] {
      var x := NoDupTail(q.receivers);
      var q' := Wake(q);
      forall u | u in q'.flight
        ensures FlightOk(q', u)
      {
        assert FlightOk(q, u);
      }
    }
  }

  /** The linked state before a receiver is woken. */
  function Linked(q: Queue, t: int): Queue
    requires t in q.flight && q.flight[t].Sending?
  {
    var f := q.flight[t];
    q.(queue := if f.urgent then [f.block] + q.queue else q.queue + [f.block], entry := q.entry + 1,
       flight := q.flight - {t}, place := q.place[f.block := InQueue])
  }

  lemma LinkBlocks(q: Queue, t: int)
    requires BlocksOk(q) && t in q.flight && q.flight[t].Sending?
    ensures BlocksOk(Linked(q, t))
    ensures forall b :: b in Linked(q, t).queue <==> b in q.queue || b == q.flight[t].block
  {
    hide NoDup;
    var f := q.flight[t];
    if f.urgent { NoDupPushed(q.queue, f.block); } else { NoDupAppended(q.queue, f.block); }
  }

  lemma LinkInv(q: Queue, t: int)
    requires Inv(q) && Legal(q, Link(t))
    ensures Inv(LinkIn(q, t))
  {
    hide NoDup, BlocksOk;
    var q1 := Linked(q, t);
    LinkBlocks(q, t);
    assert FlightOk(q, t);
    forall u | u in q1.flight
      ensures FlightOk(q1, u)
    {
      assert FlightOk(q, u);
    }
    WakeInv(q1);
  }

  lemma TakeBlocks(q: Queue, t: int, size: nat)
    requires BlocksOk(q) && t !in q.flight && q.queue != []
    ensures BlocksOk(TryRecv(q, map[], t, size, false).0)
    ensures q.queue[0] in q.queue && forall x :: x in q.queue[1..] ==> x in q.queue
  {
    hide NoDup;
    var b := NoDupTail(q.queue);
  }

  lemma TryRecvInv(q: Queue, prio: map<int, nat>, t: int, size: nat, wait: bool)
    requires BlocksOk(q) && ContentOk(q) && Outside(q, t) && size > 0
    requires WaitOk(q.(entry := if q.entry > 0 then q.entry - 1 else 0))
    ensures Inv(TryRecv(q, prio, t, size, wait).0)
  {
    hide NoDup, Enqueued, BlocksOk;
    var q' := TryRecv(q, prio, t, size, wait).0;
    EntryIsLength(q);
    if q.entry > 0 {
      TakeBlocks(q, t, size);
    } else if wait {
      EnqueuedMembers(q.receivers, prio, q.flag, t);
      BlocksSame(q, q');
    }
    forall u | u in q'.flight
      ensures FlightOk(q', u)
    {
      if u in q.flight { assert FlightOk(q, u); }
    }
  }

  lemma EntryIsLength(q: Queue)
    requires BlocksOk(q)
    ensures q.entry == |q.queue|
  {
  }

  lemma BlocksSame(q: Queue, q': Queue)
    requires BlocksOk(q) && q' == q.(receivers := q'.receivers, woken := q'.woken, failed := q'.failed)
    ensures BlocksOk(q')
  {
  }

  lemma PutBackInv(q: Queue, t: int)
    requires Inv(q) && t in q.flight
    ensures Inv(PutBack(q, t))
  {
    hide NoDup;
    var q' := PutBack(q, t);
    NoDupPushed(q.free, q.flight[t].block);
    forall u | u in q'.flight
      ensures FlightOk(q', u)
    {
      assert FlightOk(q, u);
    }
    assert BlocksOk(q');
  }

  lemma ByteInInv(q: Queue, t: int)
    requires Inv(q) && Legal(q, CopyIn(t))
    ensures q.flight[t].block in q.content && q.flight[t].copied < |q.content[q.flight[t].block]|
    ensures Inv(ByteIn(q, t))
  {
    hide NoDup;
    var f := q.flight[t];
    assert FlightOk(q, t);
    var q' := ByteIn(q, t);
    assert q'.content[f.block][..f.copied + 1] == q.content[f.block][..f.copied] + [f.data[f.copied]];
    assert f.data[..f.copied + 1] == f.data[..f.copied] + [f.data[f.copied]];
    forall u | u in q'.flight
      ensures FlightOk(q', u)
    {
      assert FlightOk(q, u);
      if u != t { BlocksNotShared(q, t, u); }
    }
    forall b | b in q'.queue
      ensures b in q'.sent && Carries(q', b, |q'.sent[b]|)
    {
      assert b != f.block;
      assert Carries(q, b, |q.sent[b]|);
    }
  }

  lemma ByteOutInv(q: Queue, t: int)
    requires Inv(q) && Legal(q, CopyOut(t))
    ensures q.flight[t].block in q.content && |q.flight[t].got| < |q.content[q.flight[t].block]|
    ensures Inv(ByteOut(q, t))
  {
    hide NoDup;
    var f := q.flight[t];
    assert FlightOk(q, t);
    var q' := ByteOut(q, t);
    forall u | u in q'.flight
      ensures FlightOk(q', u)
    {
      assert FlightOk(q, u);
    }
  }

  lemma {:induction false} ReversedMembers(s: seq<int>)
    requires NoDup(s)
    ensures NoDup(Reversed(s)) && forall x :: x in Reversed(s) <==> x in s
  {
    if s != [] {
      var x := NoDupTail(s);
      ReversedMembers(s[1..]);
      NoDupAppended(Reversed(s[1..]), x);
    }
  }

  lemma {:induction false} NoDupJoined(a: seq<int>, b: seq<int>)
    requires NoDup(a) && NoDup(b) && forall x :: x in a ==> x !in b
    ensures NoDup(a + b)
  {
    Distinct(a);
    Distinct(b);
    forall i, j | 0 <= i < j < |a + b|
      ensures Differ(a + b, i, j)
    {
      if i < |a| && j >= |a| {
        var x, y := a[i], b[j - |a|];
        assert x in a && y in b;
      }
    }
  }

  lemma ResetInv(q: Queue)
    requires Inv(q)
    ensures Inv(Reset(q))
  {
    hide NoDup;
    var q' := Reset(q);
    ReversedMembers(q.queue);
    NoDupJoined(Reversed(q.queue), q.free);
    forall u | u in q'.flight
      ensures FlightOk(q', u)
    {
      assert FlightOk(q, u);
    }
    NoDupEmpty<int>();
    assert BlocksOk(q');
  }

  lemma WaitersInv(q: Queue, q': Queue)
    requires Inv(q) && WaitOk(q') && q' == q.(receivers := q'.receivers, woken := q'.woken, failed := q'.failed)
    ensures Inv(q')
  {
    hide NoDup;
    forall u | u in q'.flight
      ensures FlightOk(q', u)
    {
      assert FlightOk(q, u);
    }
  }

  lemma TimeoutInv(q: Queue, t: int)
    requires Inv(q) && t in q.receivers
    ensures Inv(q.(receivers := Without(q.receivers, t), failed := q.failed + {t}))
  {
    hide NoDup, Without, BlocksOk, ContentOk;
    WithoutSpec(q.receivers, t);
    WaitersInv(q, q.(receivers := Without(q.receivers, t), failed := q.failed + {t}));
  }

  // ---- the machine ----

  /** What a step does to the queued messages. */
  datatype Event = Silent | Back(m: seq<int>) | Front(m: seq<int>) | Took(t: int, m: seq<int>) | Emptied

  function Texts(list: seq<int>, sent: map<int, seq<int>>): (r: seq<seq<int>>)
    ensures |r| == |list|
  {
    if list == [] then []
    else [if list[0] in sent then sent[list[0]] else []] + Texts(list[1..], sent)
  }

  /** The queued messages, first to be received first. */
  function Messages(q: Queue): seq<seq<int>> {
    Texts(q.queue, q.sent)
  }

  lemma MembersOfTail(list: seq<int>)
    requires list != []
    ensures list[0] in list && forall b :: b in list[1..] ==> b in list
  {
    var x := list[0];
    assert x in list;
  }

  /** The bytes that the copies between the regions move are there. */
  ghost predicate Copyable(q: Queue, op: Op) {
    match op
    case CopyIn(t) =>
      t in q.flight && q.flight[t].Sending? && q.flight[t].copied < |q.flight[t].data|
      && q.flight[t].block in q.content && q.flight[t].copied < |q.content[q.flight[t].block]|
    case CopyOut(t) =>
      t in q.flight && q.flight[t].Receiving?
      && q.flight[t].block in q.content && |q.flight[t].got| < |q.content[q.flight[t].block]|
    case Link(t) => t in q.flight && q.flight[t].Sending?
    case Release(t) => t in q.flight && q.flight[t].Receiving?
    case _ => true
  }

  function Step(q: Queue, prio: map<int, nat>, op: Op): Queue
    requires Copyable(q, op)
  {
    match op
    case Send(t, data, urgent) => Start(q, t, data, urgent).0
    case CopyIn(t) => ByteIn(q, t)
    case Link(t) => LinkIn(q, t)
    case Recv(t, size, wait) => TryRecv(q, prio, t, size, wait).0
    case RecvOn(t, size, wait) => TryRecv(q.(woken := q.woken - {t}), prio, t, size, wait).0
    case CopyOut(t) => ByteOut(q, t)
    case Release(t) => PutBack(q, t)
    case Timeout(t) => q.(receivers := Without(q.receivers, t), failed := q.failed + {t})
    case Fail(t) => q.(failed := q.failed - {t})
    case Clear => Reset(q)
  }

  /** The change of the queued messages that a step makes. */
  function EventOf(q: Queue, op: Op): Event
    requires Copyable(q, op)
  {
    match op
    case Link(t) => if q.flight[t].urgent then Front(q.flight[t].data) else Back(q.flight[t].data)
    case Recv(t, size, wait) => TakenBy(q, t)
    case RecvOn(t, size, wait) => TakenBy(q, t)
    case Clear => Emptied
    case _ => Silent
  }

  function TakenBy(q: Queue, t: int): Event {
    if q.entry > 0 && q.queue != [] && q.queue[0] in q.sent then Took(t, q.sent[q.queue[0]]) else Silent
  }

  lemma StepInv(q: Queue, prio: map<int, nat>, op: Op)
    requires Inv(q) && Legal(q, op)
    ensures Copyable(q, op) && Inv(Step(q, prio, op))
  {
    hide NoDup, BlocksOk, ContentOk, WaitOk, Start, LinkIn, TryRecv, ByteIn, ByteOut, PutBack, Reset, Inv;
    match op
    case Send(t, data, urgent) => StartInv(q, t, data, urgent);
    case CopyIn(t) => ByteInInv(q, t);
    case Link(t) => LinkInv(q, t);
    case Recv(t, size, wait) => Entering(q, t, {}); TryRecvInv(q, prio, t, size, wait);
    case RecvOn(t, size, wait) => Entering(q, t, {t}); TryRecvInv(q.(woken := q.woken - {t}), prio, t, size, wait);
    case CopyOut(t) => ByteOutInv(q, t);
    case Release(t) => PutBackInv(q, t);
    case Timeout(t) => TimeoutInv(q, t);
    case Fail(t) => FailInv(q, t);
    case Clear => ResetInv(q);
  }

  /** A receiver that enters the loop, from outside or from the woken ones. */
  lemma Entering(q: Queue, t: int, gone: set<int>)
    requires Inv(q) && ((gone == {} && Outside(q, t)) || (gone == {t} && t in q.woken))
    ensures var q1 := q.(woken := q.woken - gone);
            && (gone == {} ==> q1 == q)
            && BlocksOk(q1) && ContentOk(q1) && Outside(q1, t)
            && WaitOk(q1.(entry := if q1.entry > 0 then q1.entry - 1 else 0))
  {
    hide NoDup;
    var q1 := q.(woken := q.woken - gone);
    BlocksSame(q, q1);
    forall u | u in q1.flight
      ensures FlightOk(q1, u)
    {
      assert FlightOk(q, u);
    }
  }

  lemma FailInv(q: Queue, t: int)
    requires Inv(q)
    ensures Inv(q.(failed := q.failed - {t}))
  {
    hide NoDup, BlocksOk, ContentOk;
    WaitersInv(q, q.(failed := q.failed - {t}));
  }

  // ---- what a call comes to ----

  /** The blocks that calls have to themselves */
  function FlightBlocks(flight: map<int, Flight>): set<int> {
    set t | t in flight :: flight[t].block
  }

  lemma {:induction false} CountFlights(flight: map<int, Flight>)
    requires forall t, u :: t in flight && u in flight && t != u ==> flight[t].block != flight[u].block
    ensures |FlightBlocks(flight)| == |flight|
    decreases |flight|
  {
    if flight != map[] {
      var t :| t in flight;
      var rest := flight - {t};
      assert |rest| == |flight| - 1 by { assert flight == rest[t := flight[t]]; }
      CountFlights(rest);
      forall x
        ensures x in FlightBlocks(flight) <==> x in FlightBlocks(rest) + {flight[t].block}
      {
        if x in FlightBlocks(flight) {
          var u :| u in flight && flight[u].block == x;
          if u != t { assert u in rest; }
        }
        if x in FlightBlocks(rest) {
          var u :| u in rest && rest[u].block == x;
          assert u in flight;
        }
      }
      assert FlightBlocks(flight) == FlightBlocks(rest) + {flight[t].block};
      assert flight[t].block !in FlightBlocks(rest);
    } else {
      assert FlightBlocks(flight) == {};
    }
  }

  lemma {:induction false} CountList(list: seq<int>)
    requires NoDup(list)
    ensures |Members(list)| == |list|
  {
    if list != [] {
      var x := NoDupTail(list);
      CountList(list[1..]);
      assert Members(list) == Members(list[1..]) + {x};
    }
  }

  /** Every block of the pool is counted once. */
  lemma CountBlocks(q: Queue)
    requires BlocksOk(q)
    ensures |q.free| + |q.queue| + |q.flight| == |q.content|
  {
    BlockSets(q);
    CountList(q.free);
    CountList(q.queue);
    CountFlights(q.flight);
    CountThree(q.content.Keys, Members(q.free), Members(q.queue), FlightBlocks(q.flight));
  }

  lemma BlockSets(q: Queue)
    requires BlocksOk(q)
    ensures forall x :: x in q.content.Keys <==> x in Members(q.free) || x in Members(q.queue) || x in FlightBlocks(q.flight)
    ensures Apart(Members(q.free), Members(q.queue)) && Apart(Members(q.free) + Members(q.queue), FlightBlocks(q.flight))
  {
    hide NoDup;
    forall x
      ensures x in q.content.Keys <==> x in Members(q.free) || x in Members(q.queue) || x in FlightBlocks(q.flight)
      ensures !(x in Members(q.free) && x in Members(q.queue))
      ensures !(x in Members(q.free) + Members(q.queue) && x in FlightBlocks(q.flight))
    {
      if x in q.place && q.place[x].InFlight? { assert q.flight[q.place[x].t].block == x; }
    }
  }

  ghost predicate Apart(a: set<int>, b: set<int>) {
    forall x :: !(x in a && x in b)
  }

  lemma CountThree(all: set<int>, a: set<int>, b: set<int>, c: set<int>)
    requires (forall x :: x in all <==> x in a || x in b || x in c) && Apart(a, b) && Apart(a + b, c)
    ensures |all| == |a| + |b| + |c|
  {
    CountTwo(a, b);
    CountTwo(a + b, c);
    forall x
      ensures x in all <==> x in (a + b) + c
    {
    }
    assert all == (a + b) + c;
  }

  lemma CountTwo(a: set<int>, b: set<int>)
    requires Apart(a, b)
    ensures |a + b| == |a| + |b|
  {
    forall x
      ensures x !in a * b
    {
    }
    assert a * b == {};
  }

  /** A send gets a block if and only if those that are queued or being copied are not all of the pool; the block was free,
      and it is now the sender's to fill. */
  lemma SendComesTo(q: Queue, t: int, data: seq<int>, urgent: bool) returns (b: int)
    requires Inv(q) && Outside(q, t)
    ensures var (q', ok) := Start(q, t, data, urgent);
            && (ok <==> |q.queue| + |q.flight| < |q.content|)
            && (!ok ==> q' == q)
            && (ok ==>
                  && b in q.content && b !in q.queue && (forall u :: u in q.flight ==> q.flight[u].block != b)
                  && q'.flight == q.flight[t := Sending(b, data, urgent, 0)] && q.free == [b] + q'.free
                  && q' == q.(free := q'.free, flight := q'.flight, place := q'.place, sent := q'.sent))
  {
    CountBlocks(q);
    b := if q.free == [] then 0 else q.free[0];
    assert q.free != [] ==> b in q.free;
  }

  /** The second region puts the block of the message into the queue, and wakes the first receiver only. */
  lemma LinkComesTo(q: Queue, t: int)
    requires Inv(q) && Legal(q, Link(t))
    ensures var q', f := LinkIn(q, t), q.flight[t];
            && q'.queue == (if f.urgent then [f.block] + q.queue else q.queue + [f.block]) && q'.entry == q.entry + 1
            && q'.flight == q.flight - {t}
            && (if q.receivers == [] then q'.receivers == [] && q'.woken == q.woken
                else q.receivers == [q.receivers[0]] + q'.receivers && q'.woken == q.woken + {q.receivers[0]})
            && q' == q.(queue := q'.queue, entry := q'.entry, flight := q'.flight, receivers := q'.receivers, woken := q'.woken,
                        place := q'.place)
  {
  }

  /** A receive takes the first message if and only if one is queued, and otherwise waits if it may. */
  lemma RecvComesTo(q: Queue, prio: map<int, nat>, t: int, size: nat, wait: bool)
    requires BlocksOk(q) && t !in q.receivers
    ensures var (q', out) := TryRecv(q, prio, t, size, wait);
            && (out == Done <==> q.queue != [])
            && (out == Blocked <==> q.queue == [] && wait)
            && (out == Done ==>
                  && q.queue == [q.queue[0]] + q'.queue && q'.entry + 1 == q.entry
                  && q'.flight == q.flight[t := Receiving(q.queue[0], size, [])]
                  && q' == q.(queue := q'.queue, entry := q'.entry, flight := q'.flight, place := q'.place))
            && (out == Blocked ==>
                  q' == q.(receivers := q'.receivers) && t in q'.receivers && Without(q'.receivers, t) == q.receivers)
            && (out == Refused ==> q' == q)
  {
    EnqueuedKeeps(q.receivers, prio, q.flag, t);
  }

  /** Every copied byte brings a copy on by one; the last region gives the block back, to be used next. */
  lemma CopiesComeTo(q: Queue, t: int)
    requires Inv(q)
    ensures Legal(q, CopyIn(t)) ==>
              && Copyable(q, CopyIn(t))
              && var q', f := ByteIn(q, t), q.flight[t];
                 && q'.flight == q.flight[t := f.(copied := f.copied + 1)] && q' == q.(content := q'.content, flight := q'.flight)
                 && forall b :: b in q.content && b != f.block ==> b in q'.content && q'.content[b] == q.content[b]
    ensures Legal(q, CopyOut(t)) ==>
              && Copyable(q, CopyOut(t))
              && var q', f := ByteOut(q, t), q.flight[t];
                 && q' == q.(flight := q'.flight) && q'.flight.Keys == q.flight.Keys
                 && (forall u :: u in q.flight && u != t ==> q'.flight[u] == q.flight[u])
                 && q'.flight[t].Receiving? && q'.flight[t] == f.(got := q'.flight[t].got) && |q'.flight[t].got| == |f.got| + 1
    ensures Legal(q, Release(t)) ==>
              var q' := PutBack(q, t);
              && q'.free == [q.flight[t].block] + q.free && q'.flight == q.flight - {t}
              && q' == q.(free := q'.free, flight := q'.flight, place := q'.place)
  {
    if t in q.flight { assert FlightOk(q, t); }
  }

  /** A timeout takes the receiver off the list and lets its call fail; a failed call leaves nothing behind; a reset frees
      the queued blocks and fails all that wait, and calls that are copying go on. */
  lemma OthersComeTo(q: Queue, prio: map<int, nat>, t: int)
    requires Inv(q)
    ensures var q' := Step(q, prio, Timeout(t));
            && q' == q.(receivers := q'.receivers, failed := q'.failed)
            && (forall u :: u in q'.receivers <==> u in q.receivers && u != t) && (forall u :: u in q'.failed <==> u in q.failed || u == t)
    ensures var q' := Step(q, prio, Fail(t));
            q' == q.(failed := q'.failed) && forall u :: u in q'.failed <==> u in q.failed && u != t
    ensures var q' := Step(q, prio, Clear);
            && q' == q.(receivers := [], failed := q'.failed, queue := [], entry := 0, free := q'.free, place := q'.place)
            && (forall u :: u in q'.failed <==> u in q.failed || u in q.receivers)
            && (forall b :: b in q'.free <==> b in q.free || b in q.queue)
    ensures t in q.woken ==> forall size, wait ::
              Step(q, prio, RecvOn(t, size, wait)) == Step(q.(woken := q.woken - {t}), prio, Recv(t, size, wait))
  {
    hide NoDup, Without, Reversed;
    WithoutSpec(q.receivers, t);
    ReversedMembers(q.queue);
  }

  // ---- runs ----

  datatype Move = Move(op: Op, prio: map<int, nat>)

  ghost predicate LegalRun(q: Queue, moves: seq<Move>)
    requires Inv(q)
    decreases |moves|
  {
    moves == []
    || (Legal(q, moves[0].op)
        && (StepInv(q, moves[0].prio, moves[0].op); LegalRun(Step(q, moves[0].prio, moves[0].op), moves[1..])))
  }

  ghost function RunOf(q: Queue, moves: seq<Move>): (Queue, seq<Event>)
    requires Inv(q) && LegalRun(q, moves)
    decreases |moves|
  {
    if moves == [] then (q, [])
    else
      StepInv(q, moves[0].prio, moves[0].op);
      var (q', es) := RunOf(Step(q, moves[0].prio, moves[0].op), moves[1..]);
      (q', [EventOf(q, moves[0].op)] + es)
  }

  /** Under any interleaving every block is in exactly one of the free list, the queue and one call, the count
      is the length of the queue, and no wakeup is lost. */
  lemma {:induction false} RunInv(q: Queue, moves: seq<Move>)
    requires Inv(q) && LegalRun(q, moves)
    ensures Inv(RunOf(q, moves).0)
    decreases |moves|
  {
    hide Inv, Step, Legal, EventOf;
    if moves != [] {
      StepInv(q, moves[0].prio, moves[0].op);
      RunInv(Step(q, moves[0].prio, moves[0].op), moves[1..]);
    }
  }

  /** A queue that one pushes at the back or, if urgent, at the front, and takes from at the front. */
  function Pushed(ms: seq<seq<int>>, e: Event): seq<seq<int>> {
    match e
    case Silent => ms
    case Back(m) => ms + [m]
    case Front(m) => [m] + ms
    case Took(t, m) => if ms == [] then [] else ms[1..]
    case Emptied => []
  }

  predicate Gives(ms: seq<seq<int>>, e: Event) {
    e.Took? ==> ms != [] && e.m == ms[0]
  }

  lemma {:induction false} TextsSame(list: seq<int>, sent: map<int, seq<int>>, sent': map<int, seq<int>>)
    requires forall b :: b in list ==> b in sent && b in sent' && sent'[b] == sent[b]
    ensures Texts(list, sent') == Texts(list, sent)
  {
    if list != [] {
      MembersOfTail(list);
      var b := list[0];
      assert b in list;
      TextsSame(list[1..], sent, sent');
    }
  }

  lemma {:induction false} TextsBehind(list: seq<int>, sent: map<int, seq<int>>, b: int)
    requires b in sent
    ensures Texts(list + [b], sent) == Texts(list, sent) + [sent[b]]
  {
    if list != [] {
      TextsBehind(list[1..], sent, b);
      assert (list + [b])[1..] == list[1..] + [b];
    } else {
      assert (list + [b])[1..] == [];
    }
  }

  /** A step changes the queued messages as its event says, and takes the first one. */
  lemma StepEvent(q: Queue, prio: map<int, nat>, op: Op)
    requires Inv(q) && Legal(q, op)
    ensures Copyable(q, op)
    ensures Messages(Step(q, prio, op)) == Pushed(Messages(q), EventOf(q, op)) && Gives(Messages(q), EventOf(q, op))
  {
    hide NoDup, BlocksOk, ContentOk, WaitOk, Start, LinkIn, TryRecv, ByteIn, ByteOut, PutBack, Reset, Inv, Texts;
    StepInv(q, prio, op);
    if q.queue != [] { HeadSent(q); }
    match op
    case Send(t, data, urgent) => StartSame(q, t, data, urgent);
    case CopyIn(t) => ByteInSame(q, t);
    case Link(t) => LinkMessages(q, t);
    case Recv(t, size, wait) => RecvMessages(q, prio, t, size, wait);
    case RecvOn(t, size, wait) => RecvMessages(q.(woken := q.woken - {t}), prio, t, size, wait);
    case CopyOut(t) => ByteOutSame(q, t);
    case Release(t) => PutBackSame(q, t);
    case Timeout(t) =>
    case Fail(t) =>
    case Clear => ResetMessages(q);
  }

  lemma HeadSent(q: Queue)
    requires Inv(q) && q.queue != []
    ensures q.queue[0] in q.sent
  {
    var b := q.queue[0];
    assert b in q.queue;
  }

  lemma StartSame(q: Queue, t: int, data: seq<int>, urgent: bool)
    requires Inv(q) && Legal(q, Send(t, data, urgent))
    ensures Messages(Start(q, t, data, urgent).0) == Messages(q)
  {
    hide NoDup, Texts;
    StartBlocks(q, t, data, urgent);
    TextsSame(q.queue, q.sent, Start(q, t, data, urgent).0.sent);
  }

  lemma ByteInSame(q: Queue, t: int)
    requires Copyable(q, CopyIn(t))
    ensures ByteIn(q, t).queue == q.queue && ByteIn(q, t).sent == q.sent
  {
  }

  lemma ByteOutSame(q: Queue, t: int)
    requires Copyable(q, CopyOut(t))
    ensures ByteOut(q, t).queue == q.queue && ByteOut(q, t).sent == q.sent
  {
  }

  lemma PutBackSame(q: Queue, t: int)
    requires t in q.flight
    ensures PutBack(q, t).queue == q.queue && PutBack(q, t).sent == q.sent
  {
  }

  lemma LinkMessages(q: Queue, t: int)
    requires Inv(q) && Legal(q, Link(t))
    ensures Messages(LinkIn(q, t)) == Pushed(Messages(q), EventOf(q, Link(t)))
  {
    hide NoDup, BlocksOk, Inv, ContentOk, WaitOk;
    FlightKnown(q, t);
    var f := q.flight[t];
    if f.urgent {
      assert ([f.block] + q.queue)[1..] == q.queue;
    } else {
      TextsBehind(q.queue, q.sent, f.block);
    }
  }

  lemma FlightKnown(q: Queue, t: int)
    requires Inv(q) && t in q.flight && q.flight[t].Sending?
    ensures q.flight[t].block in q.sent && q.sent[q.flight[t].block] == q.flight[t].data
  {
    assert FlightOk(q, t);
  }

  lemma RecvMessages(q: Queue, prio: map<int, nat>, t: int, size: nat, wait: bool)
    requires q.queue != [] ==> q.queue[0] in q.sent
    ensures var q' := TryRecv(q, prio, t, size, wait).0;
            Messages(q') == Pushed(Messages(q), TakenBy(q, t)) && Gives(Messages(q), TakenBy(q, t))
  {
  }

  lemma ResetMessages(q: Queue)
    ensures Messages(Reset(q)) == []
  {
  }

  /** The messages of a run come and go as from a queue pushed at the back by rt_mq_send and at the front by
      rt_mq_urgent, in the order of the second regions, and what a receiver takes is the front. */
  ghost predicate Deque(ms: seq<seq<int>>, es: seq<Event>, ms': seq<seq<int>>)
    decreases |es|
  {
    if es == [] then ms' == ms else Gives(ms, es[0]) && Deque(Pushed(ms, es[0]), es[1..], ms')
  }

  lemma {:induction false} RunIsDeque(q: Queue, moves: seq<Move>)
    requires Inv(q) && LegalRun(q, moves)
    ensures var (q', es) := RunOf(q, moves);
            Deque(Messages(q), es, Messages(q'))
    decreases |moves|
  {
    hide Inv, Step, Legal, EventOf, Messages;
    if moves != [] {
      var op, prio := moves[0].op, moves[0].prio;
      StepInv(q, prio, op);
      StepEvent(q, prio, op);
      RunIsDeque(Step(q, prio, op), moves[1..]);
      var es := RunOf(Step(q, prio, op), moves[1..]).1;
      assert ([EventOf(q, op)] + es)[1..] == es;
    }
  }

  // ---- payloads ----

  /** Receiver t has taken a block with message m, and is copying it. */
  ghost predicate Holds(q: Queue, t: int, m: seq<int>) {
    t in q.flight && q.flight[t].Receiving? && q.flight[t].block in q.sent && q.sent[q.flight[t].block] == m
  }

  /** No step of another call disturbs a message that is being copied out. */
  lemma StepKeepsHold(q: Queue, prio: map<int, nat>, op: Op, t: int, m: seq<int>)
    requires Inv(q) && Legal(q, op) && Holds(q, t, m) && op != Release(t)
    ensures Copyable(q, op) && Holds(Step(q, prio, op), t, m)
    ensures Step(q, prio, op).flight[t].size == q.flight[t].size
  {
    hide NoDup, Enqueued, Messages, ContentOk, Inv, Without, Reversed;
    StepInv(q, prio, op);
    NotQueued(q, t);
    match op
    case Send(u, data, urgent) => StartBlocks(q, u, data, urgent);
    case _ =>
  }

  lemma NotQueued(q: Queue, t: int)
    requires Inv(q) && t in q.flight
    ensures BlocksOk(q) && WaitOk(q) && q.flight[t].block in q.place && q.place[q.flight[t].block] == InFlight(t)
  {
  }

  lemma {:induction false} RunKeepsHold(q: Queue, moves: seq<Move>, t: int, m: seq<int>)
    requires Inv(q) && LegalRun(q, moves) && Holds(q, t, m) && forall i :: 0 <= i < |moves| ==> moves[i].op != Release(t)
    ensures Holds(RunOf(q, moves).0, t, m) && RunOf(q, moves).0.flight[t].size == q.flight[t].size
    decreases |moves|
  {
    hide Inv, Step, Legal, EventOf;
    if moves != [] {
      StepInv(q, moves[0].prio, moves[0].op);
      StepKeepsHold(q, moves[0].prio, moves[0].op, t, m);
      RunKeepsHold(Step(q, moves[0].prio, moves[0].op), moves[1..], t, m);
    }
  }

  /** What rt_mq_recv has copied when it releases the block is the message that it took, as far as its buffer
      and the message go, whatever the other calls did meanwhile. */
  lemma ReceivesTheMessage(q: Queue, moves: seq<Move>, t: int, m: seq<int>)
    requires Inv(q) && LegalRun(q, moves) && Holds(q, t, m) && forall i :: 0 <= i < |moves| ==> moves[i].op != Release(t)
    requires Legal(RunOf(q, moves).0, Release(t))
    ensures var got, n := RunOf(q, moves).0.flight[t].got, Smaller(q.flight[t].size, |m|);
            |got| == Smaller(q.flight[t].size, q.msgSize) && n <= |got| && got[..n] == m[..n]
  {
    RunInv(q, moves);
    RunKeepsHold(q, moves, t, m);
    SizeKept(q, moves);
    Copied(RunOf(q, moves).0, t, m);
  }

  lemma Copied(q: Queue, t: int, m: seq<int>)
    requires Inv(q) && Holds(q, t, m) && Legal(q, Release(t))
    ensures var got, n := q.flight[t].got, Smaller(q.flight[t].size, |m|);
            n <= |got| && got[..n] == m[..n]
  {
    assert FlightOk(q, t);
    var b := q.flight[t].block;
    var got, n := q.flight[t].got, Smaller(q.flight[t].size, |m|);
    assert q.content[b][..|m|] == m;
    assert got[..n] == q.content[b][..|m|][..n];
  }

  lemma StepSize(q: Queue, prio: map<int, nat>, op: Op)
    requires Copyable(q, op)
    ensures Step(q, prio, op).msgSize == q.msgSize
  {
    hide Enqueued, Without, Reversed;
  }

  lemma {:induction false} SizeKept(q: Queue, moves: seq<Move>)
    requires Inv(q) && LegalRun(q, moves)
    ensures RunOf(q, moves).0.msgSize == q.msgSize
    decreases |moves|
  {
    hide Inv, Legal, EventOf, Step, Copyable;
    if moves != [] {
      StepInv(q, moves[0].prio, moves[0].op);
      StepSize(q, moves[0].prio, moves[0].op);
      SizeKept(Step(q, moves[0].prio, moves[0].op), moves[1..]);
    }
  }

  /** Once every woken receiver has run, receivers wait only at an empty queue. */
  lemma Quiescent(q: Queue, moves: seq<Move>)
    requires Inv(q) && LegalRun(q, moves) && RunOf(q, moves).0.woken == {}
    ensures RunOf(q, moves).0.receivers != [] ==> RunOf(q, moves).0.queue == []
  {
    RunInv(q, moves);
  }
}
