/** The message queue object of ipc.c on its own links: two singly linked lists through the blocks of the pool,
    changed region by region. */
module MsgQueues {
  import opened RtDef
  import opened RtList
  import opened IpcList
  import opened MsgQueueModel

  function At(list: seq<int>, k: int): int {
    if 0 <= k < |list| then list[k] else NULL
  }

  ghost predicate LinkAt(next: map<int, int>, list: seq<int>, k: nat)
    requires k < |list|
  {
    list[k] in next && next[list[k]] == At(list, k + 1)
  }

  /** The links from head on run through list and end. */
  ghost predicate Chain(next: map<int, int>, head: int, list: seq<int>) {
    head == At(list, 0) && forall k :: 0 <= k < |list| ==> LinkAt(next, list, k)
  }

  lemma ChainHead(next: map<int, int>, head: int, list: seq<int>)
    requires Chain(next, head, list) && list != []
    ensures head in next && Chain(next, next[head], list[1..])
  {
    assert LinkAt(next, list, 0);
    forall k | 0 <= k < |list| - 1
      ensures LinkAt(next, list[1..], k)
    {
      assert LinkAt(next, list, k + 1);
    }
  }

  lemma ChainFrame(next: map<int, int>, head: int, list: seq<int>, b: int, v: int)
    requires Chain(next, head, list) && b !in list
    ensures Chain(next[b := v], head, list)
  {
    var nx := next[b := v];
    forall k | 0 <= k < |list|
      ensures LinkAt(nx, list, k)
    {
      assert LinkAt(next, list, k);
      var x := list[k];
      assert x in list;
    }
  }

  lemma ChainPushed(next: map<int, int>, head: int, list: seq<int>, b: int)
    requires Chain(next, head, list) && b !in list
    ensures Chain(next[b := head], b, [b] + list)
  {
    ChainFrame(next, head, list, b, head);
    var nx, r := next[b := head], [b] + list;
    forall k | 0 <= k < |r|
      ensures LinkAt(nx, r, k)
    {
      if k > 0 { assert LinkAt(nx, list, k - 1); }
    }
  }

  lemma ChainAppended(next: map<int, int>, head: int, list: seq<int>, b: int)
    requires Chain(next, head, list) && b !in list && NoDup(list) && b in next && next[b] == NULL && list != []
    ensures Chain(next[list[|list| - 1] := b], head, list + [b])
  {
    var last := list[|list| - 1];
    var r := list + [b];
    assert last in list;
    var nx := next[last := b];
    forall k | 0 <= k < |r|
      ensures LinkAt(nx, r, k)
    {
      if k < |list| {
        assert LinkAt(next, list, k);
        if k < |list| - 1 { assert Differ(list, k, |list| - 1); }
      }
    }
  }

  /** Both lists are linked, and the tail is the last of the queue. */
  ghost predicate Threaded(next: map<int, int>, freeHead: int, free: seq<int>, head: int, tail: int, queue: seq<int>) {
    Chain(next, freeHead, free) && Chain(next, head, queue) && tail == At(queue, |queue| - 1)
  }

  class MsgQueueObject {
    const flag: Flag
    const msgSize: nat
    var next: map<int, int>
    var content: map<int, seq<int>>    // the bytes of the blocks
    var head: int                      // msg_queue_head
    var tail: int                      // msg_queue_tail
    var freeHead: int                  // msg_queue_free
    var entry: nat
    var suspended: seq<int>
    ghost var free: seq<int>
    ghost var queue: seq<int>
    ghost var woken: set<int>
    ghost var failed: set<int>
    ghost var flight: map<int, Flight>
    ghost var place: map<int, Place>
    ghost var sent: map<int, seq<int>>

    ghost function State(): Queue
      reads this
    {
      Queue(flag, msgSize, content, free, queue, entry, suspended, woken, failed, flight, place, sent)
    }

    ghost predicate Valid()
      reads this
    {
      Threaded(next, freeHead, free, head, tail, queue) && NULL !in place && Inv(State())
    }

    /** rt_mq_init with room for n messages; block k is at offset k of the pool */
    constructor (flag: Flag, msgSize: nat, n: nat)
      ensures Valid()
      ensures State().queue == [] && entry == 0 && suspended == [] && |free| == n && flight == map[]
    {
      this.flag, this.msgSize := flag, msgSize;
      head, tail := NULL, NULL;
      var first := NULL;
      var links: map<int, int> := map[];
      ghost var list: seq<int> := [];
      var k := 0;
      while k < n
        invariant 0 <= k <= n && Chain(links, first, list) && |list| == k
        invariant NoDup(list) && (forall b :: b in list <==> 0 <= b < k) && forall b :: b in links <==> 0 <= b < k
      {
        ChainPushed(links, first, list, k);
        NoDupPushed(list, k);
        links := links[k := first];
        first := k;
        list := [k] + list;
        k := k + 1;
      }
      next, freeHead := links, first;
      free, queue, entry, suspended := list, [], 0, [];
      content := map b | b in links :: seq(msgSize, _ => 0);
      woken, failed, flight := {}, {}, map[];
      place := map b | b in links :: InFree;
      sent := map b | b in links :: [];
    }

    /** The first region of rt_mq_send and rt_mq_urgent: a block from the free list; NULL stands for -RT_EFULL */
    method SendBegin(t: int, data: seq<int>, ghost urgent: bool) returns (msg: int)
      requires Valid() && Outside(State(), t) && 0 < |data| <= msgSize
      modifies this
      ensures Valid() && State() == Start(old(State()), t, data, urgent).0
      ensures msg != NULL <==> Start(old(State()), t, data, urgent).1
      ensures msg != NULL ==> t in flight && flight[t] == Sending(msg, data, urgent, 0)
    {
      hide Inv, Chain;
      ghost var q := State();
      StartInv(q, t, data, urgent);
      FreeKnown(q);
      msg := freeHead;
      if msg == NULL {
        FreeEmpty(next, freeHead, free);
      } else {
        FreeEmpty(next, freeHead, free);
        ChainHead(next, freeHead, free);
        freeHead := next[msg];
        free := free[1..];
        flight := flight[t := Sending(msg, data, urgent, 0)];
        place := place[msg := InFlight(t)];
        sent := sent[msg := data];
      }
    }

    /** One byte of rt_memcpy from the sender's buffer */
    method CopyByteIn(t: int, msg: int, data: seq<int>, k: nat)
      requires Valid() && t in flight && flight[t].Sending? && flight[t].block == msg && flight[t].data == data
      requires k == flight[t].copied < |data|
      modifies this`content, this`flight
      ensures Valid() && Copyable(old(State()), CopyIn(t)) && State() == ByteIn(old(State()), t)
    {
      hide Inv, Chain;
      ByteInInv(State(), t);
      content := content[msg := content[msg][k := data[k]]];
      flight := flight[t := flight[t].(copied := k + 1)];
    }

    /** Wake the first receiver. */
    method Resume() returns (ready: int)
      modifies this`suspended, this`woken
      ensures State() == Wake(old(State()))
      ensures ready == At(old(suspended), 0)
    {
      ready := NULL;
      if suspended != [] {
        ready := suspended[0];
        suspended := suspended[1..];
        woken := woken + {ready};
      }
    }

    /** Link msg behind the tail. */
    method AppendLinks(msg: int)
      requires Threaded(next, freeHead, free, head, tail, queue) && NoDup(queue) && msg !in free && msg !in queue && msg != NULL
      requires queue != [] ==> queue[|queue| - 1] != NULL && queue[|queue| - 1] !in free && queue[0] != NULL
      modifies this`next, this`head, this`tail
      ensures Threaded(next, freeHead, free, head, tail, queue + [msg])
    {
      hide Chain, NoDup;
      ChainFrame(next, freeHead, free, msg, NULL);
      ChainFrame(next, head, queue, msg, NULL);
      FreeEmpty(next, head, queue);
      next := next[msg := NULL];
      if tail != NULL {
        ChainAppended(next, head, queue, msg);
        ChainFrame(next, freeHead, free, tail, msg);
        next := next[tail := msg];
      }
      tail := msg;
      if head == NULL {
        head := msg;
        SingleChain(next, msg);
        assert queue + [msg] == [msg];
      }
    }

    /** The second region of rt_mq_send, with the clearing of the message's own link that precedes the copy */
    method LinkBack(t: int, msg: int) returns (ready: int)
      requires Valid() && Legal(State(), MsgQueueModel.Link(t)) && flight[t].block == msg && !flight[t].urgent
      modifies this
      ensures Valid() && State() == LinkIn(old(State()), t)
      ensures ready == At(old(suspended), 0)
    {
      hide Inv, Threaded, NoDup, Wake, Legal;
      ghost var q := State();
      LinkNow(q, t);
      LinkInv(State(), t);
      FlightApart(State(), t);
      QueueKnown(State());
      AppendLinks(msg);
      entry := entry + 1;
      queue := queue + [msg];
      flight := flight - {t};
      place := place[msg := InQueue];
      assert State() == Linked(q, t);
      ready := Resume();
    }

    /** Link msg before the head. */
    method PrependLinks(msg: int)
      requires Threaded(next, freeHead, free, head, tail, queue) && msg !in free && msg !in queue
      requires queue != [] ==> queue[|queue| - 1] != NULL
      modifies this`next, this`head, this`tail
      ensures Threaded(next, freeHead, free, head, tail, [msg] + queue)
    {
      hide Chain;
      ChainPushed(next, head, queue, msg);
      ChainFrame(next, freeHead, free, msg, head);
      next := next[msg := head];
      head := msg;
      if tail == NULL {
        tail := msg;
      }
    }

    /** The second region of rt_mq_urgent */
    method LinkFront(t: int, msg: int) returns (ready: int)
      requires Valid() && Legal(State(), MsgQueueModel.Link(t)) && flight[t].block == msg && flight[t].urgent
      modifies this
      ensures Valid() && State() == LinkIn(old(State()), t)
      ensures ready == At(old(suspended), 0)
    {
      hide Inv, Threaded, NoDup, Wake, Legal;
      ghost var q := State();
      LinkNow(q, t);
      LinkInv(State(), t);
      FlightApart(State(), t);
      QueueKnown(State());
      PrependLinks(msg);
      entry := entry + 1;
      queue := [msg] + queue;
      flight := flight - {t};
      place := place[msg := InQueue];
      assert State() == Linked(q, t);
      ready := Resume();
    }

    /** Unlink the head. */
    method TakeHead() returns (msg: int)
      requires Chain(next, head, queue) && tail == At(queue, |queue| - 1) && NoDup(queue) && queue != []
      modifies this`head, this`tail
      ensures msg == old(head) == queue[0] && msg in next
      ensures Chain(next, head, queue[1..]) && tail == At(queue[1..], |queue| - 2)
    {
      hide Chain, NoDup;
      QueueHead(next, head, queue);
      LastOfTail(queue);
      ChainHead(next, head, queue);
      msg := head;
      head := next[msg];
      if tail == msg {
        tail := NULL;
      }
    }

    /** What rt_mq_recv does with a message in the queue. */
    method TakeMessage(t: int, ghost size: nat) returns (msg: int)
      requires Threaded(next, freeHead, free, head, tail, queue) && NoDup(queue) && queue != [] && entry > 0
      modifies this`head, this`tail, this`entry, this`queue, this`flight, this`place
      ensures Threaded(next, freeHead, free, head, tail, queue) && msg == old(queue)[0]
      ensures entry == old(entry) - 1 && queue == old(queue)[1..]
      ensures flight == old(flight)[t := Receiving(msg, size, [])] && place == old(place)[msg := InFlight(t)]
    {
      hide Chain, NoDup;
      msg := TakeHead();
      entry := entry - 1;
      queue := queue[1..];
      flight := flight[t := Receiving(msg, size, [])];
      place := place[msg := InFlight(t)];
    }

    /** rt_mq_recv from its start, or from where a woken receiver goes on, to the copy or to the next wait; the
        block taken, or NULL */
    method RecvBegin(t: int, size: nat, prio: map<int, nat>, timeout: int) returns (out: Outcome, msg: int)
      requires Threaded(next, freeHead, free, head, tail, queue) && NULL !in place && BlocksOk(State()) && ContentOk(State()) && Outside(State(), t) && size > 0
      requires WaitOk(State().(entry := if entry > 0 then entry - 1 else 0))
      modifies this
      ensures Valid() && (State(), out) == TryRecv(old(State()), prio, t, size, timeout != 0)
      ensures out == Done ==> t in flight && flight[t] == Receiving(msg, size, [])
    {
      hide Inv, Threaded, NoDup, BlocksOk, ContentOk, WaitOk, Enqueued;
      ghost var q := State();
      TryRecvInv(State(), prio, t, size, timeout != 0);
      EntryIsLength(State());
      msg := NULL;
      if entry == 0 {
        if timeout == 0 {
          out := Refused;
        } else {
          suspended := Suspend(suspended, prio, flag, t);
          out := Blocked;
        }
      } else {
        QueueInPlace(State());
        msg := TakeMessage(t, size);
        out := Done;
      }
    }

    /** One byte of rt_memcpy to the receiver's buffer */
    method CopyByteOut(t: int, msg: int, k: nat) returns (value: int)
      requires Valid() && Legal(State(), CopyOut(t)) && flight[t].block == msg && k == |flight[t].got|
      modifies this`flight
      ensures Valid() && Copyable(old(State()), CopyOut(t)) && State() == ByteOut(old(State()), t)
      ensures flight[t].got == old(flight[t].got) + [value]
    {
      hide Inv, Chain;
      ByteOutInv(State(), t);
      value := content[msg][k];
      flight := flight[t := flight[t].(got := flight[t].got + [value])];
    }

    /** The last region of rt_mq_recv */
    method RecvEnd(t: int, msg: int)
      requires Valid() && Legal(State(), Release(t)) && flight[t].block == msg
      modifies this
      ensures Valid() && State() == PutBack(old(State()), t)
    {
      hide Inv, Chain, NoDup;
      PutBackInv(State(), t);
      FlightApart(State(), t);
      ChainPushed(next, freeHead, free, msg);
      ChainFrame(next, head, queue, msg, freeHead);
      next := next[msg := freeHead];
      freeHead := msg;
      free := [msg] + free;
      flight := flight - {t};
      place := place[msg := InFree];
    }

    /** Move the head of the queue to the free list. */
    method MoveHead()
      requires Threaded(next, freeHead, free, head, tail, queue)
      requires NoDup(queue) && queue != [] && forall b :: b in queue ==> b !in free && b != NULL
      modifies this`next, this`head, this`tail, this`freeHead, this`free, this`queue
      ensures Threaded(next, freeHead, free, head, tail, queue)
      ensures queue == old(queue)[1..] && free == [old(queue)[0]] + old(free)
      ensures NoDup(queue) && forall b :: b in queue ==> b !in free && b != NULL
    {
      hide Chain, NoDup;
      var b := NoDupTail(queue);
      var msg := TakeHead();
      queue := queue[1..];
      ChainPushed(next, freeHead, free, msg);
      ChainFrame(next, head, queue, msg, freeHead);
      next := next[msg := freeHead];
      freeHead := msg;
      free := [msg] + free;
    }

    /** The loop of RT_IPC_CMD_RESET: every queued block goes to the free list. */
    method DrainQueue()
      requires Threaded(next, freeHead, free, head, tail, queue) && NoDup(queue) && (forall b :: b in queue ==> b !in free && b != NULL)
      modifies this`next, this`head, this`tail, this`freeHead, this`free, this`queue
      ensures Threaded(next, freeHead, free, head, tail, queue)
      ensures queue == [] && free == Reversed(old(queue)) + old(free)
    {
      hide Chain, NoDup;
      ghost var all, rest := queue, free;
      ghost var k: nat := 0;
      while head != NULL
        invariant k <= |all| && queue == all[k..] && free == Reversed(all[..k]) + rest
        invariant Threaded(next, freeHead, free, head, tail, queue)
        invariant NoDup(queue) && forall b :: b in queue ==> b !in free && b != NULL
        decreases |queue|
      {
        QueueHead(next, head, queue);
        ReversedStep(all, k);
        MoveHead();
        k := k + 1;
      }
      QueueEnd(next, head, queue);
      assert all[..k] == all;
    }

    /** RT_IPC_CMD_RESET; `ready` are the receivers woken with an error */
    method ResetRegion(error: map<int, int>) returns (ready: seq<int>, error': map<int, int>)
      requires Valid()
      modifies this
      ensures Valid() && State() == Reset(old(State())) && ready == old(suspended) && error' == Failed(error, ready)
    {
      hide Inv, Threaded, NoDup, Drained, Members, Reversed;
      ghost var q := State();
      ResetInv(q);
      QueueApart(q);
      ready, error' := ResumeAll(suspended, error);
      failed := failed + Members(suspended);
      suspended := [];
      DrainQueue();
      place := Drained(place);
      entry := 0;
      NoNull(q.place);
      assert State() == Reset(q);
    }
  }

  lemma FreeEmpty(next: map<int, int>, head: int, list: seq<int>)
    requires Chain(next, head, list) && (list != [] ==> list[0] != NULL)
    ensures head == NULL <==> list == []
    ensures list != [] ==> head == list[0]
  {
  }

  lemma FreeKnown(q: Queue)
    requires Inv(q) && NULL !in q.place
    ensures q.free != [] ==> q.free[0] != NULL
    ensures forall b :: b in q.free ==> b != NULL && b !in q.queue
  {
    if q.free != [] {
      var b := q.free[0];
      assert b in q.free;
    }
  }

  lemma FlightApart(q: Queue, t: int)
    requires Inv(q) && t in q.flight && NULL !in q.place
    ensures q.flight[t].block !in q.free && q.flight[t].block !in q.queue && q.flight[t].block != NULL
    ensures NoDup(q.queue)
  {
  }

  lemma QueueKnown(q: Queue)
    requires Inv(q) && NULL !in q.place
    ensures q.queue != [] ==> q.queue[|q.queue| - 1] != NULL && q.queue[0] != NULL && q.queue[|q.queue| - 1] !in q.free
  {
    if q.queue != [] {
      var x, y := q.queue[|q.queue| - 1], q.queue[0];
      assert x in q.queue && y in q.queue;
    }
  }

  lemma SingleChain(next: map<int, int>, b: int)
    requires b in next && next[b] == NULL
    ensures Chain(next, b, [b])
  {
  }

  lemma LinkNow(q: Queue, t: int)
    requires Legal(q, MsgQueueModel.Link(t))
    ensures t in q.flight && q.flight[t].Sending?
  {
  }

  lemma NoNull(place: map<int, Place>)
    ensures NULL in Drained(place) <==> NULL in place
  {
  }

  lemma QueueInPlace(q: Queue)
    requires BlocksOk(q) && NULL !in q.place && q.queue != []
    ensures NoDup(q.queue) && q.queue[0] != NULL && q.queue[0] !in q.free
  {
    var b := q.queue[0];
    assert b in q.queue;
  }

  lemma LastOfTail(list: seq<int>)
    requires NoDup(list) && list != []
    ensures list[|list| - 1] == list[0] <==> |list| == 1
    ensures |list| > 1 ==> At(list, |list| - 1) == At(list[1..], |list[1..]| - 1)
  {
    Unique(list, 0);
  }

  lemma QueueHead(next: map<int, int>, head: int, list: seq<int>)
    requires Chain(next, head, list) && (list != [] || head != NULL)
    ensures list != [] && head == list[0]
  {
  }

  lemma QueueEnd(next: map<int, int>, head: int, list: seq<int>)
    requires Chain(next, head, list) && head == NULL && NoDup(list) && forall b :: b in list ==> b != NULL
    ensures list == []
  {
    if list != [] { var b := NoDupTail(list); }
  }

  lemma {:induction false} ReversedStep(s: seq<int>, k: nat)
    requires k < |s|
    ensures Reversed(s[..k + 1]) == [s[k]] + Reversed(s[..k])
    decreases k
  {
    if k > 0 {
      ReversedStep(s[1..], k - 1);
      assert s[..k + 1][1..] == s[1..][..k] && s[..k][1..] == s[1..][..k - 1];
    } else {
      assert s[..1][1..] == [] && s[..0] == [];
    }
  }

  lemma QueueApart(q: Queue)
    requires Inv(q) && NULL !in q.place
    ensures NoDup(q.queue) && forall b :: b in q.queue ==> b !in q.free && b != NULL
  {
  }
}
