/** Mailboxes (rt_mb_send_wait, rt_mb_recv and the reset of rt_mb_control in ipc.c) as a machine whose steps
    are the interrupt-free regions of these calls and the timeouts of blocked threads. */
module MailboxModel {
  import opened RtList
  import opened IpcList

  /** The mailbox object, and how the threads inside a call stand: `receivers` and `senders` are blocked, the
      woken ones have been resumed without error but have not run yet, the failed ones were resumed with an
      error.  mail has the value of every sender that blocked. */
  datatype Mailbox = Mailbox(flag: Flag, size: nat, pool: seq<int>, entry: nat, inOffset: nat, outOffset: nat,
                             receivers: seq<int>, senders: seq<int>,
                             wokenReceivers: set<int>, wokenSenders: set<int>, failed: set<int>, mail: map<int, int>)

  datatype Outcome = Done | Refused | Blocked

  // ---- the ring ----

  /** k places on from the output offset. */
  function Slot(b: Mailbox, k: nat): int {
    if b.outOffset + k >= b.size then b.outOffset + k - b.size else b.outOffset + k
  }

  predicate RingOk(b: Mailbox) {
    && |b.pool| == b.size && b.entry <= b.size
    && (if b.size == 0 then b.inOffset == 0 && b.outOffset == 0
        else b.outOffset < b.size && b.inOffset < b.size
             && (b.inOffset == Slot(b, b.entry) || (b.entry == b.size && b.inOffset == b.outOffset)))
  }

  /** The mails in the box, oldest first. */
  function Contents(b: Mailbox): (r: seq<int>)
    requires RingOk(b)
    ensures |r| == b.entry
  {
    seq(b.entry, k requires 0 <= k < b.entry => b.pool[Slot(b, k)])
  }

  function Advance(offset: nat, size: nat): nat {
    if offset + 1 >= size then 0 else offset + 1
  }

  function Put(b: Mailbox, v: int): Mailbox
    requires RingOk(b) && b.entry < b.size
  {
    b.(pool := b.pool[b.inOffset := v], inOffset := Advance(b.inOffset, b.size), entry := b.entry + 1)
  }

  function Get(b: Mailbox): (Mailbox, int)
    requires RingOk(b) && b.entry > 0
  {
    (b.(outOffset := Advance(b.outOffset, b.size), entry := b.entry - 1), b.pool[b.outOffset])
  }

  /** The input offset is always the output offset plus the number of mails, around the ring. */
  lemma InOffset(b: Mailbox)
    requires RingOk(b) && b.size > 0
    ensures b.inOffset == (b.outOffset + b.entry) % b.size
  {
    Around(b.outOffset + b.entry, b.size);
  }

  lemma Around(x: nat, n: nat)
    requires n > 0 && x < 2 * n
    ensures x % n == if x >= n then x - n else x
  {
    if x >= n { assert x == n + (x - n); }
  }

  /** The ring is a bounded queue: a mail goes in behind all others. */
  lemma PutAppends(b: Mailbox, v: int)
    requires RingOk(b) && b.entry < b.size
    ensures RingOk(Put(b, v)) && Contents(Put(b, v)) == Contents(b) + [v]
  {
    var b' := Put(b, v);
    forall k | 0 <= k < b'.entry
      ensures Contents(b')[k] == (Contents(b) + [v])[k]
    {
    }
  }

  /** And the oldest comes out first. */
  lemma GetTakesFirst(b: Mailbox)
    requires RingOk(b) && b.entry > 0
    ensures var (b', v) := Get(b);
            RingOk(b') && Contents(b) == [v] + Contents(b')
  {
    var (b', v) := Get(b);
    forall k | 0 <= k < b.entry
      ensures Contents(b)[k] == ([v] + Contents(b'))[k]
    {
    }
  }

  // ---- the regions ----

  function WakeReceiver(b: Mailbox): Mailbox {
    if b.receivers == [] then b
    else b.(receivers := b.receivers[1..], wokenReceivers := b.wokenReceivers + {b.receivers[0]})
  }

  function WakeSender(b: Mailbox): Mailbox {
    if b.senders == [] then b
    else b.(senders := b.senders[1..], wokenSenders := b.wokenSenders + {b.senders[0]})
  }

  /** rt_mb_send_wait from its start, or from where a blocked sender goes on, to its end or to the next wait */
  function TrySend(b: Mailbox, prio: map<int, nat>, t: int, v: int, wait: bool): (Mailbox, Outcome)
    requires RingOk(b)
  {
    if b.entry == b.size then
      if wait then (b.(senders := Enqueued(b.senders, prio, b.flag, t), mail := b.mail[t := v]), Blocked) else (b, Refused)
    else (WakeReceiver(Put(b, v)), Done)
  }

  /** rt_mb_recv likewise, with the mail received */
  function TryRecv(b: Mailbox, prio: map<int, nat>, t: int, wait: bool): (Mailbox, Outcome, int)
    requires RingOk(b)
  {
    if b.entry == 0 then
      if wait then (b.(receivers := Enqueued(b.receivers, prio, b.flag, t)), Blocked, 0) else (b, Refused, 0)
    else
      var (b', v) := Get(b);
      (WakeSender(b'), Done, v)
  }

  /** rt_mb_control with RT_IPC_CMD_RESET */
  function Reset(b: Mailbox): Mailbox {
    b.(receivers := [], senders := [], entry := 0, inOffset := 0, outOffset := 0,
       failed := b.failed + (set t | t in b.receivers) + (set t | t in b.senders))
  }

  // ---- the machine ----

  datatype Op =
    | Send(t: int, v: int, wait: bool)
    | SendOn(t: int, wait: bool)      // a woken sender runs; wait is false if its time is up
    | Recv(t: int, wait: bool)
    | RecvOn(t: int, wait: bool)
    | Timeout(t: int)
    | Fail(t: int)                    // a thread woken with an error returns
    | Clear

  /** A thread that is in no call on this mailbox. */
  ghost predicate Outside(b: Mailbox, t: int) {
    t !in b.receivers && t !in b.senders && t !in b.wokenReceivers && t !in b.wokenSenders && t !in b.failed
  }

  ghost predicate Legal(b: Mailbox, op: Op) {
    match op
    case Send(t, v, wait) => Outside(b, t)
    case SendOn(t, wait) => t in b.wokenSenders && t in b.mail
    case Recv(t, wait) => Outside(b, t)
    case RecvOn(t, wait) => t in b.wokenReceivers
    case Timeout(t) => t in b.receivers || t in b.senders
    case Fail(t) => t in b.failed
    case Clear => true
  }

  /** What a step does to the mails. */
  datatype Event = None | In(v: int) | Out(v: int) | Emptied

  function Step(b: Mailbox, prio: map<int, nat>, op: Op): (Mailbox, Event)
    requires RingOk(b)
    requires op.SendOn? ==> op.t in b.mail
  {
    match op
    case Send(t, v, wait) =>
      var (b', out) := TrySend(b, prio, t, v, wait);
      (b', if out == Done then In(v) else None)
    case SendOn(t, wait) =>
      var (b', out) := TrySend(b.(wokenSenders := b.wokenSenders - {t}), prio, t, b.mail[t], wait);
      (b', if out == Done then In(b.mail[t]) else None)
    case Recv(t, wait) =>
      var (b', out, v) := TryRecv(b, prio, t, wait);
      (b', if out == Done then Out(v) else None)
    case RecvOn(t, wait) =>
      var (b', out, v) := TryRecv(b.(wokenReceivers := b.wokenReceivers - {t}), prio, t, wait);
      (b', if out == Done then Out(v) else None)
    case Timeout(t) =>
      (b.(receivers := Without(b.receivers, t), senders := Without(b.senders, t), failed := b.failed + {t}), None)
    case Fail(t) => (b.(failed := b.failed - {t}), None)
    case Clear => (Reset(b), Emptied)
  }

  /** A thread is in one place at a time. */
  ghost predicate Placed(b: Mailbox) {
    && NoDup(b.receivers) && NoDup(b.senders)
    && (forall t :: t in b.wokenReceivers ==> t !in b.wokenSenders && t !in b.failed)
    && (forall t :: t in b.wokenSenders ==> t in b.mail && t !in b.failed)
    && (forall t :: t in b.receivers ==> t !in b.senders && t !in b.wokenReceivers && t !in b.wokenSenders && t !in b.failed)
    && (forall t :: t in b.senders ==> t in b.mail && t !in b.wokenReceivers && t !in b.wokenSenders && t !in b.failed)
  }

  /** No wakeup is lost: a receiver waits only if for every mail there is a receiver already on its way to
      it, and a sender only if there is one for every free place. */
  predicate NoLostWakeup(b: Mailbox) {
    && (b.receivers != [] ==> |b.wokenReceivers| >= b.entry)
    && (b.senders != [] ==> |b.wokenSenders| >= b.size - b.entry)
  }

  ghost predicate Inv(b: Mailbox) {
    RingOk(b) && Placed(b) && NoLostWakeup(b)
  }

  function New(flag: Flag, pool: seq<int>): (b: Mailbox)
    ensures Inv(b) && Contents(b) == []
  {
    Mailbox(flag, |pool|, pool, 0, 0, 0, [], [], {}, {}, {}, map[])
  }

  lemma WakeReceiverInv(b: Mailbox, b0: Mailbox)
    requires Placed(b) && b == b0.(pool := b.pool, inOffset := b.inOffset, entry := b0.entry + 1, wokenSenders := b.wokenSenders)
    requires b0.receivers != [] ==> |b0.wokenReceivers| >= b0.entry
    ensures Placed(WakeReceiver(b))
    ensures var b' := WakeReceiver(b); b'.receivers != [] ==> |b'.wokenReceivers| >= b'.entry
  {
    hide NoDup;
    if b.receivers != [] { var t := NoDupTail(b.receivers); }
  }

  lemma WakeSenderInv(b: Mailbox, b0: Mailbox)
    requires Placed(b) && b0.entry > 0 && b == b0.(outOffset := b.outOffset, entry := b0.entry - 1, wokenReceivers := b.wokenReceivers)
    requires b0.senders != [] ==> |b0.wokenSenders| >= b0.size - b0.entry
    ensures Placed(WakeSender(b))
    ensures var b' := WakeSender(b); b'.senders != [] ==> |b'.wokenSenders| >= b'.size - b'.entry
  {
    hide NoDup;
    if b.senders != [] { var t := NoDupTail(b.senders); }
  }

  /** Sending by a thread that has just left the woken senders, or was outside. */
  lemma TrySendInv(b: Mailbox, prio: map<int, nat>, t: int, v: int, wait: bool)
    requires RingOk(b) && Placed(b) && Outside(b, t)
    requires b.receivers != [] ==> |b.wokenReceivers| >= b.entry
    requires b.senders != [] ==> |b.wokenSenders| + 1 >= b.size - b.entry
    ensures Inv(TrySend(b, prio, t, v, wait).0)
  {
    hide NoDup, Enqueued;
    if b.entry < b.size {
      PutAppends(b, v);
      WakeReceiverInv(Put(b, v), b);
    } else if wait {
      EnqueuedMembers(b.senders, prio, b.flag, t);
    }
  }

  lemma TryRecvInv(b: Mailbox, prio: map<int, nat>, t: int, wait: bool)
    requires RingOk(b) && Placed(b) && Outside(b, t)
    requires b.receivers != [] ==> |b.wokenReceivers| + 1 >= b.entry
    requires b.senders != [] ==> |b.wokenSenders| >= b.size - b.entry
    ensures Inv(TryRecv(b, prio, t, wait).0)
  {
    hide NoDup, Enqueued;
    if b.entry > 0 {
      GetTakesFirst(b);
      WakeSenderInv(Get(b).0, b);
    } else if wait {
      EnqueuedMembers(b.receivers, prio, b.flag, t);
    }
  }

  lemma TimeoutInv(b: Mailbox, t: int)
    requires Inv(b) && (t in b.receivers || t in b.senders)
    ensures Inv(b.(receivers := Without(b.receivers, t), senders := Without(b.senders, t), failed := b.failed + {t}))
  {
    hide NoDup, Without;
    WithoutSpec(b.receivers, t);
    WithoutSpec(b.senders, t);
    if b.receivers == [] { WithoutNone(b.receivers, t); }
    if b.senders == [] { WithoutNone(b.senders, t); }
  }

  lemma StepInv(b: Mailbox, prio: map<int, nat>, op: Op)
    requires Inv(b) && Legal(b, op)
    ensures RingOk(b) && (op.SendOn? ==> op.t in b.mail)
    ensures Inv(Step(b, prio, op).0)
  {
    hide NoDup, TrySend, TryRecv, Placed, NoLostWakeup;
    match op
    case Send(t, v, wait) => LeaveNone(b); TrySendInv(b, prio, t, v, wait);
    case SendOn(t, wait) => LeaveSenders(b, t); TrySendInv(b.(wokenSenders := b.wokenSenders - {t}), prio, t, b.mail[t], wait);
    case Recv(t, wait) => LeaveNone(b); TryRecvInv(b, prio, t, wait);
    case RecvOn(t, wait) => LeaveReceivers(b, t); TryRecvInv(b.(wokenReceivers := b.wokenReceivers - {t}), prio, t, wait);
    case Timeout(t) => TimeoutInv(b, t);
    case Fail(t) => FailInv(b, t);
    case Clear => ResetPlaced(b);
  }

  lemma LeaveNone(b: Mailbox)
    requires Inv(b)
    ensures RingOk(b) && Placed(b)
    ensures b.receivers != [] ==> |b.wokenReceivers| >= b.entry
    ensures b.senders != [] ==> |b.wokenSenders| >= b.size - b.entry
  {
  }

  lemma LeaveSenders(b: Mailbox, t: int)
    requires Inv(b) && t in b.wokenSenders
    ensures var b1 := b.(wokenSenders := b.wokenSenders - {t});
            && RingOk(b1) && Placed(b1) && Outside(b1, t) && t in b.mail
            && (b1.receivers != [] ==> |b1.wokenReceivers| >= b1.entry)
            && (b1.senders != [] ==> |b1.wokenSenders| + 1 >= b1.size - b1.entry)
  {
  }

  lemma LeaveReceivers(b: Mailbox, t: int)
    requires Inv(b) && t in b.wokenReceivers
    ensures var b1 := b.(wokenReceivers := b.wokenReceivers - {t});
            && RingOk(b1) && Placed(b1) && Outside(b1, t)
            && (b1.receivers != [] ==> |b1.wokenReceivers| + 1 >= b1.entry)
            && (b1.senders != [] ==> |b1.wokenSenders| >= b1.size - b1.entry)
  {
  }

  lemma FailInv(b: Mailbox, t: int)
    requires Inv(b)
    ensures Inv(b.(failed := b.failed - {t}))
  {
    hide NoDup;
  }

  lemma ResetPlaced(b: Mailbox)
    requires Inv(b)
    ensures Inv(Reset(b))
  {
  }

  // ---- runs ----

  /** One step with the priorities that the threads have at that time. */
  datatype Move = Move(op: Op, prio: map<int, nat>)

  ghost predicate LegalRun(b: Mailbox, moves: seq<Move>)
    requires Inv(b)
    decreases |moves|
  {
    moves == []
    || (Legal(b, moves[0].op)
        && (StepInv(b, moves[0].prio, moves[0].op); LegalRun(Step(b, moves[0].prio, moves[0].op).0, moves[1..])))
  }

  ghost function RunOf(b: Mailbox, moves: seq<Move>): (Mailbox, seq<Event>)
    requires Inv(b) && LegalRun(b, moves)
    decreases |moves|
  {
    if moves == [] then (b, [])
    else
      StepInv(b, moves[0].prio, moves[0].op);
      var (b1, e) := Step(b, moves[0].prio, moves[0].op);
      var (b', es) := RunOf(b1, moves[1..]);
      (b', [e] + es)
  }

  /** Under any interleaving of senders, receivers, timeouts and resets no wakeup is lost. */
  lemma {:induction false} RunInv(b: Mailbox, moves: seq<Move>)
    requires Inv(b) && LegalRun(b, moves)
    ensures Inv(RunOf(b, moves).0)
    decreases |moves|
  {
    hide Inv, Step, Legal;
    if moves != [] {
      StepInv(b, moves[0].prio, moves[0].op);
      RunInv(Step(b, moves[0].prio, moves[0].op).0, moves[1..]);
    }
  }

  /** In every state that a mailbox can reach, no wakeup is lost. */
  lemma ReachableLosesNoWakeup(flag: Flag, pool: seq<int>, moves: seq<Move>)
    requires LegalRun(New(flag, pool), moves)
    ensures var b := RunOf(New(flag, pool), moves).0;
            && RingOk(b)
            && (b.receivers != [] ==> |b.wokenReceivers| >= b.entry)
            && (b.senders != [] ==> |b.wokenSenders| >= b.size - b.entry)
  {
    RunInv(New(flag, pool), moves);
  }

  /** Once every woken thread has run, receivers wait only at an empty mailbox and senders at a full one. */
  lemma Quiescent(b: Mailbox, moves: seq<Move>)
    requires Inv(b) && LegalRun(b, moves)
    requires RunOf(b, moves).0.wokenReceivers == {} && RunOf(b, moves).0.wokenSenders == {}
    ensures var b' := RunOf(b, moves).0;
            (b'.receivers != [] ==> b'.entry == 0) && (b'.senders != [] ==> b'.entry == b'.size)
  {
    RunInv(b, moves);
  }

  // ---- what a call comes to ----

  /** The first thread of a list is woken, and no other. */
  predicate FirstWoken(list: seq<int>, woken: set<int>, list': seq<int>, woken': set<int>) {
    if list == [] then list' == [] && woken' == woken
    else list == [list[0]] + list' && woken' == woken + {list[0]}
  }

  /** A send puts its mail in if and only if the box is not full, and wakes the first receiver; otherwise it waits with its
      mail if it may. */
  lemma SendComesTo(b: Mailbox, prio: map<int, nat>, t: int, v: int, wait: bool)
    requires RingOk(b) && t !in b.senders
    ensures var (b', out) := TrySend(b, prio, t, v, wait);
            && (out == Done <==> |Contents(b)| < b.size)
            && (out == Blocked <==> |Contents(b)| == b.size && wait)
            && RingOk(b')
            && (out == Done ==>
                  && Contents(b') == Contents(b) + [v] && FirstWoken(b.receivers, b.wokenReceivers, b'.receivers, b'.wokenReceivers)
                  && b' == b.(pool := b'.pool, inOffset := b'.inOffset, entry := b'.entry, receivers := b'.receivers,
                              wokenReceivers := b'.wokenReceivers))
            && (out == Blocked ==>
                  && b' == b.(senders := b'.senders, mail := b.mail[t := v])
                  && t in b'.senders && Without(b'.senders, t) == b.senders)
            && (out == Refused ==> b' == b)
  {
    SendEvent(b, prio, t, v, wait);
    hide Contents;
    EnqueuedKeeps(b.senders, prio, b.flag, t);
  }

  /** A receive takes the oldest mail if and only if there is one, and wakes the first sender; otherwise it waits if it
      may. */
  lemma RecvComesTo(b: Mailbox, prio: map<int, nat>, t: int, wait: bool)
    requires RingOk(b) && t !in b.receivers
    ensures var (b', out, v) := TryRecv(b, prio, t, wait);
            && (out == Done <==> Contents(b) != [])
            && (out == Blocked <==> Contents(b) == [] && wait)
            && RingOk(b')
            && (out == Done ==>
                  && Contents(b) == [v] + Contents(b') && FirstWoken(b.senders, b.wokenSenders, b'.senders, b'.wokenSenders)
                  && b' == b.(outOffset := b'.outOffset, entry := b'.entry, senders := b'.senders, wokenSenders := b'.wokenSenders))
            && (out == Blocked ==>
                  b' == b.(receivers := b'.receivers) && t in b'.receivers && Without(b'.receivers, t) == b.receivers)
            && (out == Refused ==> b' == b)
  {
    RecvEvent(b, prio, t, wait);
    hide Contents;
    EnqueuedKeeps(b.receivers, prio, b.flag, t);
  }

  /** A timeout takes the thread off its list and lets its call fail; a failed call leaves nothing behind; a reset empties
      the box and fails all that wait. */
  lemma OthersComeTo(b: Mailbox, prio: map<int, nat>, t: int)
    requires Inv(b)
    ensures var b' := Step(b, prio, Timeout(t)).0;
            && b' == b.(receivers := b'.receivers, senders := b'.senders, failed := b'.failed)
            && (forall u :: u in b'.receivers <==> u in b.receivers && u != t)
            && (forall u :: u in b'.senders <==> u in b.senders && u != t)
            && (forall u :: u in b'.failed <==> u in b.failed || u == t)
    ensures var b' := Step(b, prio, Fail(t)).0;
            b' == b.(failed := b'.failed) && forall u :: u in b'.failed <==> u in b.failed && u != t
    ensures var b' := Step(b, prio, Clear).0;
            && RingOk(b') && Contents(b') == [] && b'.receivers == [] && b'.senders == []
            && (b'.wokenReceivers, b'.wokenSenders, b'.mail, b'.size, b'.flag) == (b.wokenReceivers, b.wokenSenders, b.mail, b.size, b.flag)
            && forall u :: u in b'.failed <==> u in b.failed || u in b.receivers || u in b.senders
  {
    hide NoDup, Without;
    WithoutSpec(b.receivers, t);
    WithoutSpec(b.senders, t);
    ResetEmpties(b);
  }

  /** A woken thread goes on as if it called anew, with its mail. */
  lemma GoingOn(b: Mailbox, prio: map<int, nat>, t: int, wait: bool)
    requires Inv(b)
    ensures t in b.wokenSenders && t in b.mail ==>
              Step(b, prio, SendOn(t, wait)) == Step(b.(wokenSenders := b.wokenSenders - {t}), prio, Send(t, b.mail[t], wait))
    ensures t in b.wokenReceivers ==>
              Step(b, prio, RecvOn(t, wait)) == Step(b.(wokenReceivers := b.wokenReceivers - {t}), prio, Recv(t, wait))
  {
  }

  /** What the mails in the box become by an event. */
  function Applied(mails: seq<int>, e: Event): seq<int> {
    match e
    case None => mails
    case In(v) => mails + [v]
    case Out(v) => if mails == [] then mails else mails[1..]
    case Emptied => []
  }

  /** A step changes the mails as its event says, and what it gives out is the oldest mail. */
  lemma StepEvent(b: Mailbox, prio: map<int, nat>, op: Op)
    requires Inv(b) && Legal(b, op)
    ensures RingOk(b) && (op.SendOn? ==> op.t in b.mail)
    ensures var (b', e) := Step(b, prio, op);
            && RingOk(b') && Contents(b') == Applied(Contents(b), e)
            && (e.Out? ==> b.entry > 0 && e.v == Contents(b)[0])
            && (e.In? ==> b.entry < b.size)
            && (e.Emptied? ==> op.Clear?)
  {
    hide NoDup, TrySend, TryRecv, Placed, NoLostWakeup, Contents, RingOk;
    StepInv(b, prio, op);
    match op
    case Send(t, v, wait) => SendEvent(b, prio, t, v, wait);
    case SendOn(t, wait) =>
      var b1 := b.(wokenSenders := b.wokenSenders - {t});
      SameRing(b, b1);
      SendEvent(b1, prio, t, b.mail[t], wait);
    case Recv(t, wait) => RecvEvent(b, prio, t, wait);
    case RecvOn(t, wait) =>
      var b1 := b.(wokenReceivers := b.wokenReceivers - {t});
      SameRing(b, b1);
      RecvEvent(b1, prio, t, wait);
    case Timeout(t) => SameRing(b, Step(b, prio, op).0);
    case Fail(t) => SameRing(b, Step(b, prio, op).0);
    case Clear => ResetEmpties(b);
  }

  lemma SameRing(b: Mailbox, b': Mailbox)
    requires RingOk(b)
    requires b'.size == b.size && b'.pool == b.pool && b'.entry == b.entry && b'.inOffset == b.inOffset && b'.outOffset == b.outOffset
    ensures RingOk(b') && Contents(b') == Contents(b) && |Contents(b)| == b.entry
  {
  }

  lemma ResetEmpties(b: Mailbox)
    requires RingOk(b)
    ensures RingOk(Reset(b)) && Contents(Reset(b)) == []
  {
  }

  lemma SendEvent(b: Mailbox, prio: map<int, nat>, t: int, v: int, wait: bool)
    requires RingOk(b)
    ensures var (b', out) := TrySend(b, prio, t, v, wait);
            && RingOk(b') && Contents(b') == (if out == Done then Contents(b) + [v] else Contents(b))
            && (out == Done <==> b.entry < b.size) && |Contents(b)| == b.entry
  {
    hide Contents, RingOk, Enqueued;
    SameRing(b, b);
    RingBound(b);
    if b.entry < b.size {
      PutAppends(b, v);
      SameRing(Put(b, v), WakeReceiver(Put(b, v)));
    } else {
      SameRing(b, TrySend(b, prio, t, v, wait).0);
    }
  }

  lemma RecvEvent(b: Mailbox, prio: map<int, nat>, t: int, wait: bool)
    requires RingOk(b)
    ensures var (b', out, v) := TryRecv(b, prio, t, wait);
            && RingOk(b') && (if out == Done then Contents(b) == [v] + Contents(b') else Contents(b') == Contents(b))
            && (out == Done <==> b.entry > 0) && |Contents(b)| == b.entry
  {
    hide Contents, RingOk, Enqueued;
    SameRing(b, b);
    if b.entry > 0 {
      GetTakesFirst(b);
      SameRing(Get(b).0, WakeSender(Get(b).0));
    } else {
      SameRing(b, TryRecv(b, prio, t, wait).0);
    }
  }

  lemma RingBound(b: Mailbox)
    requires RingOk(b)
    ensures b.entry <= b.size
  {
  }

  function Ins(es: seq<Event>): seq<int> {
    if es == [] then [] else (if es[0].In? then [es[0].v] else []) + Ins(es[1..])
  }

  function Outs(es: seq<Event>): seq<int> {
    if es == [] then [] else (if es[0].Out? then [es[0].v] else []) + Outs(es[1..])
  }

  /** Between resets, the mails come out in the order they went in, each once, and what has not come out yet is
      in the box. */
  lemma {:induction false} FirstInFirstOut(b: Mailbox, moves: seq<Move>)
    requires Inv(b) && LegalRun(b, moves) && forall i :: 0 <= i < |moves| ==> !moves[i].op.Clear?
    ensures var (b', es) := RunOf(b, moves);
            RingOk(b') && Outs(es) + Contents(b') == Contents(b) + Ins(es)
    decreases |moves|
  {
    hide Inv, Step, Legal, Contents;
    if moves != [] {
      var op, prio := moves[0].op, moves[0].prio;
      StepInv(b, prio, op);
      StepEvent(b, prio, op);
      var (b1, e) := Step(b, prio, op);
      FirstInFirstOut(b1, moves[1..]);
      var (b', es) := RunOf(b1, moves[1..]);
      var all := [e] + es;
      assert all[1..] == es;
      Logged(Contents(b), Contents(b1), e, es, Contents(b'));
      assert all[0] == e;
    } else {
      InvRing(b);
    }
  }

  /** One event at the front of a log that balances. */
  lemma Logged(before: seq<int>, between: seq<int>, e: Event, es: seq<Event>, after: seq<int>)
    requires between == Applied(before, e) && !e.Emptied? && (e.Out? ==> before != [] && e.v == before[0])
    requires Outs(es) + after == between + Ins(es)
    ensures Outs([e] + es) + after == before + Ins([e] + es)
  {
    assert ([e] + es)[1..] == es;
    match e
    case In(v) => assert before + [v] + Ins(es) == before + ([v] + Ins(es));
    case Out(v) =>
      assert before == [v] + before[1..];
      assert [v] + (Outs(es) + after) == [v] + Outs(es) + after;
      assert [v] + (before[1..] + Ins(es)) == before + Ins(es);
    case None =>
      assert Outs([e] + es) == Outs(es) && Ins([e] + es) == Ins(es);
  }

  lemma InvRing(b: Mailbox)
    requires Inv(b)
    ensures RingOk(b)
  {
  }
}
