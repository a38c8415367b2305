/** The list of threads suspended on an IPC object (rt_ipc_list_suspend in ipc.c). */
module IpcList {
  import opened RtList

  datatype Flag = FIFO | PRIO      // RT_IPC_FLAG_FIFO, RT_IPC_FLAG_PRIO

  /** The current priority of a thread; 0 is the most urgent. */
  function Prio(prio: map<int, nat>, t: int): nat {
    if t in prio then prio[t] else 0
  }

  /** The first position from k on of a thread that is less urgent than t, or the end. */
  function Spot(list: seq<int>, prio: map<int, nat>, t: int, k: nat): (r: nat)
    requires k <= |list|
    ensures k <= r <= |list|
    decreases |list| - k
  {
    if k == |list| || Prio(prio, t) < Prio(prio, list[k]) then k else Spot(list, prio, t, k + 1)
  }

  function Enqueued(list: seq<int>, prio: map<int, nat>, flag: Flag, t: int): (r: seq<int>)
    ensures |r| == |list| + 1
  {
    var k := if flag == FIFO then |list| else Spot(list, prio, t, 0);
    list[..k] + [t] + list[k..]
  }

  /** rt_ipc_list_suspend, without rt_thread_suspend itself */
  method Suspend(list: seq<int>, prio: map<int, nat>, flag: Flag, t: int) returns (r: seq<int>)
    ensures r == Enqueued(list, prio, flag, t)
  {
    match flag
    case FIFO =>
      r := list + [t];
    case PRIO =>
      var n := 0;
      while n < |list|
        invariant 0 <= n <= |list| && Spot(list, prio, t, 0) == Spot(list, prio, t, n)
      {
        if Prio(prio, t) < Prio(prio, list[n]) { break; }
        n := n + 1;
      }
      r := list[..n] + [t] + list[n..];
  }

  const ERROR := -1              // -RT_ERROR

  /** The error codes of the threads once those of list are woken with an error */
  function Failed(error: map<int, int>, list: seq<int>): map<int, int>
    decreases |list|
  {
    if list == [] then error else Failed(error[list[0] := ERROR], list[1..])
  }

  /** Every thread of the list has the error, every other one what it had. */
  lemma {:induction false} FailedIs(error: map<int, int>, list: seq<int>)
    ensures forall t :: t in list ==> t in Failed(error, list) && Failed(error, list)[t] == ERROR
    ensures forall t :: t !in list ==> (t in Failed(error, list) <==> t in error) && (t in error ==> Failed(error, list)[t] == error[t])
    decreases |list|
  {
    if list != [] {
      FailedIs(error[list[0] := ERROR], list[1..]);
      assert list == [list[0]] + list[1..];
    }
  }

  /** rt_ipc_list_resume_all: the threads made ready, in order, and their error codes */
  method ResumeAll(list: seq<int>, error: map<int, int>) returns (ready: seq<int>, error': map<int, int>)
    ensures ready == list && error' == Failed(error, list)
  {
    var rest := list;
    ready, error' := [], error;
    while rest != []
      invariant ready + rest == list && Failed(error', rest) == Failed(error, list)
      decreases |rest|
    {
      var thread := rest[0];
      error' := error'[thread := ERROR];
      ready := ready + [thread];
      rest := rest[1..];
    }
  }

  /** list[j] is not more urgent than list[i]. */
  ghost predicate InOrder(list: seq<int>, prio: map<int, nat>, i: nat, j: nat)
    requires i < |list| && j < |list|
  {
    Prio(prio, list[i]) <= Prio(prio, list[j])
  }

  /** The most urgent threads come first. */
  ghost predicate ByPriority(list: seq<int>, prio: map<int, nat>) {
    forall i, j :: 0 <= i < j < |list| ==> InOrder(list, prio, i, j)
  }

  lemma {:induction false} SpotIs(list: seq<int>, prio: map<int, nat>, t: int, k: nat)
    requires k <= |list|
    ensures forall i :: k <= i < Spot(list, prio, t, k) ==> Prio(prio, list[i]) <= Prio(prio, t)
    ensures Spot(list, prio, t, k) < |list| ==> Prio(prio, t) < Prio(prio, list[Spot(list, prio, t, k)])
    decreases |list| - k
  {
    if k < |list| && Prio(prio, t) >= Prio(prio, list[k]) { SpotIs(list, prio, t, k + 1); }
  }

  /** t goes to the end, or in a list by priority behind all that are as urgent as it and before all that are less; the
      others keep their order. */
  lemma EnqueuedInTurn(list: seq<int>, prio: map<int, nat>, flag: Flag, t: int) returns (k: nat)
    ensures k <= |list| && Enqueued(list, prio, flag, t) == list[..k] + [t] + list[k..]
    ensures flag == FIFO ==> k == |list|
    ensures flag == PRIO && ByPriority(list, prio) ==>
              && (forall i :: 0 <= i < k ==> Prio(prio, list[i]) <= Prio(prio, t))
              && (forall i :: k <= i < |list| ==> Prio(prio, t) < Prio(prio, list[i]))
  {
    k := if flag == FIFO then |list| else Spot(list, prio, t, 0);
    if flag == PRIO && ByPriority(list, prio) {
      SpotIs(list, prio, t, 0);
      forall i | k <= i < |list|
        ensures Prio(prio, t) < Prio(prio, list[i])
      {
        if k < i { assert InOrder(list, prio, k, i); }
      }
    }
  }

  /** Nobody else comes or goes. */
  lemma EnqueuedKeeps(list: seq<int>, prio: map<int, nat>, flag: Flag, t: int)
    requires t !in list
    ensures Without(Enqueued(list, prio, flag, t), t) == list && t in Enqueued(list, prio, flag, t)
  {
    var k := EnqueuedInTurn(list, prio, flag, t);
    WithoutPut(list, k, t);
  }

  lemma {:induction false} WithoutPut(list: seq<int>, k: nat, t: int)
    requires k <= |list| && t !in list
    ensures Without(list[..k] + [t] + list[k..], t) == list
    decreases |list|
  {
    var r := list[..k] + [t] + list[k..];
    if k == 0 {
      assert r == [t] + list && r[1..] == list;
    } else {
      WithoutPut(list[1..], k - 1, t);
      assert r[1..] == list[1..][..k - 1] + [t] + list[1..][k - 1..];
    }
  }

  /** Waiting in order of priority keeps the list in order; threads of one priority wait in turn. */
  lemma EnqueuedByPriority(list: seq<int>, prio: map<int, nat>, t: int)
    requires ByPriority(list, prio)
    ensures ByPriority(Enqueued(list, prio, PRIO, t), prio)
  {
    var k := Spot(list, prio, t, 0);
    SpotIs(list, prio, t, 0);
    var r := Enqueued(list, prio, PRIO, t);
    forall i, j | 0 <= i < j < |r|
      ensures InOrder(r, prio, i, j)
    {
      if i != k && j != k {
        assert InOrder(list, prio, if i < k then i else i - 1, if j < k then j else j - 1);
      } else if i == k && j > k + 1 {
        assert InOrder(list, prio, k, j - 1);
      }
    }
  }

  lemma EnqueuedMembers(list: seq<int>, prio: map<int, nat>, flag: Flag, t: int)
    requires NoDup(list) && t !in list
    ensures NoDup(Enqueued(list, prio, flag, t))
    ensures forall x :: x in Enqueued(list, prio, flag, t) <==> x in list || x == t
  {
    var k := if flag == FIFO then |list| else Spot(list, prio, t, 0);
    var r := Enqueued(list, prio, flag, t);
    assert list == list[..k] + list[k..];
    Distinct(list);
    forall i, j | 0 <= i < j < |r|
      ensures Differ(r, i, j)
    {
      assert i != k ==> r[i] == list[if i < k then i else i - 1];
      assert j != k ==> r[j] == list[if j < k then j else j - 1];
    }
  }

  lemma ByPriorityDropped(list: seq<int>, prio: map<int, nat>, k: nat)
    requires ByPriority(list, prio) && k < |list|
    ensures ByPriority(Dropped(list, k), prio)
  {
    var r := Dropped(list, k);
    forall i, j | 0 <= i < j < |r|
      ensures InOrder(r, prio, i, j)
    {
      assert InOrder(list, prio, if i < k then i else i + 1, if j < k then j else j + 1);
    }
  }

  lemma ByPriorityWithout(list: seq<int>, prio: map<int, nat>, t: int)
    requires ByPriority(list, prio) && NoDup(list)
    ensures ByPriority(Without(list, t), prio)
  {
    if t in list {
      var k := IndexOf(list, t);
      Unique(list, k);
      WithoutAt(list, t, k);
      ByPriorityDropped(list, prio, k);
    } else {
      WithoutNone(list, t);
    }
  }

  lemma ByPriorityFrame(list: seq<int>, prio: map<int, nat>, prio': map<int, nat>)
    requires ByPriority(list, prio) && forall t :: t in list ==> Prio(prio, t) == Prio(prio', t)
    ensures ByPriority(list, prio')
  {
    forall i, j | 0 <= i < j < |list|
      ensures InOrder(list, prio', i, j)
    {
      assert InOrder(list, prio, i, j);
      var x, y := list[i], list[j];
      assert x in list && y in list;
    }
  }

  lemma FirstIsMostUrgent(list: seq<int>, prio: map<int, nat>)
    requires ByPriority(list, prio) && list != []
    ensures forall t :: t in list ==> Prio(prio, list[0]) <= Prio(prio, t)
  {
    forall t | t in list
      ensures Prio(prio, list[0]) <= Prio(prio, t)
    {
      var k := IndexOf(list, t);
      if k > 0 { assert InOrder(list, prio, 0, k); }
    }
  }

  /** rt_thread_control does not move a waiting thread: the list stays in order exactly if the new priority
      fits between its neighbours. */
  lemma Reprioritized(list: seq<int>, prio: map<int, nat>, k: nat, p: nat)
    requires ByPriority(list, prio) && NoDup(list) && k < |list|
    ensures ByPriority(list, prio[list[k] := p]) <==>
            && (k > 0 ==> Prio(prio, list[k - 1]) <= p)
            && (k + 1 < |list| ==> p <= Prio(prio, list[k + 1]))
  {
    var prio' := prio[list[k] := p];
    Unique(list, k);
    if ByPriority(list, prio') {
      if k > 0 { assert InOrder(list, prio', k - 1, k); }
      if k + 1 < |list| { assert InOrder(list, prio', k, k + 1); }
    } else if (k > 0 ==> Prio(prio, list[k - 1]) <= p) && (k + 1 < |list| ==> p <= Prio(prio, list[k + 1])) {
      forall i, j | 0 <= i < j < |list|
        ensures InOrder(list, prio', i, j)
      {
        assert InOrder(list, prio, i, j);
        if j == k && i < k - 1 { assert InOrder(list, prio, i, k - 1); }
        if i == k && j > k + 1 { assert InOrder(list, prio, k + 1, j); }
      }
    }
  }

  lemma EnqueuedBehind(prio: map<int, nat>, a: int, b: int)
    requires Prio(prio, a) <= Prio(prio, b)
    ensures Enqueued([a], prio, PRIO, b) == [a, b]
  {
    hide Spot, Prio;
    SpotIs([a], prio, b, 0);
    var r := Enqueued([a], prio, PRIO, b);
    assert |r| == 2 && r[0] == a && r[1] == b;
  }

  /** A list that ends out of order: thread 2 waits behind thread 1 and is then made the more urgent one. */
  lemma ReprioritizedOutOfOrder()
    ensures var prio := map[1 := 5, 2 := 7];
            && Enqueued([1], prio, PRIO, 2) == [1, 2]
            && ByPriority([1, 2], prio) && !ByPriority([1, 2], prio[2 := 3])
  {
    hide Enqueued;
    var prio := map[1 := 5, 2 := 7];
    EnqueuedBehind(prio, 1, 2);
    forall i, j | 0 <= i < j < 2
      ensures InOrder([1, 2], prio, i, j)
    {
    }
    assert !InOrder([1, 2], prio[2 := 3], 0, 1);
  }
}
