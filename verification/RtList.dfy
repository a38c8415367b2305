/** The intrusive circular doubly linked list of rtservice.h, which the timer rows, the wait lists and
    the ready lists are made of, and whose shape memheap.c repeats by hand.

    A node is an address of type T; `next` and `prev` are the two link fields of every node, as maps
    from the address to the field's content.  The abstract value of a list is the sequence of its
    nodes in order, list head first. */
module RtList {

  ghost predicate Differ<T(!new)>(s: seq<T>, i: nat, j: nat)
    requires i < |s| && j < |s|
  {
    s[i] != s[j]
  }

  ghost predicate NoDup<T(!new)>(s: seq<T>) {
    forall i, j :: 0 <= i < j < |s| ==> Differ(s, i, j)
  }

  /** NoDup written out, for the proofs that compare positions. */
  lemma Distinct<T(!new)>(s: seq<T>)
    requires NoDup(s)
    ensures forall i, j :: 0 <= i < j < |s| ==> s[i] != s[j]
  {
    forall i, j | 0 <= i < j < |s|
      ensures s[i] != s[j]
    {
      assert Differ(s, i, j);
    }
  }

  /** The same for one position. */
  lemma Unique<T(!new)>(s: seq<T>, k: nat)
    requires NoDup(s) && k < |s|
    ensures forall i :: 0 <= i < |s| && i != k ==> s[i] != s[k]
  {
    forall i | 0 <= i < |s| && i != k
      ensures s[i] != s[k]
    {
      assert if i < k then Differ(s, i, k) else Differ(s, k, i);
    }
  }

  lemma NoDupPushed<T(!new)>(s: seq<T>, n: T)
    requires NoDup(s) && n !in s
    ensures NoDup([n] + s)
  {
    forall i, j | 0 <= i < j < |[n] + s|
      ensures Differ([n] + s, i, j)
    {
      assert i > 0 ==> Differ(s, i - 1, j - 1);
    }
  }

  lemma NoDupEmpty<T(!new)>()
    ensures NoDup<T>([])
  {
  }

  lemma NoDupAppended<T(!new)>(s: seq<T>, n: T)
    requires NoDup(s) && n !in s
    ensures NoDup(s + [n]) && forall x :: x in s + [n] <==> x in s || x == n
  {
    Distinct(s);
    var r := s + [n];
    forall i, j | 0 <= i < j < |r|
      ensures Differ(r, i, j)
    {
    }
  }

  function After(i: nat, n: nat): (r: nat)
    requires i < n
    ensures r < n
  {
    if i + 1 < n then i + 1 else 0
  }

  function Before(i: nat, n: nat): (r: nat)
    requires i < n
    ensures r < n
  {
    if i == 0 then n - 1 else i - 1
  }

  /** Node i of s points to its two neighbours in the circle. */
  ghost predicate LinkedAt<T(!new)>(next: map<T, T>, prev: map<T, T>, s: seq<T>, i: nat)
    requires i < |s|
  {
    && s[i] in next && next[s[i]] == s[After(i, |s|)]
    && s[i] in prev && prev[s[i]] == s[Before(i, |s|)]
  }

  /** The links of the nodes of s close a circle that visits them in the order of s. */
  ghost predicate Ring<T(!new)>(next: map<T, T>, prev: map<T, T>, s: seq<T>) {
    && |s| > 0
    && NoDup(s)
    && (forall x :: x in s ==> x in next && x in prev)
    && forall i :: 0 <= i < |s| ==> LinkedAt(next, prev, s, i)
  }

  /** s with n put behind position k. */
  function Inserted<T>(s: seq<T>, k: nat, n: T): (r: seq<T>)
    requires k < |s|
    ensures |r| == |s| + 1
  {
    s[..k + 1] + [n] + s[k + 1..]
  }

  /** s without position k. */
  function Dropped<T>(s: seq<T>, k: nat): (r: seq<T>)
    requires k < |s|
    ensures |r| == |s| - 1
  {
    s[..k] + s[k + 1..]
  }

  /** s without its first x. */
  function Without<T(==)>(s: seq<T>, x: T): seq<T> {
    if s == [] then [] else if s[0] == x then s[1..] else [s[0]] + Without(s[1..], x)
  }

  lemma {:induction false} WithoutSpec<T(!new)>(s: seq<T>, x: T)
    requires NoDup(s)
    ensures NoDup(Without(s, x)) && forall y :: y in Without(s, x) <==> y in s && y != x
  {
    if s != [] {
      assert s[1..] == Dropped(s, 0);
      MemberDropped(s, 0);
      WithoutSpec(s[1..], x);
      if s[0] != x { NoDupPushed(Without(s[1..], x), s[0]); }
    }
  }

  lemma {:induction false} WithoutAt<T>(s: seq<T>, x: T, k: nat)
    requires k < |s| && s[k] == x && x !in s[..k]
    ensures Without(s, x) == Dropped(s, k)
  {
    if k > 0 {
      assert s[0] in s[..k];
      assert s[1..][..k - 1] == s[..k][1..];
      WithoutAt(s[1..], x, k - 1);
      assert s[1..][k..] == s[k + 1..];
      assert [s[0]] + s[1..][..k - 1] == s[..k];
    }
  }

  lemma {:induction false} WithoutNone<T>(s: seq<T>, x: T)
    requires x !in s
    ensures Without(s, x) == s
  {
    if s != [] { WithoutNone(s[1..], x); }
  }

  /** A position of x in s; the position, when s repeats nothing. */
  ghost function IndexOf<T>(s: seq<T>, x: T): (k: nat)
    requires x in s
    ensures k < |s| && s[k] == x
  {
    var k :| 0 <= k < |s| && s[k] == x;
    k
  }

  /** The next fields after rt_list_insert_after(l, n). */
  function NextInserted<T(==)>(next: map<T, T>, l: T, n: T): map<T, T>
    requires l in next
  {
    next[n := next[l]][l := n]
  }

  /** The prev fields after rt_list_insert_after(l, n). */
  function PrevInserted<T(==)>(next: map<T, T>, prev: map<T, T>, l: T, n: T): map<T, T>
    requires l in next
  {
    prev[next[l] := n][n := l]
  }

  /** The next fields once n is bypassed. */
  function NextBypassed<T(==)>(next: map<T, T>, prev: map<T, T>, n: T): map<T, T>
    requires n in next && n in prev
  {
    next[prev[n] := next[n]]
  }

  /** The prev fields once n is bypassed. */
  function PrevBypassed<T(==)>(next: map<T, T>, prev: map<T, T>, n: T): map<T, T>
    requires n in next && n in prev
  {
    prev[next[n] := prev[n]]
  }

  lemma NoDupInserted<T(!new)>(s: seq<T>, k: nat, n: T)
    requires NoDup(s) && k < |s| && n !in s
    ensures NoDup(Inserted(s, k, n))
  {
    var r := Inserted(s, k, n);
    Distinct(s);
    forall i, j | 0 <= i < j < |r|
      ensures Differ(r, i, j)
    {
      assert i != k + 1 ==> r[i] == s[if i <= k then i else i - 1];
      assert j != k + 1 ==> r[j] == s[if j <= k then j else j - 1];
    }
  }

  lemma RingInsert<T(!new)>(next: map<T, T>, prev: map<T, T>, s: seq<T>, k: nat, n: T)
    requires Ring(next, prev, s) && k < |s| && n !in s
    ensures Ring(NextInserted(next, s[k], n), PrevInserted(next, prev, s[k], n), Inserted(s, k, n))
  {
    var r := Inserted(s, k, n);
    var nx, pv := NextInserted(next, s[k], n), PrevInserted(next, prev, s[k], n);
    NoDupInserted(s, k, n);
    Distinct(s);
    assert LinkedAt(next, prev, s, k);
    forall i | 0 <= i < |r|
      ensures LinkedAt(nx, pv, r, i)
    {
      var j := if i <= k then i else if i == k + 1 then k else i - 1;
      assert LinkedAt(next, prev, s, j);
    }
  }

  lemma NoDupDropped<T(!new)>(s: seq<T>, k: nat)
    requires NoDup(s) && k < |s|
    ensures NoDup(Dropped(s, k))
    ensures s[k] !in Dropped(s, k)
  {
    var r := Dropped(s, k);
    Distinct(s);
    forall i, j | 0 <= i < j < |r|
      ensures Differ(r, i, j)
    {
      assert r[i] == s[if i < k then i else i + 1] && r[j] == s[if j < k then j else j + 1];
    }
  }

  lemma RingBypass<T(!new)>(next: map<T, T>, prev: map<T, T>, s: seq<T>, k: nat)
    requires Ring(next, prev, s) && k < |s| && |s| > 1
    ensures Ring(NextBypassed(next, prev, s[k]), PrevBypassed(next, prev, s[k]), Dropped(s, k))
  {
    var r := Dropped(s, k);
    var nx, pv := NextBypassed(next, prev, s[k]), PrevBypassed(next, prev, s[k]);
    NoDupDropped(s, k);
    Distinct(s);
    assert LinkedAt(next, prev, s, k);
    forall i | 0 <= i < |r|
      ensures LinkedAt(nx, pv, r, i)
    {
      var j := if i < k then i else i + 1;
      assert LinkedAt(next, prev, s, j);
    }
  }

  lemma MemberInserted<T>(s: seq<T>, k: nat, n: T)
    requires k < |s|
    ensures forall x :: x in Inserted(s, k, n) <==> x in s || x == n
  {
    assert s == s[..k + 1] + s[k + 1..];
  }

  lemma MemberDropped<T(!new)>(s: seq<T>, k: nat)
    requires k < |s| && NoDup(s)
    ensures NoDup(Dropped(s, k))
    ensures forall x :: x in Dropped(s, k) <==> x in s && x != s[k]
  {
    NoDupDropped(s, k);
    assert s == s[..k] + [s[k]] + s[k + 1..];
  }

  /** The first element leaves a list. */
  lemma NoDupTail<T(!new)>(s: seq<T>) returns (x: T)
    requires NoDup(s) && s != []
    ensures x == s[0] && x in s
    ensures NoDup(s[1..]) && forall t :: t in s[1..] <==> t in s && t != x
  {
    x := s[0];
    assert Dropped(s, 0) == s[1..];
    MemberDropped(s, 0);
  }

  lemma InsertedDropped<T>(s: seq<T>, k: nat, n: T)
    requires k + 1 < |s|
    ensures Dropped(Inserted(s, k, n), k + 2) == Inserted(Dropped(s, k + 1), k, n)
  {
  }

  /** One hop along a ring. */
  lemma RingHop<T(!new)>(next: map<T, T>, prev: map<T, T>, s: seq<T>, i: nat)
    requires Ring(next, prev, s) && i < |s|
    ensures s[i] in next && next[s[i]] == s[After(i, |s|)]
    ensures s[i] in prev && prev[s[i]] == s[Before(i, |s|)]
  {
    assert LinkedAt(next, prev, s, i);
  }

  /** Link fields outside a ring do not matter to it. */
  lemma RingFrame<T(!new)>(next: map<T, T>, prev: map<T, T>, next': map<T, T>, prev': map<T, T>, s: seq<T>)
    requires Ring(next, prev, s)
    requires forall x :: x in s ==> x in next' && next'[x] == next[x] && x in prev' && prev'[x] == prev[x]
    ensures Ring(next', prev', s)
  {
    forall i | 0 <= i < |s|
      ensures LinkedAt(next', prev', s, i)
    {
      assert LinkedAt(next, prev, s, i) && s[i] in s;
    }
  }

  /** Inserting after a node and removing the new node again gives back the same circle, link by link. */
  lemma InsertThenRemove<T(!new)>(next: map<T, T>, prev: map<T, T>, s: seq<T>, k: nat, n: T)
    requires Ring(next, prev, s) && k < |s| && n !in s
    ensures var nx, pv := NextInserted(next, s[k], n), PrevInserted(next, prev, s[k], n);
            Ring(NextBypassed(nx, pv, n), PrevBypassed(nx, pv, n), s)
  {
    RingInsert(next, prev, s, k, n);
    var r := Inserted(s, k, n);
    RingBypass(NextInserted(next, s[k], n), PrevInserted(next, prev, s[k], n), r, k + 1);
    assert Dropped(r, k + 1) == s;
  }

  /** All nodes that share one kind of link field. */
  class Links<T(==, !new)> {
    var next: map<T, T>
    var prev: map<T, T>

    constructor ()
      ensures next == map[] && prev == map[]
    {
      next, prev := map[], map[];
    }

    /** rt_list_init */
    method Init(l: T)
      modifies this
      ensures next == old(next)[l := l] && prev == old(prev)[l := l]
      ensures Ring(next, prev, [l])
    {
      prev := prev[l := l];
      next := next[l := l];
    }

    /** rt_list_insert_after */
    method InsertAfter(l: T, n: T)
      requires l in next && n != l
      modifies this
      ensures next == NextInserted(old(next), l, n)
      ensures prev == PrevInserted(old(next), old(prev), l, n)
    {
      prev := prev[next[l] := n];
      next := next[n := next[l]];
      next := next[l := n];
      prev := prev[n := l];
    }

    /** rt_list_insert_before: insertion behind the predecessor */
    method InsertBefore(l: T, n: T, ghost s: seq<T>, ghost k: nat)
      requires Ring(next, prev, s) && k < |s| && s[k] == l && n !in s
      modifies this
      ensures var p := s[Before(k, |s|)];
              next == NextInserted(old(next), p, n) && prev == PrevInserted(old(next), old(prev), p, n)
    {
      ghost var p := s[Before(k, |s|)];
      assert LinkedAt(next, prev, s, k) && LinkedAt(next, prev, s, Before(k, |s|));
      next := next[prev[l] := n];
      prev := prev[n := prev[l]];
      prev := prev[l := n];
      next := next[n := l];
    }

    /** rt_list_remove: bypass n, then close n on itself */
    method Remove(n: T)
      requires n in next && n in prev
      modifies this
      ensures next == NextBypassed(old(next), old(prev), n)[n := n]
      ensures prev == PrevBypassed(old(next), old(prev), n)[n := n]
    {
      prev := prev[next[n] := prev[n]];
      next := next[prev[n] := next[n]];
      prev := prev[n := n];
      next := next[n := n];
    }

    /** rt_list_isempty */
    method IsEmpty(l: T, ghost s: seq<T>) returns (r: bool)
      requires Ring(next, prev, s) && s[0] == l
      ensures r <==> |s| == 1
    {
      Distinct(s);
      assert LinkedAt(next, prev, s, 0);
      r := next[l] == l;
    }

    /** rt_list_len */
    method Len(l: T, ghost s: seq<T>) returns (len: nat)
      requires Ring(next, prev, s) && s[0] == l
      ensures len == |s| - 1
    {
      len := 0;
      var p := l;
      Distinct(s);
      assert LinkedAt(next, prev, s, 0);
      while next[p] != l
        invariant len < |s| && p == s[len]
        invariant LinkedAt(next, prev, s, len)
        decreases |s| - len
      {
        p := next[p];
        len := len + 1;
        assert LinkedAt(next, prev, s, len);
      }
    }
  }
}
