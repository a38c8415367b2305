/** The rows of the timer skip list as rings of links: every timer has one link node per row, closed on
    itself where the timer is not in the row. */
module TimerRows {
  import opened RtDef
  import opened RtList
  import opened Bits
  import opened TimerModel

  /** &timer->row[row], or &rt_timer_list[row] for the timer HEAD */
  datatype Node = Node(timer: int, row: nat)

  function Nodes(row: seq<int>, i: nat): (r: seq<Node>)
    ensures |r| == |row| + 1
  {
    seq(|row| + 1, k requires 0 <= k <= |row| => if k == 0 then Node(HEAD, i) else Node(row[k - 1], i))
  }

  ghost predicate Loop(next: map<Node, Node>, prev: map<Node, Node>, n: Node) {
    n in next && next[n] == n && n in prev && prev[n] == n
  }

  ghost predicate RowOk(next: map<Node, Node>, prev: map<Node, Node>, row: seq<int>, i: nat, known: set<int>) {
    && HEAD !in known
    && (forall t :: t in row ==> t in known)
    && Ring(next, prev, Nodes(row, i))
    && forall t :: t in known && t !in row ==> Loop(next, prev, Node(t, i))
  }

  /** The links of the other rows are as they were. */
  ghost predicate OtherRows(m: map<Node, Node>, m': map<Node, Node>, i: nat) {
    forall n: Node :: n.row != i && n in m ==> n in m' && m'[n] == m[n]
  }

  lemma NodeIn(row: seq<int>, i: nat, t: int)
    ensures Node(t, i) in Nodes(row, i) <==> t == HEAD || t in row
    ensures forall n :: n in Nodes(row, i) ==> n.row == i
  {
    var s := Nodes(row, i);
    assert s[0] == Node(HEAD, i);
    if t in row {
      var k := IndexOf(row, t);
      assert s[k + 1] == Node(t, i);
    }
  }

  lemma RowFrame(next: map<Node, Node>, prev: map<Node, Node>, next': map<Node, Node>, prev': map<Node, Node>,
                 row: seq<int>, i: nat, known: set<int>, j: nat)
    requires RowOk(next, prev, row, i, known) && i != j && OtherRows(next, next', j) && OtherRows(prev, prev', j)
    ensures RowOk(next', prev', row, i, known)
  {
    NodeIn(row, i, HEAD);
    RingFrame(next, prev, next', prev', Nodes(row, i));
    forall t | t in known && t !in row
      ensures Loop(next', prev', Node(t, i))
    {
      assert Loop(next, prev, Node(t, i));
    }
  }

  /** rt_list_remove of a timer's node, in the row or not. */
  lemma RemoveFromRow(next: map<Node, Node>, prev: map<Node, Node>, row: seq<int>, i: nat, known: set<int>, t: int)
    requires RowOk(next, prev, row, i, known) && t in known
    ensures var n := Node(t, i);
            && n in next && n in prev
            && (var nx, pv := NextBypassed(next, prev, n)[n := n], PrevBypassed(next, prev, n)[n := n];
                RowOk(nx, pv, Without(row, t), i, known) && OtherRows(next, nx, i) && OtherRows(prev, pv, i))
  {
    if t in row {
      RemoveMember(next, prev, row, i, known, t, IndexOf(row, t));
    } else {
      assert Loop(next, prev, Node(t, i));
      WithoutNone(row, t);
      var n := Node(t, i);
      assert NextBypassed(next, prev, n)[n := n] == next && PrevBypassed(next, prev, n)[n := n] == prev;
    }
  }

  lemma RowNoDup(row: seq<int>, i: nat)
    requires NoDup(Nodes(row, i))
    ensures NoDup(row) && HEAD !in row
  {
    var s := Nodes(row, i);
    Distinct(s);
    forall a, b | 0 <= a < b < |row|
      ensures Differ(row, a, b)
    {
      assert s[a + 1] != s[b + 1];
    }
    Unique(s, 0);
    if HEAD in row { NodeAt(row, i, IndexOf(row, HEAD)); }
  }

  lemma NodeAt(row: seq<int>, i: nat, k: nat)
    requires k < |row|
    ensures Nodes(row, i)[k + 1] == Node(row[k], i)
  {
  }

  lemma RemoveMember(next: map<Node, Node>, prev: map<Node, Node>, row: seq<int>, i: nat, known: set<int>, t: int, k: nat)
    requires RowOk(next, prev, row, i, known) && t in known && k < |row| && row[k] == t
    ensures var n := Node(t, i);
            && n in next && n in prev
            && (var nx, pv := NextBypassed(next, prev, n)[n := n], PrevBypassed(next, prev, n)[n := n];
                RowOk(nx, pv, Without(row, t), i, known) && OtherRows(next, nx, i) && OtherRows(prev, pv, i))
  {
    hide Ring, NoDup, Dropped;
    var s := Nodes(row, i);
    var n := s[k + 1];
    RingParts(next, prev, s);
    RowNoDup(row, i);
    Unique(row, k);
    WithoutAt(row, t, k);
    MemberDropped(row, k);
    RingBypass(next, prev, s, k + 1);
    MemberDropped(s, k + 1);
    NodesDropped(row, i, k);
    RingHop(next, prev, s, k + 1);
    var nx, pv := NextBypassed(next, prev, n)[n := n], PrevBypassed(next, prev, n)[n := n];
    RingFrame(NextBypassed(next, prev, n), PrevBypassed(next, prev, n), nx, pv, Dropped(s, k + 1));
    NodeIn(row, i, HEAD);
    var x, y := prev[n], next[n];
    assert x in s && y in s;
    forall u | u in known && u !in Dropped(row, k)
      ensures Loop(nx, pv, Node(u, i))
    {
      if u != t {
        assert Loop(next, prev, Node(u, i));
        NodeIn(row, i, u);
      }
    }
  }

  lemma RingParts(next: map<Node, Node>, prev: map<Node, Node>, s: seq<Node>)
    requires Ring(next, prev, s)
    ensures NoDup(s) && |s| > 0 && forall x :: x in s ==> x in next && x in prev
  {
  }

  lemma NodesDropped(row: seq<int>, i: nat, k: nat)
    requires k < |row|
    ensures Dropped(Nodes(row, i), k + 1) == Nodes(Dropped(row, k), i)
  {
  }

  lemma NodesInserted(row: seq<int>, i: nat, k: nat, t: int)
    requires k <= |row|
    ensures Inserted(Nodes(row, i), k, Node(t, i)) == Nodes(Put(row, k, t), i)
  {
  }

  /** rt_list_insert_after of a timer's node, behind the k first timers of the row. */
  lemma InsertIntoRow(next: map<Node, Node>, prev: map<Node, Node>, row: seq<int>, i: nat, known: set<int>, t: int, k: nat)
    requires RowOk(next, prev, row, i, known) && t in known && t !in row && k <= |row|
    ensures var l, n := Nodes(row, i)[k], Node(t, i);
            && l in next && n != l
            && (var nx, pv := NextInserted(next, l, n), PrevInserted(next, prev, l, n);
                RowOk(nx, pv, Put(row, k, t), i, known) && OtherRows(next, nx, i) && OtherRows(prev, pv, i))
  {
    hide Ring, NoDup, Inserted;
    var s := Nodes(row, i);
    var l, n := s[k], Node(t, i);
    NodeIn(row, i, t);
    RingParts(next, prev, s);
    assert l in s;
    RingInsert(next, prev, s, k, n);
    NodesInserted(row, i, k, t);
    var nx, pv := NextInserted(next, l, n), PrevInserted(next, prev, l, n);
    RingHop(next, prev, s, k);
    var y := next[l];
    assert y in s;
    assert row == row[..k] + row[k..];
    forall u | u in known && u !in Put(row, k, t)
      ensures Loop(nx, pv, Node(u, i))
    {
      assert Loop(next, prev, Node(u, i));
      NodeIn(row, i, u);
    }
  }

  /** The height of a new timer above the bottom row: the bit groups of the insert counter that are zero,
      from the low end. */
  function Tower(tst: nat, mask: nat, rows: nat): (h: nat)
    ensures h <= rows
    decreases rows
  {
    if rows == 0 || And(tst, mask) != 0 then 0
    else 1 + Tower(Shr(tst, (mask + 1) / 2), mask, rows - 1)
  }

  lemma {:induction false} ShrSum(n: nat, a: nat, b: nat)
    ensures Shr(Shr(n, a), b) == Shr(n, a + b)
  {
    if a > 0 { ShrSum(n / 2, a - 1, b); }
  }

  /** With w the width of a bit group: the new timer rises by one row for each of the low groups that is zero, up to the first
      that is not or to the top. */
  lemma {:induction false} TowerIs(n: nat, mask: nat, rows: nat, i: nat)
    ensures var w, h := (mask + 1) / 2, Tower(n, mask, rows);
            && (i < h ==> And(Shr(n, i * w), mask) == 0)
            && (i == h < rows ==> And(Shr(n, i * w), mask) != 0)
    decreases rows
  {
    hide And;
    var w := (mask + 1) / 2;
    if i > 0 && rows > 0 && And(n, mask) == 0 {
      TowerIs(Shr(n, w), mask, rows - 1, i - 1);
      assert i * w == w + (i - 1) * w;
      ShrSum(n, w, (i - 1) * w);
    }
  }
}
