/** The theory under timer.c: tick arithmetic across wrap-around, the order of the timers in a row, and
    what inserting and removing does to a row and its links. */
module TimerModel {
  import opened RtDef
  import opened RtList
  import opened Bits

  const TICK_MAX := 0xffff_ffff   // RT_TICK_MAX
  const HALF := TICK_MAX / 2
  const HEAD := -1                // the list head of a row, among the timers

  // ---- ticks ----

  /** a - b on rt_tick_t */
  function TickSub(a: int, b: int): (r: nat)
    ensures r < WORD
  {
    (a - b) % WORD
  }

  /** The test that ends the search in a row: x is later than y. */
  predicate SeenLater(x: int, y: int) {
    TickSub(x, y) != 0 && TickSub(x, y) < HALF
  }

  /** The test of rt_timer_check: time y has come at x. */
  predicate SeenDue(x: int, y: int) {
    TickSub(x, y) < HALF
  }

  lemma TickSubMod(a: int, b: int)
    ensures TickSub(a % WORD, b % WORD) == (a - b) % WORD
  {
    var d := a % WORD - b % WORD;
    assert a - b == d + (a / WORD - b / WORD) * WORD;
    ModAdd(d, a / WORD - b / WORD);
  }

  lemma ModAdd(d: int, k: int)
    ensures (d + k * WORD) % WORD == d % WORD
  {
  }

  /** On the low 32 bits, "later" is recognised exactly up to HALF ticks ahead. */
  lemma SeenLaterExact(a: int, b: int)
    requires HALF - WORD <= a - b < WORD
    ensures SeenLater(a % WORD, b % WORD) <==> 0 < a - b < HALF
  {
    TickSubMod(a, b);
  }

  /** "Due" is recognised exactly up to HALF ticks late, as long as what is not due is not too far ahead. */
  lemma SeenDueExact(now: int, d: int)
    requires HALF - WORD <= now - d < WORD
    ensures SeenDue(now % WORD, d % WORD) <==> 0 <= now - d < HALF
  {
    TickSubMod(now, d);
  }

  // ---- the order of timers ----

  /** When a timer is due, as an unbounded tick count, and when it was started among all starts. */
  datatype Key = Key(deadline: int, stamp: nat)

  predicate Less(x: Key, y: Key) {
    x.deadline < y.deadline || (x.deadline == y.deadline && x.stamp < y.stamp)
  }

  ghost predicate Ahead(keys: map<int, Key>, row: seq<int>, i: nat, j: nat)
    requires i < |row| && j < |row|
  {
    row[i] in keys && row[j] in keys && Less(keys[row[i]], keys[row[j]])
  }

  /** Earlier deadlines first, and timers with one deadline in the order they were started. */
  ghost predicate Sorted(keys: map<int, Key>, row: seq<int>) {
    && (forall t :: t in row ==> t in keys)
    && forall i, j :: 0 <= i < j < |row| ==> Ahead(keys, row, i, j)
  }

  lemma SortedNoDup(keys: map<int, Key>, row: seq<int>)
    requires Sorted(keys, row)
    ensures NoDup(row)
  {
    forall i, j | 0 <= i < j < |row|
      ensures Differ(row, i, j)
    {
      assert Ahead(keys, row, i, j);
    }
  }

  function Due(keys: map<int, Key>, t: int): int {
    if t in keys then keys[t].deadline else 0
  }

  /** The position behind the last timer due by d. */
  function Place(keys: map<int, Key>, row: seq<int>, d: int): (k: nat)
    ensures k <= |row|
  {
    if row == [] then 0
    else if Due(keys, row[|row| - 1]) <= d then |row|
    else Place(keys, row[..|row| - 1], d)
  }

  /** A sorted row splits at Place: due by d before it, later behind it. */
  lemma {:induction false} PlaceSplits(keys: map<int, Key>, row: seq<int>, d: int)
    requires Sorted(keys, row)
    ensures forall i :: 0 <= i < Place(keys, row, d) ==> Due(keys, row[i]) <= d
    ensures forall i :: Place(keys, row, d) <= i < |row| ==> Due(keys, row[i]) > d
  {
    if row != [] {
      var n := |row| - 1;
      if Due(keys, row[n]) <= d {
        forall i | 0 <= i < |row|
          ensures Due(keys, row[i]) <= d
        {
          if i < n { assert Ahead(keys, row, i, n); }
        }
      } else {
        SortedPart(keys, row, 0, n);
        assert row[0..n] == row[..n];
        PlaceSplits(keys, row[..n], d);
      }
    }
  }

  /** The split determines Place. */
  lemma PlaceIs(keys: map<int, Key>, row: seq<int>, d: int, k: nat)
    requires Sorted(keys, row) && k <= |row|
    requires k > 0 ==> Due(keys, row[k - 1]) <= d
    requires k < |row| ==> Due(keys, row[k]) > d
    ensures Place(keys, row, d) == k
  {
    PlaceSplits(keys, row, d);

  }

  lemma SortedPart(keys: map<int, Key>, row: seq<int>, i: nat, j: nat)
    requires Sorted(keys, row) && i <= j <= |row|
    ensures Sorted(keys, row[i..j])
  {
    forall x, y | 0 <= x < y < j - i
      ensures Ahead(keys, row[i..j], x, y)
    {
      assert Ahead(keys, row, i + x, i + y);
    }
  }

  /** Only the keys of a row's own timers matter. */
  lemma SortedFrame(keys: map<int, Key>, keys': map<int, Key>, row: seq<int>)
    requires Sorted(keys, row) && forall t :: t in row ==> t in keys' && keys'[t] == keys[t]
    ensures Sorted(keys', row)
  {
    forall i, j | 0 <= i < j < |row|
      ensures Ahead(keys', row, i, j)
    {
      assert Ahead(keys, row, i, j);
      var s, t := row[i], row[j];
      assert s in row && t in row;
    }
  }

  /** row with t behind the k first. */
  function Put(row: seq<int>, k: nat, t: int): (r: seq<int>)
    requires k <= |row|
    ensures |r| == |row| + 1
  {
    row[..k] + [t] + row[k..]
  }

  /** The stable sorted insertion. */
  function StableInsert(keys: map<int, Key>, row: seq<int>, t: int): seq<int> {
    Put(row, Place(keys, row, Due(keys, t)), t)
  }

  /** Stable insertion keeps the order, when the new timer was started last. */
  lemma StableInsertSorted(keys: map<int, Key>, row: seq<int>, t: int)
    requires Sorted(keys, row) && t in keys && t !in row
    requires forall s :: s in row ==> keys[s].stamp < keys[t].stamp
    ensures Sorted(keys, StableInsert(keys, row, t))
    ensures forall s :: s in StableInsert(keys, row, t) <==> s in row || s == t
  {
    var d := Due(keys, t);
    var k := Place(keys, row, d);
    PlaceSplits(keys, row, d);
    var r := Put(row, k, t);
    assert row == row[..k] + row[k..];
    forall i, j | 0 <= i < j < |r|
      ensures Ahead(keys, r, i, j)
    {
      if i == k {
        var s := Member(row, j - 1);
      } else if j == k {
        var s := Member(row, i);
      } else {
        assert Ahead(keys, row, if i < k then i else i - 1, if j < k then j else j - 1);
      }
    }
  }

  lemma SortedDropped(keys: map<int, Key>, row: seq<int>, k: nat)
    requires Sorted(keys, row) && k < |row|
    ensures Sorted(keys, Dropped(row, k))
  {
    var r := Dropped(row, k);
    forall i, j | 0 <= i < j < |r|
      ensures Ahead(keys, r, i, j)
    {
      assert Ahead(keys, row, if i < k then i else i + 1, if j < k then j else j + 1);
    }
  }

  lemma WithoutSorted(keys: map<int, Key>, row: seq<int>, t: int)
    requires Sorted(keys, row)
    ensures Sorted(keys, Without(row, t))
    ensures forall s :: s in Without(row, t) <==> s in row && s != t
  {
    SortedNoDup(keys, row);
    WithoutSpec(row, t);
    if t in row {
      var k := IndexOf(row, t);
      Unique(row, k);
      WithoutAt(row, t, k);
      SortedDropped(keys, row, k);
    } else {
      WithoutNone(row, t);
    }
  }

  /** Sorted rows of the same timers are the same row. */
  lemma {:induction false} SortedUnique(keys: map<int, Key>, a: seq<int>, b: seq<int>)
    requires Sorted(keys, a) && Sorted(keys, b) && forall t :: t in a <==> t in b
    ensures a == b
  {
    if a != [] && b != [] {
      var x, y := a[0], b[0];
      assert x in a && y in b;
      var i, j := IndexOf(b, a[0]), IndexOf(a, b[0]);
      FirstIsLeast(keys, b, i);
      FirstIsLeast(keys, a, j);
      assert a[0] == b[0];
      assert Dropped(a, 0) == a[1..] && Dropped(b, 0) == b[1..];
      SortedNoDup(keys, a);
      SortedNoDup(keys, b);
      MemberDropped(a, 0);
      MemberDropped(b, 0);
      SortedDropped(keys, a, 0);
      SortedDropped(keys, b, 0);
      SortedUnique(keys, a[1..], b[1..]);
    } else {
      if a == [] { NotEmpty(a, b); } else { NotEmpty(b, a); }
    }
  }

  lemma Member(s: seq<int>, k: nat) returns (x: int)
    requires k < |s|
    ensures x == s[k] && x in s
  {
    x := s[k];
  }

  lemma FirstIsLeast(keys: map<int, Key>, row: seq<int>, k: nat)
    requires Sorted(keys, row) && k < |row|
    ensures row[0] in keys && row[k] in keys && (k > 0 ==> Less(keys[row[0]], keys[row[k]]))
  {
    var x := Member(row, k);
    var y := Member(row, 0);
    if k > 0 { assert Ahead(keys, row, 0, k); }
  }

  lemma NotEmpty(a: seq<int>, b: seq<int>)
    requires (forall t :: t in a <==> t in b) && a == []
    ensures b == []
  {
    if b != [] { var y := Member(b, 0); }
  }

  /** a can be read off b by skipping timers. */
  predicate Subsequence(a: seq<int>, b: seq<int>) {
    a == [] || (b != [] && if a[0] == b[0] then Subsequence(a[1..], b[1..]) else Subsequence(a, b[1..]))
  }

  lemma {:induction false} SubsetIsSubsequence(keys: map<int, Key>, a: seq<int>, b: seq<int>)
    requires Sorted(keys, a) && Sorted(keys, b) && forall t :: t in a ==> t in b
    ensures Subsequence(a, b)
    decreases |b|
  {
    if a != [] {
      var x := a[0];
      assert x in a;
      var i := IndexOf(b, x);
      SortedDropped(keys, b, 0);
      SortedNoDup(keys, b);
      MemberDropped(b, 0);
      assert Dropped(b, 0) == b[1..];
      if i == 0 {
        SortedDropped(keys, a, 0);
        SortedNoDup(keys, a);
        MemberDropped(a, 0);
        assert Dropped(a, 0) == a[1..];
        SubsetIsSubsequence(keys, a[1..], b[1..]);
      } else {
        Unique(b, 0);
        assert a[0] != b[0];
        forall t | t in a
          ensures t in b[1..]
        {
          NotFirst(keys, a, b, IndexOf(a, t));
        }
        SubsetIsSubsequence(keys, a, b[1..]);
      }
    }
  }

  /** What comes behind a[0] in a cannot be b[0], if a[0] comes behind b[0] in b. */
  lemma NotFirst(keys: map<int, Key>, a: seq<int>, b: seq<int>, k: nat)
    requires Sorted(keys, a) && Sorted(keys, b) && k < |a| && b != [] && a[0] in b && a[0] != b[0]
    ensures a[k] != b[0]
  {
    assert Ahead(keys, b, 0, IndexOf(b, a[0]));
    if k > 0 { assert Ahead(keys, a, 0, k); }
  }
}
