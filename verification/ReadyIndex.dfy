/** The bitmaps that speed up the scheduler's ready lists, and the table lookup that finds the lowest bit of
    one (scheduler.c and __rt_ffs in kservice.c). */
module ReadyIndex {
  import opened Bits

  // ---- __rt_ffs ----

  /** The number of the lowest bit that is set. */
  function LowBit(x: nat): nat
    requires x > 0
  {
    if x % 2 == 1 then 0 else 1 + LowBit(x / 2)
  }

  lemma {:induction false} LowBitIsLowest(x: nat)
    requires x > 0
    ensures Bit(x, LowBit(x)) && forall j: nat :: j < LowBit(x) ==> !Bit(x, j)
  {
    if x % 2 == 0 {
      LowBitIsLowest(x / 2);
      forall j: nat | j < LowBit(x)
        ensures !Bit(x, j)
      {
        if j > 0 { assert !Bit(x / 2, j - 1); }
      }
    }
  }

  /** One line of the table: only the first of its 16 entries depends on the line. */
  function Line(first: nat): seq<nat> {
    [first, 0, 1, 0, 2, 0, 1, 0, 3, 0, 1, 0, 2, 0, 1, 0]
  }

  /** __lowest_bit_bitmap, sixteen entries to a line */
  const lowestBitBitmap: seq<seq<nat>> :=
    [Line(0), Line(4), Line(5), Line(4), Line(6), Line(4), Line(5), Line(4),
     Line(7), Line(4), Line(5), Line(4), Line(6), Line(4), Line(5), Line(4)]

  function Lookup(b: nat): nat
    requires b < 256
  {
    lowestBitBitmap[b / 16][b % 16]
  }

  lemma LowBitNibble(x: nat)
    requires 0 < x < 16
    ensures LowBit(x) == Line(0)[x]
  {
    assert LowBit(1) == 0 && LowBit(2) == 1 && LowBit(4) == 2 && LowBit(8) == 3;
  }

  /** The first entry of a line is for a byte whose low half is 0. */
  lemma LineHead(x: nat)
    requires 0 < x < 16
    ensures lowestBitBitmap[x][0] == 4 + Line(0)[x]
  {
  }

  /** The lowest bit of a number is that of its k low bits, if there is one among them. */
  lemma {:induction false} LowBitSplit(x: nat, k: nat)
    requires x > 0
    ensures var m := Shl1(k);
            && (x % m != 0 ==> LowBit(x) == LowBit(x % m))
            && (x % m == 0 ==> x / m > 0 && LowBit(x) == k + LowBit(x / m))
  {
    if k > 0 {
      LowBitStep(x, Shl1(k - 1));
      Halves(x, Shl1(k - 1));
      if x % 2 == 0 { LowBitSplit(x / 2, k - 1); }
    }
  }

  lemma LowBitStep(x: nat, m: nat)
    requires m > 0
    ensures x % 2 == (x % (2 * m)) % 2 && (x / 2) % m == (x % (2 * m)) / 2
  {
    var q, r := x / (2 * m), x % (2 * m);
    assert x == (2 * m) * q + r;
    assert (2 * m) * q == 2 * (m * q);
    assert x / 2 == q * m + r / 2;
    Quotient(x / 2, m, q, r / 2);
  }

  /** Behind its first entry every line is the same. */
  lemma LineTail(b: nat)
    requires b < 256 && b % 16 != 0
    ensures Lookup(b) == Line(0)[b % 16]
  {
    LineAt(b / 16);
  }

  lemma LineAt(i: nat)
    requires i < 16
    ensures lowestBitBitmap[i] == Line(lowestBitBitmap[i][0])
  {
  }

  /** The table holds the lowest bit of every byte. */
  lemma TableIsLowBit(b: nat)
    requires 0 < b < 256
    ensures Lookup(b) == LowBit(b)
  {
    hide LowBit, Line;
    assert Shl1(4) == 16;
    LowBitSplit(b, 4);
    if b % 16 != 0 { LineTail(b); }
    if b % 16 != 0 { LowBitNibble(b % 16); } else { LowBitNibble(b / 16); LineHead(b / 16); }
  }

  /** __rt_ffs: the number of the lowest bit, from 1, or 0; byte by byte */
  function Ffs(value: nat): int
    requires value < Shl1(32)
  {
    BytesAre(value);
    if value == 0 then 0
    else if And(value, 0xff) != 0 then Lookup(And(value, 0xff)) + 1
    else if And(value, 0xff00) != 0 then Lookup(Shr(And(value, 0xff00), 8)) + 9
    else if And(value, 0xff0000) != 0 then Lookup(Shr(And(value, 0xff0000), 16)) + 17
    else Lookup(Shr(And(value, 0xff000000), 24)) + 25
  }

  /** The k low bits of x. */
  function Low(x: nat, k: nat): nat {
    if k == 0 then 0 else x % 2 + 2 * Low(x / 2, k - 1)
  }

  /** y << k */
  function Shl(y: nat, k: nat): nat {
    if k == 0 then y else 2 * Shl(y, k - 1)
  }

  lemma {:induction false} AndMask(x: nat, k: nat)
    ensures And(x, Shl1(k) - 1) == Low(x, k)
  {
    if k == 0 {
      AndZero(x);
    } else if x > 0 {
      AndMask(x / 2, k - 1);
      assert (Shl1(k) - 1) / 2 == Shl1(k - 1) - 1;
    } else {
      LowZero(k);
    }
  }

  lemma {:induction false} AndZero(x: nat)
    ensures And(x, 0) == 0
  {
    if x > 0 { AndZero(x / 2); }
  }

  lemma {:induction false} LowZero(k: nat)
    ensures Low(0, k) == 0
  {
    if k > 0 { LowZero(k - 1); }
  }

  /** A mask k bits up picks bits k bits up. */
  lemma {:induction false} AndHigh(x: nat, y: nat, k: nat)
    ensures And(x, Shl(y, k)) == Shl(And(Shr(x, k), y), k)
    ensures Shr(And(x, Shl(y, k)), k) == And(Shr(x, k), y)
  {
    if k > 0 {
      AndHigh(x / 2, y, k - 1);
      if x == 0 { ShrZero(k); ShlZero(k); }
    }
  }

  lemma {:induction false} ShrZero(k: nat)
    ensures Shr(0, k) == 0
  {
    if k > 0 { ShrZero(k - 1); }
  }

  lemma {:induction false} ShlZero(k: nat)
    ensures Shl(0, k) == 0
  {
    if k > 0 { ShlZero(k - 1); }
  }

  lemma {:induction false} LowIs(x: nat, k: nat)
    ensures Low(x, k) == x % Shl1(k)
  {
    if k > 0 {
      LowIs(x / 2, k - 1);
      LowBitStep(x, Shl1(k - 1));
    }
  }

  lemma {:induction false} ShrIs(x: nat, k: nat)
    ensures Shr(x, k) == x / Shl1(k)
  {
    if k > 0 {
      ShrIs(x / 2, k - 1);
      Halves(x, Shl1(k - 1));
    }
  }

  lemma {:induction false} ShlIs(y: nat, k: nat)
    ensures Shl(y, k) == y * Shl1(k)
  {
    if k > 0 { ShlIs(y, k - 1); }
  }

  lemma ByteIs(value: nat, k: nat)
    ensures And(value, Shl(0xff, k)) == Shl(Shr(value, k) % 256, k)
    ensures Shr(And(value, Shl(0xff, k)), k) == Shr(value, k) % 256
  {
    hide And, Shl, Shr;
    AndHigh(value, 0xff, k);
    assert Shl1(8) == 256;
    AndMask(Shr(value, k), 8);
    LowIs(Shr(value, k), 8);
  }

  lemma Powers()
    ensures Shl1(8) == 0x100 && Shl1(16) == 0x1_0000 && Shl1(24) == 0x100_0000 && Shl1(32) == 0x1_0000_0000
  {
    assert Shl1(8) == 0x100;
    assert Shl1(16) == 0x1_0000;
    assert Shl1(24) == 0x100_0000;
  }

  /** What the masks of __rt_ffs pick out. */
  lemma BytesAre(value: nat)
    ensures And(value, 0xff) == value % 256
    ensures And(value, 0xff00) == value / 0x100 % 256 * 0x100 && Shr(And(value, 0xff00), 8) == value / 0x100 % 256
    ensures And(value, 0xff0000) == value / 0x1_0000 % 256 * 0x1_0000 && Shr(And(value, 0xff0000), 16) == value / 0x1_0000 % 256
    ensures Shr(And(value, 0xff000000), 24) == value / 0x100_0000 % 256
  {
    hide And, Shr, Shl1, Shl, Low;
    Powers();
    AndMask(value, 8);
    LowIs(value, 8);
    ByteAt(value, 8);
    ByteAt(value, 16);
    ByteAt(value, 24);
  }

  lemma ByteAt(value: nat, k: nat)
    ensures And(value, 0xff * Shl1(k)) == value / Shl1(k) % 256 * Shl1(k)
    ensures Shr(And(value, 0xff * Shl1(k)), k) == value / Shl1(k) % 256
  {
    hide And, Shr, Shl1, Shl;
    ByteIs(value, k);
    ShlIs(0xff, k);
    ShlIs(Shr(value, k) % 256, k);
    ShrIs(value, k);
  }

  /** __rt_ffs finds the lowest bit of any 32-bit number. */
  lemma FfsIsLowBit(value: nat)
    requires value < Shl1(32)
    ensures Ffs(value) == if value == 0 then 0 else LowBit(value) + 1
  {
    hide And, Shr, Shl1, Lookup, LowBit;
    Powers();
    BytesAre(value);
    if value > 0 {
      LowBitSplit(value, 8);
      var v1 := value / 0x100;
      if value % 256 != 0 {
        TableIsLowBit(value % 256);
      } else {
        LowBitSplit(v1, 8);
        var v2 := v1 / 0x100;
        assert v2 == value / 0x1_0000;
        if v1 % 256 != 0 {
          TableIsLowBit(v1 % 256);
        } else {
          LowBitSplit(v2, 8);
          assert v2 / 0x100 == value / 0x100_0000;
          if v2 % 256 != 0 { TableIsLowBit(v2 % 256); } else { TableIsLowBit(v2 / 256); }
        }
      }
    }
  }

  // ---- the ready index ----

  /** The most urgent priority from p on whose list has a thread, or |ready|. */
  function FirstBusy(ready: seq<seq<int>>, p: nat): (r: nat)
    requires p <= |ready|
    ensures p <= r <= |ready|
    ensures r < |ready| ==> ready[r] != []
    decreases |ready| - p
  {
    if p == |ready| || ready[p] != [] then p else FirstBusy(ready, p + 1)
  }

  lemma {:induction false} FirstBusyIsFirst(ready: seq<seq<int>>, p: nat)
    requires p <= |ready|
    ensures forall i :: p <= i < FirstBusy(ready, p) ==> ready[i] == []
    decreases |ready| - p
  {
    if p < |ready| && ready[p] == [] { FirstBusyIsFirst(ready, p + 1); }
  }

  lemma FirstBusyIs(ready: seq<seq<int>>, p: nat)
    requires p < |ready| && ready[p] != [] && forall i :: 0 <= i < p ==> ready[i] == []
    ensures FirstBusy(ready, 0) == p
  {
    FirstBusyIsFirst(ready, 0);
  }

  /** Up to 32 priorities: one bit for each list. */
  ghost predicate OneLevel(group: nat, ready: seq<seq<int>>) {
    |ready| <= 32 && forall k: nat :: Bit(group, k) <==> k < |ready| && ready[k] != []
  }

  /** More priorities: a bit for each list in a table of bytes, and one bit for each byte. */
  ghost predicate TwoLevel(group: nat, table: seq<nat>, ready: seq<seq<int>>) {
    && |ready| <= 256 && |table| == 32
    && (forall n: nat :: Bit(group, n) <==> n < 32 && table[n] != 0)
    && forall n :: 0 <= n < 32 ==> ByteMatches(table, ready, n)
  }

  ghost predicate ByteMatches(table: seq<nat>, ready: seq<seq<int>>, n: nat)
    requires n < |table|
  {
    forall k: nat :: Bit(table[n], k) <==> k < 8 && 8 * n + k < |ready| && ready[8 * n + k] != []
  }

  lemma {:induction false} Bounded(x: nat, w: nat)
    requires forall k: nat :: k >= w ==> !Bit(x, k)
    ensures x < Shl1(w)
  {
    if w == 0 {
      if x > 0 { var k := SomeBit(x); }
    } else {
      forall k: nat | k >= w - 1
        ensures !Bit(x / 2, k)
      {
        assert !Bit(x, k + 1);
      }
      Bounded(x / 2, w - 1);
    }
  }

  lemma Nonzero(x: nat, k: nat)
    requires Bit(x, k)
    ensures x > 0
  {
    if x == 0 { BitZero(k); }
  }

  /** A list that gets a thread, or keeps one: its bit is set. */
  lemma OneLevelSet(group: nat, ready: seq<seq<int>>, p: nat, list: seq<int>)
    requires OneLevel(group, ready) && p < |ready| && list != []
    ensures OneLevel(Or(group, Shl1(p)), ready[p := list])
  {
    forall k: nat
      ensures Bit(Or(group, Shl1(p)), k) <==> Bit(group, k) || k == p
    {
      BitOr(group, Shl1(p), k);
      BitShl1(p, k);
    }
  }

  /** A list that gets empty: its bit is cleared. */
  lemma OneLevelClear(group: nat, ready: seq<seq<int>>, p: nat)
    requires OneLevel(group, ready) && p < |ready|
    ensures OneLevel(AndNot(group, Shl1(p)), ready[p := []])
  {
    forall k: nat
      ensures Bit(AndNot(group, Shl1(p)), k) <==> Bit(group, k) && k != p
    {
      BitAndNot(group, Shl1(p), k);
      BitShl1(p, k);
    }
  }

  /** The lookup finds the most urgent list that has a thread. */
  lemma OneLevelFind(group: nat, ready: seq<seq<int>>)
    requires OneLevel(group, ready)
    ensures group < Shl1(32)
    ensures group == 0 <==> FirstBusy(ready, 0) == |ready|
    ensures group != 0 ==> Ffs(group) - 1 == FirstBusy(ready, 0)
  {
    hide Shl1, Ffs;
    Bounded(group, 32);
    FirstBusyIsFirst(ready, 0);
    if group == 0 {
      forall k: nat
        ensures !Bit(group, k)
      {
        BitZero(k);
      }
    } else {
      FfsIsLowBit(group);
      LowBitIsLowest(group);
      FirstBusyIs(ready, LowBit(group));
    }
  }

  lemma TwoLevelSet(group: nat, table: seq<nat>, ready: seq<seq<int>>, n: nat, b: nat, list: seq<int>)
    requires TwoLevel(group, table, ready) && n < 32 && b < 8 && 8 * n + b < |ready| && list != []
    ensures TwoLevel(Or(group, Shl1(n)), table[n := Or(table[n], Shl1(b))], ready[8 * n + b := list])
  {
    hide Bit, Or, Shl1;
    var table' := table[n := Or(table[n], Shl1(b))];
    var ready' := ready[8 * n + b := list];
    assert ByteMatches(table, ready, n);
    forall k: nat
      ensures Bit(table'[n], k) <==> Bit(table[n], k) || k == b
    {
      BitOr(table[n], Shl1(b), k);
      BitShl1(b, k);
    }
    assert Bit(table'[n], b);
    Nonzero(table'[n], b);
    forall k: nat
      ensures Bit(Or(group, Shl1(n)), k) <==> Bit(group, k) || k == n
    {
      BitOr(group, Shl1(n), k);
      BitShl1(n, k);
    }
    forall m | 0 <= m < 32
      ensures ByteMatches(table', ready', m)
    {
      assert ByteMatches(table, ready, m);
    }
  }

  lemma TwoLevelClear(group: nat, table: seq<nat>, ready: seq<seq<int>>, n: nat, b: nat)
    requires TwoLevel(group, table, ready) && n < 32 && b < 8 && 8 * n + b < |ready|
    ensures var byte := AndNot(table[n], Shl1(b));
            TwoLevel(if byte == 0 then AndNot(group, Shl1(n)) else group, table[n := byte], ready[8 * n + b := []])
  {
    hide Bit, AndNot, Shl1;
    var byte := AndNot(table[n], Shl1(b));
    var table' := table[n := byte];
    var ready' := ready[8 * n + b := []];
    var group' := if byte == 0 then AndNot(group, Shl1(n)) else group;
    assert ByteMatches(table, ready, n);
    forall k: nat
      ensures Bit(byte, k) <==> Bit(table[n], k) && k != b
    {
      BitAndNot(table[n], Shl1(b), k);
      BitShl1(b, k);
    }
    if byte != 0 {
      var k := SomeBit(byte);
      Nonzero(table[n], k);
    }
    forall k: nat
      ensures Bit(group', k) <==> k < 32 && table'[k] != 0
    {
      BitAndNot(group, Shl1(n), k);
      BitShl1(n, k);
    }
    forall m | 0 <= m < 32
      ensures ByteMatches(table', ready', m)
    {
      assert ByteMatches(table, ready, m);
    }
  }

  lemma TwoLevelFind(group: nat, table: seq<nat>, ready: seq<seq<int>>)
    requires TwoLevel(group, table, ready)
    ensures group < Shl1(32)
    ensures group == 0 <==> FirstBusy(ready, 0) == |ready|
    ensures group != 0 ==>
              var n := Ffs(group) - 1;
              0 <= n < 32 && table[n] < Shl1(32) && 8 * n + Ffs(table[n]) - 1 == FirstBusy(ready, 0)
  {
    hide Shl1, Ffs, Bit;
    Bounded(group, 32);
    FirstBusyIsFirst(ready, 0);
    if group == 0 {
      forall n: nat
        ensures !Bit(group, n)
      {
        BitZero(n);
      }
      var p := FirstBusy(ready, 0);
      if p < |ready| { ListHasByte(group, table, ready, p); }
    } else {
      FfsIsLowBit(group);
      LowBitIsLowest(group);
      var n := LowBit(group);
      assert ByteMatches(table, ready, n);
      Bounded(table[n], 32);
      FfsIsLowBit(table[n]);
      LowBitIsLowest(table[n]);
      var p := 8 * n + LowBit(table[n]);
      forall i | 0 <= i < p
        ensures ready[i] == []
      {
        if ready[i] != [] { ListHasByte(group, table, ready, i); }
      }
      FirstBusyIs(ready, p);
    }
  }

  /** A list with a thread has its bit in both levels. */
  lemma ListHasByte(group: nat, table: seq<nat>, ready: seq<seq<int>>, p: nat)
    requires TwoLevel(group, table, ready) && p < |ready| && ready[p] != []
    ensures p / 8 < 32 && Bit(table[p / 8], p % 8) && Bit(group, p / 8)
  {
    hide Bit;
    assert ByteMatches(table, ready, p / 8);
    Nonzero(table[p / 8], p % 8);
  }
}
