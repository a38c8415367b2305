/** memheap.c on its own data structure: two circular lists threaded through the block headers of one
    pool, relinked in place, and the pool's bytes.  Every operation is proved to do to the links what
    MemHeapModel does to the abstract heap. */
module MemHeap {
  import opened RtDef
  import opened RtList
  import opened Tiling
  import opened MemHeapModel

  const FREE_HEADER := -2        // the list header in struct rt_memheap, outside the pool

  /** No payload byte in use lies in the header to be written at n inside block k. */
  ghost predicate Clear(h: Heap, n: int) {
    forall i: nat, x: int :: h.Owns(i, x) ==> !(n <= x < n + HEADER)
  }

  /** The extent of block k holds no payload byte of another block. */
  lemma ExtentIsOwn(h: Heap, k: nat)
    requires Inv(h) && k + 1 < |h.blocks|
    ensures forall i: nat, x: int :: h.Owns(i, x) && i != k ==> !(h.blocks[k] <= x < h.blocks[k + 1])
  {
    forall i: nat, x: int | h.Owns(i, x) && i != k
      ensures !(h.blocks[k] <= x < h.blocks[k + 1])
    {
      if i < k { ApartNext(h, i, k); } else { ApartNext(h, k, i); }
    }
  }

  lemma UnusedIsClear(h: Heap, k: nat, n: int)
    requires Inv(h) && k + 1 < |h.blocks| && h.blocks[k] !in h.live
    requires h.blocks[k] <= n && n + HEADER <= h.blocks[k + 1]
    ensures Clear(h, n)
  {
    ExtentIsOwn(h, k);
  }

  lemma ApartNext(h: Heap, i: nat, j: nat)
    requires Inv(h) && i < j < |h.blocks|
    ensures h.blocks[i + 1] <= h.blocks[j]
  {
    if i + 1 < j { Apart(h.blocks, HEADER, h.pool - HEADER, i + 1, j); }
  }

  lemma InPool(h: Heap, k: nat)
    requires Inv(h) && k < |h.blocks|
    ensures 0 <= h.blocks[k] && h.blocks[k] + HEADER <= h.pool
  {
    if k > 0 { Apart(h.blocks, HEADER, h.pool - HEADER, 0, k); }
    if k + 1 < |h.blocks| { Apart(h.blocks, HEADER, h.pool - HEADER, k, |h.blocks| - 1); }
  }

  lemma FreeIsInside(h: Heap, j: nat)
    requires Inv(h) && j < |h.frees|
    ensures h.frees[j] in h.blocks && h.frees[j] !in h.live && h.At(h.frees[j]) + 1 < |h.blocks|
    ensures h.frees[j] >= 0
  {
    LastIsLive(h);
    assert h.frees[j] in h.frees;
    InPool(h, h.At(h.frees[j]));
  }

  lemma SizeByLinks(h: Heap, next: map<int, int>, prev: map<int, int>, b: int)
    requires Ring(next, prev, h.blocks) && b in h.blocks && h.At(b) + 1 < |h.blocks|
    ensures b in next && next[b] - b - HEADER == h.Size(h.At(b))
    ensures b in prev && (h.At(b) > 0 ==> prev[b] == h.blocks[h.At(b) - 1])
    ensures h.At(b) == 0 ==> prev[b] == h.blocks[|h.blocks| - 1]
  {
    var k := h.At(b);
    assert LinkedAt(next, prev, h.blocks, k);
  }

  /** The i-th stop of a walk along the free list. */
  ghost function FreeAt(h: Heap, i: nat): int
    requires i <= |h.frees|
  {
    if i < |h.frees| then h.frees[i] else FREE_HEADER
  }

  lemma FreeByLinks(h: Heap, nextFree: map<int, int>, prevFree: map<int, int>, i: nat)
    requires Ring(nextFree, prevFree, [FREE_HEADER] + h.frees) && i <= |h.frees|
    ensures var b := if i == 0 then FREE_HEADER else h.frees[i - 1];
            b in nextFree && nextFree[b] == FreeAt(h, i)
  {
    assert LinkedAt(nextFree, prevFree, [FREE_HEADER] + h.frees, i);
  }

  /** The used flag of every header is the abstract one. */
  ghost predicate Marked(h: Heap, used: map<int, bool>) {
    forall x :: x in h.blocks ==> x in used && (used[x] <==> x in h.live)
  }

  lemma MarkedTake(h: Heap, j: nat, want: nat, used: map<int, bool>)
    requires Inv(h) && j < |h.frees| && h.frees[j] in h.blocks && h.At(h.frees[j]) + 1 < |h.blocks|
    requires h.Size(h.At(h.frees[j])) >= want && Marked(h, used)
    ensures var b := h.frees[j];
            var k := h.At(b);
            Marked(TakeBlock(h, j, want),
                   (if h.Size(k) >= want + HEADER + MINIALLOC then used[b + want + HEADER := false] else used)[b := true])
  {
    var b := h.frees[j];
    var k := h.At(b);
    if h.Size(k) >= want + HEADER + MINIALLOC {
      var n := b + want + HEADER;
      TiledInsert(h.blocks, HEADER, h.pool - HEADER, k, n);
      MemberInserted(h.blocks, k, n);
    }
  }

  lemma SplitFits(h: Heap, j: nat, k: nat, n: int)
    requires Inv(h) && j < |h.frees| && k + 1 < |h.blocks| && h.blocks[k] == h.frees[j]
    requires h.blocks[k] + HEADER <= n && n + HEADER <= h.blocks[k + 1]
    ensures 0 <= n && n + HEADER <= h.pool && n !in h.blocks && n !in Dropped(h.frees, j)
    ensures Clear(h, n)
  {
    FreeIsInside(h, j);
    InPool(h, k);
    InPool(h, k + 1);
    TiledInsert(h.blocks, HEADER, h.pool - HEADER, k, n);
    UnusedIsClear(h, k, n);
    MemberDropped(h.frees, j);
  }

  lemma MarkedFree(h: Heap, k: nat, used: map<int, bool>)
    requires Inv(h) && k + 1 < |h.blocks| && h.blocks[k] in h.live && Marked(h, used)
    ensures Marked(FreeBlock(h, k), used[h.blocks[k] := false])
  {
    TiledNoDup(h.blocks, HEADER, h.pool - HEADER);
    MergedBlocksMembers(h.blocks, h.live, k);
  }

  /** What rt_memheap_free reads off the headers around block k. */
  lemma FreeNeighbours(h: Heap, next: map<int, int>, prev: map<int, int>, used: map<int, bool>, k: nat)
    requires Inv(h) && k + 1 < |h.blocks| && h.blocks[k] in h.live && Marked(h, used) && Ring(next, prev, h.blocks)
    ensures var b := h.blocks[k];
            var c := h.blocks[k + 1];
            && b in next && next[b] == c && c in used && c != b
            && b in prev && prev[b] in used && prev[b] != b && (k > 0 ==> prev[b] == h.blocks[k - 1])
            && (!used[prev[b]] <==> MergesLeft(h.blocks, h.live, k))
            && (!used[c] <==> MergesRight(h.blocks, h.live, k))
            && (!used[c] ==> c in h.frees)
            && b !in h.frees && b >= 0
  {
    InPool(h, k);
    var blocks := h.blocks;
    TiledNoDup(blocks, HEADER, h.pool - HEADER);
    Unique(blocks, k);
    RingHop(next, prev, blocks, k);
    var c, p := blocks[k + 1], blocks[Before(k, |blocks|)];
    assert c in blocks && p in blocks;
    assert k == 0 ==> p == h.pool - HEADER;
  }

  lemma RightByLinks(h: Heap, next: map<int, int>, prev: map<int, int>, used: map<int, bool>, k: nat)
    requires Inv(h) && Ring(next, prev, h.blocks) && Marked(h, used) && k + 1 < |h.blocks|
    ensures h.blocks[k] in next && next[h.blocks[k]] == h.blocks[k + 1]
    ensures h.blocks[k + 1] in used && (!used[h.blocks[k + 1]] <==> MergesRight(h.blocks, h.live, k))
    ensures MergesRight(h.blocks, h.live, k) ==> k + 2 < |h.blocks|
  {
    RingHop(next, prev, h.blocks, k);
    var c := h.blocks[k + 1];
    assert c in h.blocks;
  }

  lemma BlockAt(h: Heap, k: nat)
    requires Inv(h) && k < |h.blocks|
    ensures h.At(h.blocks[k]) == k
  {
    AtIs(h, k);
  }

  /** Where the header goes that Grow writes. */
  lemma GrowFits(h: Heap, k: nat, want: nat)
    requires Inv(h) && k + 2 < |h.blocks| && Grows(h, k, want) && want > h.Size(k) && !Wraps(want)
    requires h.blocks[k] in h.live && h.blocks[k + 1] in h.frees
    ensures var n := h.blocks[k] + HEADER + want;
            && 0 <= n && n + HEADER <= h.pool && n !in Dropped(h.blocks, k + 1)
            && n !in Dropped(h.frees, IndexOf(h.frees, h.blocks[k + 1])) && Clear(h, n)
    ensures Dropped(h.blocks, k + 1)[k] == h.blocks[k]
  {
    var n := h.blocks[k] + HEADER + want;
    GrowFresh(h, k, want);
    InPool(h, k);
    InPool(h, k + 2);
    TiledNoDup(h.blocks, HEADER, h.pool - HEADER);
    MemberDropped(h.blocks, k + 1);
    MemberDropped(h.frees, IndexOf(h.frees, h.blocks[k + 1]));
    UnusedIsClear(h, k + 1, n);
  }

  lemma MarkedGrow(h: Heap, k: nat, want: nat, used: map<int, bool>)
    requires Inv(h) && k + 2 < |h.blocks| && Grows(h, k, want) && want > h.Size(k) && !Wraps(want) && Marked(h, used)
    requires h.blocks[k] in h.live && h.blocks[k + 1] in h.frees
    ensures Marked(Grow(h, k, want), used[h.blocks[k] + HEADER + want := false])
  {
    hide Inv, Inserted, Dropped;
    GrowMembers(h, k, want);
  }

  lemma GrowMembers(h: Heap, k: nat, want: nat)
    requires Inv(h) && k + 2 < |h.blocks| && Grows(h, k, want) && want > h.Size(k) && !Wraps(want)
    ensures var n := h.blocks[k] + HEADER + want;
            && n !in h.live
            && forall x :: x in Inserted(Dropped(h.blocks, k + 1), k, n) ==> x == n || x in h.blocks
  {
    hide Tiled, FreeListExact, Coalesced, Unused, Inserted;
    GrowFresh(h, k, want);
    MemberInserted(Dropped(h.blocks, k + 1), k, h.blocks[k] + HEADER + want);
  }

  /** Where the header goes that Shrink writes. */
  lemma ShrinkFits(h: Heap, k: nat, n: int)
    requires Inv(h) && k + 1 < |h.blocks| && h.blocks[k] in h.live
    requires h.blocks[k] + HEADER <= n && n + HEADER <= h.blocks[k + 1]
    ensures 0 <= n && n + HEADER <= h.pool && n !in h.blocks && n !in h.frees
    ensures MergesRight(h.blocks, h.live, k) && k + 2 < |h.blocks| && h.blocks[k + 1] in h.frees ==>
              n !in Dropped(h.frees, IndexOf(h.frees, h.blocks[k + 1]))
  {
    InPool(h, k);
    InPool(h, k + 1);
    TiledInsert(h.blocks, HEADER, h.pool - HEADER, k, n);
    if MergesRight(h.blocks, h.live, k) && k + 2 < |h.blocks| && h.blocks[k + 1] in h.frees {
      MemberDropped(h.frees, IndexOf(h.frees, h.blocks[k + 1]));
    }
  }

  lemma MarkedShrink(h: Heap, k: nat, want: nat, used: map<int, bool>)
    requires Inv(h) && k + 1 < |h.blocks| && h.blocks[k] in h.live && want + HEADER + MINIALLOC < h.Size(k)
    requires MergesRight(h.blocks, h.live, k) ==> k + 2 < |h.blocks| && h.blocks[k + 1] in h.frees
    requires Marked(h, used)
    ensures Marked(Shrink(h, k, want), used[h.blocks[k] + HEADER + want := false])
  {
    hide Inv, Inserted, Dropped;
    ShrinkMembers(h, k, want);
  }

  lemma ShrinkMembers(h: Heap, k: nat, want: nat)
    requires Inv(h) && k + 1 < |h.blocks| && h.blocks[k] in h.live && want + HEADER + MINIALLOC < h.Size(k)
    requires MergesRight(h.blocks, h.live, k) ==> k + 2 < |h.blocks| && h.blocks[k + 1] in h.frees
    ensures var n := h.blocks[k] + HEADER + want;
            && n !in h.live
            && forall x :: x in Shrink(h, k, want).blocks ==> x == n || x in h.blocks
  {
    hide Tiled, FreeListExact, Coalesced, Unused, Inserted;
    var n := h.blocks[k] + HEADER + want;
    ShrinkTiling(h, k, n);
    MemberInserted(h.blocks, k, n);
  }

  /** A new payload lies in the pool and overlaps none in use. */
  lemma AllocFits(h: Heap, want: nat)
    requires Inv(h) && Request(want) == want
    ensures var p := Alloc(h, want).1;
            p != NULL ==>
              && 0 <= p && p + want <= h.pool
              && forall i: nat, x: int :: h.Owns(i, x) ==> !(p <= x < p + want)
  {
    LastIsLive(h);
    var j := FirstFit(h, want, 0);
    if j < |h.frees| {
      FreeIsInside(h, j);
      var k := h.At(h.frees[j]);
      InPool(h, k);
      InPool(h, k + 1);
      ExtentIsOwn(h, k);
    }
  }

  /** The payload of an allocated block, as owned bytes. */
  lemma OwnExtent(h: Heap, a: int)
    requires Inv(h) && h.Allocated(a)
    ensures var k := h.At(a - HEADER);
            && k + 1 < |h.blocks| && 0 <= a && a + h.Size(k) <= h.pool
            && (forall x :: a <= x < a + h.Size(k) ==> h.Owns(k, x))
            && forall i: nat, x: int :: h.Owns(i, x) && h.blocks[i] == a - HEADER ==> a <= x < a + h.Size(k)
  {
    AllocatedAt(h, a);
    var k := h.At(a - HEADER);
    InPool(h, k);
    InPool(h, k + 1);
    TiledNoDup(h.blocks, HEADER, h.pool - HEADER);
    Unique(h.blocks, k);
  }

  /** A new payload does not overlap the one at a. */
  lemma PayloadsApart(h: Heap, a: int, want: nat)
    requires Inv(h) && h.Allocated(a) && Request(want) == want
    ensures var p := Alloc(h, want).1;
            var k := h.At(a - HEADER);
            k + 1 < |h.blocks| && (p == NULL || h.Size(k) <= 0 || a + h.Size(k) <= p || p + want <= a)
  {
    AllocFits(h, want);
    OwnExtent(h, a);
    var p := Alloc(h, want).1;
    var x := if a < p then p else a;
    assert a <= x < a + h.Size(h.At(a - HEADER)) ==> h.Owns(h.At(a - HEADER), x);
  }

  lemma NullOwnsNothing(h: Heap)
    requires Inv(h)
    ensures forall i: nat, x: int :: h.Owns(i, x) ==> h.blocks[i] != NULL - HEADER
  {
    forall i: nat, x: int | h.Owns(i, x)
      ensures h.blocks[i] != NULL - HEADER
    {
      InPool(h, i);
    }
  }

  lemma LiveNotFree(h: Heap, k: nat)
    requires Inv(h) && k + 1 < |h.blocks| && h.blocks[k] in h.live
    requires MergesRight(h.blocks, h.live, k) ==> h.blocks[k + 1] in h.frees
    ensures h.blocks[k] !in DroppedFrees(h, k)
  {
    var b := h.blocks[k];
    assert b !in h.frees;
    if MergesRight(h.blocks, h.live, k) {
      MemberDropped(h.frees, IndexOf(h.frees, h.blocks[k + 1]));
    }
  }

  lemma ShrinkPool(h: Heap, k: nat, want: nat)
    requires k + 1 < |h.blocks|
    requires MergesRight(h.blocks, h.live, k) ==> k + 2 < |h.blocks| && h.blocks[k + 1] in h.frees
    ensures Shrink(h, k, want).pool == h.pool && Shrink(h, k, want).maxUsed == h.maxUsed
  {
  }

  class Pool {
    var size: int                // pool_size
    var available: int           // available_size
    var maxUsed: int             // max_used_size
    var next: map<int, int>      // the header fields, by header address
    var prev: map<int, int>
    var nextFree: map<int, int>
    var prevFree: map<int, int>
    var used: map<int, bool>     // RT_MEMHEAP_USED in magic
    var data: array<bv8>         // the bytes of the pool
    ghost var model: Heap

    ghost predicate Linked()
      reads this
    {
      && Ring(next, prev, model.blocks)
      && Ring(nextFree, prevFree, [FREE_HEADER] + model.frees)
      && Marked(model, used)
    }

    ghost predicate Valid()
      reads this, data
    {
      && Inv(model) && Linked()
      && size == model.pool == data.Length && available == model.available && maxUsed == model.maxUsed
    }

    /** rt_memheap_init */
    constructor (bytes: nat)
      requires 2 * HEADER <= bytes
      ensures Valid() && model == Init(bytes) && fresh(data)
    {
      var pool := bytes / ALIGN * ALIGN;
      size := pool;
      available := pool - 2 * HEADER;
      maxUsed := pool - (pool - 2 * HEADER);
      var tailer := pool - HEADER;
      next := map[0 := tailer, tailer := 0];
      prev := map[0 := tailer, tailer := 0];
      nextFree := map[FREE_HEADER := 0, 0 := FREE_HEADER];
      prevFree := map[FREE_HEADER := 0, 0 := FREE_HEADER];
      used := map[0 := false, tailer := true];
      data := new bv8[pool];
      model := Init(bytes);
      new;
      InitInv(bytes);
      assert [FREE_HEADER] + model.frees == [FREE_HEADER, 0];
    }

    /** Enter header n into the block list behind header b. */
    method Link(b: int, n: int, ghost s: seq<int>, ghost k: nat)
      requires Ring(next, prev, s) && k < |s| && s[k] == b && n !in s
      modifies this`next, this`prev
      ensures Ring(next, prev, Inserted(s, k, n))
    {
      RingInsert(next, prev, s, k, n);
      assert LinkedAt(next, prev, s, k);
      prev := prev[n := b];
      next := next[n := next[b]];
      prev := prev[next[b] := n];
      next := next[b := n];
      assert prev == PrevInserted(old(next), old(prev), b, n);
    }

    /** Take header b out of the block list. */
    method Unlink(b: int, ghost s: seq<int>, ghost k: nat)
      requires Ring(next, prev, s) && k < |s| && s[k] == b && |s| > 1
      modifies this`next, this`prev
      ensures Ring(next, prev, Dropped(s, k))
      ensures b in prev && prev[b] == old(prev)[b]
    {
      RingBypass(next, prev, s, k);
      RingHop(next, prev, s, k);
      Unique(s, k);
      prev := prev[next[b] := prev[b]];
      next := next[prev[b] := next[b]];
    }

    /** Put block n in front of the free list. */
    method PushFree(n: int, ghost frees: seq<int>)
      requires Ring(nextFree, prevFree, [FREE_HEADER] + frees) && n !in frees && n != FREE_HEADER
      modifies this`nextFree, this`prevFree
      ensures Ring(nextFree, prevFree, [FREE_HEADER] + ([n] + frees))
    {
      ghost var s := [FREE_HEADER] + frees;
      RingInsert(nextFree, prevFree, s, 0, n);
      assert Inserted(s, 0, n) == [FREE_HEADER] + ([n] + frees);
      assert LinkedAt(nextFree, prevFree, s, 0);
      nextFree := nextFree[n := nextFree[FREE_HEADER]];
      prevFree := prevFree[n := FREE_HEADER];
      prevFree := prevFree[nextFree[FREE_HEADER] := n];
      nextFree := nextFree[FREE_HEADER := n];
      assert prevFree == PrevInserted(old(nextFree), old(prevFree), FREE_HEADER, n);
    }

    /** Take block b out of the free list. */
    method DropFree(b: int, ghost frees: seq<int>, ghost j: nat)
      requires Ring(nextFree, prevFree, [FREE_HEADER] + frees) && j < |frees| && frees[j] == b
      modifies this`nextFree, this`prevFree
      ensures Ring(nextFree, prevFree, [FREE_HEADER] + Dropped(frees, j))
    {
      ghost var s := [FREE_HEADER] + frees;
      RingBypass(nextFree, prevFree, s, j + 1);
      assert Dropped(s, j + 1) == [FREE_HEADER] + Dropped(frees, j);
      prevFree := prevFree[nextFree[b] := prevFree[b]];
      nextFree := nextFree[prevFree[b] := nextFree[b]];
    }

    /** Write a header at n: its bytes are no payload any more. */
    method WriteHeader(n: int)
      requires 0 <= n && n + HEADER <= data.Length
      modifies this`used, data
      ensures used == old(used)[n := false]
      ensures forall x :: 0 <= x < data.Length && !(n <= x < n + HEADER) ==> data[x] == old(data[x])
    {
      forall x | n <= x < n + HEADER {
        data[x] := 0;
      }
      used := used[n := false];
    }

    /** The bytes in use keep their content. */
    twostate predicate BytesKept()
      reads this, data
    {
      && data == old(data)
      && forall i: nat, x: int :: old(model).Owns(i, x) && 0 <= x < data.Length ==> data[x] == old(data[x])
    }

    /** The bytes in use outside the block with payload address a keep their content. */
    twostate predicate OthersKept(a: int)
      reads this, data
    {
      && data == old(data)
      && forall i: nat, x: int :: old(model).Owns(i, x) && 0 <= x < data.Length && old(model).blocks[i] != a - HEADER ==>
           data[x] == old(data[x])
    }

    /** The first `want` bytes of the payload at a are found at p. */
    twostate predicate PayloadMoved(a: int, p: int, want: int)
      reads this, data
    {
      data == old(data) && (p != NULL ==>
        forall i: nat, x: int :: old(model).Owns(i, x) && old(model).blocks[i] == a - HEADER && a <= x < a + want
                                 && 0 <= x < data.Length && 0 <= x - a + p < data.Length ==>
          data[x - a + p] == old(data[x]))
    }

    /** rt_memheap_alloc */
    method Alloc(bytes: nat) returns (p: int)
      requires Valid() && bytes < WORD
      modifies this, data
      ensures Valid() && (model, p) == MemHeapModel.Alloc(old(model), bytes)
      ensures BytesKept()
    {
      hide Inv, Ring, Marked, TakeBlock;
      var want := AlignUp(bytes);
      if want < MINIALLOC { want := MINIALLOC; }
      ghost var h := model;
      LastIsLive(h);
      AllocInv(h, bytes);
      p := NULL;
      if want < available {
        var freeSize := 0;
        ghost var i := 0;
        FreeByLinks(h, nextFree, prevFree, 0);
        var b := nextFree[FREE_HEADER];
        while b != FREE_HEADER && freeSize < want
          invariant unchanged(this) && unchanged(data)
          invariant 0 <= i <= |h.frees| && b == FreeAt(h, i)
          invariant FirstFit(h, want, 0) == FirstFit(h, want, i)
          invariant freeSize >= want ==> i < |h.frees| && freeSize == h.Size(h.At(b))
          decreases |h.frees| - i, want - freeSize
        {
          FreeIsInside(h, i);
          SizeByLinks(h, next, prev, b);
          freeSize := next[b] - b - HEADER;
          if freeSize < want {
            FreeByLinks(h, nextFree, prevFree, i + 1);
            b := nextFree[b];
            i := i + 1;
          }
        }
        if i < |h.frees| { FreeIsInside(h, i); }
        if freeSize >= want {
          Take(b, want, freeSize, i);
          p := b + HEADER;
        }
      }
    }

    /** The found block b, entry j of the free list, is split or used whole. */
    method Take(b: int, want: nat, freeSize: int, ghost j: nat)
      requires Valid() && want >= MINIALLOC && j < |model.frees| && b == model.frees[j]
      requires b in model.blocks && model.At(b) + 1 < |model.blocks| && freeSize == model.Size(model.At(b)) >= want
      modifies this, data
      ensures Valid() && model == TakeBlock(old(model), j, want)
      ensures BytesKept()
    {
      hide Inv, Ring, Inserted, Dropped, Marked, Clear;
      TakeBlockInv(model, j, want);
      MarkedTake(model, j, want, used);
      if freeSize >= want + HEADER + MINIALLOC {
        SplitOff(b, want, j);
      } else {
        available := available - freeSize;
        DropFree(b, model.frees, j);
      }
      if size - available > maxUsed { maxUsed := size - available; }
      used := used[b := true];
      model := TakeBlock(model, j, want);
    }

    /** Turn what is behind the first `want` bytes of the unused block b into an unused block. */
    method SplitOff(b: int, want: nat, ghost j: nat)
      requires Valid() && j < |model.frees| && b == model.frees[j] && b in model.blocks
      requires model.At(b) + 1 < |model.blocks| && model.Size(model.At(b)) >= want + HEADER
      modifies this`available, this`next, this`prev, this`nextFree, this`prevFree, this`used, data
      ensures var n := b + want + HEADER;
              && used == old(used)[n := false] && available == old(available) - want - HEADER
              && Ring(next, prev, Inserted(model.blocks, model.At(b), n))
              && Ring(nextFree, prevFree, [FREE_HEADER] + ([n] + Dropped(model.frees, j)))
      ensures BytesKept()
    {
      hide Inv, Ring, Inserted, Dropped, Marked;
      var n := b + want + HEADER;
      SplitFits(model, j, model.At(b), n);
      WriteHeader(n);
      Link(b, n, model.blocks, model.At(b));
      DropFree(b, model.frees, j);
      PushFree(n, Dropped(model.frees, j));
      available := available - want - HEADER;
    }

    /** rt_memheap_free */
    method Free(a: int)
      requires Valid() && (a == NULL || model.Allocated(a))
      modifies this`available, this`next, this`prev, this`nextFree, this`prevFree, this`used, this`model
      ensures Valid() && model == MemHeapModel.Free(old(model), a)
    {
      hide Inv, Ring, Marked, MergedBlocks, LeftMerged, MergesLeft, MergesRight, DroppedFrees;
      if a != NULL {
        var b := a - HEADER;
        ghost var k := model.At(b);
        FreeInv(model, a);
        AllocatedAt(model, a);
        MarkedFree(model, k, used);
        FreeNeighbours(model, next, prev, used, k);
        used := used[b := false];
        available := available + (next[b] - b - HEADER);
        LiveNotFree(model, k);
        Merge(b, k);
        model := MemHeapModel.Free(model, a);
      }
    }

    /** Merge the released block k with its unused neighbours; without a left one it enters the free list. */
    method Merge(b: int, ghost k: nat)
      requires k + 1 < |model.blocks| && b == model.blocks[k] && b != FREE_HEADER
      requires Ring(next, prev, model.blocks) && Ring(nextFree, prevFree, [FREE_HEADER] + model.frees)
      requires prev[b] in used && prev[b] != b && (!used[prev[b]] <==> MergesLeft(model.blocks, model.live, k))
      requires var c := model.blocks[k + 1];
               c in used && (!used[c] <==> MergesRight(model.blocks, model.live, k)) && (!used[c] ==> c in model.frees)
      requires b !in DroppedFrees(model, k)
      modifies this`available, this`next, this`prev, this`nextFree, this`prevFree
      ensures Ring(next, prev, MergedBlocks(model.blocks, model.live, k))
      ensures Ring(nextFree, prevFree, [FREE_HEADER] + MergedFrees(model, k))
      ensures available == old(available)
                           + (if MergesLeft(model.blocks, model.live, k) then HEADER else 0)
                           + (if MergesRight(model.blocks, model.live, k) then HEADER else 0)
    {
      hide Ring, MergedBlocks, LeftMerged, MergesLeft, MergesRight, DroppedFrees;
      var first, insertHeader := AbsorbLeft(b, k);
      AbsorbRight(first, k);
      if insertHeader {
        PushFree(b, DroppedFrees(model, k));
      }
    }

    /** Merge the released block k into an unused left neighbour. */
    method AbsorbLeft(b: int, ghost k: nat) returns (first: int, insertHeader: bool)
      requires k + 1 < |model.blocks| && b == model.blocks[k] && Ring(next, prev, model.blocks)
      requires prev[b] in used && prev[b] != b && (!used[prev[b]] <==> MergesLeft(model.blocks, model.live, k))
      modifies this`available, this`next, this`prev
      ensures insertHeader <==> !MergesLeft(model.blocks, model.live, k)
      ensures Ring(next, prev, LeftMerged(model.blocks, model.live, k))
      ensures first == (if insertHeader then b else model.blocks[k - 1])
      ensures available == old(available) + if insertHeader then 0 else HEADER
    {
      RingHop(next, prev, model.blocks, k);
      first, insertHeader := b, true;
      if !used[prev[b]] {
        available := available + HEADER;
        Unlink(b, model.blocks, k);
        first := prev[b];
        insertHeader := false;
      }
    }

    /** Merge an unused right neighbour into the block at `first`, which block k has become part of. */
    method AbsorbRight(first: int, ghost k: nat)
      requires k + 1 < |model.blocks| && Ring(next, prev, LeftMerged(model.blocks, model.live, k))
      requires first == model.blocks[if MergesLeft(model.blocks, model.live, k) then k - 1 else k]
      requires var c := model.blocks[k + 1];
               c in used && (!used[c] <==> MergesRight(model.blocks, model.live, k)) && (!used[c] ==> c in model.frees)
      requires Ring(nextFree, prevFree, [FREE_HEADER] + model.frees)
      modifies this`available, this`next, this`prev, this`nextFree, this`prevFree
      ensures Ring(next, prev, MergedBlocks(model.blocks, model.live, k))
      ensures Ring(nextFree, prevFree, [FREE_HEADER] + DroppedFrees(model, k))
      ensures available == old(available) + if MergesRight(model.blocks, model.live, k) then HEADER else 0
    {
      ghost var rest := LeftMerged(model.blocks, model.live, k);
      ghost var i := if MergesLeft(model.blocks, model.live, k) then k - 1 else k;
      RingHop(next, prev, rest, i);
      if !used[next[first]] {
        available := available + HEADER;
        var c := next[first];
        Unlink(c, rest, i + 1);
        DropFree(c, model.frees, IndexOf(model.frees, c));
      }
    }

    /** rt_memheap_realloc */
    method Realloc(a: int, bytes: nat) returns (p: int)
      requires Valid() && (a == NULL || model.Allocated(a)) && bytes < WORD && !Overflows(model, a, bytes)
      modifies this, data
      ensures Valid() && (model, p) == MemHeapModel.Realloc(old(model), a, bytes)
      ensures OthersKept(a) && PayloadMoved(a, p, Request(bytes))
      ensures p == NULL && bytes > 0 ==> BytesKept()
    {
      hide Inv, Ring, Marked, MemHeapModel.Alloc, MemHeapModel.Free, Grow, Shrink;
      p := NULL;
      if bytes == 0 {
        Free(a);
        return;
      }
      var want := AlignUp(bytes);
      if want < MINIALLOC { want := MINIALLOC; }
      RequestAgain(bytes);
      NullOwnsNothing(model);
      if a == NULL {
        p := Alloc(want);
        return;
      }
      var b := a - HEADER;
      ghost var k := model.At(b);
      AllocatedAt(model, a);
      RightOf(model, k);
      ReallocInv(model, a, bytes);
      SizeNonNegative(model, k);
      SizeByLinks(model, next, prev, b);
      var oldSize := next[b] - b - HEADER;
      if want > oldSize {
        var c := next[b];
        RightByLinks(model, next, prev, used, k);
        if !used[c] {
          RightByLinks(model, next, prev, used, k + 1);
          var nextSize := next[c] - c - HEADER;
          if nextSize + oldSize > (want + MINIALLOC) % WORD {
            GrowInto(b, c, want, k);
            p := a;
            return;
          }
        }
        p := Move(a, oldSize, want);
      } else {
        p := a;
        if want + HEADER + MINIALLOC < oldSize {
          ExtentIsOwn(model, k);
          OwnExtent(model, a);
          CutDown(b, want, k);
        }
      }
    }

    /** Grow block b into its unused right neighbour c, whose header moves. */
    method GrowInto(b: int, c: int, want: nat, ghost k: nat)
      requires Valid() && k + 2 < |model.blocks| && b == model.blocks[k] && c == model.blocks[k + 1]
      requires Grows(model, k, want) && want > model.Size(k) && !Wraps(want) && b in model.live && c in model.frees
      modifies this, data
      ensures Valid() && model == Grow(old(model), k, want)
      ensures BytesKept()
    {
      hide Inv, Ring, Inserted, Dropped, Marked, Clear;
      var n := b + HEADER + want;
      GrowInv(model, k, want);
      GrowFits(model, k, want);
      MarkedGrow(model, k, want, used);
      BlockAt(model, k);
      SizeByLinks(model, next, prev, b);
      available := available - (want - (next[b] - b - HEADER));
      if size - available > maxUsed { maxUsed := size - available; }
      ghost var j := IndexOf(model.frees, c);
      DropFree(c, model.frees, j);
      Unlink(c, model.blocks, k + 1);
      WriteHeader(n);
      Link(b, n, Dropped(model.blocks, k + 1), k);
      PushFree(n, Dropped(model.frees, j));
      model := Grow(model, k, want);
    }

    /** Cut the used block b down to `want` bytes. */
    method CutDown(b: int, want: nat, ghost k: nat)
      requires Valid() && k + 1 < |model.blocks| && b == model.blocks[k] && b in model.live
      requires want + HEADER + MINIALLOC < model.Size(k)
      requires MergesRight(model.blocks, model.live, k) ==> k + 2 < |model.blocks| && model.blocks[k + 1] in model.frees
      modifies this, data
      ensures Valid() && model == Shrink(old(model), k, want)
      ensures data == old(data)
      ensures forall x :: 0 <= x < data.Length && !(b + HEADER + want <= x < b + 2 * HEADER + want) ==> data[x] == old(data[x])
    {
      hide Inv, Ring, Marked, Shrink;
      var n := b + want + HEADER;
      ShrinkInv(model, k, want);
      ShrinkFits(model, k, n);
      MarkedShrink(model, k, want, used);
      RightByLinks(model, next, prev, used, k);
      WriteHeader(n);
      CutLinks(b, n, want, k);
      ShrinkPool(model, k, want);
      model := Shrink(model, k, want);
    }

    /** Header n of the part cut off goes behind header b, takes an unused right neighbour in, and enters the free list. */
    method CutLinks(b: int, n: int, want: nat, ghost k: nat)
      requires k + 1 < |model.blocks| && b == model.blocks[k] && n == b + want + HEADER && n !in model.blocks
      requires var c := model.blocks[k + 1];
               c in used && (!used[c] <==> MergesRight(model.blocks, model.live, k))
      requires MergesRight(model.blocks, model.live, k) ==>
                 && k + 2 < |model.blocks| && model.blocks[k + 1] in model.frees
                 && n !in Dropped(model.frees, IndexOf(model.frees, model.blocks[k + 1]))
      requires n !in model.frees && n != FREE_HEADER
      requires Ring(next, prev, model.blocks) && Ring(nextFree, prevFree, [FREE_HEADER] + model.frees)
      requires available == model.available
      modifies this`available, this`next, this`prev, this`nextFree, this`prevFree
      ensures Ring(next, prev, Shrink(model, k, want).blocks)
      ensures Ring(nextFree, prevFree, [FREE_HEADER] + Shrink(model, k, want).frees)
      ensures available == Shrink(model, k, want).available
    {
      hide Ring, MergesRight;
      ghost var split := Inserted(model.blocks, k, n);
      ghost var frees := model.frees;
      Link(b, n, model.blocks, k);
      RingHop(next, prev, split, k + 1);
      var c := next[n];
      if !used[c] {
        RingHop(next, prev, split, k + 2);
        available := available - (next[c] - c - HEADER);
        Unlink(c, split, k + 2);
        DropFree(c, frees, IndexOf(frees, c));
        frees := Dropped(frees, IndexOf(frees, c));
        split := Dropped(split, k + 2);
      }
      PushFree(n, frees);
      RingHop(next, prev, split, k + 1);
      available := available + (next[n] - n - HEADER);
    }

    /** Move a payload of oldSize bytes to a new block of `want` bytes. */
    method Move(a: int, oldSize: int, want: nat) returns (p: int)
      requires Valid() && model.Allocated(a) && model.At(a - HEADER) + 1 < |model.blocks|
      requires 0 <= oldSize == model.Size(model.At(a - HEADER)) < want < WORD && Request(want) == want
      modifies this, data
      ensures var (h, q) := MemHeapModel.Alloc(old(model), want);
              && p == q && Inv(h) && (p != NULL ==> h.Allocated(a))
              && Valid() && model == if p == NULL then h else MemHeapModel.Free(h, a)
      ensures OthersKept(a) && PayloadMoved(a, p, want)
      ensures p == NULL ==> BytesKept()
    {
      hide Inv, Ring, Marked, Linked, MemHeapModel.Alloc, MemHeapModel.Free, Request;
      AllocInv(model, want);
      AllocKeeps(model, want);
      AllocFits(model, want);
      OwnExtent(model, a);
      p := Alloc(want);
      if p != NULL {
        PayloadsApart(old(model), a, want);
        MemCpy(p, a, oldSize);
        Free(a);
      }
    }

    /** rt_memcpy between two payloads */
    method MemCpy(dst: int, src: int, n: int)
      requires 0 <= n && 0 <= dst && dst + n <= data.Length && 0 <= src && src + n <= data.Length
      requires n == 0 || src + n <= dst || dst + n <= src
      modifies data
      ensures forall x :: dst <= x < dst + n ==> data[x] == old(data[x - dst + src])
      ensures forall x :: 0 <= x < data.Length && !(dst <= x < dst + n) ==> data[x] == old(data[x])
    {
      for i := 0 to n
        invariant forall x :: dst <= x < dst + i ==> data[x] == old(data[x - dst + src])
        invariant forall x :: src <= x < src + n ==> data[x] == old(data[x])
        invariant forall x :: 0 <= x < data.Length && !(dst <= x < dst + i) ==> data[x] == old(data[x])
      {
        data[dst + i] := data[src + i];
      }
    }
  }
}
