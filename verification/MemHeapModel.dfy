/** What memheap.c does to a memory pool, on values: the blocks in address order, the used ones among
    them, and the order of the free list.  Addresses are offsets from `start_addr`. */
module MemHeapModel {
  import opened RtDef
  import opened RtList
  import opened Tiling

  const HEADER := 24             // RT_MEMHEAP_SIZE: six words
  const MINIALLOC := 12          // RT_MEMHEAP_MINIALLOC

  /** The payload an allocation of `size` bytes looks for. */
  function Request(size: nat): (r: nat)
    ensures MINIALLOC <= r < WORD
  {
    if AlignUp(size) < MINIALLOC then MINIALLOC else AlignUp(size)
  }

  /** A request covers what was asked for exactly when rounding up does not leave 32 bits. */
  lemma RequestCovers(size: nat)
    requires size < WORD
    ensures Request(size) >= size <==> size <= WORD - ALIGN
  {
    AlignUpCovers(size);
  }

  datatype Heap = Heap(
    pool: int,              // pool_size
    blocks: seq<int>,       // block_list: headers in address order, the tailer last
    live: set<int>,         // headers marked RT_MEMHEAP_USED, the tailer among them
    frees: seq<int>,        // the free list behind its list header
    available: int,         // available_size
    maxUsed: int)           // max_used_size
  {
    /** The payload of block k, as MEMITEM_SIZE computes it. */
    function Size(k: nat): int
      requires k + 1 < |blocks|
    {
      blocks[k + 1] - blocks[k] - HEADER
    }

    /** The block at address a. */
    ghost function At(a: int): (k: nat)
      requires a in blocks
      ensures k < |blocks| && blocks[k] == a
    {
      IndexOf(blocks, a)
    }

    /** a is the payload address of a used block a caller may pass back. */
    predicate Allocated(a: int) {
      a - HEADER in blocks && a - HEADER in live && a != pool
    }

    /** x is a payload byte of used block k. */
    ghost predicate Owns(k: nat, x: int) {
      k + 1 < |blocks| && blocks[k] in live && blocks[k] + HEADER <= x < blocks[k + 1]
    }
  }

  // ---- the invariant ----

  /** The free list holds exactly the unused blocks, once each. */
  ghost predicate FreeListExact(blocks: seq<int>, live: set<int>, frees: seq<int>) {
    && NoDup(frees)
    && (forall x :: x in frees ==> x in blocks && x !in live)
    && forall i :: 0 <= i < |blocks| && blocks[i] !in live ==> blocks[i] in frees
  }

  ghost predicate Inv(h: Heap) {
    && Tiled(h.blocks, HEADER, h.pool - HEADER)
    && (forall x :: x in h.live ==> x in h.blocks)
    && h.pool - HEADER in h.live
    && FreeListExact(h.blocks, h.live, h.frees)
    && Coalesced(h.blocks, h.live)
    && h.available == Unused(h.blocks, h.live, HEADER)
    && h.pool - h.available <= h.maxUsed
  }

  // ---- the operations ----

  function Init(size: nat): Heap
    requires 2 * HEADER <= size
  {
    var pool := size / ALIGN * ALIGN;
    Heap(pool, [0, pool - HEADER], {pool - HEADER}, [0], pool - 2 * HEADER, 2 * HEADER)
  }

  /** The first position from j on in the free list that has a payload of `size` bytes. */
  ghost function FirstFit(h: Heap, size: nat, j: nat): (r: nat)
    requires j <= |h.frees|
    requires forall x :: x in h.frees ==> x in h.blocks && h.At(x) + 1 < |h.blocks|
    ensures j <= r <= |h.frees|
    ensures forall i :: j <= i < r ==> h.Size(h.At(h.frees[i])) < size
    ensures r < |h.frees| ==> h.Size(h.At(h.frees[r])) >= size
    decreases |h.frees| - j
  {
    if j == |h.frees| || h.Size(h.At(h.frees[j])) >= size then j else FirstFit(h, size, j + 1)
  }

  function Raise(h: Heap, available: int): int {
    if h.pool - available > h.maxUsed then h.pool - available else h.maxUsed
  }

  /** Take free-list entry j for `size` bytes, splitting the block when a remainder is worth a header. */
  ghost function TakeBlock(h: Heap, j: nat, size: nat): Heap
    requires j < |h.frees| && h.frees[j] in h.blocks && h.At(h.frees[j]) + 1 < |h.blocks|
  {
    var b := h.frees[j];
    var k := h.At(b);
    if h.Size(k) >= size + HEADER + MINIALLOC then
      var n := b + size + HEADER;
      var available := h.available - size - HEADER;
      Heap(h.pool, Inserted(h.blocks, k, n), h.live + {b}, [n] + Dropped(h.frees, j), available, Raise(h, available))
    else
      var available := h.available - h.Size(k);
      Heap(h.pool, h.blocks, h.live + {b}, Dropped(h.frees, j), available, Raise(h, available))
  }

  ghost function Alloc(h: Heap, size: nat): (r: (Heap, int))
    requires Inv(h)
  {
    var want := Request(size);
    LastIsLive(h);
    var j := FirstFit(h, want, 0);
    if want < h.available && j < |h.frees| then (TakeBlock(h, j, want), h.frees[j] + HEADER) else (h, NULL)
  }

  /** The free list without a right neighbour that block k merges with. */
  ghost function DroppedFrees(h: Heap, k: nat): seq<int>
    requires k + 1 < |h.blocks| && (MergesRight(h.blocks, h.live, k) ==> h.blocks[k + 1] in h.frees)
  {
    if MergesRight(h.blocks, h.live, k) then Dropped(h.frees, IndexOf(h.frees, h.blocks[k + 1])) else h.frees
  }

  /** The free list once block k is released: a left neighbour keeps its place, a right one leaves. */
  ghost function MergedFrees(h: Heap, k: nat): seq<int>
    requires k + 1 < |h.blocks| && (MergesRight(h.blocks, h.live, k) ==> h.blocks[k + 1] in h.frees)
  {
    if MergesLeft(h.blocks, h.live, k) then DroppedFrees(h, k) else [h.blocks[k]] + DroppedFrees(h, k)
  }

  /** Release block k. */
  ghost function FreeBlock(h: Heap, k: nat): Heap
    requires k + 1 < |h.blocks| && (MergesRight(h.blocks, h.live, k) ==> h.blocks[k + 1] in h.frees)
  {
    Heap(h.pool, MergedBlocks(h.blocks, h.live, k), h.live - {h.blocks[k]}, MergedFrees(h, k),
         h.available + h.Size(k) + (if MergesLeft(h.blocks, h.live, k) then HEADER else 0) + (if MergesRight(h.blocks, h.live, k) then HEADER else 0),
         h.maxUsed)
  }

  ghost function Free(h: Heap, a: int): Heap
    requires a == NULL || h.Allocated(a)
    requires Inv(h)
  {
    if a == NULL then h else
      var k := h.At(a - HEADER);
      FreeBlock(h, k)
  }

  /** The test of rt_memheap_realloc for growing block k into its right neighbour; its sum has 32 bits. */
  predicate Grows(h: Heap, k: nat, want: nat)
    requires k + 1 < |h.blocks|
  {
    k + 2 < |h.blocks| && h.blocks[k + 1] !in h.live && h.Size(k + 1) + h.Size(k) > (want + MINIALLOC) % WORD
  }

  /** The sum of that test leaves 32 bits. */
  predicate Wraps(want: nat) {
    want + MINIALLOC >= WORD
  }

  /** What adding `want` does to a 32-bit address or counter. */
  function Signed(want: nat): int {
    if Wraps(want) then want - WORD else want
  }

  /** Move the header of the unused right neighbour of block k to n. */
  ghost function Grow(h: Heap, k: nat, want: nat): Heap
    requires k + 1 < |h.blocks| && Grows(h, k, want) && h.blocks[k + 1] in h.frees
  {
    var n := h.blocks[k] + HEADER + Signed(want);
    var available := h.available - (Signed(want) - h.Size(k));
    Heap(h.pool, Inserted(Dropped(h.blocks, k + 1), k, n), h.live,
         [n] + Dropped(h.frees, IndexOf(h.frees, h.blocks[k + 1])), available, Raise(h, available))
  }

  /** Cut block k down to `want` bytes and give the rest, merged with an unused right neighbour, back. */
  ghost function Shrink(h: Heap, k: nat, want: nat): Heap
    requires k + 1 < |h.blocks| && (MergesRight(h.blocks, h.live, k) ==> k + 2 < |h.blocks| && h.blocks[k + 1] in h.frees)
  {
    var n := h.blocks[k] + HEADER + want;
    var split := Inserted(h.blocks, k, n);
    if MergesRight(h.blocks, h.live, k) then
      Heap(h.pool, Dropped(split, k + 2), h.live, [n] + Dropped(h.frees, IndexOf(h.frees, h.blocks[k + 1])),
           h.available - h.Size(k + 1) + (h.blocks[k + 2] - n - HEADER), h.maxUsed)
    else
      Heap(h.pool, split, h.live, [n] + h.frees, h.available + (h.blocks[k + 1] - n - HEADER), h.maxUsed)
  }

  /** rt_memheap_realloc */
  ghost function Realloc(h: Heap, a: int, size: nat): (r: (Heap, int))
    requires Inv(h) && (a == NULL || h.Allocated(a)) && size < WORD
  {
    var want := Request(size);
    if size == 0 then (Free(h, a), NULL)
    else if a == NULL then Alloc(h, want)
    else
      var k := h.At(a - HEADER);
      RightOf(h, k);
      if want > h.Size(k) then
        if Grows(h, k, want) then (Grow(h, k, want), a)
        else
          var (h', p) := Alloc(h, want);
          if p == NULL then (h', NULL)
          else
            AllocInv(h, want);
            AllocKeeps(h, want);
            (Free(h', a), p)
      else if want + HEADER + MINIALLOC >= h.Size(k) then (h, a)
      else (Shrink(h, k, want), a)
  }

  /** The call grows a block although the sum in the test has wrapped around. */
  ghost predicate Overflows(h: Heap, a: int, size: nat) {
    && h.Allocated(a) && a != NULL && size > 0
    && var k := h.At(a - HEADER);
    && k + 1 < |h.blocks| && Request(size) > h.Size(k) && Grows(h, k, Request(size)) && Wraps(Request(size))
  }

  datatype Op = DoAlloc(size: nat) | DoFree(a: int) | DoRealloc(a: int, size: nat)

  /** A caller passes NULL or an address it holds, and a 32-bit size. */
  predicate Legal(h: Heap, op: Op) {
    match op
    case DoAlloc(size) => size < WORD
    case DoFree(a) => a == NULL || h.Allocated(a)
    case DoRealloc(a, size) => (a == NULL || h.Allocated(a)) && size < WORD
  }

  ghost function Step(h: Heap, op: Op): Heap
    requires Inv(h) && Legal(h, op)
  {
    match op
    case DoAlloc(size) => Alloc(h, size).0
    case DoFree(a) => Free(h, a)
    case DoRealloc(a, size) => Realloc(h, a, size).0
  }

  // ---- facts about tilings ----

  lemma LastIsLive(h: Heap)
    requires Inv(h)
    ensures forall x :: x in h.frees ==> x in h.blocks && h.At(x) + 1 < |h.blocks|
  {
    forall x | x in h.frees
      ensures h.At(x) + 1 < |h.blocks|
    {
      assert x in h.blocks && x !in h.live;
    }
  }

  lemma AtIs(h: Heap, k: nat)
    requires Tiled(h.blocks, HEADER, h.pool - HEADER) && k < |h.blocks|
    ensures h.At(h.blocks[k]) == k
  {
    TiledNoDup(h.blocks, HEADER, h.pool - HEADER);
    Distinct(h.blocks);
  }

  // ---- what every operation keeps ----

  lemma InitInv(size: nat)
    requires 2 * HEADER <= size
    ensures Inv(Init(size))
  {
    var h := Init(size);
    assert Unused(h.blocks, h.live, HEADER) == UnusedUpTo(h.blocks, h.live, HEADER, 0) + Gap(0, h.pool - HEADER, h.live, HEADER);
  }

  lemma TakeBlockInv(h: Heap, j: nat, size: nat)
    requires Inv(h) && j < |h.frees|
    requires h.frees[j] in h.blocks && h.At(h.frees[j]) + 1 < |h.blocks| && h.Size(h.At(h.frees[j])) >= size
    ensures Inv(TakeBlock(h, j, size))
  {
    hide Tiled, Spaced, FreeListExact, Coalesced, Unused, Inserted, Dropped;
    var k := h.At(h.frees[j]);
    if h.Size(k) >= size + HEADER + MINIALLOC {
      TakeSplit(h, j, k, h.blocks[k] + size + HEADER);
    } else {
      TakeWhole(h, j, k);
    }
  }

  lemma TakeWhole(h: Heap, j: nat, k: nat)
    requires Inv(h) && j < |h.frees| && k + 1 < |h.blocks| && h.blocks[k] == h.frees[j]
    ensures Tiled(h.blocks, HEADER, h.pool - HEADER)
    ensures FreeListExact(h.blocks, h.live + {h.blocks[k]}, Dropped(h.frees, j))
    ensures Coalesced(h.blocks, h.live + {h.blocks[k]})
    ensures Unused(h.blocks, h.live + {h.blocks[k]}, HEADER) == h.available - h.Size(k)
  {
    MemberDropped(h.frees, j);
    assert h.blocks[k] in h.frees;
    TiledNoDup(h.blocks, HEADER, h.pool - HEADER);
    Unique(h.blocks, k);
    UnusedMark(h.blocks, k, h.live, h.live + {h.blocks[k]}, HEADER);
    forall i | 0 <= i < |h.blocks| - 1
      ensures Fenced(h.blocks, h.live + {h.blocks[k]}, i)
    {
      assert Fenced(h.blocks, h.live, i);
    }
  }

  lemma TakeSplit(h: Heap, j: nat, k: nat, n: int)
    requires Inv(h) && j < |h.frees| && k + 1 < |h.blocks| && h.blocks[k] == h.frees[j]
    requires h.blocks[k] + HEADER <= n && n + HEADER <= h.blocks[k + 1]
    ensures Tiled(Inserted(h.blocks, k, n), HEADER, h.pool - HEADER)
    ensures forall x :: x in h.live + {h.blocks[k]} ==> x in Inserted(h.blocks, k, n)
    ensures FreeListExact(Inserted(h.blocks, k, n), h.live + {h.blocks[k]}, [n] + Dropped(h.frees, j))
    ensures Coalesced(Inserted(h.blocks, k, n), h.live + {h.blocks[k]})
    ensures Unused(Inserted(h.blocks, k, n), h.live + {h.blocks[k]}, HEADER) == h.available - (n - h.blocks[k])
  {
    var live := h.live + {h.blocks[k]};
    TiledNoDup(h.blocks, HEADER, h.pool - HEADER);
    assert h.blocks[k] in h.frees;
    assert Fenced(h.blocks, h.live, k);
    TiledInsert(h.blocks, HEADER, h.pool - HEADER, k, n);
    SplitFreeList(h.blocks, h.live, h.frees, j, k, n);
    SplitCoalesced(h.blocks, h.live, k, n);
    Unique(h.blocks, k);
    UnusedMark(h.blocks, k, h.live, live, HEADER);
    UnusedInserted(h.blocks, k, n, live, HEADER);
    MemberInserted(h.blocks, k, n);
  }

  lemma SplitFreeList(blocks: seq<int>, live: set<int>, frees: seq<int>, j: nat, k: nat, n: int)
    requires FreeListExact(blocks, live, frees) && NoDup(blocks) && (forall x :: x in live ==> x in blocks)
    requires j < |frees| && k < |blocks| && blocks[k] == frees[j] && n !in blocks
    ensures FreeListExact(Inserted(blocks, k, n), live + {blocks[k]}, [n] + Dropped(frees, j))
  {
    MemberDropped(frees, j);
    MemberInserted(blocks, k, n);
    NoDupPushed(Dropped(frees, j), n);
  }

  lemma AllocInv(h: Heap, size: nat)
    requires Inv(h)
    ensures Inv(Alloc(h, size).0)
  {
    LastIsLive(h);
    var j := FirstFit(h, Request(size), 0);
    if Request(size) < h.available && j < |h.frees| {
      TakeBlockInv(h, j, Request(size));
    }
  }

  /** The blocks and their unused sum after releasing block k. */
  lemma FreeTiling(h: Heap, k: nat)
    requires Inv(h) && k + 1 < |h.blocks| && h.blocks[k] in h.live
    ensures Tiled(MergedBlocks(h.blocks, h.live, k), HEADER, h.pool - HEADER)
    ensures Unused(MergedBlocks(h.blocks, h.live, k), h.live - {h.blocks[k]}, HEADER) == FreeBlock(h, k).available
  {
    hide MergedBlocks, Unused, Tiled, MergedFrees, FreeListExact, Coalesced;
    TiledNoDup(h.blocks, HEADER, h.pool - HEADER);
    Unique(h.blocks, k);
    UnusedMark(h.blocks, k, h.live, h.live - {h.blocks[k]}, HEADER);
    MergedUnused(h.blocks, HEADER, h.pool - HEADER, k, h.live);
  }

  lemma MergedFreesMembers(h: Heap, k: nat)
    requires Inv(h) && k + 1 < |h.blocks| && h.blocks[k] in h.live
    ensures forall x :: x in MergedFrees(h, k) <==>
              (x in h.frees && (MergesRight(h.blocks, h.live, k) ==> x != h.blocks[k + 1])) || (x == h.blocks[k] && !MergesLeft(h.blocks, h.live, k))
    ensures NoDup(MergedFrees(h, k))
  {
    var frees := h.frees;
    if MergesRight(h.blocks, h.live, k) {
      var i := IndexOf(h.frees, h.blocks[k + 1]);
      frees := Dropped(h.frees, i);
      MemberDropped(h.frees, i);
    }
    NoDupPushed(frees, h.blocks[k]);
  }

  /** The free list after releasing block k. */
  lemma FreeListing(h: Heap, k: nat)
    requires Inv(h) && k + 1 < |h.blocks| && h.blocks[k] in h.live
    ensures FreeListExact(MergedBlocks(h.blocks, h.live, k), h.live - {h.blocks[k]}, MergedFrees(h, k))
    ensures forall x :: x in h.live - {h.blocks[k]} ==> x in MergedBlocks(h.blocks, h.live, k)
  {
    hide MergedBlocks, MergedFrees, Tiled, Coalesced, Unused;
    TiledNoDup(h.blocks, HEADER, h.pool - HEADER);
    MergedBlocksMembers(h.blocks, h.live, k);
    MergedFreesMembers(h, k);
    var r := MergedBlocks(h.blocks, h.live, k);
    forall i | 0 <= i < |r| && r[i] !in h.live - {h.blocks[k]}
      ensures r[i] in MergedFrees(h, k)
    {
      var x := r[i];
      assert x in r;
      assert x == h.blocks[k] || h.blocks[IndexOf(h.blocks, x)] in h.frees;
    }
  }

  lemma SizeNonNegative(h: Heap, k: nat)
    requires Inv(h) && k + 1 < |h.blocks|
    ensures h.Size(k) >= 0
  {
    assert Spaced(h.blocks, HEADER, k);
  }

  lemma FreeBlockInv(h: Heap, k: nat)
    requires Inv(h) && k + 1 < |h.blocks| && h.blocks[k] in h.live
    ensures Inv(FreeBlock(h, k))
  {
    hide Tiled, Spaced, FreeListExact, Coalesced, Unused, MergedBlocks, MergedFrees;
    SizeNonNegative(h, k);
    FreeTiling(h, k);
    FreeListing(h, k);
    TiledNoDup(h.blocks, HEADER, h.pool - HEADER);
    MergedCoalesced(h.blocks, h.live, k);
    TailerStays(h, k);
  }

  lemma FreeInv(h: Heap, a: int)
    requires Inv(h) && (a == NULL || h.Allocated(a))
    ensures Inv(Free(h, a))
  {
    if a != NULL {
      FreeBlockInv(h, h.At(a - HEADER));
    }
  }

  lemma TailerStays(h: Heap, k: nat)
    requires Inv(h) && k + 1 < |h.blocks|
    ensures h.pool - HEADER in h.live - {h.blocks[k]}
  {
    Apart(h.blocks, HEADER, h.pool - HEADER, k, |h.blocks| - 1);
  }

  lemma RightOf(h: Heap, k: nat)
    requires Inv(h) && k + 1 < |h.blocks|
    ensures MergesRight(h.blocks, h.live, k) ==> k + 2 < |h.blocks| && h.blocks[k + 1] in h.frees
  {
  }

  /** Blocks in use stay in use, with their size, when another one is allocated. */
  lemma AllocKeeps(h: Heap, size: nat)
    requires Inv(h)
    ensures var (h', p) := Alloc(h, size);
            forall a :: h.Allocated(a) ==> h'.Allocated(a) && (p != NULL ==> a != p)
  {
    LastIsLive(h);
    var j := FirstFit(h, Request(size), 0);
    if Request(size) < h.available && j < |h.frees| {
      var k := h.At(h.frees[j]);
      var n := h.frees[j] + Request(size) + HEADER;
      MemberInserted(h.blocks, k, n);
      var b := h.frees[j];
      assert b in h.frees && b !in h.live;
      forall a | h.Allocated(a)
        ensures Alloc(h, size).0.Allocated(a) && a != h.frees[j] + HEADER
      {
        assert a - HEADER in Alloc(h, size).0.blocks;
      }
    }
  }

  lemma GrowInv(h: Heap, k: nat, want: nat)
    requires Inv(h) && k + 1 < |h.blocks| && Grows(h, k, want) && want > h.Size(k) && !Wraps(want)
    requires h.blocks[k] in h.live && h.blocks[k + 1] in h.frees
    ensures Inv(Grow(h, k, want))
  {
    hide Tiled, Spaced, FreeListExact, Coalesced, Unused, Inserted, Dropped;
    var n := h.blocks[k] + HEADER + want;
    GrowFresh(h, k, want);
    GrowTiling(h, k, n);
    GrowListing(h, k, n);
    MovedCoalesced(h.blocks, h.live, k, n);
  }

  lemma GrowFresh(h: Heap, k: nat, want: nat)
    requires Inv(h) && k + 1 < |h.blocks| && Grows(h, k, want) && want > h.Size(k) && !Wraps(want)
    ensures h.blocks[k] + HEADER + want !in h.blocks && h.Size(k) >= 0
  {
    assert Spaced(h.blocks, HEADER, k) && Spaced(h.blocks, HEADER, k + 1);
    NotABlock(h.blocks, HEADER, h.pool - HEADER, k + 1, h.blocks[k] + HEADER + want);
  }

  lemma GrowTiling(h: Heap, k: nat, n: int)
    requires Inv(h) && k + 2 < |h.blocks| && h.blocks[k] in h.live && h.blocks[k + 1] !in h.live
    requires h.blocks[k] + HEADER <= n && n + HEADER <= h.blocks[k + 2] && n !in h.blocks
    ensures Tiled(Inserted(Dropped(h.blocks, k + 1), k, n), HEADER, h.pool - HEADER)
    ensures Unused(Inserted(Dropped(h.blocks, k + 1), k, n), h.live, HEADER) == h.available - (n - h.blocks[k + 1])
  {
    var mid := Dropped(h.blocks, k + 1);
    TiledDrop(h.blocks, HEADER, h.pool - HEADER, k + 1);
    TiledInsert(mid, HEADER, h.pool - HEADER, k, n);
    UnusedDropped(h.blocks, k + 1, h.live, HEADER);
    assert n !in h.live;
    UnusedInserted(mid, k, n, h.live, HEADER);
  }

  lemma GrowListing(h: Heap, k: nat, n: int)
    requires Inv(h) && k + 2 < |h.blocks| && h.blocks[k + 1] in h.frees && n !in h.blocks
    ensures FreeListExact(Inserted(Dropped(h.blocks, k + 1), k, n), h.live,
                          [n] + Dropped(h.frees, IndexOf(h.frees, h.blocks[k + 1])))
    ensures forall x :: x in h.live ==> x in Inserted(Dropped(h.blocks, k + 1), k, n)
  {
    hide Tiled, Coalesced, Unused, Dropped, Inserted, NoDup;
    var mid := Dropped(h.blocks, k + 1);
    var i := IndexOf(h.frees, h.blocks[k + 1]);
    TiledNoDup(h.blocks, HEADER, h.pool - HEADER);
    MemberDropped(h.blocks, k + 1);
    MemberInserted(mid, k, n);
    MemberDropped(h.frees, i);
    NoDupPushed(Dropped(h.frees, i), n);
    FreeListMoved(h.blocks, h.live, h.frees, Inserted(mid, k, n), Dropped(h.frees, i), h.blocks[k + 1], n);
  }

  /** The free list stays exact when one unused block is exchanged for another. */
  lemma FreeListMoved(blocks: seq<int>, live: set<int>, frees: seq<int>, blocks': seq<int>, rest: seq<int>, b: int, n: int)
    requires FreeListExact(blocks, live, frees) && n !in live && NoDup([n] + rest)
    requires forall x :: x in blocks' <==> x == n || (x in blocks && x != b)
    requires forall x :: x in rest <==> x in frees && x != b
    ensures FreeListExact(blocks', live, [n] + rest)
  {
    forall i | 0 <= i < |blocks'| && blocks'[i] !in live
      ensures blocks'[i] in [n] + rest
    {
      var x := blocks'[i];
      assert x in blocks';
      if x != n {
        var i' := IndexOf(blocks, x);
        assert blocks[i'] in frees;
      }
    }
  }

  lemma ShrinkInv(h: Heap, k: nat, want: nat)
    requires Inv(h) && k + 1 < |h.blocks| && h.blocks[k] in h.live
    requires want + HEADER + MINIALLOC < h.Size(k)
    requires MergesRight(h.blocks, h.live, k) ==> k + 2 < |h.blocks| && h.blocks[k + 1] in h.frees
    ensures Inv(Shrink(h, k, want))
  {
    hide Tiled, Spaced, FreeListExact, Coalesced, Unused, Inserted, Dropped;
    var n := h.blocks[k] + HEADER + want;
    ShrinkTiling(h, k, n);
    if MergesRight(h.blocks, h.live, k) {
      InsertedDropped(h.blocks, k, n);
      GrowListing(h, k, n);
      MovedCoalesced(h.blocks, h.live, k, n);
    } else {
      ShrinkListing(h, k, n);
      CutCoalesced(h.blocks, h.live, k, n);
    }
  }

  lemma ShrinkListing(h: Heap, k: nat, n: int)
    requires Inv(h) && k + 1 < |h.blocks| && n !in h.blocks
    ensures FreeListExact(Inserted(h.blocks, k, n), h.live, [n] + h.frees)
    ensures forall x :: x in h.live ==> x in Inserted(h.blocks, k, n)
  {
    MemberInserted(h.blocks, k, n);
    NoDupPushed(h.frees, n);
  }

  lemma ShrinkTiling(h: Heap, k: nat, n: int)
    requires Inv(h) && k + 1 < |h.blocks| && h.blocks[k] in h.live
    requires h.blocks[k] + HEADER <= n && n + HEADER <= h.blocks[k + 1]
    ensures var split := Inserted(h.blocks, k, n);
            && n !in h.blocks && Tiled(split, HEADER, h.pool - HEADER)
            && Unused(split, h.live, HEADER) == h.available + (h.blocks[k + 1] - n - HEADER)
            && (MergesRight(h.blocks, h.live, k) ==>
                  && k + 2 < |h.blocks| && Tiled(Dropped(split, k + 2), HEADER, h.pool - HEADER)
                  && Unused(Dropped(split, k + 2), h.live, HEADER) == Unused(split, h.live, HEADER) + HEADER
                  && h.Size(k + 1) >= 0)
  {
    TiledInsert(h.blocks, HEADER, h.pool - HEADER, k, n);
    assert n !in h.live;
    UnusedInserted(h.blocks, k, n, h.live, HEADER);
    if MergesRight(h.blocks, h.live, k) {
      assert Spaced(h.blocks, HEADER, k + 1);
      MergeUnused(Inserted(h.blocks, k, n), HEADER, h.pool - HEADER, k + 2, h.live);
    }
  }

  /** rt_memheap_realloc keeps the invariant, for every 32-bit size, if and only if it does not grow a block on a
      test whose sum has wrapped around. */
  lemma ReallocInv(h: Heap, a: int, size: nat)
    requires Inv(h) && (a == NULL || h.Allocated(a)) && size < WORD
    ensures Inv(Realloc(h, a, size).0) <==> !Overflows(h, a, size)
  {
    hide Inv, FreeBlock, Grow, Shrink, TakeBlock, Request, Alloc;
    var want := Request(size);
    if size == 0 {
      FreeInv(h, a);
    } else if a == NULL {
      AllocInv(h, want);
    } else {
      var k := h.At(a - HEADER);
      AllocatedAt(h, a);
      RightOf(h, k);
      if want > h.Size(k) {
        if Grows(h, k, want) {
          if Wraps(want) { GrowWraps(h, k, want); } else { GrowInv(h, k, want); }
        } else {
          AllocInv(h, want);
          AllocKeeps(h, want);
          if Alloc(h, want).1 != NULL {
            FreeInv(Alloc(h, want).0, a);
          }
        }
      } else if want + HEADER + MINIALLOC < h.Size(k) {
        ShrinkInv(h, k, want);
      }
    }
  }

  /** With a sum that has wrapped around, the header of the new unused block is put into the header of block k. */
  lemma GrowWraps(h: Heap, k: nat, want: nat)
    requires Inv(h) && k + 1 < |h.blocks| && Grows(h, k, want) && h.blocks[k + 1] in h.frees && Wraps(want) && want < WORD
    ensures !Inv(Grow(h, k, want))
  {
    var blocks := Grow(h, k, want).blocks;
    assert blocks[k] == h.blocks[k] && blocks[k + 1] < h.blocks[k] + HEADER;
    assert !Spaced(blocks, HEADER, k);
  }

  /** One allocation, and a call that overflows. */
  lemma ReallocOverflows(bytes: nat) returns (h: Heap)
    requires 200 <= bytes < WORD
    ensures Inv(Init(bytes)) && h == Alloc(Init(bytes), 100).0
    ensures Inv(h) && h.Allocated(HEADER) && Overflows(h, HEADER, WORD - 12) && !Inv(Realloc(h, HEADER, WORD - 12).0)
  {
    hide Inv, Alloc, Init;
    InitInv(bytes);
    AllocInv(Init(bytes), 100);
    FirstSplit(bytes);
    h := Alloc(Init(bytes), 100).0;
    AtIs(h, 0);
    assert Request(WORD - 12) == WORD - 12;
    ReallocInv(h, HEADER, WORD - 12);
  }

  lemma FirstSplit(bytes: nat)
    requires 200 <= bytes < WORD && Inv(Init(bytes))
    ensures var h := Alloc(Init(bytes), 100).0;
            h.blocks == [0, 124, bytes / ALIGN * ALIGN - HEADER] && h.live == {0, bytes / ALIGN * ALIGN - HEADER}
  {
    var h := Init(bytes);
    assert Request(100) == 100;
    AtIs(h, 0);
    LastIsLive(h);
    assert FirstFit(h, 100, 0) == 0;
  }

  // ---- the main results ----

  ghost predicate OverflowsAt(h: Heap, op: Op) {
    op.DoRealloc? && Overflows(h, op.a, op.size)
  }

  lemma StepInv(h: Heap, op: Op)
    requires Inv(h) && Legal(h, op)
    ensures Inv(Step(h, op)) <==> !OverflowsAt(h, op)
  {
    match op
    case DoAlloc(size) => AllocInv(h, size);
    case DoFree(a) => FreeInv(h, a);
    case DoRealloc(a, size) => ReallocInv(h, a, size);
  }

  lemma StepMarks(h: Heap, op: Op)
    requires Inv(h) && Legal(h, op)
    ensures Step(h, op).pool == h.pool && h.maxUsed <= Step(h, op).maxUsed
  {
    hide Tiled, FreeListExact, Coalesced, Unused, MergedBlocks, MergedFrees, Inserted, Dropped;
    if op.DoRealloc? && op.a != NULL {
      AllocKeeps(h, Request(op.size));
      AllocInv(h, Request(op.size));
    }
  }

  /** The states a run of legal calls goes through, the first one included. */
  ghost predicate Run(states: seq<Heap>, ops: seq<Op>) {
    && |states| == |ops| + 1
    && forall i :: 0 <= i < |ops| ==> Stepped(states, ops, i)
  }

  ghost predicate Stepped(states: seq<Heap>, ops: seq<Op>, i: nat)
    requires i < |ops| && |states| == |ops| + 1
  {
    Inv(states[i]) ==> Legal(states[i], ops[i]) && states[i + 1] == Step(states[i], ops[i])
  }

  /** The invariant has held all along a run if and only if no realloc of it has overflowed; up to then the size of the
      pool stays and the high-water mark never falls. */
  lemma {:induction false} RunInv(size: nat, states: seq<Heap>, ops: seq<Op>, i: nat)
    requires 2 * HEADER <= size && Run(states, ops) && states[0] == Init(size) && i < |states|
    ensures (forall j :: 0 <= j <= i ==> Inv(states[j])) <==> (forall j :: 0 <= j < i ==> !Overflowed(states, ops, j))
    ensures (forall j :: 0 <= j < i ==> Inv(states[j])) ==>
              states[i].pool == Init(size).pool && (i > 0 ==> states[i - 1].maxUsed <= states[i].maxUsed)
  {
    hide Inv, Init, Step, Legal, OverflowsAt;
    if i == 0 {
      InitInv(size);
    } else {
      RunInv(size, states, ops, i - 1);
      assert Stepped(states, ops, i - 1);
      if Inv(states[i - 1]) {
        StepInv(states[i - 1], ops[i - 1]);
        StepMarks(states[i - 1], ops[i - 1]);
      }
      assert (forall j :: 0 <= j <= i ==> Inv(states[j]))
          <==> Inv(states[i]) && forall j :: 0 <= j <= i - 1 ==> Inv(states[j]);
      assert (forall j :: 0 <= j < i ==> !Overflowed(states, ops, j))
          <==> !Overflowed(states, ops, i - 1) && forall j :: 0 <= j < i - 1 ==> !Overflowed(states, ops, j);
    }
  }

  ghost predicate Overflowed(states: seq<Heap>, ops: seq<Op>, i: nat)
    requires i < |ops| && |states| == |ops| + 1
  {
    Inv(states[i]) && OverflowsAt(states[i], ops[i])
  }

  /** rt_memheap_alloc succeeds exactly when the request is below the total and some unused block holds it. */
  lemma AllocSucceeds(h: Heap, size: nat)
    requires Inv(h)
    ensures Alloc(h, size).1 != NULL <==>
              Request(size) < h.available
              && exists k :: 0 <= k < |h.blocks| - 1 && h.blocks[k] !in h.live && h.Size(k) >= Request(size)
  {
    LastIsLive(h);
    var want := Request(size);
    var j := FirstFit(h, want, 0);
    if j < |h.frees| {
      var k := h.At(h.frees[j]);
      assert h.frees[j] in h.frees;
      if k > 0 { Apart(h.blocks, HEADER, h.pool - HEADER, 0, k); }
      assert h.blocks[k] !in h.live && h.Size(k) >= want;
    }
    forall k | 0 <= k < |h.blocks| - 1 && h.blocks[k] !in h.live
      ensures j == |h.frees| ==> h.Size(k) < want
    {
      AtIs(h, k);
      var i := IndexOf(h.frees, h.blocks[k]);
      assert h.frees[i] == h.blocks[k];
    }
  }

  /** A request for all that is available is refused, even from a pool in one piece. */
  lemma WholePoolRefused(size: nat)
    requires 2 * HEADER + MINIALLOC <= size < WORD
    ensures var h := Init(size);
            Inv(h) && h.Size(0) == h.available && Alloc(h, h.available).1 == NULL
  {
    InitInv(size);
    assert Request(Init(size).available) >= Init(size).available by {
      RequestCovers(Init(size).available);
    }
  }

  /** The used block at header x, ending at y, is the same in h'. */
  ghost predicate SameBlock(h: Heap, h': Heap, x: int, y: int) {
    h.Allocated(x + HEADER) && Ends(h.blocks, x, y) ==> h'.Allocated(x + HEADER) && Ends(h'.blocks, x, y)
  }

  lemma TakeSameBlock(h: Heap, j: nat, size: nat, x: int, y: int)
    requires Inv(h) && j < |h.frees| && h.frees[j] in h.blocks && h.At(h.frees[j]) + 1 < |h.blocks|
    requires h.Allocated(x + HEADER) && Ends(h.blocks, x, y)
    ensures Ends(TakeBlock(h, j, size).blocks, x, y)
  {
    var b := h.frees[j];
    assert b in h.frees && b !in h.live;
    EndsInserted(h.blocks, h.At(b), b + size + HEADER, x, y);
  }

  lemma AllocSameBlock(h: Heap, size: nat, x: int, y: int)
    requires Inv(h)
    ensures SameBlock(h, Alloc(h, size).0, x, y)
  {
    hide TakeBlock, Tiled, FreeListExact, Coalesced, Unused, Ends;
    LastIsLive(h);
    AllocKeeps(h, size);
    var j := FirstFit(h, Request(size), 0);
    if Request(size) < h.available && j < |h.frees| && h.Allocated(x + HEADER) && Ends(h.blocks, x, y) {
      TakeSameBlock(h, j, Request(size), x, y);
    }
  }

  lemma FreeSameBlock(h: Heap, a: int, x: int, y: int)
    requires Inv(h) && h.Allocated(a) && x + HEADER != a
    ensures SameBlock(h, Free(h, a), x, y)
  {
    hide MergedBlocks, Unused, Tiled, MergedFrees, FreeListExact, Coalesced, Ends;
    if h.Allocated(x + HEADER) && Ends(h.blocks, x, y) {
      var k := h.At(a - HEADER);
      AllocatedAt(h, a);
      TiledNoDup(h.blocks, HEADER, h.pool - HEADER);
      MergedBlocksMembers(h.blocks, h.live, k);
      EndsMerged(h.blocks, h.live, HEADER, h.pool - HEADER, k, x, y);
    }
  }

  lemma GrowSameBlock(h: Heap, k: nat, want: nat, x: int, y: int)
    requires Inv(h) && k + 1 < |h.blocks| && Grows(h, k, want) && want > h.Size(k)
    requires h.blocks[k] in h.live && h.blocks[k + 1] in h.frees && x != h.blocks[k]
    ensures SameBlock(h, Grow(h, k, want), x, y)
  {
    hide Coalesced, Unused, Tiled, Inserted, Ends;
    if h.Allocated(x + HEADER) && Ends(h.blocks, x, y) {
      if y == h.blocks[k + 1] { EndsAt(h.blocks, HEADER, h.pool - HEADER, k, x); }
      EndsDropped(h.blocks, k + 1, x, y);
      var n := h.blocks[k] + HEADER + Signed(want);
      EndsInserted(Dropped(h.blocks, k + 1), k, n, x, y);
      EndsIn(Inserted(Dropped(h.blocks, k + 1), k, n), x, y);
    }
  }

  lemma EndsIn(blocks: seq<int>, x: int, y: int)
    requires Ends(blocks, x, y)
    ensures x in blocks
  {
  }

  lemma ShrinkSameBlock(h: Heap, k: nat, want: nat, x: int, y: int)
    requires Inv(h) && k + 1 < |h.blocks| && h.blocks[k] in h.live && want + HEADER + MINIALLOC < h.Size(k)
    requires MergesRight(h.blocks, h.live, k) ==> k + 2 < |h.blocks| && h.blocks[k + 1] in h.frees
    requires x != h.blocks[k]
    ensures SameBlock(h, Shrink(h, k, want), x, y)
  {
    hide Tiled, Spaced, FreeListExact, Coalesced, Unused, Ends;
    if h.Allocated(x + HEADER) && Ends(h.blocks, x, y) {
      var n := h.blocks[k] + HEADER + want;
      var split := Inserted(h.blocks, k, n);
      MemberInserted(h.blocks, k, n);
      EndsInserted(h.blocks, k, n, x, y);
      if MergesRight(h.blocks, h.live, k) {
        if y == h.blocks[k + 1] { EndsAt(h.blocks, HEADER, h.pool - HEADER, k, x); }
        ShrinkTiling(h, k, n);
        TiledNoDup(split, HEADER, h.pool - HEADER);
        MemberDropped(split, k + 2);
        EndsDropped(split, k + 2, x, y);
      }
    }
  }

  /** A call leaves every used block it was not given in place, with its extent. */
  lemma StepSameBlock(h: Heap, op: Op, x: int, y: int)
    requires Inv(h) && Legal(h, op)
    requires op.DoAlloc? || x + HEADER != op.a
    ensures SameBlock(h, Step(h, op), x, y)
  {
    hide Tiled, FreeListExact, Coalesced, Unused, Ends, Inserted, Dropped, MergedBlocks, MergedFrees, TakeBlock, Grow, Shrink;
    match op
    case DoAlloc(size) => AllocSameBlock(h, size, x, y);
    case DoFree(a) =>
      if a != NULL { FreeSameBlock(h, a, x, y); }
    case DoRealloc(a, size) =>
      ReallocSameBlock(h, a, size, x, y);
  }

  lemma ReallocSameBlock(h: Heap, a: int, size: nat, x: int, y: int)
    requires Inv(h) && (a == NULL || h.Allocated(a)) && size < WORD && x + HEADER != a
    ensures SameBlock(h, Realloc(h, a, size).0, x, y)
  {
    hide Tiled, FreeListExact, Coalesced, Unused, Ends, Inserted, Dropped, MergedBlocks, MergedFrees, TakeBlock, FreeBlock;
    var want := Request(size);
    AllocSameBlock(h, want, x, y);
    if a != NULL {
      var k := h.At(a - HEADER);
      AllocatedAt(h, a);
      RightOf(h, k);
      if size == 0 {
        FreeSameBlock(h, a, x, y);
      } else if want <= h.Size(k) {
        if want + HEADER + MINIALLOC < h.Size(k) {
          ShrinkSameBlock(h, k, want, x, y);
        }
      } else if Grows(h, k, want) {
        GrowSameBlock(h, k, want, x, y);
      } else {
        AllocInv(h, want);
        AllocKeeps(h, want);
        if Alloc(h, want).1 != NULL {
          FreeSameBlock(Alloc(h, want).0, a, x, y);
        }
      }
    }
  }

  /** A realloc that fails changes nothing; one that succeeds yields a used block of the wanted size. */
  lemma ReallocResult(h: Heap, a: int, size: nat)
    requires Inv(h) && h.Allocated(a) && a != NULL && 0 < size < WORD && !Overflows(h, a, size)
    ensures var (h', p) := Realloc(h, a, size);
            if p == NULL then h' == h
            else h'.Allocated(p) && Holds(h'.blocks, HEADER, p - HEADER, Request(size))
  {
    hide Tiled, FreeListExact, Coalesced, Unused, MergedBlocks, MergedFrees, TakeBlock, FreeBlock;
    var want := Request(size);
    var k := h.At(a - HEADER);
    AllocatedAt(h, a);
    RightOf(h, k);
    TailerApart(h, k);
    RequestAgain(size);
    if want > h.Size(k) {
      if Grows(h, k, want) {
        GrowResult(h, k, want);
      } else {
        AllocInv(h, want);
        AllocKeeps(h, want);
        AllocResult(h, want);
        var (h1, p) := Alloc(h, want);
        if p != NULL {
          var y :| Ends(h1.blocks, p - HEADER, y) && y - p >= want;
          FreeSameBlock(h1, a, p - HEADER, y);
        }
      }
    } else if want + HEADER + MINIALLOC >= h.Size(k) {
      assert PairAt(h.blocks, a - HEADER, h.blocks[k + 1], k);
      assert Ends(h.blocks, a - HEADER, h.blocks[k + 1]);
    } else {
      ShrinkResult(h, k, want);
    }
  }

  lemma AllocatedAt(h: Heap, a: int)
    requires Inv(h) && h.Allocated(a)
    ensures h.At(a - HEADER) + 1 < |h.blocks|
  {
  }

  lemma RequestAgain(size: nat)
    ensures Request(Request(size)) == Request(size)
  {
  }

  lemma GrowResult(h: Heap, k: nat, want: nat)
    requires Inv(h) && k + 1 < |h.blocks| && Grows(h, k, want) && want > h.Size(k) && !Wraps(want)
    requires h.blocks[k] in h.live && h.blocks[k + 1] in h.frees
    ensures var h' := Grow(h, k, want);
            h'.Allocated(h.blocks[k] + HEADER)
            && Ends(h'.blocks, h.blocks[k], h.blocks[k] + HEADER + want)
  {
    var h' := Grow(h, k, want);
    GrowInv(h, k, want);
    TailerApart(h, k);
    assert PairAt(h'.blocks, h.blocks[k], h.blocks[k] + HEADER + want, k);
  }

  lemma TailerApart(h: Heap, k: nat)
    requires Inv(h) && k + 1 < |h.blocks|
    ensures 0 <= h.blocks[k] && h.blocks[k] + HEADER <= h.pool - HEADER
  {
    Apart(h.blocks, HEADER, h.pool - HEADER, k, |h.blocks| - 1);
    if k > 0 { Apart(h.blocks, HEADER, h.pool - HEADER, 0, k); }
  }

  lemma ShrinkResult(h: Heap, k: nat, want: nat)
    requires Inv(h) && k + 1 < |h.blocks| && h.blocks[k] in h.live && want + HEADER + MINIALLOC < h.Size(k)
    requires MergesRight(h.blocks, h.live, k) ==> k + 2 < |h.blocks| && h.blocks[k + 1] in h.frees
    ensures var h' := Shrink(h, k, want);
            h'.Allocated(h.blocks[k] + HEADER)
            && Ends(h'.blocks, h.blocks[k], h.blocks[k] + HEADER + want)
  {
    var h' := Shrink(h, k, want);
    ShrinkInv(h, k, want);
    TailerApart(h, k);
    assert PairAt(h'.blocks, h.blocks[k], h.blocks[k] + HEADER + want, k);
  }

  /** What an allocation returns was unused before, is used after, and has the size asked for. */
  lemma AllocResult(h: Heap, size: nat)
    requires Inv(h)
    ensures var (h', p) := Alloc(h, size);
            if p == NULL then h' == h
            else !h.Allocated(p) && h'.Allocated(p)
                 && Holds(h'.blocks, HEADER, p - HEADER, Request(size))
  {
    LastIsLive(h);
    var j := FirstFit(h, Request(size), 0);
    if Request(size) < h.available && j < |h.frees| {
      var k := h.At(h.frees[j]);
      var h' := TakeBlock(h, j, Request(size));
      assert h.frees[j] in h.frees;
      TailerApart(h, k);
      assert PairAt(h'.blocks, h.blocks[k], h'.blocks[k + 1], k);
      assert Ends(h'.blocks, h.blocks[k], h'.blocks[k + 1]);
      assert h'.blocks[k] in h'.blocks;
    }
  }

  lemma {:induction false} AllPayloads(blocks: seq<int>, hd: nat, n: nat)
    requires n < |blocks|
    ensures UnusedUpTo(blocks, {}, hd, n) + hd * n == blocks[n] - blocks[0]
  {
    if n > 0 { AllPayloads(blocks, hd, n - 1); }
  }

  /** pool_size is the sum, over all blocks, of header and payload; the tailer has no payload. */
  lemma PoolIsTheSum(h: Heap)
    requires Inv(h)
    ensures h.pool == HEADER * |h.blocks| + Unused(h.blocks, {}, HEADER)
  {
    AllPayloads(h.blocks, HEADER, |h.blocks| - 1);
  }

  /** rt_memheap_alloc takes exactly one more block into use. */
  lemma AllocExact(h: Heap, size: nat)
    requires Inv(h) && Alloc(h, size).1 != NULL
    ensures forall x :: Alloc(h, size).0.Allocated(x) <==> h.Allocated(x) || x == Alloc(h, size).1
  {
    hide Tiled, Coalesced, Unused;
    LastIsLive(h);
    var j := FirstFit(h, Request(size), 0);
    var b := h.frees[j];
    assert b in h.frees;
    MemberInserted(h.blocks, h.At(b), b + Request(size) + HEADER);
    TailerStays(h, h.At(b));
  }

  /** rt_memheap_free takes exactly the given block out of use. */
  lemma FreeExact(h: Heap, a: int)
    requires Inv(h) && h.Allocated(a) && a != NULL
    ensures forall x :: Free(h, a).Allocated(x) <==> h.Allocated(x) && x != a
  {
    hide MergedBlocks, Unused, Tiled, MergedFrees, FreeListExact, Coalesced;
    var k := h.At(a - HEADER);
    AllocatedAt(h, a);
    TiledNoDup(h.blocks, HEADER, h.pool - HEADER);
    MergedBlocksMembers(h.blocks, h.live, k);
  }
}
