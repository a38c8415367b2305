/** What a call on the memory heap comes to: when it succeeds, which block it takes, how long that is afterwards, in which
    order the free list goes on, and what becomes of the high-water mark. */
module MemHeapCalls {
  import opened RtDef
  import opened RtList
  import opened Tiling
  import opened MemHeapModel

  /** The block whose payload is at a has n bytes of it. */
  ghost predicate Payload(h: Heap, a: int, n: int) {
    Ends(h.blocks, a - HEADER, a + n)
  }

  lemma PayloadAt(h: Heap, k: nat, n: int)
    requires k + 1 < |h.blocks| && n == h.Size(k)
    ensures Payload(h, h.blocks[k] + HEADER, n)
  {
    assert PairAt(h.blocks, h.blocks[k], h.blocks[k] + HEADER + n, k);
  }

  function Larger(a: int, b: int): int { if a < b then b else a }

  // ---- initialisation ----

  /** A new pool is the largest aligned one that fits: one unused block, which is all but the two headers. */
  lemma InitComesTo(size: nat)
    requires 2 * HEADER <= size
    ensures var h := Init(size);
            && h.pool <= size < h.pool + ALIGN && h.pool % ALIGN == 0
            && Payload(h, HEADER, h.pool - 2 * HEADER) && h.frees == [0] && h.available == h.pool - 2 * HEADER
            && h.maxUsed == h.pool - h.available && forall a :: !h.Allocated(a)
  {
    PayloadAt(Init(size), 0, Init(size).Size(0));
  }

  // ---- allocation ----

  /** An allocation takes the first block of the free list that holds the request.  It cuts it down to the request exactly,
      unless the rest would not hold a header and 12 bytes; a rest comes first in the free list. */
  lemma AllocComesTo(h: Heap, size: nat) returns (j: nat, n: int)
    requires Inv(h) && Alloc(h, size).1 != NULL
    ensures var (h', p) := Alloc(h, size);
            var want := Request(size);
            && j < |h.frees| && p == h.frees[j] + HEADER && Payload(h, p, n) && n >= want
            && (forall i :: 0 <= i < j ==> !Roomy(h, h.frees[i], want))
            && (if n >= want + HEADER + MINIALLOC
                then Payload(h', p, want) && h'.frees == [p + want] + Without(h.frees, p - HEADER)
                else Payload(h', p, n) && h'.frees == Without(h.frees, p - HEADER))
            && h'.maxUsed == Larger(h.maxUsed, h'.pool - h'.available) && h'.pool == h.pool
  {
    var want := Request(size);
    LastIsLive(h);
    j := FirstFit(h, want, 0);
    var b := h.frees[j];
    assert b in h.frees;
    var k := h.At(b);
    n := h.Size(k);
    PayloadAt(h, k, n);
    forall i | 0 <= i < j
      ensures !Roomy(h, h.frees[i], want)
    {
      NotRoomy(h, i, want);
    }
    Unique(h.frees, j);
    WithoutAt(h.frees, b, j);
    hide Tiled, Coalesced, Unused, FirstFit, Roomy, NoDup;
    var h' := TakeBlock(h, j, want);
    PayloadAt(h', k, if n >= want + HEADER + MINIALLOC then want else n);
  }

  /** The block at header b holds the request. */
  ghost predicate Roomy(h: Heap, b: int, want: nat) {
    exists y :: Ends(h.blocks, b, y) && y - b - HEADER >= want
  }

  lemma NotRoomy(h: Heap, i: nat, want: nat)
    requires Inv(h) && i < |h.frees| && h.frees[i] in h.blocks && h.At(h.frees[i]) + 1 < |h.blocks| && h.Size(h.At(h.frees[i])) < want
    ensures !Roomy(h, h.frees[i], want)
  {
    var b := h.frees[i];
    TiledNoDup(h.blocks, HEADER, h.pool - HEADER);
    Unique(h.blocks, h.At(b));
    forall y | Ends(h.blocks, b, y)
      ensures y - b - HEADER < want
    {
      var q: nat :| PairAt(h.blocks, b, y, q);
    }
  }

  // ---- release ----

  /** A release puts the block in front of the free list, unless it is merged into an unused left neighbour, which keeps its
      place; an unused right neighbour leaves the list. */
  lemma FreeComesTo(h: Heap, a: int)
    requires Inv(h) && h.Allocated(a) && a != NULL
    ensures var h', k := Free(h, a), h.At(a - HEADER);
            && k + 1 < |h.blocks|
            && (var rest := if h.blocks[k + 1] in h.live then h.frees else Without(h.frees, h.blocks[k + 1]);
                h'.frees == if k > 0 && h.blocks[k - 1] !in h.live then rest else [a - HEADER] + rest)
            && h'.maxUsed == h.maxUsed && h'.pool == h.pool
  {
    AllocatedAt(h, a);
    var k := h.At(a - HEADER);
    if MergesRight(h.blocks, h.live, k) { FreeOut(h, h.blocks[k + 1]); }
  }

  lemma FreeOut(h: Heap, b: int)
    requires Inv(h) && b in h.frees
    ensures Dropped(h.frees, IndexOf(h.frees, b)) == Without(h.frees, b)
  {
    Unique(h.frees, IndexOf(h.frees, b));
    WithoutAt(h.frees, b, IndexOf(h.frees, b));
  }

  // ---- reallocation ----

  /** Block k and an unused right neighbour have room for `want` bytes and another unused block. */
  predicate Stretches(h: Heap, k: nat, want: nat) {
    k + 2 < |h.blocks| && h.blocks[k + 1] !in h.live && h.Size(k) + h.Size(k + 1) > want + MINIALLOC
  }

  ghost predicate SomeRoomy(h: Heap, want: nat) {
    exists k :: 0 <= k < |h.blocks| - 1 && h.blocks[k] !in h.live && h.Size(k) >= want
  }

  lemma StretchesIs(h: Heap, k: nat, want: nat)
    requires k + 1 < |h.blocks| && want < WORD && (Grows(h, k, want) ==> !Wraps(want))
    ensures Grows(h, k, want) <==> Stretches(h, k, want)
  {
    if Wraps(want) { assert (want + MINIALLOC) % WORD == want + MINIALLOC - WORD; }
  }

  /** A realloc that does not overflow fails if and only if the request exceeds the payload, the right neighbour does not help,
      and an allocation of that size fails; it leaves the block where it is if and only if one of the first two makes
      that possible, and otherwise the new block takes its place among the used ones. */
  lemma ReallocComesTo(h: Heap, a: int, size: nat)
    requires Inv(h) && h.Allocated(a) && a != NULL && 0 < size < WORD && !Overflows(h, a, size)
    ensures var (h', p) := Realloc(h, a, size);
            var want, k := Request(size), h.At(a - HEADER);
            && k + 1 < |h.blocks|
            && (p == NULL <==> want > h.Size(k) && !Stretches(h, k, want) && (want >= h.available || !SomeRoomy(h, want)))
            && (p == a <==> want <= h.Size(k) || Stretches(h, k, want))
            && (p == NULL ==> h' == h)
            && (p == a ==> forall x :: h'.Allocated(x) <==> h.Allocated(x))
            && (p != NULL && p != a ==> !h.Allocated(p) && forall x :: h'.Allocated(x) <==> (h.Allocated(x) && x != a) || x == p)
  {
    hide Inv, Grow, Shrink, TakeBlock, FreeBlock, Alloc, Request, Grows, Stretches, SomeRoomy;
    var want, k := Request(size), h.At(a - HEADER);
    AllocatedAt(h, a);
    RightOf(h, k);
    GrowsSafely(h, a, size);
    RequestAgain(size);
    if want > h.Size(k) {
      StretchesIs(h, k, want);
      if Grows(h, k, want) {
        GrowKeepsUsed(h, k, want);
      } else {
        AllocSucceeds(h, want);
        SomeRoomyIs(h, want);
        AllocInv(h, want);
        AllocKeeps(h, want);
        AllocResult(h, want);
        var (h1, p) := Alloc(h, want);
        if p != NULL {
          AllocExact(h, want);
          FreeExact(h1, a);
        }
      }
    } else if want + HEADER + MINIALLOC < h.Size(k) {
      ShrinkKeepsUsed(h, k, want);
    }
  }

  lemma SomeRoomyIs(h: Heap, want: nat)
    ensures SomeRoomy(h, want) <==> exists k :: 0 <= k < |h.blocks| - 1 && h.blocks[k] !in h.live && h.Size(k) >= want
  {
  }

  lemma GrowsSafely(h: Heap, a: int, size: nat)
    requires Inv(h) && h.Allocated(a) && a != NULL && 0 < size < WORD && !Overflows(h, a, size)
    ensures var k := h.At(a - HEADER);
            && k + 1 < |h.blocks| && h.blocks[k] in h.live
            && (Grows(h, k, Request(size)) && Request(size) > h.Size(k) ==> !Wraps(Request(size)) && h.blocks[k + 1] in h.frees)
  {
    AllocatedAt(h, a);
    RightOf(h, h.At(a - HEADER));
  }

  lemma GrowKeepsUsed(h: Heap, k: nat, want: nat)
    requires Inv(h) && k + 1 < |h.blocks| && Grows(h, k, want) && want > h.Size(k) && !Wraps(want)
    requires h.blocks[k] in h.live && h.blocks[k + 1] in h.frees
    ensures forall x :: Grow(h, k, want).Allocated(x) <==> h.Allocated(x)
  {
    hide Tiled, FreeListExact, Coalesced, Unused, Inserted, Dropped;
    GrowInv(h, k, want);
  }

  lemma ShrinkKeepsUsed(h: Heap, k: nat, want: nat)
    requires Inv(h) && k + 1 < |h.blocks| && h.blocks[k] in h.live && want + HEADER + MINIALLOC < h.Size(k)
    requires MergesRight(h.blocks, h.live, k) ==> k + 2 < |h.blocks| && h.blocks[k + 1] in h.frees
    ensures forall x :: Shrink(h, k, want).Allocated(x) <==> h.Allocated(x)
  {
    hide Tiled, FreeListExact, Coalesced, Unused, Inserted, Dropped;
    ShrinkInv(h, k, want);
  }

  /** How long a block is that stays where it is: as long as the request if it has grown, or been cut because the rest holds
      more than a header and 12 bytes; and as long as it was otherwise.  What is next to it then comes first in the free list. */
  lemma ReallocInPlace(h: Heap, a: int, size: nat)
    requires Inv(h) && h.Allocated(a) && a != NULL && 0 < size < WORD && !Overflows(h, a, size) && Realloc(h, a, size).1 == a
    ensures var h', want, k := Realloc(h, a, size).0, Request(size), h.At(a - HEADER);
            && k + 1 < |h.blocks|
            && (if want > h.Size(k) || want + HEADER + MINIALLOC < h.Size(k) then
                  && Payload(h', a, want)
                  && h'.frees == [a + want] + (if h.blocks[k + 1] in h.live then h.frees else Without(h.frees, h.blocks[k + 1]))
                else h' == h)
            && h'.maxUsed == (if want > h.Size(k) then Larger(h.maxUsed, h'.pool - h'.available) else h.maxUsed)
            && h'.pool == h.pool
  {
    hide Inv, FreeBlock, Request, Grows, Payload;
    ReallocComesTo(h, a, size);
    var want, k := Request(size), h.At(a - HEADER);
    AllocatedAt(h, a);
    RightOf(h, k);
    GrowsSafely(h, a, size);
    if want > h.Size(k) {
      StretchesIs(h, k, want);
      GrowLength(h, k, want);
      FreeOut(h, h.blocks[k + 1]);
    } else if want + HEADER + MINIALLOC < h.Size(k) {
      ShrinkLength(h, k, want);
      if MergesRight(h.blocks, h.live, k) { FreeOut(h, h.blocks[k + 1]); }
    }
  }

  lemma GrowLength(h: Heap, k: nat, want: nat)
    requires Inv(h) && k + 1 < |h.blocks| && Grows(h, k, want) && want > h.Size(k) && !Wraps(want)
    requires h.blocks[k] in h.live && h.blocks[k + 1] in h.frees
    ensures Payload(Grow(h, k, want), h.blocks[k] + HEADER, want) && h.blocks[k + 1] !in h.live
  {
    GrowResult(h, k, want);
  }

  lemma ShrinkLength(h: Heap, k: nat, want: nat)
    requires Inv(h) && k + 1 < |h.blocks| && h.blocks[k] in h.live && want + HEADER + MINIALLOC < h.Size(k)
    requires MergesRight(h.blocks, h.live, k) ==> k + 2 < |h.blocks| && h.blocks[k + 1] in h.frees
    ensures Payload(Shrink(h, k, want), h.blocks[k] + HEADER, want)
  {
    ShrinkResult(h, k, want);
  }

  /** A block that moves is allocated like any other, and then the old one is released like any other. */
  lemma ReallocMoves(h: Heap, a: int, size: nat)
    requires Inv(h) && h.Allocated(a) && a != NULL && 0 < size < WORD && !Overflows(h, a, size)
    requires Realloc(h, a, size).1 != NULL && Realloc(h, a, size).1 != a
    ensures var (h', p) := Realloc(h, a, size);
            var (h1, q) := Alloc(h, size);
            p == q && Inv(h1) && h1.Allocated(a) && h' == Free(h1, a)
  {
    hide Inv, Grow, Shrink, TakeBlock, FreeBlock, Request;
    AllocatedAt(h, a);
    RequestAgain(size);
    AllocInv(h, size);
    AllocKeeps(h, size);
    AllocAgain(h, size);
  }

  lemma AllocAgain(h: Heap, size: nat)
    requires Inv(h)
    ensures Alloc(h, Request(size)) == Alloc(h, size)
  {
    hide Inv, TakeBlock;
    RequestAgain(size);
  }

  /** The edge cases: no bytes wanted is a release, no block given an allocation. */
  lemma ReallocEdges(h: Heap, a: int, size: nat)
    requires Inv(h)
    ensures a == NULL || h.Allocated(a) ==> Realloc(h, a, 0) == (Free(h, a), NULL)
    ensures 0 < size < WORD ==> Realloc(h, NULL, size) == Alloc(h, size)
    ensures Free(h, NULL) == h
  {
    AllocAgain(h, size);
  }
}
