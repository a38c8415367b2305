/** What a call on the small heap comes to: when it succeeds, how long the block is afterwards, where the hint goes, and what
    becomes of the amounts in use. */
module SmallMemCalls {
  import opened RtDef
  import opened RtList
  import opened Tiling
  import opened SmallMemModel

  /** The block whose payload is at a has n bytes of it. */
  ghost predicate Payload(h: Heap, a: int, n: int) {
    Ends(h.blocks, a - HEADER, a + n)
  }

  lemma PayloadAt(h: Heap, k: nat, n: int)
    requires k + 1 < |h.blocks| && n == h.Size(k)
    ensures Payload(h, h.blocks[k] + HEADER, n)
  {
    assert PairAt(h.blocks, h.blocks[k], h.blocks[k] + HEADER + n, k);
  }

  /** rt_malloc fails if and only if nothing is asked for, or more than the heap, or no block from the hint on serves. */
  lemma MallocFailsWhen(h: Heap, size: nat)
    requires Inv(h)
    ensures Malloc(h, size).1 == NULL <==>
              size == 0 || AlignUp(size) > h.size || forall k: nat :: Serves(h, Request(size), k) ==> h.blocks[k] < h.lfree
  {
    if 0 < size && AlignUp(size) <= h.size {
      hide Inv, Malloc, Serves, Request, AlignUp;
      MallocIsFirst(h, size);
    }
  }

  /** A block is cut down to the request exactly, unless the rest would not hold a header and 12 bytes; its extent is counted as
      used, and the mark follows. */
  lemma MallocComesTo(h: Heap, size: nat) returns (n: int)
    requires Inv(h) && Malloc(h, size).1 != NULL
    ensures var (h', p) := Malloc(h, size);
            var want := Request(size);
            var m := if n >= want + HEADER + MIN_SIZE then want else n;
            && Payload(h, p, n) && n >= want && Payload(h', p, m)
            && h'.used == h.used + m + HEADER && h'.maxUsed == Max(h.maxUsed, h'.used) && h'.size == h.size
            && (h.lfree != p - HEADER ==> h'.lfree == h.lfree)
  {
    hide Tiled, Coalesced, Unused;
    TiledEnd(h);
    var want := Request(size);
    var k := Search(h, want, h.At(h.lfree));
    n := h.Size(k);
    PayloadAt(h, k, n);
    PayloadAt(Take(h, k, want), k, if n >= want + HEADER + MIN_SIZE then want else n);
  }

  /** rt_free counts the extent out.  The hint goes to the block that the released one becomes part of, if that begins below the
      hint or takes the hinted one in; otherwise it stays. */
  lemma FreeComesTo(h: Heap, a: int) returns (n: int, first: int)
    requires Inv(h) && h.Allocated(a) && a != NULL
    ensures var h', k := Free(h, a), h.At(a - HEADER);
            && k + 1 < |h.blocks| && Payload(h, a, n)
            && h'.used == h.used - n - HEADER && h'.maxUsed == h.maxUsed && h'.size == h.size
            && first == (if k > 0 && h.blocks[k - 1] !in h.live then h.blocks[k - 1] else a - HEADER)
            && first in h'.blocks && first !in h'.live
            && h'.lfree == if a - HEADER < h.lfree || (h.lfree == h.blocks[k + 1] && h.lfree !in h.live) then first else h.lfree
  {
    AllocatedAt(h, a);
    var k := h.At(a - HEADER);
    n := h.Size(k);
    PayloadAt(h, k, n);
    first := if k > 0 && h.blocks[k - 1] !in h.live then h.blocks[k - 1] else a - HEADER;
    TiledNoDup(h.blocks, STEP, h.Last());
    FirstStays(h, k, first);
    HintAfter(h, k);
  }

  lemma FirstStays(h: Heap, k: nat, first: int)
    requires Inv(h) && k + 1 < |h.blocks| && h.blocks[k] in h.live && NoDup(h.blocks)
    requires first == if MergesLeft(h.blocks, h.live, k) then h.blocks[k - 1] else h.blocks[k]
    ensures first in Release(h, k, true).blocks && first !in Release(h, k, true).live
  {
    MergedBlocksMembers(h.blocks, h.live, k);
    Distinct(h.blocks);
    Spacing(h, k);
    assert h.blocks[k] in h.blocks && first in h.blocks;
  }

  /** The hint is free or heap_end, so it is not the released block, and below it only if it is not a right neighbour. */
  lemma HintAfter(h: Heap, k: nat)
    requires Inv(h) && k + 1 < |h.blocks| && h.blocks[k] in h.live
    ensures var b := h.blocks[k];
            var first := if MergesLeft(h.blocks, h.live, k) then h.blocks[k - 1] else b;
            Release(h, k, true).lfree == if b < h.lfree || (h.lfree == h.blocks[k + 1] && h.lfree !in h.live) then first else h.lfree
  {
    Spacing(h, k);
    InHeap(h, k);
    TiledNoDup(h.blocks, STEP, h.Last());
    Unique(h.blocks, k);
    if k > 0 { Unique(h.blocks, k - 1); }
    Unique(h.blocks, k + 1);
  }

  /** rt_realloc to a size that needs another header and more than 12 bytes less, or to the size that the block has, leaves the
      block where it is.  To any other, a slightly smaller one included, it has to allocate anew, and fails if that fails. */
  lemma ReallocComesTo(h: Heap, a: int, size: nat)
    requires Inv(h) && h.Allocated(a) && a != NULL && 0 < AlignUp(size) <= h.size
    ensures var (h', p) := Realloc(h, a, size);
            var want, k := AlignUp(size), h.At(a - HEADER);
            && k + 1 < |h.blocks|
            && (p == a <==> h.Size(k) == want || want + HEADER + MIN_SIZE < h.Size(k))
            && (p == NULL <==> p != a && Malloc(h, want).1 == NULL)
            && (p == NULL ==> h' == h)
            && (p == a ==>
                  && (forall x :: h'.Allocated(x) <==> h.Allocated(x)) && Payload(h', a, want)
                  && h'.used == h.used - (h.Size(k) - want) && h'.maxUsed == h.maxUsed && h'.size == h.size)
            && (p != NULL && p != a ==>
                  && p == Malloc(h, want).1 && Inv(Malloc(h, want).0) && Malloc(h, want).0.Allocated(a)
                  && h' == Free(Malloc(h, want).0, a) && !h.Allocated(p)
                  && forall x :: h'.Allocated(x) <==> (h.Allocated(x) && x != a) || x == p)
  {
    hide Inv, Release, Malloc, AlignUp, Free, Cut;
    var want := AlignUp(size);
    var k := h.At(a - HEADER);
    AllocatedAt(h, a);
    AlignUpUnit(size);
    if h.Size(k) == want {
      PayloadAt(h, k, want);
    } else if want + HEADER + MIN_SIZE < h.Size(k) {
      CutComesTo(h, k, want);
    } else {
      MallocInv(h, want);
      MallocKeeps(h, want);
      MallocResult(h, want);
      if Malloc(h, want).1 != NULL { FreeResult(Malloc(h, want).0, a); }
    }
  }

  lemma CutComesTo(h: Heap, k: nat, want: nat)
    requires Inv(h) && k + 1 < |h.blocks| && h.blocks[k] in h.live && ALIGN <= want && want + HEADER + MIN_SIZE < h.Size(k)
    ensures var h' := Release(Cut(h, k, h.blocks[k] + HEADER + want), k + 1, false);
            && (forall x :: h'.Allocated(x) <==> h.Allocated(x)) && Payload(h', h.blocks[k] + HEADER, want)
            && h'.used == h.used - (h.Size(k) - want) && h'.maxUsed == h.maxUsed && h'.size == h.size
  {
    hide Inv, Ends, MergedBlocks, PluggedHint, Inserted;
    var n := h.blocks[k] + HEADER + want;
    var c := Cut(h, k, n);
    CutInv(h, k, n);
    InHeap(h, k);
    CutShape(h, k, n);
    ReleaseResult(c, k + 1, false);
    ReleaseSameBlock(c, k + 1, false, h.blocks[k], n);
    MemberInserted(h.blocks, k, n);
    CutEnds(h, k, n);
  }

  lemma CutEnds(h: Heap, k: nat, n: int)
    requires k + 1 < |h.blocks|
    ensures Cut(h, k, n).blocks[k + 2] == h.blocks[k + 1]
  {
  }

  /** The edge cases: too much is refused, no bytes wanted is a release, no block given an allocation, and an address outside the
      heap comes back as it is. */
  lemma ReallocEdges(h: Heap, a: int, size: nat)
    requires Inv(h) && (a == NULL || h.Allocated(a) || h.Outside(a))
    ensures AlignUp(size) > h.size ==> Realloc(h, a, size) == (h, NULL)
    ensures AlignUp(size) == 0 ==> Realloc(h, a, size) == (if h.Outside(a) then h else Free(h, a), NULL)
    ensures 0 < AlignUp(size) <= h.size && a == NULL ==> Realloc(h, a, size) == Malloc(h, AlignUp(size))
    ensures 0 < AlignUp(size) <= h.size && h.Outside(a) ==> Realloc(h, a, size) == (h, a)
    ensures Free(h, NULL) == h
  {
    if h.Allocated(a) { AllocatedAt(h, a); }
  }
}
