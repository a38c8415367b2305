/** What mem.c does to its heap, on values: blocks chained by offset, a hint to the lowest free one and
    the amount in use.  Offsets count from `heap_ptr`; the last block is `heap_end`. */
module SmallMemModel {
  import opened RtDef
  import opened RtList
  import opened Tiling

  const HEADER := 12             // SIZEOF_STRUCT_MEM
  const MIN_SIZE := 12           // MIN_SIZE, MIN_SIZE_ALIGNED
  const STEP := HEADER + ALIGN   // no payload is smaller than one alignment unit

  datatype Heap = Heap(
    size: int,             // mem_size_aligned
    blocks: seq<int>,      // headers in address order, heap_end last
    live: set<int>,        // headers with a set used flag, heap_end among them
    lfree: int,            // the hint
    used: int,             // used_mem
    maxUsed: int)          // max_mem
  {
    function Last(): int { size + HEADER }

    function Size(k: nat): int
      requires k + 1 < |blocks|
    {
      blocks[k + 1] - blocks[k] - HEADER
    }

    ghost function At(a: int): (k: nat)
      requires a in blocks
      ensures k < |blocks| && blocks[k] == a
    {
      IndexOf(blocks, a)
    }

    /** a is the payload address of a used block a caller may pass back. */
    predicate Allocated(a: int) {
      a - HEADER in blocks && a - HEADER in live && a - HEADER != Last()
    }

    /** x is a payload byte of used block k. */
    ghost predicate Owns(k: nat, x: int) {
      k + 1 < |blocks| && blocks[k] in live && blocks[k] + HEADER <= x < blocks[k + 1]
    }

    /** Neither NULL nor in the heap. */
    predicate Outside(a: int) {
      a != NULL && (a < 0 || a >= Last())
    }
  }

  // ---- the invariant ----

  /** The hint names a free block, or heap_end. */
  ghost predicate HintValid(h: Heap) {
    h.lfree in h.blocks && (h.lfree !in h.live || h.lfree == h.Last())
  }

  ghost predicate Inv(h: Heap) {
    && h.size >= MIN_SIZE
    && Tiled(h.blocks, STEP, h.Last())
    && (forall x :: x in h.live ==> x in h.blocks)
    && h.Last() in h.live
    && Coalesced(h.blocks, h.live)
    && HintValid(h)
    && h.used + Unused(h.blocks, h.live, 0) == h.Last()
    && h.used <= h.maxUsed
  }

  /** No free block lies below the hint. */
  ghost predicate HintLowest(h: Heap) {
    forall i :: 0 <= i < |h.blocks| && h.blocks[i] !in h.live ==> h.lfree <= h.blocks[i]
  }

  // ---- the operations ----

  /** rt_system_heap_init over `bytes` aligned bytes that hold the two headers. */
  function Init(bytes: nat): (r: Heap)
    requires bytes >= 2 * HEADER
  {
    var size := bytes - 2 * HEADER;
    Heap(size, [0, size + HEADER], {size + HEADER}, 0, 0, 0)
  }

  function Request(size: nat): (r: nat)
    ensures MIN_SIZE <= r < WORD
  {
    if AlignUp(size) < MIN_SIZE then MIN_SIZE else AlignUp(size)
  }

  /** The search of rt_malloc from block k on: the position where it stops, `fits` or past its bound. */
  function Search(h: Heap, want: nat, k: nat): (r: nat)
    requires k < |h.blocks| && h.blocks[|h.blocks| - 1] == h.Last()
    ensures k <= r < |h.blocks|
    ensures h.blocks[r] < h.size - want ==> r + 1 < |h.blocks| && h.blocks[r] !in h.live && h.Size(r) >= want
    decreases |h.blocks| - k
  {
    if h.blocks[k] >= h.size - want || k + 1 == |h.blocks| || (h.blocks[k] !in h.live && h.Size(k) >= want) then k
    else Search(h, want, k + 1)
  }

  /** The first free block from position k on, or heap_end. */
  function NextFree(blocks: seq<int>, live: set<int>, k: nat): (r: nat)
    requires k < |blocks|
    ensures k <= r < |blocks| && (blocks[r] !in live || r == |blocks| - 1)
    ensures forall i :: k <= i < r ==> blocks[i] in live
    decreases |blocks| - k
  {
    if blocks[k] !in live || k == |blocks| - 1 then k else NextFree(blocks, live, k + 1)
  }

  function Max(a: int, b: int): int { if a < b then b else a }

  /** Take the free block k for `want` bytes. */
  ghost function Take(h: Heap, k: nat, want: nat): Heap
    requires k + 1 < |h.blocks| && h.lfree in h.blocks
  {
    var b := h.blocks[k];
    var split := h.Size(k) >= want + HEADER + MIN_SIZE;
    var blocks := if split then Inserted(h.blocks, k, b + HEADER + want) else h.blocks;
    var used := h.used + if split then want + HEADER else h.Size(k) + HEADER;
    var live := h.live + {b};
    Heap(h.size, blocks, live, if b == h.lfree then blocks[NextFree(blocks, live, k)] else h.lfree,
         used, Max(h.maxUsed, used))
  }

  ghost function Malloc(h: Heap, size: nat): (r: (Heap, int))
    requires Inv(h)
  {
    if size == 0 || AlignUp(size) > h.size then (h, NULL)
    else
      var want := Request(size);
      var k := Search(h, want, h.At(h.lfree));
      if h.blocks[k] < h.size - want then (Take(h, k, want), h.blocks[k] + HEADER) else (h, NULL)
  }

  /** The hint after plug_holes around block k: it follows a header that disappears. */
  function PluggedHint(h: Heap, lfree: int, k: nat): int
    requires k + 1 < |h.blocks|
  {
    var hint := if MergesRight(h.blocks, h.live, k) && lfree == h.blocks[k + 1] then h.blocks[k] else lfree;
    if MergesLeft(h.blocks, h.live, k) && hint == h.blocks[k] then h.blocks[k - 1] else hint
  }

  /** Give the used block k back; `lower` says whether the hint is lowered first. */
  function Release(h: Heap, k: nat, lower: bool): Heap
    requires k + 1 < |h.blocks|
  {
    var b := h.blocks[k];
    var lfree := if lower && b < h.lfree then b else h.lfree;
    Heap(h.size, MergedBlocks(h.blocks, h.live, k), h.live - {b}, PluggedHint(h, lfree, k),
         h.used - (h.blocks[k + 1] - b), h.maxUsed)
  }

  ghost function Free(h: Heap, a: int): Heap
    requires Inv(h) && (a == NULL || h.Allocated(a))
  {
    if a == NULL then h else Release(h, h.At(a - HEADER), true)
  }

  /** The used block k cut in two used ones at n. */
  function Cut(h: Heap, k: nat, n: int): Heap
    requires k + 1 < |h.blocks|
  {
    h.(blocks := Inserted(h.blocks, k, n), live := h.live + {n})
  }

  /** rt_realloc: the part cut off is given back without lowering the hint. */
  ghost function Realloc(h: Heap, a: int, size: nat): (r: (Heap, int))
    requires Inv(h) && (a == NULL || h.Allocated(a) || h.Outside(a))
  {
    var want := AlignUp(size);
    if want > h.size then (h, NULL)
    else if want == 0 then (if h.Outside(a) then h else Free(h, a), NULL)
    else if a == NULL then Malloc(h, want)
    else if h.Outside(a) then (h, a)
    else
      var k := h.At(a - HEADER);
      if h.Size(k) == want then (h, a)
      else if want + HEADER + MIN_SIZE < h.Size(k) then
        (Release(Cut(h, k, h.blocks[k] + HEADER + want), k + 1, false), a)
      else
        var (h', p) := Malloc(h, want);
        if p == NULL then (h', NULL)
        else
          MallocInv(h, want);
          MallocKeeps(h, want);
          (Free(h', a), p)
  }

  datatype Op = DoMalloc(size: nat) | DoFree(a: int) | DoRealloc(a: int, size: nat)

  predicate Legal(h: Heap, op: Op) {
    match op
    case DoMalloc(size) => size < WORD
    case DoFree(a) => a == NULL || h.Allocated(a)
    case DoRealloc(a, size) => (a == NULL || h.Allocated(a) || h.Outside(a)) && size < WORD
  }

  ghost function Step(h: Heap, op: Op): Heap
    requires Inv(h) && Legal(h, op)
  {
    match op
    case DoMalloc(size) => Malloc(h, size).0
    case DoFree(a) => Free(h, a)
    case DoRealloc(a, size) => Realloc(h, a, size).0
  }

  // ---- what every operation keeps ----

  lemma SizeNonNegative(h: Heap, k: nat)
    requires Inv(h) && k + 1 < |h.blocks|
    ensures h.Size(k) >= 0
  {
    assert Spaced(h.blocks, STEP, k);
  }

  lemma InHeap(h: Heap, k: nat)
    requires Inv(h) && k < |h.blocks|
    ensures 0 <= h.blocks[k] <= h.Last() && (k + 1 < |h.blocks| ==> h.blocks[k] + STEP <= h.Last())
  {
    if k > 0 { Apart(h.blocks, STEP, h.Last(), 0, k); }
    if k + 1 < |h.blocks| { Apart(h.blocks, STEP, h.Last(), k, |h.blocks| - 1); }
  }

  lemma AtIs(h: Heap, k: nat)
    requires Inv(h) && k < |h.blocks|
    ensures h.At(h.blocks[k]) == k
  {
    TiledNoDup(h.blocks, STEP, h.Last());
    Unique(h.blocks, k);
  }

  lemma InitInv(bytes: nat)
    requires bytes >= 2 * HEADER + MIN_SIZE
    ensures Inv(Init(bytes)) && HintLowest(Init(bytes))
  {
    var h := Init(bytes);
    assert Unused(h.blocks, h.live, 0) == UnusedUpTo(h.blocks, h.live, 0, 0) + Gap(0, h.Last(), h.live, 0);
  }

  lemma TakeInv(h: Heap, k: nat, want: nat)
    requires Inv(h) && k + 1 < |h.blocks| && h.blocks[k] !in h.live && h.Size(k) >= want >= MIN_SIZE
    ensures Inv(Take(h, k, want))
  {
    hide Tiled, Spaced, Coalesced, Unused, Inserted, HintValid;
    if h.Size(k) >= want + HEADER + MIN_SIZE {
      TakeSplit(h, k, h.blocks[k] + HEADER + want);
    } else {
      TakeWhole(h, k);
    }
    TakeHint(h, k, want);
  }

  lemma TakeHint(h: Heap, k: nat, want: nat)
    requires Inv(h) && k + 1 < |h.blocks| && h.blocks[k] !in h.live && h.Size(k) >= want >= MIN_SIZE
    ensures HintValid(Take(h, k, want))
  {
    var n := h.blocks[k] + HEADER + want;
    if h.Size(k) >= want + HEADER + MIN_SIZE {
      MemberInserted(h.blocks, k, n);
      TiledInsert(h.blocks, STEP, h.Last(), k, n);
    }
  }

  lemma TakeWhole(h: Heap, k: nat)
    requires Inv(h) && k + 1 < |h.blocks| && h.blocks[k] !in h.live
    ensures Coalesced(h.blocks, h.live + {h.blocks[k]})
    ensures Unused(h.blocks, h.live + {h.blocks[k]}, 0) == Unused(h.blocks, h.live, 0) - (h.blocks[k + 1] - h.blocks[k])
  {
    TiledNoDup(h.blocks, STEP, h.Last());
    Unique(h.blocks, k);
    UnusedMark(h.blocks, k, h.live, h.live + {h.blocks[k]}, 0);
    forall i | 0 <= i < |h.blocks| - 1
      ensures Fenced(h.blocks, h.live + {h.blocks[k]}, i)
    {
      assert Fenced(h.blocks, h.live, i);
    }
  }

  lemma TakeSplit(h: Heap, k: nat, n: int)
    requires Inv(h) && k + 1 < |h.blocks| && h.blocks[k] !in h.live
    requires h.blocks[k] + STEP <= n && n + STEP <= h.blocks[k + 1]
    ensures Tiled(Inserted(h.blocks, k, n), STEP, h.Last())
    ensures forall x :: x in h.live + {h.blocks[k]} ==> x in Inserted(h.blocks, k, n)
    ensures Coalesced(Inserted(h.blocks, k, n), h.live + {h.blocks[k]})
    ensures Unused(Inserted(h.blocks, k, n), h.live + {h.blocks[k]}, 0) == Unused(h.blocks, h.live, 0) - (n - h.blocks[k])
  {
    var live := h.live + {h.blocks[k]};
    TakeWhole(h, k);
    assert Fenced(h.blocks, h.live, k);
    TiledInsert(h.blocks, STEP, h.Last(), k, n);
    assert n !in live;
    SplitCoalesced(h.blocks, h.live, k, n);
    UnusedInserted(h.blocks, k, n, live, 0);
    MemberInserted(h.blocks, k, n);
  }

  lemma MallocInv(h: Heap, size: nat)
    requires Inv(h)
    ensures Inv(Malloc(h, size).0)
  {
    if size != 0 && AlignUp(size) <= h.size {
      var k := Search(h, Request(size), h.At(h.lfree));
      if h.blocks[k] < h.size - Request(size) {
        TakeInv(h, k, Request(size));
      }
    }
  }

  /** Blocks in use stay in use when another one is allocated. */
  lemma MallocKeeps(h: Heap, size: nat)
    requires Inv(h)
    ensures forall a :: h.Allocated(a) ==> Malloc(h, size).0.Allocated(a)
  {
    if size != 0 && AlignUp(size) <= h.size {
      var k := Search(h, Request(size), h.At(h.lfree));
      if h.blocks[k] < h.size - Request(size) {
        MemberInserted(h.blocks, k, h.blocks[k] + HEADER + Request(size));
      }
    }
  }

  lemma ReleaseInv(h: Heap, k: nat, lower: bool)
    requires Inv(h) && k + 1 < |h.blocks| && h.blocks[k] in h.live
    ensures Inv(Release(h, k, lower))
  {
    hide Tiled, Spaced, Coalesced, Unused, MergedBlocks, HintValid, PluggedHint;
    SizeNonNegative(h, k);
    ReleaseTiling(h, k);
    TiledNoDup(h.blocks, STEP, h.Last());
    MergedCoalesced(h.blocks, h.live, k);
    ReleaseMembers(h, k);
    ReleaseHint(h, k, lower);
  }

  lemma ReleaseTiling(h: Heap, k: nat)
    requires Inv(h) && k + 1 < |h.blocks| && h.blocks[k] in h.live
    ensures Tiled(MergedBlocks(h.blocks, h.live, k), STEP, h.Last())
    ensures Unused(MergedBlocks(h.blocks, h.live, k), h.live - {h.blocks[k]}, 0)
            == Unused(h.blocks, h.live, 0) + h.blocks[k + 1] - h.blocks[k]
  {
    var live := h.live - {h.blocks[k]};
    TiledNoDup(h.blocks, STEP, h.Last());
    Unique(h.blocks, k);
    UnusedMark(h.blocks, k, h.live, live, 0);
    if MergesLeft(h.blocks, h.live, k) {
      TiledDrop(h.blocks, STEP, h.Last(), k);
      UnusedDropped(h.blocks, k, live, 0);
      if MergesRight(h.blocks, h.live, k) {
        TiledDrop(Dropped(h.blocks, k), STEP, h.Last(), k);
        UnusedDropped(Dropped(h.blocks, k), k, live, 0);
      }
    } else if MergesRight(h.blocks, h.live, k) {
      TiledDrop(h.blocks, STEP, h.Last(), k + 1);
      UnusedDropped(h.blocks, k + 1, live, 0);
    }
  }

  lemma ReleaseMembers(h: Heap, k: nat)
    requires Inv(h) && k + 1 < |h.blocks| && h.blocks[k] in h.live
    ensures forall x :: x in h.live - {h.blocks[k]} ==> x in MergedBlocks(h.blocks, h.live, k)
    ensures h.Last() in h.live - {h.blocks[k]}
  {
    TiledNoDup(h.blocks, STEP, h.Last());
    MergedBlocksMembers(h.blocks, h.live, k);
    Apart(h.blocks, STEP, h.Last(), k, |h.blocks| - 1);
  }

  lemma ReleaseHint(h: Heap, k: nat, lower: bool)
    requires Inv(h) && k + 1 < |h.blocks| && h.blocks[k] in h.live
    ensures HintValid(Release(h, k, lower))
  {
    TiledNoDup(h.blocks, STEP, h.Last());
    Unique(h.blocks, k);
    MergedBlocksMembers(h.blocks, h.live, k);
    Apart(h.blocks, STEP, h.Last(), k, |h.blocks| - 1);
    var r := MergedBlocks(h.blocks, h.live, k);
    var b := h.blocks[k];
    if MergesLeft(h.blocks, h.live, k) {
      var p := h.blocks[k - 1];
      Distinct(h.blocks);
      assert p in r;
    } else {
      assert b in r;
    }
  }

  lemma FreeInv(h: Heap, a: int)
    requires Inv(h) && (a == NULL || h.Allocated(a))
    ensures Inv(Free(h, a))
  {
    if a != NULL {
      ReleaseInv(h, h.At(a - HEADER), true);
    }
  }

  lemma CutInv(h: Heap, k: nat, n: int)
    requires Inv(h) && k + 1 < |h.blocks| && h.blocks[k] in h.live
    requires h.blocks[k] + STEP <= n && n + STEP <= h.blocks[k + 1]
    ensures Inv(Cut(h, k, n)) && n !in h.blocks
  {
    hide Spaced, Unused;
    TiledInsert(h.blocks, STEP, h.Last(), k, n);
    MemberInserted(h.blocks, k, n);
    UnusedInserted(h.blocks, k, n, h.live + {n}, 0);
    UnusedSame(h.blocks, h.live, h.live + {n}, 0);
    var r := Inserted(h.blocks, k, n);
    forall i | 0 <= i < |r| - 1
      ensures Fenced(r, h.live + {n}, i)
    {
      if i < k {
        assert Fenced(h.blocks, h.live, i);
      } else if i > k + 1 {
        assert Fenced(h.blocks, h.live, i - 1);
      }
    }
  }

  lemma AllocatedAt(h: Heap, a: int)
    requires Inv(h) && h.Allocated(a)
    ensures h.At(a - HEADER) + 1 < |h.blocks| && !h.Outside(a)
  {
    InHeap(h, h.At(a - HEADER));
  }

  lemma ReallocInv(h: Heap, a: int, size: nat)
    requires Inv(h) && (a == NULL || h.Allocated(a) || h.Outside(a))
    ensures Inv(Realloc(h, a, size).0)
  {
    hide Tiled, Coalesced, Unused, HintValid, Release, MergedBlocks, Take, Malloc, AlignUp;
    var want := AlignUp(size);
    MallocInv(h, want);
    AlignUpUnit(size);
    if want == 0 {
      if !h.Outside(a) { FreeInv(h, a); }
    } else if a != NULL && !h.Outside(a) {
      var k := h.At(a - HEADER);
      AllocatedAt(h, a);
      if want + HEADER + MIN_SIZE < h.Size(k) {
        CutInv(h, k, h.blocks[k] + HEADER + want);
        ReleaseInv(Cut(h, k, h.blocks[k] + HEADER + want), k + 1, false);
      } else if h.Size(k) != want && Malloc(h, want).1 != NULL {
        MallocKeeps(h, want);
        FreeInv(Malloc(h, want).0, a);
      }
    }
  }

  lemma StepInv(h: Heap, op: Op)
    requires Inv(h) && Legal(h, op)
    ensures Inv(Step(h, op))
  {
    match op
    case DoMalloc(size) => MallocInv(h, size);
    case DoFree(a) => FreeInv(h, a);
    case DoRealloc(a, size) => ReallocInv(h, a, size);
  }

  // ---- the main results ----

  ghost predicate Stepped(states: seq<Heap>, ops: seq<Op>, i: nat)
    requires i < |ops| && |states| == |ops| + 1
  {
    Inv(states[i]) ==> Legal(states[i], ops[i]) && states[i + 1] == Step(states[i], ops[i])
  }

  /** The states a run of legal calls goes through, the first one included. */
  ghost predicate Run(states: seq<Heap>, ops: seq<Op>) {
    && |states| == |ops| + 1
    && forall i :: 0 <= i < |ops| ==> Stepped(states, ops, i)
  }

  /** Every reachable state satisfies the invariant. */
  lemma {:induction false} RunInv(bytes: nat, states: seq<Heap>, ops: seq<Op>, i: nat)
    requires bytes >= 2 * HEADER + MIN_SIZE && Run(states, ops) && states[0] == Init(bytes) && i < |states|
    ensures Inv(states[i])
  {
    hide Inv, Init, Step, Legal;
    if i == 0 {
      InitInv(bytes);
    } else {
      RunInv(bytes, states, ops, i - 1);
      assert Stepped(states, ops, i - 1);
      StepInv(states[i - 1], ops[i - 1]);
    }
  }

  /** The hint has been the lowest free block all along a run if and only if no call of it has cut a block down
      below the hint. */
  lemma {:induction false} RunHintLowest(bytes: nat, states: seq<Heap>, ops: seq<Op>, i: nat)
    requires bytes >= 2 * HEADER + MIN_SIZE && Run(states, ops) && states[0] == Init(bytes) && i < |states|
    ensures (forall j :: 0 <= j <= i ==> HintLowest(states[j])) <==> (forall j :: 0 <= j < i ==> !Buried(states, ops, j))
  {
    hide Inv, Init, Step, HintLowest, Legal, BuriesFree;
    RunInv(bytes, states, ops, i);
    if i == 0 {
      InitInv(bytes);
    } else {
      RunInv(bytes, states, ops, i - 1);
      RunHintLowest(bytes, states, ops, i - 1);
      assert Stepped(states, ops, i - 1);
      if HintLowest(states[i - 1]) { StepHint(states[i - 1], ops[i - 1]); }
      assert (forall j :: 0 <= j <= i ==> HintLowest(states[j]))
          <==> HintLowest(states[i]) && forall j :: 0 <= j <= i - 1 ==> HintLowest(states[j]);
      assert (forall j :: 0 <= j < i ==> !Buried(states, ops, j))
          <==> !Buried(states, ops, i - 1) && forall j :: 0 <= j < i - 1 ==> !Buried(states, ops, j);
    }
  }

  ghost predicate Buried(states: seq<Heap>, ops: seq<Op>, i: nat)
    requires i < |ops| && |states| == |ops| + 1
  {
    Inv(states[i]) && Legal(states[i], ops[i]) && BuriesFree(states[i], ops[i])
  }

  lemma MallocHintLowest(h: Heap, size: nat)
    requires Inv(h) && HintLowest(h)
    ensures HintLowest(Malloc(h, size).0)
  {
    if size != 0 && AlignUp(size) <= h.size {
      var k := Search(h, Request(size), h.At(h.lfree));
      if h.blocks[k] < h.size - Request(size) {
        TakeHintLowest(h, k, Request(size));
      }
    }
  }

  lemma TakeHintLowest(h: Heap, k: nat, want: nat)
    requires Inv(h) && HintLowest(h) && k + 1 < |h.blocks| && h.blocks[k] !in h.live && h.Size(k) >= want >= MIN_SIZE
    ensures HintLowest(Take(h, k, want))
  {
    hide Coalesced, Unused;
    var r := Take(h, k, want);
    TakeInv(h, k, want);
    var split := h.Size(k) >= want + HEADER + MIN_SIZE;
    forall i | 0 <= i < |r.blocks| && r.blocks[i] !in r.live
      ensures r.lfree <= r.blocks[i]
    {
      if h.blocks[k] == h.lfree {
        if i < k {
          Apart(h.blocks, STEP, h.Last(), i, k);
        }
        var f := NextFree(r.blocks, r.live, k);
        if f < i { Apart(r.blocks, STEP, r.Last(), f, i); }
      } else if split && i == k + 1 {
        assert h.lfree <= h.blocks[k];
      } else {
        assert r.blocks[i] == h.blocks[if split && i > k then i - 1 else i];
      }
    }
  }

  lemma FreeHintLowest(h: Heap, a: int)
    requires Inv(h) && HintLowest(h) && (a == NULL || h.Allocated(a))
    ensures HintLowest(Free(h, a))
  {
    if a != NULL {
      ReleaseHintLowest(h, h.At(a - HEADER));
    }
  }

  lemma ReleaseHintLowest(h: Heap, k: nat)
    requires Inv(h) && HintLowest(h) && k + 1 < |h.blocks| && h.blocks[k] in h.live
    ensures HintLowest(Release(h, k, true))
  {
    var r := Release(h, k, true);
    Spacing(h, k);
    forall i | 0 <= i < |r.blocks| && r.blocks[i] !in r.live
      ensures r.lfree <= r.blocks[i]
    {
      MergedAt(h.blocks, h.live, k, i);
    }
  }

  lemma Spacing(h: Heap, k: nat)
    requires Inv(h) && k + 1 < |h.blocks|
    ensures h.blocks[k] < h.blocks[k + 1] && (k > 0 ==> h.blocks[k - 1] < h.blocks[k])
  {
    assert Spaced(h.blocks, STEP, k);
    if k > 0 { assert Spaced(h.blocks, STEP, k - 1); }
  }

  /** Block k is free and holds the request. */
  predicate Fits(h: Heap, want: nat, k: nat) {
    k + 1 < |h.blocks| && h.blocks[k] !in h.live && h.Size(k) >= want
  }

  /** rt_malloc would be satisfied with block k. */
  predicate Serves(h: Heap, want: nat, k: nat) {
    Fits(h, want, k) && h.blocks[k] < h.size - want
  }

  /** rt_malloc returns the lowest free block of sufficient payload from the hint on and below its bound, and fails
      exactly when there is none. */
  lemma MallocIsFirst(h: Heap, size: nat)
    requires Inv(h) && 0 < size && AlignUp(size) <= h.size
    ensures var p := Malloc(h, size).1;
            var want := Request(size);
            && (p == NULL <==> forall k: nat :: Serves(h, want, k) ==> h.blocks[k] < h.lfree)
            && (p != NULL ==>
                  exists k: nat :: Serves(h, want, k) && h.lfree <= h.blocks[k] && p == h.blocks[k] + HEADER
                                   && forall i: nat :: i < k && Serves(h, want, i) ==> h.blocks[i] < h.lfree)
  {
    hide Coalesced, Unused;
    var want := Request(size);
    var s := h.At(h.lfree);
    var k := Search(h, want, s);
    SearchIsFirst(h, want, s);
    FromHint(h);
    if h.blocks[k] < h.size - want {
      assert Serves(h, want, k);
      InHeap(h, k);
    } else {
      forall i: nat | k < i < |h.blocks|
        ensures !Serves(h, want, i)
      {
        Apart(h.blocks, STEP, h.Last(), k, i);
      }
    }
  }

  /** Blocks lie below the hint exactly up to its position. */
  lemma FromHint(h: Heap)
    requires Inv(h)
    ensures forall i: nat :: i < |h.blocks| ==> (h.blocks[i] < h.lfree <==> i < h.At(h.lfree))
  {
    var s := h.At(h.lfree);
    forall i: nat | i < |h.blocks|
      ensures h.blocks[i] < h.lfree <==> i < s
    {
      if i < s { Apart(h.blocks, STEP, h.Last(), i, s); }
      if s < i { Apart(h.blocks, STEP, h.Last(), s, i); }
    }
  }

  /** With the hint lowest, that is the lowest one of all. */
  lemma MallocIsLowest(h: Heap, size: nat)
    requires Inv(h) && HintLowest(h) && 0 < size && AlignUp(size) <= h.size
    ensures var p := Malloc(h, size).1;
            var want := Request(size);
            && (p == NULL <==> forall k: nat :: !Serves(h, want, k))
            && (p != NULL ==>
                  exists k: nat :: Serves(h, want, k) && p == h.blocks[k] + HEADER && forall i: nat :: i < k ==> !Serves(h, want, i))
  {
    hide Inv, Malloc;
    MallocIsFirst(h, size);
  }

  lemma {:induction false} SearchIsFirst(h: Heap, want: nat, k: nat)
    requires k < |h.blocks| && h.blocks[|h.blocks| - 1] == h.Last()
    ensures forall i: nat :: k <= i < Search(h, want, k) ==> !Serves(h, want, i)
    decreases |h.blocks| - k
  {
    if Search(h, want, k) != k {
      SearchIsFirst(h, want, k + 1);
    }
  }

  /** The request is put into block k, the last one, and fills it exactly. */
  predicate ExactTail(h: Heap, want: nat, k: nat) {
    Fits(h, want, k) && k + 2 == |h.blocks| && h.Size(k) == want
  }

  lemma BoundMisses(h: Heap, want: nat, k: nat)
    requires Inv(h) && Fits(h, want, k)
    ensures Serves(h, want, k) <==> !ExactTail(h, want, k)
  {
    InHeap(h, k + 1);
  }

  /** rt_malloc fails although a free block holds the request if and only if each such block lies below the hint, or is
      the last one and the request fits it exactly: the bound of the search is strict. */
  lemma MallocMisses(h: Heap, size: nat)
    requires Inv(h) && 0 < size
    ensures var want := Request(size);
            (Malloc(h, size).1 == NULL && exists k: nat :: Fits(h, want, k)) <==>
              && (exists k: nat :: Fits(h, want, k))
              && forall k: nat :: Fits(h, want, k) ==> h.blocks[k] < h.lfree || ExactTail(h, want, k)
  {
    var want := Request(size);
    if AlignUp(size) > h.size {
      forall k: nat
        ensures !Fits(h, want, k)
      {
        if k + 1 < |h.blocks| { InHeap(h, k); InHeap(h, k + 1); }
      }
    } else {
      MallocIsFirst(h, size);
      hide Inv, Malloc, Fits;
      forall k: nat
        ensures Fits(h, want, k) ==> (Serves(h, want, k) <==> !ExactTail(h, want, k))
      {
        if Fits(h, want, k) { BoundMisses(h, want, k); }
      }
    }
  }

  /** A fresh heap refuses a request for its whole payload. */
  lemma WholeHeapRefused(bytes: nat)
    requires bytes >= 2 * HEADER + MIN_SIZE && bytes % ALIGN == 0 && bytes < WORD
    ensures var h := Init(bytes);
            Inv(h) && !h.Allocated(HEADER) && h.Size(0) == h.size && Malloc(h, h.size).1 == NULL
  {
    var h := Init(bytes);
    InitInv(bytes);
    AtIs(h, 0);
    AlignUpCovers(h.size);
    AlignUpSame(h.size);
  }

  /** A shrinking rt_realloc keeps the hint lowest exactly when the part cut off does not come to lie
      below it, or is merged with the block the hint names. */
  lemma ShrinkHint(h: Heap, k: nat, n: int)
    requires Inv(h) && HintLowest(h) && k + 1 < |h.blocks| && h.blocks[k] in h.live
    requires h.blocks[k] + STEP <= n && n + STEP <= h.blocks[k + 1]
    ensures HintLowest(Release(Cut(h, k, n), k + 1, false)) <==>
              h.lfree < n || (h.lfree == h.blocks[k + 1] && h.lfree != h.Last())
  {
    var c := Cut(h, k, n);
    var r := Release(c, k + 1, false);
    ShrinkShape(h, k, n);
    hide Inv, Release, Cut, Dropped, Inserted, MergedBlocks;
    if h.lfree < n || (h.lfree == h.blocks[k + 1] && h.lfree != h.Last()) {
      forall i | 0 <= i < |r.blocks| && r.blocks[i] !in r.live
        ensures r.lfree <= r.blocks[i]
      {
        MergedAt(c.blocks, c.live, k + 1, i);
        CutFree(h, k, n, if i <= k + 1 then i else i + |c.blocks| - |r.blocks|);
      }
    }
  }

  lemma ShrinkShape(h: Heap, k: nat, n: int)
    requires Inv(h) && k + 1 < |h.blocks| && h.blocks[k] in h.live
    requires h.blocks[k] + STEP <= n && n + STEP <= h.blocks[k + 1]
    ensures var c := Cut(h, k, n);
            var r := Release(c, k + 1, false);
            && |c.blocks| == |h.blocks| + 1 && r.blocks == MergedBlocks(c.blocks, c.live, k + 1)
            && r.live == h.live && n !in h.live && k + 1 < |r.blocks| && r.blocks[k + 1] == n && n < h.blocks[k + 1]
            && r.lfree == (if h.lfree == h.blocks[k + 1] && h.lfree != h.Last() then n else h.lfree)
            && h.lfree != n && !MergesLeft(c.blocks, c.live, k + 1)
  {
    CutInv(h, k, n);
    var c := Cut(h, k, n);
    assert c.blocks[k + 1] == n && c.blocks[k] == h.blocks[k] && c.blocks[k + 2] == h.blocks[k + 1];
    if k + 2 < |h.blocks| { Spacing(h, k + 1); InHeap(h, k + 1); }
  }

  lemma CutFree(h: Heap, k: nat, n: int, i: nat)
    requires k + 1 < |h.blocks| && HintLowest(h) && i < |Cut(h, k, n).blocks|
    ensures Cut(h, k, n).blocks[i] in h.live || Cut(h, k, n).blocks[i] == n || h.lfree <= Cut(h, k, n).blocks[i]
  {
    var j := if i <= k then i else i - 1;
    assert i != k + 1 ==> Cut(h, k, n).blocks[i] == h.blocks[j];
  }

  /** The call cuts a used block down and leaves the hint above the part cut off. */
  ghost predicate BuriesFree(h: Heap, op: Op)
    requires Inv(h) && Legal(h, op)
  {
    && op.DoRealloc? && h.Allocated(op.a)
    && 0 < AlignUp(op.size) <= h.size
    && var k := h.At(op.a - HEADER);
       var n := op.a + AlignUp(op.size);
    && k + 1 < |h.blocks|
    && n + MIN_SIZE + HEADER < h.blocks[k + 1]
    && n < h.lfree
    && (h.lfree != h.blocks[k + 1] || h.lfree == h.Last())
  }

  /** A call keeps the hint lowest if and only if it is not such a call. */
  lemma StepHint(h: Heap, op: Op)
    requires Inv(h) && Legal(h, op) && HintLowest(h)
    ensures HintLowest(Step(h, op)) <==> !BuriesFree(h, op)
  {
    hide Inv, HintLowest, Malloc, Free;
    match op
    case DoMalloc(size) => MallocHintLowest(h, size);
    case DoFree(a) => FreeHintLowest(h, a);
    case DoRealloc(a, size) => ReallocHint(h, a, size);
  }

  lemma ReallocHint(h: Heap, a: int, size: nat)
    requires Inv(h) && HintLowest(h) && Legal(h, DoRealloc(a, size))
    ensures HintLowest(Realloc(h, a, size).0) <==> !BuriesFree(h, DoRealloc(a, size))
  {
    hide Inv, HintLowest, Malloc, Free, AlignUp, Release, Cut;
    var want := AlignUp(size);
    AlignUpUnit(size);
    MallocHintLowest(h, want);
    if want == 0 {
      if !h.Outside(a) { FreeHintLowest(h, a); }
    } else if want <= h.size && h.Allocated(a) {
      AllocatedAt(h, a);
      AddressNotNull(h, a);
      var k := h.At(a - HEADER);
      if h.Size(k) == want {
      } else if want + HEADER + MIN_SIZE < h.Size(k) {
        NoHintInside(h, k, a + want);
        ShrinkHint(h, k, a + want);
      } else if Malloc(h, want).1 != NULL {
        MallocInv(h, want);
        MallocKeeps(h, want);
        FreeHintLowest(Malloc(h, want).0, a);
      }
    }
  }

  lemma AddressNotNull(h: Heap, a: int)
    requires Inv(h) && h.Allocated(a)
    ensures a != NULL
  {
    InHeap(h, h.At(a - HEADER));
  }

  lemma NoHintInside(h: Heap, k: nat, n: int)
    requires Inv(h) && k + 1 < |h.blocks| && h.blocks[k] + STEP <= n && n + STEP <= h.blocks[k + 1]
    ensures h.lfree != n
  {
    TiledInsert(h.blocks, STEP, h.Last(), k, n);
  }

  /** Three calls after which the hint is not the lowest free block. */
  lemma ReallocLosesTheHint() returns (states: seq<Heap>, ops: seq<Op>)
    ensures ops == [DoMalloc(100), DoMalloc(12), DoRealloc(12, 12)]
    ensures Run(states, ops) && states[0] == Init(424)
    ensures Inv(states[3]) && !HintLowest(states[3])
  {
    hide Malloc, Inv, HintLowest, Realloc, BuriesFree, Inserted;
    var h0, h1 := Init(424), Heap(400, [0, 112, 412], {0, 412}, 112, 112, 112);
    var h2 := Heap(400, [0, 112, 136, 412], {0, 112, 412}, 136, 136, 136);
    InitInv(424);
    Splits();
    LastSplit(h0, h1, 0, 100);
    LastSplit(h1, h2, 1, 12);
    FirstBlockBuries(h2);
    StepHint(h2, DoRealloc(12, 12));
    var h3 := Step(h2, DoRealloc(12, 12));
    StepInv(h2, DoRealloc(12, 12));
    ops := [DoMalloc(100), DoMalloc(12), DoRealloc(12, 12)];
    states := [h0, h1, h2, h3];
    assert Stepped(states, ops, 0) && Stepped(states, ops, 1) && Stepped(states, ops, 2);
  }

  lemma Splits()
    ensures Inserted([0, 412], 0, 112) == [0, 112, 412] && Inserted([0, 112, 412], 1, 136) == [0, 112, 136, 412]
  {
  }

  lemma FirstBlockBuries(h: Heap)
    requires Inv(h) && h.size == 400 && |h.blocks| > 2 && h.blocks[1] == 112 && 0 in h.live && h.lfree == 136
    ensures Legal(h, DoRealloc(12, 12)) && BuriesFree(h, DoRealloc(12, 12))
  {
    AtIs(h, 0);
    assert AlignUp(12) == 12;
  }

  /** A split of the last block, which the hint names */
  lemma LastSplit(h: Heap, h': Heap, k: nat, size: nat)
    requires Inv(h) && HintLowest(h) && k + 2 == |h.blocks| && h.lfree == h.blocks[k] && h.blocks[k] !in h.live
    requires MIN_SIZE <= size < WORD && size % ALIGN == 0 && size + HEADER + MIN_SIZE <= h.Size(k)
    requires var n := h.blocks[k] + HEADER + size;
             h' == Heap(h.size, Inserted(h.blocks, k, n), h.live + {h.blocks[k]}, n, h.used + size + HEADER,
                        Max(h.maxUsed, h.used + size + HEADER))
    ensures Malloc(h, size).0 == h' && Inv(h') && HintLowest(h')
  {
    hide Take, Tiled, Coalesced, Unused, HintLowest, HintValid, AlignUp, Inserted;
    AtIs(h, k);
    AlignUpSame(size);
    LastTaken(h, k, size);
    MallocInv(h, size);
    MallocHintLowest(h, size);
    TiledEnd(h);
    InHeap(h, k);
    assert Search(h, size, k) == k;
  }

  lemma LastTaken(h: Heap, k: nat, size: nat)
    requires Inv(h) && k + 2 == |h.blocks| && h.lfree == h.blocks[k] && h.blocks[k] !in h.live
    requires MIN_SIZE <= size && size + HEADER + MIN_SIZE <= h.Size(k)
    ensures var n := h.blocks[k] + HEADER + size;
            Take(h, k, size) == Heap(h.size, Inserted(h.blocks, k, n), h.live + {h.blocks[k]}, n, h.used + size + HEADER,
                                     Max(h.maxUsed, h.used + size + HEADER))
  {
    hide Tiled, Coalesced, Unused;
    var n := h.blocks[k] + HEADER + size;
    TakeFree(h, k, n);
    HintMoves(Inserted(h.blocks, k, n), h.live + {h.blocks[k]}, k);
  }

  lemma TakeFree(h: Heap, k: nat, n: int)
    requires Inv(h) && k + 1 < |h.blocks| && h.blocks[k] + STEP <= n && n + STEP <= h.blocks[k + 1]
    ensures n !in h.live
  {
    TiledInsert(h.blocks, STEP, h.Last(), k, n);
  }

  lemma HintMoves(blocks: seq<int>, live: set<int>, k: nat)
    requires k + 1 < |blocks| && blocks[k] in live && blocks[k + 1] !in live
    ensures NextFree(blocks, live, k) == k + 1
  {
  }

  // ---- heaps too small for a block ----

  /** The search of rt_malloc, begun at block k, makes n turns at least: its bound is a 32-bit difference, and the
      `next` of heap_end is heap_end. */
  predicate Turns(h: Heap, want: nat, k: nat, n: nat)
    requires k < |h.blocks|
    decreases n
  {
    n == 0 ||
    (&& h.blocks[k] < (h.size - want) % WORD
     && !(k + 1 < |h.blocks| && h.blocks[k] !in h.live && h.Size(k) >= want)
     && Turns(h, want, if k + 1 < |h.blocks| then k + 1 else k, n - 1))
  }

  /** rt_malloc gets to its search, and the search makes any number of turns. */
  ghost predicate NeverReturns(h: Heap, size: nat, k: nat)
    requires k < |h.blocks|
  {
    size > 0 && AlignUp(size) <= h.size && forall n: nat :: Turns(h, Request(size), k, n)
  }

  /** On a heap that satisfies the invariant the search ends. */
  lemma SearchEnds(h: Heap, size: nat)
    requires Inv(h) && h.size < WORD
    ensures !NeverReturns(h, size, h.At(h.lfree))
  {
    if size > 0 && AlignUp(size) <= h.size {
      TurnsEnd(h, Request(size), h.At(h.lfree));
    }
  }

  lemma {:induction false} TurnsEnd(h: Heap, want: nat, k: nat)
    requires k < |h.blocks| && h.blocks[|h.blocks| - 1] == h.Last() && want <= h.size < WORD
    ensures !Turns(h, want, k, |h.blocks| - k)
    decreases |h.blocks| - k
  {
    if k + 1 < |h.blocks| {
      TurnsEnd(h, want, k + 1);
    }
  }

  /** On a heap with less than 12 bytes beside its headers, as rt_system_heap_init accepts it, rt_malloc never
      returns if the rounded size is at most these bytes: the bound of its search wraps around. */
  lemma TinyHeap(bytes: nat, size: nat)
    requires 2 * HEADER <= bytes < WORD
    ensures NeverReturns(Init(bytes), size, 0) <==> size > 0 && AlignUp(size) <= bytes - 2 * HEADER < MIN_SIZE
  {
    var h := Init(bytes);
    if size > 0 && AlignUp(size) <= h.size {
      if h.size < MIN_SIZE {
        assert (h.size - MIN_SIZE) % WORD == h.size - MIN_SIZE + WORD;
        forall n: nat
          ensures Turns(h, MIN_SIZE, 0, n)
        {
          if n > 0 { TurnsOn(h, n - 1); }
        }
      } else {
        InitInv(bytes);
        AtIs(h, 0);
        SearchEnds(h, size);
      }
    }
  }

  lemma {:induction false} TurnsOn(h: Heap, n: nat)
    requires |h.blocks| == 2 && h.blocks[1] < (h.size - MIN_SIZE) % WORD
    ensures Turns(h, MIN_SIZE, 1, n)
  {
    if n > 0 {
      TurnsOn(h, n - 1);
    }
  }

  /** The sum of the extents of the used blocks among the first n. */
  function UsedUpTo(blocks: seq<int>, live: set<int>, n: nat): int
    requires n < |blocks|
  {
    if n == 0 then 0
    else UsedUpTo(blocks, live, n - 1) + if blocks[n - 1] in live then blocks[n] - blocks[n - 1] else 0
  }

  lemma {:induction false} UsedAndUnused(blocks: seq<int>, live: set<int>, n: nat)
    requires n < |blocks|
    ensures UsedUpTo(blocks, live, n) + UnusedUpTo(blocks, live, 0, n) == blocks[n] - blocks[0]
  {
    if n > 0 {
      UsedAndUnused(blocks, live, n - 1);
    }
  }

  /** used_mem is the total extent, headers included, of the blocks in use. */
  lemma UsedIsTheExtent(h: Heap)
    requires Inv(h)
    ensures h.used == UsedUpTo(h.blocks, h.live, |h.blocks| - 1)
  {
    UsedAndUnused(h.blocks, h.live, |h.blocks| - 1);
  }

  // ---- what a caller sees ----

  lemma TakeResult(h: Heap, k: nat, want: nat)
    requires Inv(h) && k + 1 < |h.blocks| && h.blocks[k] !in h.live && h.Size(k) >= want >= MIN_SIZE
    ensures var h' := Take(h, k, want);
            && (forall a :: h'.Allocated(a) <==> h.Allocated(a) || a == h.blocks[k] + HEADER)
            && Holds(h'.blocks, HEADER, h.blocks[k], want)
  {
    hide Coalesced, Unused;
    var h' := Take(h, k, want);
    InHeap(h, k);
    MemberInserted(h.blocks, k, h.blocks[k] + HEADER + want);
    assert h.blocks[k] in h.blocks;
    assert PairAt(h'.blocks, h.blocks[k], h'.blocks[k + 1], k);
    assert Ends(h'.blocks, h.blocks[k], h'.blocks[k + 1]);
  }

  /** What rt_malloc returns was free before, is the one more block in use after, and has the size asked for;
      a failure changes nothing. */
  lemma MallocResult(h: Heap, size: nat)
    requires Inv(h)
    ensures var (h', p) := Malloc(h, size);
            if p == NULL then h' == h
            else !h.Allocated(p) && (forall a :: h'.Allocated(a) <==> h.Allocated(a) || a == p)
                 && Holds(h'.blocks, HEADER, p - HEADER, Request(size))
  {
    hide Tiled, Coalesced, Unused, Take, Holds;
    if size != 0 && AlignUp(size) <= h.size {
      TiledEnd(h);
      var k := Search(h, Request(size), h.At(h.lfree));
      if h.blocks[k] < h.size - Request(size) {
        TakeResult(h, k, Request(size));
        InHeap(h, k);
      }
    }
  }

  lemma TiledEnd(h: Heap)
    requires Inv(h)
    ensures |h.blocks| >= 2 && h.blocks[|h.blocks| - 1] == h.Last()
  {
  }

  lemma ReleaseResult(h: Heap, k: nat, lower: bool)
    requires Inv(h) && k + 1 < |h.blocks| && h.blocks[k] in h.live
    ensures forall a :: Release(h, k, lower).Allocated(a) <==> h.Allocated(a) && a != h.blocks[k] + HEADER
  {
    hide Coalesced, Unused, HintValid, MergedBlocks, Tiled, PluggedHint;
    TiledNoDup(h.blocks, STEP, h.Last());
    MergedBlocksMembers(h.blocks, h.live, k);
    InHeap(h, k);
  }

  /** rt_free takes exactly the given block out of use. */
  lemma FreeResult(h: Heap, a: int)
    requires Inv(h) && h.Allocated(a) && a != NULL
    ensures forall x :: Free(h, a).Allocated(x) <==> h.Allocated(x) && x != a
  {
    hide Inv, Release;
    AllocatedAt(h, a);
    ReleaseResult(h, h.At(a - HEADER), true);
  }

  /** A realloc that fails changes nothing; one that succeeds yields a used block of the wanted size, and takes
      the old one out of use if it moved. */
  lemma ReallocResult(h: Heap, a: int, size: nat)
    requires Inv(h) && h.Allocated(a) && a != NULL && AlignUp(size) > 0
    ensures var (h', p) := Realloc(h, a, size);
            if p == NULL then h' == h
            else h'.Allocated(p) && Holds(h'.blocks, HEADER, p - HEADER, AlignUp(size)) && (p != a ==> !h'.Allocated(a))
  {
    hide Inv, Release, Malloc, AlignUp;
    var want := AlignUp(size);
    var k := h.At(a - HEADER);
    AllocatedAt(h, a);
    AlignUpUnit(size);
    AlignUpAgain(size);
    if want <= h.size {
      if h.Size(k) == want {
        assert PairAt(h.blocks, h.blocks[k], h.blocks[k + 1], k);
        assert Ends(h.blocks, h.blocks[k], h.blocks[k + 1]);
      } else if want + HEADER + MIN_SIZE < h.Size(k) {
        ShrinkResult(h, k, want);
      } else {
        MallocInv(h, want);
        MallocKeeps(h, want);
        MallocResult(h, want);
        var (h1, p) := Malloc(h, want);
        if p != NULL { MovedResult(h, h1, a, p, want); }
      }
    }
  }

  lemma MovedResult(h: Heap, h1: Heap, a: int, p: int, want: nat)
    requires Inv(h1) && h.Allocated(a) && a != NULL && h1.Allocated(a) && h1.Allocated(p) && p != a && Holds(h1.blocks, HEADER, p - HEADER, Request(want))
    requires want == AlignUp(want)
    ensures var h' := Free(h1, a);
            h'.Allocated(p) && !h'.Allocated(a) && Holds(h'.blocks, HEADER, p - HEADER, want)
  {
    hide Inv, Release, Ends;
    FreeResult(h1, a);
    var y :| Ends(h1.blocks, p - HEADER, y) && y - p >= Request(want);
    FreeSameBlock(h1, a, p - HEADER, y);
  }

  lemma ShrinkResult(h: Heap, k: nat, want: nat)
    requires Inv(h) && k + 1 < |h.blocks| && h.blocks[k] in h.live && ALIGN <= want && want + HEADER + MIN_SIZE < h.Size(k)
    ensures var h' := Release(Cut(h, k, h.blocks[k] + HEADER + want), k + 1, false);
            h'.Allocated(h.blocks[k] + HEADER) && Holds(h'.blocks, HEADER, h.blocks[k], want)
  {
    hide Inv, Release, Ends, Holds;
    var n := h.blocks[k] + HEADER + want;
    var c := Cut(h, k, n);
    CutInv(h, k, n);
    InHeap(h, k);
    CutShape(h, k, n);
    ReleaseResult(c, k + 1, false);
    ReleaseSameBlock(c, k + 1, false, h.blocks[k], n);
    HoldsIs(Release(c, k + 1, false).blocks, h.blocks[k], n, want);
  }

  lemma HoldsIs(blocks: seq<int>, x: int, y: int, want: int)
    requires Ends(blocks, x, y) && y - x - HEADER >= want
    ensures Holds(blocks, HEADER, x, want)
  {
  }

  lemma CutShape(h: Heap, k: nat, n: int)
    requires k + 1 < |h.blocks| && n !in h.blocks && h.blocks[k] in h.live && h.blocks[k] != h.Last()
    ensures var c := Cut(h, k, n);
            && k + 2 < |c.blocks| && c.blocks[k + 1] == n && c.blocks[k + 1] in c.live && c.blocks[k] in c.live
            && Ends(c.blocks, h.blocks[k], n) && c.Allocated(h.blocks[k] + HEADER) && h.blocks[k] != n
  {
    var c := Cut(h, k, n);
    MemberInserted(h.blocks, k, n);
    assert h.blocks[k] in h.blocks;
    assert PairAt(c.blocks, h.blocks[k], n, k);
  }

  /** The used block at header x, ending at y, is the same in h'. */
  ghost predicate SameBlock(h: Heap, h': Heap, x: int, y: int) {
    h.Allocated(x + HEADER) && Ends(h.blocks, x, y) ==> h'.Allocated(x + HEADER) && Ends(h'.blocks, x, y)
  }

  lemma ReleaseSameBlock(h: Heap, k: nat, lower: bool, x: int, y: int)
    requires Inv(h) && k + 1 < |h.blocks| && h.blocks[k] in h.live && x != h.blocks[k]
    ensures SameBlock(h, Release(h, k, lower), x, y)
  {
    hide Coalesced, Unused, HintValid, MergedBlocks, Tiled, PluggedHint, Ends;
    ReleaseResult(h, k, lower);
    if h.Allocated(x + HEADER) && Ends(h.blocks, x, y) {
      EndsMerged(h.blocks, h.live, STEP, h.Last(), k, x, y);
    }
  }

  lemma FreeSameBlock(h: Heap, a: int, x: int, y: int)
    requires Inv(h) && (a == NULL || h.Allocated(a)) && x + HEADER != a
    ensures SameBlock(h, Free(h, a), x, y)
  {
    hide Inv, Release, Ends;
    if a != NULL {
      AllocatedAt(h, a);
      ReleaseSameBlock(h, h.At(a - HEADER), true, x, y);
    }
  }

  lemma MallocSameBlock(h: Heap, size: nat, x: int, y: int)
    requires Inv(h)
    ensures SameBlock(h, Malloc(h, size).0, x, y)
  {
    hide Tiled, Coalesced, Unused, Ends, HintValid;
    MallocKeeps(h, size);
    if size != 0 && AlignUp(size) <= h.size && h.Allocated(x + HEADER) && Ends(h.blocks, x, y) {
      TiledEnd(h);
      var k := Search(h, Request(size), h.At(h.lfree));
      if h.blocks[k] < h.size - Request(size) {
        EndsInserted(h.blocks, k, h.blocks[k] + HEADER + Request(size), x, y);
      }
    }
  }

  lemma CutSameBlock(h: Heap, k: nat, want: nat, x: int, y: int)
    requires Inv(h) && k + 1 < |h.blocks| && h.blocks[k] in h.live && ALIGN <= want && want + HEADER + MIN_SIZE < h.Size(k)
    requires x != h.blocks[k]
    ensures SameBlock(h, Release(Cut(h, k, h.blocks[k] + HEADER + want), k + 1, false), x, y)
  {
    hide Inv, Release, Ends, Inserted;
    var n := h.blocks[k] + HEADER + want;
    var c := Cut(h, k, n);
    CutInv(h, k, n);
    InHeap(h, k);
    CutShape(h, k, n);
    MemberInserted(h.blocks, k, n);
    if h.Allocated(x + HEADER) && Ends(h.blocks, x, y) {
      EndsInserted(h.blocks, k, n, x, y);
      ReleaseSameBlock(c, k + 1, false, x, y);
    }
  }

  /** A call leaves every used block that it was not given in place, with its extent. */
  lemma StepSameBlock(h: Heap, op: Op, x: int, y: int)
    requires Inv(h) && Legal(h, op) && (op.DoMalloc? || x + HEADER != op.a)
    ensures SameBlock(h, Step(h, op), x, y)
  {
    hide Inv, Ends, Release, Malloc, AlignUp, Cut;
    match op
    case DoMalloc(size) => MallocSameBlock(h, size, x, y);
    case DoFree(a) => FreeSameBlock(h, a, x, y);
    case DoRealloc(a, size) =>
      var want := AlignUp(size);
      AlignUpUnit(size);
      MallocSameBlock(h, want, x, y);
      if want == 0 {
        if !h.Outside(a) { FreeSameBlock(h, a, x, y); }
      } else if want <= h.size && a != NULL && !h.Outside(a) {
        var k := h.At(a - HEADER);
        AllocatedAt(h, a);
        if want + HEADER + MIN_SIZE < h.Size(k) {
          CutSameBlock(h, k, want, x, y);
        } else if h.Size(k) != want && Malloc(h, want).1 != NULL {
          MallocInv(h, want);
          MallocKeeps(h, want);
          FreeSameBlock(Malloc(h, want).0, a, x, y);
        }
      }
  }
}
