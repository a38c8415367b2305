/** mem.c on its own data structure: headers chained by the offsets `next` and `prev`, changed in place,
    with a hint to the lowest free block.  Every operation is proved to do to the chain what
    SmallMemModel does to the abstract heap. */
module SmallMem {
  import opened RtDef
  import opened RtList
  import opened Tiling
  import opened SmallMemModel

  /** Header k points to its neighbours; the `prev` of heap_end is not kept up to date. */
  ghost predicate HopAt(next: map<int, int>, prev: map<int, int>, blocks: seq<int>, k: nat)
    requires k < |blocks|
  {
    && blocks[k] in next && next[blocks[k]] == blocks[if k + 1 < |blocks| then k + 1 else k]
    && blocks[k] in prev && (k + 1 < |blocks| ==> prev[blocks[k]] == blocks[if k > 0 then k - 1 else 0])
  }

  ghost predicate Chain(next: map<int, int>, prev: map<int, int>, blocks: seq<int>) {
    forall k :: 0 <= k < |blocks| ==> HopAt(next, prev, blocks, k)
  }

  lemma Hop(next: map<int, int>, prev: map<int, int>, blocks: seq<int>, k: nat)
    requires Chain(next, prev, blocks) && k < |blocks|
    ensures HopAt(next, prev, blocks, k)
  {
  }

  /** Chain n in behind block k; the back link of heap_end is left alone. */
  lemma ChainInsert(next: map<int, int>, prev: map<int, int>, blocks: seq<int>, k: nat, n: int)
    requires Chain(next, prev, blocks) && NoDup(blocks) && k + 1 < |blocks| && n !in blocks
    ensures var back := prev[n := blocks[k]];
            Chain(next[n := blocks[k + 1]][blocks[k] := n], if k + 2 < |blocks| then back[blocks[k + 1] := n] else back,
                  Inserted(blocks, k, n))
  {
    var r := Inserted(blocks, k, n);
    var nx := next[n := blocks[k + 1]][blocks[k] := n];
    var pv := if k + 2 < |blocks| then prev[n := blocks[k]][blocks[k + 1] := n] else prev[n := blocks[k]];
    Unique(blocks, k);
    Unique(blocks, k + 1);
    forall i | 0 <= i < |r|
      ensures HopAt(nx, pv, r, i)
    {
      Hop(next, prev, blocks, if i <= k then i else i - 1);
    }
  }

  /** Chain block k out. */
  lemma ChainDrop(next: map<int, int>, prev: map<int, int>, blocks: seq<int>, k: nat)
    requires Chain(next, prev, blocks) && NoDup(blocks) && 0 < k && k + 1 < |blocks|
    ensures Chain(next[blocks[k - 1] := blocks[k + 1]], prev[blocks[k + 1] := blocks[k - 1]], Dropped(blocks, k))
  {
    var r := Dropped(blocks, k);
    var nx, pv := next[blocks[k - 1] := blocks[k + 1]], prev[blocks[k + 1] := blocks[k - 1]];
    Unique(blocks, k - 1);
    Unique(blocks, k + 1);
    forall i | 0 <= i < |r|
      ensures HopAt(nx, pv, r, i)
    {
      Hop(next, prev, blocks, if i < k then i else i + 1);
    }
  }

  /** The used flag of every header is the abstract one. */
  ghost predicate Marked(blocks: seq<int>, live: set<int>, used: map<int, bool>) {
    forall x :: x in blocks ==> x in used && (used[x] <==> x in live)
  }

  lemma MarkedMerge(h: Heap, k: nat, used: map<int, bool>)
    requires Inv(h) && k + 1 < |h.blocks| && h.blocks[k] in h.live && Marked(h.blocks, h.live, used)
    ensures Marked(MergedBlocks(h.blocks, h.live, k), h.live - {h.blocks[k]}, used[h.blocks[k] := false])
  {
    TiledNoDup(h.blocks, STEP, h.Last());
    MergedBlocksMembers(h.blocks, h.live, k);
  }

  /** What plug_holes reads off the headers around block k. */
  lemma Neighbours(h: Heap, next: map<int, int>, prev: map<int, int>, used: map<int, bool>, k: nat)
    requires Inv(h) && k + 1 < |h.blocks| && h.blocks[k] in h.live
    requires Chain(next, prev, h.blocks) && Marked(h.blocks, h.live, used)
    ensures var b := h.blocks[k];
            var c := h.blocks[k + 1];
            && b in next && next[b] == c && c in used && c != b
            && (!used[c] && c != h.Last() <==> MergesRight(h.blocks, h.live, k))
            && b in prev && prev[b] in used && prev[b] == h.blocks[if k > 0 then k - 1 else 0]
            && (prev[b] != b && !used[prev[b]] <==> MergesLeft(h.blocks, h.live, k))
  {
    Hop(next, prev, h.blocks, k);
    Spacing(h, k);
    var c, p := h.blocks[k + 1], h.blocks[if k > 0 then k - 1 else 0];
    assert c in h.blocks && p in h.blocks;
  }

  // ---- payload bytes ----

  /** The extent of block k holds no payload byte of another block. */
  lemma ExtentIsOwn(h: Heap, k: nat)
    requires Inv(h) && k + 1 < |h.blocks|
    ensures forall i: nat, x: int :: h.Owns(i, x) && i != k ==> !(h.blocks[k] <= x < h.blocks[k + 1])
  {
    forall i: nat, x: int | h.Owns(i, x) && i != k
      ensures !(h.blocks[k] <= x < h.blocks[k + 1])
    {
      if i < k { NextApart(h, i, k); } else { NextApart(h, k, i); }
    }
  }

  lemma NextApart(h: Heap, i: nat, j: nat)
    requires Inv(h) && i < j < |h.blocks|
    ensures h.blocks[i + 1] <= h.blocks[j]
  {
    if i + 1 < j { Apart(h.blocks, STEP, h.Last(), i + 1, j); }
  }

  /** A new payload lies in the heap and overlaps none in use. */
  lemma MallocFits(h: Heap, bytes: nat)
    requires Inv(h) && AlignUp(bytes) == bytes
    ensures var p := Malloc(h, bytes).1;
            p != NULL ==>
              && HEADER <= p && p + bytes <= h.Last()
              && forall i: nat, x: int :: h.Owns(i, x) ==> !(p <= x < p + bytes)
  {
    hide Tiled, Coalesced, Unused, Take;
    if bytes != 0 && bytes <= h.size {
      TiledEnd(h);
      var k := Search(h, Request(bytes), h.At(h.lfree));
      if h.blocks[k] < h.size - Request(bytes) {
        InHeap(h, k);
        InHeap(h, k + 1);
        ExtentIsOwn(h, k);
      }
    }
  }

  /** The payload of an allocated block, as owned bytes */
  lemma OwnExtent(h: Heap, a: int)
    requires Inv(h) && h.Allocated(a)
    ensures var k := h.At(a - HEADER);
            && k + 1 < |h.blocks| && HEADER <= a && 0 <= h.Size(k) && a + h.Size(k) <= h.Last()
            && (forall x :: a <= x < a + h.Size(k) ==> h.Owns(k, x))
            && forall i: nat, x: int :: h.Owns(i, x) && h.blocks[i] == a - HEADER ==> a <= x < a + h.Size(k)
  {
    AllocatedAt(h, a);
    var k := h.At(a - HEADER);
    InHeap(h, k);
    InHeap(h, k + 1);
    SizeNonNegative(h, k);
    TiledNoDup(h.blocks, STEP, h.Last());
    Unique(h.blocks, k);
  }

  /** A new payload does not overlap the one at a. */
  lemma PayloadsApart(h: Heap, a: int, bytes: nat)
    requires Inv(h) && h.Allocated(a) && AlignUp(bytes) == bytes
    ensures var p := Malloc(h, bytes).1;
            var k := h.At(a - HEADER);
            k + 1 < |h.blocks| && (p == NULL || h.Size(k) == 0 || bytes == 0 || a + h.Size(k) <= p || p + bytes <= a)
  {
    MallocFits(h, bytes);
    OwnExtent(h, a);
    hide Inv, Malloc;
    var p, k := Malloc(h, bytes).1, h.At(a - HEADER);
    var x := if a < p then p else a;
    assert a <= x < a + h.Size(k) ==> h.Owns(k, x);
  }

  lemma NullOwnsNothing(h: Heap)
    requires Inv(h)
    ensures forall i: nat, x: int :: h.Owns(i, x) ==> h.blocks[i] != NULL - HEADER
  {
    forall i: nat, x: int | h.Owns(i, x)
      ensures h.blocks[i] != NULL - HEADER
    {
      InHeap(h, i);
    }
  }

  /** A header written at n, inside block k, falls on no payload byte of another block. */
  lemma HeaderFits(h: Heap, k: nat, n: int)
    requires Inv(h) && k + 1 < |h.blocks| && h.blocks[k] + HEADER <= n && n + HEADER <= h.blocks[k + 1]
    ensures 0 <= n && n + HEADER <= h.size + 2 * HEADER
    ensures forall i: nat, x: int :: h.Owns(i, x) && i != k ==> !(n <= x < n + HEADER)
  {
    InHeap(h, k);
    InHeap(h, k + 1);
    ExtentIsOwn(h, k);
  }

  class SmallHeap {
    var size: int                // mem_size_aligned
    var next: map<int, int>      // the header fields, by header offset
    var prev: map<int, int>
    var used: map<int, bool>
    var lfree: int
    var usedMem: int             // used_mem
    var maxMem: int              // max_mem
    var data: array<bv8>         // the bytes from heap_ptr on
    ghost var model: Heap

    /** The fields are those of the model state. */
    ghost predicate Linked()
      reads this, data
    {
      && Chain(next, prev, model.blocks) && Marked(model.blocks, model.live, used)
      && size == model.size && lfree == model.lfree && usedMem == model.used && maxMem == model.maxUsed
      && data.Length == size + 2 * HEADER
    }

    ghost predicate Valid()
      reads this, data
    {
      Inv(model) && Linked()
    }

    /** The bytes in use keep their content. */
    twostate predicate BytesKept()
      reads this, data
    {
      && data == old(data)
      && forall i: nat, x: int :: old(model).Owns(i, x) && 0 <= x < data.Length ==> data[x] == old(data[x])
    }

    /** The bytes in use outside the block with payload address a keep their content. */
    twostate predicate OthersKept(a: int)
      reads this, data
    {
      && data == old(data)
      && forall i: nat, x: int :: old(model).Owns(i, x) && 0 <= x < data.Length && old(model).blocks[i] != a - HEADER ==>
           data[x] == old(data[x])
    }

    /** The first `want` bytes of the payload at a are found at p. */
    twostate predicate PayloadMoved(a: int, p: int, want: int)
      reads this, data
    {
      data == old(data) && (p != NULL ==>
        forall i: nat, x: int :: old(model).Owns(i, x) && old(model).blocks[i] == a - HEADER && a <= x < a + want
                                 && 0 <= x < data.Length && 0 <= x - a + p < data.Length ==>
          data[x - a + p] == old(data[x]))
    }

    /** rt_system_heap_init over `bytes` aligned bytes; with less than 12 beside the headers rt_malloc may not return,
        as SmallMemModel.TinyHeap has it. */
    constructor (bytes: nat)
      requires bytes >= 2 * HEADER
      ensures Linked() && model == Init(bytes) && fresh(data)
      ensures bytes >= 2 * HEADER + MIN_SIZE ==> Valid()
    {
      size := bytes - 2 * HEADER;
      var end := bytes - HEADER;
      next := map[0 := end, end := end];
      prev := map[0 := 0, end := end];
      used := map[0 := false, end := true];
      lfree := 0;
      usedMem, maxMem := 0, 0;
      data := new bv8[bytes];
      model := Init(bytes);
      new;
      if bytes >= 2 * HEADER + MIN_SIZE { InitInv(bytes); }
    }

    /** plug_holes around header mem, block k of h, which is just becoming free */
    method PlugHoles(mem: int, ghost h: Heap, ghost k: nat)
      requires Inv(h) && k + 1 < |h.blocks| && mem == h.blocks[k] && mem in h.live && size == h.size
      requires Chain(next, prev, h.blocks) && mem in used
      requires Marked(h.blocks, h.live, used[mem := true]) && !used[mem]
      modifies this`next, this`prev, this`lfree
      ensures Chain(next, prev, MergedBlocks(h.blocks, h.live, k))
      ensures lfree == PluggedHint(h, old(lfree), k)
    {
      hide Inv, Marked, NoDup;
      Neighbours(h, next, prev, used[mem := true], k);
      TiledOf(h);
      TiledNoDup(h.blocks, STEP, h.Last());
      var nmem := next[mem];
      if mem != nmem && !used[nmem] && nmem != size + HEADER {
        LastIsNext(h, k);
        if lfree == nmem {
          lfree := mem;
        }
        Hop(next, prev, h.blocks, k + 1);
        ChainDrop(next, prev, h.blocks, k + 1);
        NoDupDropped(h.blocks, k + 1);
        next := next[mem := next[nmem]];
        prev := prev[next[nmem] := mem];
      }
      ghost var rest := if MergesRight(h.blocks, h.live, k) then Dropped(h.blocks, k + 1) else h.blocks;
      Hop(next, prev, rest, k);
      var pmem := prev[mem];
      if pmem != mem && !used[pmem] {
        if lfree == mem {
          lfree := pmem;
        }
        ChainDrop(next, prev, rest, k);
        next := next[pmem := next[mem]];
        prev := prev[next[mem] := pmem];
      }
      MergeOrder(h, k);
    }

    /** rt_malloc */
    method Malloc(bytes: nat) returns (p: int)
      requires Valid() && bytes < WORD
      modifies this, data
      ensures Valid() && (model, p) == SmallMemModel.Malloc(old(model), bytes)
      ensures BytesKept()
    {
      hide Inv, Chain, Marked, SmallMemModel.Take, AlignUp, Search, Request;
      p := NULL;
      MallocInv(model, bytes);
      if bytes != 0 && AlignUp(bytes) <= size {
        var want := if AlignUp(bytes) < MIN_SIZE then MIN_SIZE else AlignUp(bytes);
        RequestIs(bytes);
        ghost var h := model;
        TiledOf(h);
        var ptr, k := Find(want);
        if ptr < size - want {
          Take(ptr, want, k);
          p := ptr + HEADER;
        }
      }
    }

    /** The search of rt_malloc, from the hint on. */
    method Find(want: nat) returns (ptr: int, ghost k: nat)
      requires Valid() && want >= MIN_SIZE
      ensures ptr < size - want ==> k + 1 < |model.blocks| && ptr !in model.live && model.Size(k) >= want
      ensures model.lfree in model.blocks && model.blocks[|model.blocks| - 1] == model.Last()
      ensures k == Search(model, want, model.At(model.lfree)) && ptr == model.blocks[k]
    {
      hide Inv, Chain, Marked;
      TiledOf(model);
      k := model.At(model.lfree);
      ptr := lfree;
      while ptr < size - want
        invariant k < |model.blocks| && ptr == model.blocks[k]
        invariant Search(model, want, model.At(model.lfree)) == Search(model, want, k)
        decreases |model.blocks| - k
      {
        Hop(next, prev, model.blocks, k);
        MarkOf(model.blocks, model.live, used, k);
        if !used[ptr] && next[ptr] - (ptr + HEADER) >= want {
          return;
        }
        ptr := next[ptr];
        k := k + 1;
      }
    }

    /** The part of rt_malloc that splits the block found and moves the hint on. */
    method Take(ptr: int, want: nat, ghost k: nat)
      requires Valid() && k + 1 < |model.blocks| && ptr == model.blocks[k] && ptr !in model.live
      requires model.Size(k) >= want >= MIN_SIZE
      modifies this, data
      ensures Valid() && model == SmallMemModel.Take(old(model), k, want)
      ensures BytesKept()
    {
      hide Inv, NoDup, Chain, Marked, NextFree, Inserted;
      ghost var h := model;
      TakeInv(h, k, want);
      TakeMarked(h, k, want, used);
      EndsAreApart(h, k, want);
      Hop(next, prev, h.blocks, k);
      if next[ptr] - (ptr + HEADER) >= want + HEADER + MIN_SIZE {
        var ptr2 := ptr + HEADER + want;
        HeaderFits(h, k, ptr2);
        NewHeader(ptr, ptr2, h.blocks, k);
        used := used[ptr := true];
        usedMem := usedMem + (want + HEADER);
      } else {
        used := used[ptr := true];
        usedMem := usedMem + (next[ptr] - ptr);
      }
      if maxMem < usedMem { maxMem := usedMem; }
      model := SmallMemModel.Take(h, k, want);
      if ptr == lfree {
        AdvanceHint(model, k);
      }
    }

    /** Write a free header at n and chain it in behind header b, as rt_malloc and rt_realloc both do. */
    method NewHeader(b: int, n: int, ghost blocks: seq<int>, ghost k: nat)
      requires Chain(next, prev, blocks) && NoDup(blocks) && k + 1 < |blocks| && b == blocks[k] && n !in blocks
      requires blocks[|blocks| - 1] == size + HEADER && 0 <= n && n + HEADER <= data.Length
      modifies this`next, this`prev, this`used, data
      ensures Chain(next, prev, Inserted(blocks, k, n)) && used == old(used)[n := false]
      ensures forall x :: 0 <= x < data.Length && !(n <= x < n + HEADER) ==> data[x] == old(data[x])
    {
      forall x | n <= x < n + HEADER {
        data[x] := 0;
      }
      ChainInsert(next, prev, blocks, k, n);
      Hop(next, prev, blocks, k);
      Unique(blocks, |blocks| - 1);
      used := used[n := false];
      next := next[n := next[b]];
      prev := prev[n := b];
      next := next[b := n];
      if next[n] != size + HEADER {
        prev := prev[next[n] := n];
      }
    }

    /** Move the hint from the block just taken to the next free one. */
    method AdvanceHint(ghost h: Heap, ghost k: nat)
      requires k + 1 < |h.blocks| && h.blocks[k] == lfree && h.blocks[|h.blocks| - 1] == size + HEADER && NoDup(h.blocks)
      requires Chain(next, prev, h.blocks) && Marked(h.blocks, h.live, used)
      modifies this`lfree
      ensures lfree == h.blocks[NextFree(h.blocks, h.live, k)]
    {
      ghost var i := k;
      Unique(h.blocks, |h.blocks| - 1);
      Hop(next, prev, h.blocks, k);
      assert lfree in h.blocks;
      while used[lfree] && lfree != size + HEADER
        invariant k <= i < |h.blocks| && lfree == h.blocks[i] && lfree in used && lfree in next
        invariant (used[lfree] <==> lfree in h.live)
        invariant next == old(next) && used == old(used) && size == old(size) && prev == old(prev)
        invariant NextFree(h.blocks, h.live, k) == NextFree(h.blocks, h.live, i)
        decreases |h.blocks| - i
      {
        Hop(next, prev, h.blocks, i);
        lfree := next[lfree];
        i := i + 1;
        Hop(next, prev, h.blocks, i);
        assert lfree in h.blocks;
      }
    }

    /** rt_free */
    method Free(a: int)
      requires Valid() && (a == NULL || model.Allocated(a))
      modifies this`next, this`prev, this`used, this`lfree, this`usedMem, this`model
      ensures Valid() && model == SmallMemModel.Free(old(model), a)
    {
      if a != NULL {
        hide Inv, Chain, Marked;
        var mem := a - HEADER;
        ghost var h, k := model, model.At(a - HEADER);
        FreeInv(h, a);
        AllocatedAt(h, a);
        MarkedMerge(h, k, used);
        Neighbours(h, next, prev, used, k);
        MarkedBack(h.blocks, h.live, used, mem);
        used := used[mem := false];
        if mem < lfree {
          lfree := mem;
        }
        usedMem := usedMem - (next[mem] - mem);
        PlugHoles(mem, h, k);
        model := SmallMemModel.Free(h, a);
      }
    }

    /** rt_realloc */
    method Realloc(a: int, bytes: nat) returns (p: int)
      requires Valid() && (a == NULL || model.Allocated(a) || model.Outside(a)) && bytes < WORD
      modifies this, data
      ensures Valid() && (model, p) == SmallMemModel.Realloc(old(model), a, bytes)
      ensures OthersKept(a) && PayloadMoved(a, p, AlignUp(bytes))
      ensures p == NULL && AlignUp(bytes) > 0 ==> BytesKept()
    {
      hide Inv, Chain, Marked, SmallMemModel.Malloc, SmallMemModel.Free, Release, Cut, AlignUp;
      p := NULL;
      var want := AlignUp(bytes);
      NullOwnsNothing(model);
      if want > size { return; }
      if want == 0 {
        if a == NULL || (0 <= a < size + HEADER) {
          OutsideNot(model, a);
          Free(a);
        }
        return;
      }
      if a == NULL {
        p := Malloc(want);
        return;
      }
      OutsideNot(model, a);
      AlignUpUnit(bytes);
      if a < 0 || a >= size + HEADER {
        p := a;
        return;
      }
      var mem := a - HEADER;
      ghost var h, k := model, model.At(a - HEADER);
      AllocatedAt(h, a);
      ReallocInv(h, a, bytes);
      Neighbours(h, next, prev, used, k);
      var oldSize := next[mem] - mem - HEADER;
      if oldSize == want {
        p := a;
      } else if want + HEADER + MIN_SIZE < oldSize {
        OwnExtent(h, a);
        ExtentIsOwn(h, k);
        Shrink(mem, want, k);
        p := a;
      } else {
        AlignUpAgain(bytes);
        p := Move(a, oldSize, want);
      }
    }

    /** Move a payload of oldSize bytes to a new block of `want` bytes. */
    method Move(a: int, oldSize: int, want: nat) returns (p: int)
      requires Valid() && model.Allocated(a) && model.At(a - HEADER) + 1 < |model.blocks|
      requires oldSize == model.Size(model.At(a - HEADER)) && want < WORD && AlignUp(want) == want
      modifies this, data
      ensures var (h, q) := SmallMemModel.Malloc(old(model), want);
              && p == q && Inv(h) && (p != NULL ==> h.Allocated(a))
              && Valid() && model == if p == NULL then h else SmallMemModel.Free(h, a)
      ensures OthersKept(a) && PayloadMoved(a, p, want)
      ensures p == NULL ==> BytesKept()
    {
      hide Inv, Chain, Marked, SmallMemModel.Malloc, SmallMemModel.Free, AlignUp;
      MallocInv(model, want);
      MallocKeeps(model, want);
      MallocFits(model, want);
      OwnExtent(model, a);
      p := Malloc(want);
      if p != NULL {
        PayloadsApart(old(model), a, want);
        MemCpy(p, a, if oldSize < want then oldSize else want);
        Free(a);
      }
    }

    /** rt_memcpy between two payloads */
    method MemCpy(dst: int, src: int, n: int)
      requires 0 <= n && 0 <= dst && dst + n <= data.Length && 0 <= src && src + n <= data.Length
      requires n == 0 || src + n <= dst || dst + n <= src
      modifies data
      ensures forall x :: dst <= x < dst + n ==> data[x] == old(data[x - dst + src])
      ensures forall x :: 0 <= x < data.Length && !(dst <= x < dst + n) ==> data[x] == old(data[x])
    {
      for i := 0 to n
        invariant forall x :: dst <= x < dst + i ==> data[x] == old(data[x - dst + src])
        invariant forall x :: src <= x < src + n ==> data[x] == old(data[x])
        invariant forall x :: 0 <= x < data.Length && !(dst <= x < dst + i) ==> data[x] == old(data[x])
      {
        data[dst + i] := data[src + i];
      }
    }

    /** The part of rt_realloc that cuts the used block k down to `want` bytes. */
    method Shrink(mem: int, want: nat, ghost k: nat)
      requires Valid() && k + 1 < |model.blocks| && mem == model.blocks[k] && mem in model.live
      requires ALIGN <= want && want + HEADER + MIN_SIZE < model.Size(k)
      modifies this, data
      ensures Valid() && model == Release(Cut(old(model), k, mem + HEADER + want), k + 1, false)
      ensures data == old(data)
      ensures var n := mem + HEADER + want;
              forall x :: 0 <= x < data.Length && !(n <= x < n + HEADER) ==> data[x] == old(data[x])
    {
      hide Inv, NoDup;
      ghost var h := model;
      var ptr2 := mem + HEADER + want;
      ghost var c := Cut(h, k, ptr2);
      CutInv(h, k, ptr2);
      HeaderFits(h, k, ptr2);
      CutMarked(h, k, ptr2, used);
      ReleaseInv(c, k + 1, false);
      TiledOf(h);
      TiledNoDup(h.blocks, STEP, h.Last());
      Hop(next, prev, h.blocks, k);
      usedMem := usedMem - (next[mem] - mem - HEADER - want);
      NewHeader(mem, ptr2, h.blocks, k);
      MarkedMerge(c, k + 1, used[ptr2 := true]);
      assert used[ptr2 := true][ptr2 := false] == used;
      PlugHoles(ptr2, c, k + 1);
      model := Release(c, k + 1, false);
    }
  }

  lemma RequestIs(bytes: nat)
    ensures Request(bytes) == if AlignUp(bytes) < MIN_SIZE then MIN_SIZE else AlignUp(bytes)
  {
  }

  lemma TiledOf(h: Heap)
    requires Inv(h)
    ensures Tiled(h.blocks, STEP, h.Last()) && h.lfree in h.blocks
  {
  }

  lemma MarkOf(blocks: seq<int>, live: set<int>, used: map<int, bool>, k: nat)
    requires Marked(blocks, live, used) && k < |blocks|
    ensures blocks[k] in used && (used[blocks[k]] <==> blocks[k] in live)
  {
    var x := blocks[k];
    assert x in blocks;
  }

  /** The blocks of Take, with the facts its hint search needs. */
  lemma EndsAreApart(h: Heap, k: nat, want: nat)
    requires Inv(h) && k + 1 < |h.blocks| && h.blocks[k] !in h.live && h.Size(k) >= want >= MIN_SIZE
    requires h.lfree in h.blocks
    ensures var r := Take(h, k, want);
            && k + 1 < |r.blocks| && r.blocks[k] == h.blocks[k] && r.blocks[|r.blocks| - 1] == h.Last()
            && NoDup(r.blocks) && NoDup(h.blocks) && h.blocks[|h.blocks| - 1] == h.Last()
  {
    TakeInv(h, k, want);
    TiledNoDup(h.blocks, STEP, h.Last());
    TiledNoDup(Take(h, k, want).blocks, STEP, h.Last());
  }

  lemma LastIsNext(h: Heap, k: nat)
    requires Inv(h) && k + 1 < |h.blocks|
    ensures h.blocks[k + 1] != h.Last() ==> k + 2 < |h.blocks|
  {
  }

  /** Merging right first gives the same blocks as merging left first. */
  lemma MergeOrder(h: Heap, k: nat)
    requires k + 1 < |h.blocks|
    ensures var rest := if MergesRight(h.blocks, h.live, k) then Dropped(h.blocks, k + 1) else h.blocks;
            MergedBlocks(h.blocks, h.live, k) == if MergesLeft(h.blocks, h.live, k) then Dropped(rest, k) else rest
  {
  }

  lemma TakeMarked(h: Heap, k: nat, want: nat, used: map<int, bool>)
    requires Inv(h) && k + 1 < |h.blocks| && h.Size(k) >= want >= MIN_SIZE && Marked(h.blocks, h.live, used)
    ensures h.lfree in h.blocks
    ensures var b := h.blocks[k];
            var n := b + HEADER + want;
            var split := h.Size(k) >= want + HEADER + MIN_SIZE;
            && Marked(Take(h, k, want).blocks, Take(h, k, want).live, (if split then used[n := false] else used)[b := true])
            && (split ==> n !in h.blocks)
  {
    hide Tiled, Coalesced, Unused, Inserted, NextFree;
    if h.Size(k) >= want + HEADER + MIN_SIZE {
      TakeFits(h, k, h.blocks[k] + HEADER + want);
    }
  }

  lemma TakeFits(h: Heap, k: nat, n: int)
    requires Inv(h) && k + 1 < |h.blocks| && h.blocks[k] + STEP <= n && n + STEP <= h.blocks[k + 1]
    ensures n !in h.blocks && n !in h.live
    ensures forall x :: x in Inserted(h.blocks, k, n) <==> x in h.blocks || x == n
  {
    TiledInsert(h.blocks, STEP, h.Last(), k, n);
    MemberInserted(h.blocks, k, n);
  }

  lemma CutMarked(h: Heap, k: nat, n: int, used: map<int, bool>)
    requires Inv(h) && k + 1 < |h.blocks| && n !in h.blocks && Marked(h.blocks, h.live, used)
    ensures Marked(Cut(h, k, n).blocks, Cut(h, k, n).live, used[n := true])
  {
    MemberInserted(h.blocks, k, n);
  }

  lemma MarkedBack(blocks: seq<int>, live: set<int>, used: map<int, bool>, b: int)
    requires Marked(blocks, live, used) && b in blocks && b in live
    ensures b in used && used[b := false][b := true] == used
  {
  }

  lemma OutsideNot(h: Heap, a: int)
    requires Inv(h)
    ensures h.Allocated(a) ==> a != NULL && !h.Outside(a)
  {
    if h.Allocated(a) { AllocatedAt(h, a); InHeap(h, h.At(a - HEADER)); }
  }
}
