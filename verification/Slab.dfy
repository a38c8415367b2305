/** slab.c on its own data: the page table, the zone headers, the zone lists and the page list, changed in
    place.  The lists are sequences here; their links are the fields of the zone headers. */
module Slab {
  import opened RtDef
  import opened RtList
  import opened PageRuns
  import opened PageHeap
  import opened SlabModel

  /** zoneindex: the class of a request, and in `size` the chunk size of that class */
  method FindClass(bytes: nat) returns (zi: int, size: nat)
    requires 0 < bytes < 16384
    ensures zi == ZoneIndex(bytes) && size == Chunk(bytes)
  {
    if bytes < 128 {
      size := (bytes + 7) / 8 * 8;
      return size / 8 - 1, size;
    }
    if bytes < 256 {
      size := (bytes + 15) / 16 * 16;
      return size / 16 + 7, size;
    }
    if bytes < 8192 {
      if bytes < 512 {
        size := (bytes + 31) / 32 * 32;
        return size / 32 + 15, size;
      }
      if bytes < 1024 {
        size := (bytes + 63) / 64 * 64;
        return size / 64 + 23, size;
      }
      if bytes < 2048 {
        size := (bytes + 127) / 128 * 128;
        return size / 128 + 31, size;
      }
      if bytes < 4096 {
        size := (bytes + 255) / 256 * 256;
        return size / 256 + 39, size;
      }
      size := (bytes + 511) / 512 * 512;
      return size / 512 + 47, size;
    }
    size := (bytes + 1023) / 1024 * 1024;
    return size / 1024 + 55, size;
  }

  class SlabHeap {
    const pages: PageList
    const memusage: array<Usage>
    const zonePages: nat                   // zone_page_cnt
    var zones: map<int, Zone>              // the zone headers with a valid magic, by page
    var zoneArray: seq<seq<int>>           // zone_array
    var zoneFree: seq<int>                 // zone_free
    var zoneFreeCnt: int
    ghost var owner: seq<int>
    ghost var large: map<int, nat>

    ghost function State(): Heap
      reads this, pages, memusage
    {
      Heap(zonePages, pages.runs, memusage[..], zones, zoneArray, zoneFree, owner, large)
    }

    ghost predicate Valid()
      reads this, pages, memusage
    {
      pages.Valid() && Inv(State()) && zoneFreeCnt == |zoneFree|
    }

    /** rt_system_heap_init for a heap of n pages; the page table still holds what was in memory */
    constructor (n: nat, garbage: array<Usage>)
      requires n > 0 && garbage.Length == n
      ensures Valid() && fresh(pages) && memusage == garbage
      ensures State() == Init(n, garbage[..])
    {
      hide Inv, PageRuns.Alloc;
      var kib := n * PAGE / 1024;
      var size := 32768;
      while size < 131072 && 2 * size < kib
        invariant size == 32768 || (size == 65536 && 65536 < kib) || (size == 131072 && 131072 < kib)
        decreases 131072 - size
      {
        size := 2 * size;
      }
      zonePages := size / PAGE;
      var list := new PageList(n);
      ghost var runs := list.runs;
      assert n * 4 + PAGE - 1 > 0;
      var table := list.Alloc((n * 4 + PAGE - 1) / PAGE);
      pages := list;
      memusage := garbage;
      zones := map[];
      zoneArray := seq(NZONES, _ => []);
      zoneFree := [];
      zoneFreeCnt := 0;
      owner := seq(n, _ => NULL);
      large := map[];
      new;
      assert zoneArray == seq(NZONES, _ => []);
      InitInv(n, memusage[..]);
    }

    /** The usage entries of a new zone's pages: counted through. */
    method MarkZone(z: int)
      requires 0 <= z && z + zonePages <= memusage.Length
      modifies memusage
      ensures memusage[..] == Marked(old(memusage[..]), z, zonePages)
    {
      var off := 0;
      while off < zonePages
        invariant 0 <= off <= zonePages
        invariant forall p :: 0 <= p < memusage.Length ==> memusage[p] == if z <= p < z + off then Small(p - z) else old(memusage[p])
      {
        memusage[z + off] := Small(off);
        off := off + 1;
      }
    }

    method ClearZone(z: int)
      requires 0 <= z && z + zonePages <= memusage.Length
      modifies memusage
      ensures memusage[..] == Filled(old(memusage[..]), z, zonePages, Usage.Free)
    {
      var i := 0;
      while i < zonePages
        invariant 0 <= i <= zonePages
        invariant forall p :: 0 <= p < memusage.Length ==> memusage[p] == if z <= p < z + i then Usage.Free else old(memusage[p])
      {
        memusage[z + i] := Usage.Free;
        i := i + 1;
      }
    }

    /** Large allocations come straight from the page allocator. */
    method MallocLarge(size: nat) returns (p: int)
      requires Valid() && size < WORD
      modifies this, pages, memusage
      ensures pages.Valid() && zoneFreeCnt == |zoneFree|
      ensures (State(), p) == MallocPages(old(State()), size)
    {
      hide Inv, PageRuns.Alloc, Canon, Chain;
      ghost var s := State();
      var n := PagesFor(size);
      var chunk := pages.Alloc(n);
      if chunk == NULL {
        p := NULL;
        NoPages(s, n);
        assert State() == s;
      } else {
        PagesInRange(s, n);
        memusage[chunk] := Large(n);
        owner := Filled(owner, chunk, n, chunk);
        large := large[chunk := n];
        p := chunk * PAGE;
        assert memusage[..] == Filled(s.usage, chunk, 1, Large(n));
      }
    }

    /** A chunk from the first zone of a class that has one. */
    method TakeFrom(zi: int, size: nat) returns (p: int)
      requires Valid() && 0 <= zi < NZONES && |zoneArray| == NZONES && size == ClassSize(zi)
      requires zoneArray[zi] != [] && zoneArray[zi][0] in zones
      modifies this
      ensures pages.Valid() && zoneFreeCnt == |zoneFree|
      ensures (State(), p) == FromZone(old(State()), zi)
    {
      hide Inv, Canon, Chain, ClassSize;
      ghost var s := State();
      var z := zoneArray[zi][0];
      var h := zones[z];
      ZoneHasChunk(s, zi);
      h := h.(nfree := h.nfree - 1);
      if h.nfree == 0 {
        zoneArray := zoneArray[zi := zoneArray[zi][1..]];
      }
      if h.uindex + 1 != h.nmax {
        h := h.(uindex := h.uindex + 1);
        p := h.base + h.uindex * size;
      } else {
        p := h.free[0];
        h := h.(free := h.free[1..]);
      }
      zones := zones[z := h];
    }

    /** A zone for a class, from the cache or from the page allocator, and its first chunk. */
    method NewZone(zi: int, size: nat) returns (p: int)
      requires Valid() && 0 <= zi < |zoneArray| && size > 0
      modifies this, pages, memusage
      ensures pages.Valid() && zoneFreeCnt == |zoneFree|
      ensures (State(), p) == FromNewZone(old(State()), zi, size)
    {
      hide Inv, PageRuns.Alloc, Canon, Chain, Offset;
      ghost var s := State();
      var z;
      if zoneFree != [] {
        InvSound(s);
        CacheKnown(s);
        z := zoneFree[0];
        zoneFree := zoneFree[1..];
        zoneFreeCnt := zoneFreeCnt - 1;
      } else {
        z := pages.Alloc(zonePages);
        if z != NULL {
          PagesInRange(s, zonePages);
          MarkZone(z);
          owner := Filled(owner, z, zonePages, z);
        } else {
          NoPages(s, zonePages);
        }
      }
      if z == NULL {
        p := NULL;
      } else {
        var off := Offset(size);
        var nmax := (zonePages * PAGE - off) / size;
        zones := zones[z := Zone(zi, size, z * PAGE + off, nmax, nmax - 1, 0, [])];
        p := z * PAGE + off + 0 * size;
        zoneArray := zoneArray[zi := [z] + zoneArray[zi]];
      }
    }

    /** rt_malloc */
    method Malloc(size: nat) returns (p: int)
      requires Valid() && size < WORD
      modifies this, pages, memusage
      ensures Valid()
      ensures (InvShape(old(State())); (State(), p) == SlabModel.Malloc(old(State()), size))
    {
      hide Inv, Canon, Chain, Chunk, ZoneIndex, ClassSize, Given, PageRuns.Alloc;
      ghost var s := State();
      InvShape(s);
      MallocOk(s, size);
      if size == 0 {
        p := NULL;
      } else if size >= Limit(zonePages) {
        p := MallocLarge(size);
      } else {
        var zi, chunk := FindClass(size);
        ClassOf(zonePages, size);
        ZoneIndexIsBest(size);
        if zoneArray[zi] != [] {
          assert zoneArray[zi][0] in zoneArray[zi];
          p := TakeFrom(zi, chunk);
        } else {
          p := NewZone(zi, chunk);
        }
      }
    }

    /** A block of pages goes back to the page allocator. */
    method FreeLarge(a: int)
      requires Valid() && a in large
      modifies this, pages, memusage
      ensures pages.Valid() && zoneFreeCnt == |zoneFree|
      ensures State() == FreePages(old(State()), a, old(large[a]))
    {
      hide Inv, Canon, Chain, InUse, PageRuns.Free;
      ghost var s := State();
      BlockKnown(s, a);
      var size := memusage[a].pages;
      memusage[a] := Large(0);
      assert memusage[..] == Filled(s.usage, a, 1, Large(0));
      pages.Free(a, size);
      owner := Filled(owner, a, size, NULL);
      large := large - {a};
    }

    /** A chunk goes back to its zone. */
    method PutBack(z: int, ptr: int)
      requires z in zones && 0 <= zones[z].zi < |zoneArray|
      modifies this
      ensures zoneFreeCnt == old(zoneFreeCnt)
      ensures State() == PutChunk(old(State()), z, ptr)
    {
      var h := zones[z];
      h := h.(free := [ptr] + h.free);
      if h.nfree == 0 {
        zoneArray := zoneArray[h.zi := [z] + zoneArray[h.zi]];
      }
      h := h.(nfree := h.nfree + 1);
      zones := zones[z := h];
    }

    /** Search the list of a class for the link to z, and bypass it. */
    method Unlist(zi: int, z: int)
      requires 0 <= zi < |zoneArray| && z in zoneArray[zi]
      modifies this
      ensures State() == old(State()).(lists := old(zoneArray)[zi := Without(old(zoneArray[zi]), z)])
      ensures zoneFreeCnt == old(zoneFreeCnt)
    {
      var list := zoneArray[zi];
      var pz := 0;
      while list[pz] != z
        invariant 0 <= pz < |list| && z in list[pz..] && z !in list[..pz]
        decreases |list| - pz
      {
        pz := pz + 1;
      }
      WithoutAt(list, z, pz);
      zoneArray := zoneArray[zi := list[..pz] + list[pz + 1..]];
    }

    /** An unused zone moves to the cache; what the cache has too much goes to the page allocator. */
    method Close(z: int)
      requires Valid() && z in zones && 0 <= zones[z].zi < |zoneArray| && z in zoneArray[zones[z].zi]
      modifies this, pages, memusage
      ensures pages.Valid() && zoneFreeCnt == |zoneFree|
      ensures var s := CloseZone(old(State()), z);
              State() == if |s.zfree| > RELEASE_THRESH then ReleaseZone(s) else s
    {
      hide Inv, Canon, Chain, InUse, PageRuns.Free, Without;
      ghost var s := CloseZone(State(), z);
      CloseZoneSound(State(), z);
      Unlist(zones[z].zi, z);
      zones := zones - {z};
      zoneFree := [z] + zoneFree;
      zoneFreeCnt := zoneFreeCnt + 1;
      assert State() == s;
      if zoneFreeCnt > RELEASE_THRESH {
        CacheKnown(s);
        var y := zoneFree[0];
        zoneFree := zoneFree[1..];
        zoneFreeCnt := zoneFreeCnt - 1;
        ClearZone(y);
        pages.Free(y, zonePages);
        owner := Filled(owner, y, zonePages, NULL);
      }
    }

    /** rt_free of something that is held */
    method Free(ptr: int, ghost len: nat)
      requires Valid() && HasObject(State(), ptr, len)
      modifies this, pages, memusage
      ensures Valid()
      ensures (FreeObjectOk(old(State()), ptr, len); State() == FreeObject(old(State()), ptr))
    {
      hide Inv, Canon, Chain, HasObject, Addr, PageRuns.Free, CloseZone, ReleaseZone, FreePages;
      ghost var s := State();
      FreeObjectOk(s, ptr, len);
      UsageKnown(s, ptr, len);
      var page := ptr / PAGE;
      var kup := memusage[page];
      if kup.Large? {
        FreeLarge(page);
      } else {
        var z := page - kup.off;
        PutBackOk(s, z, ptr, len);
        PutBack(z, ptr);
        var h := zones[z];
        if h.nfree == h.nmax && zoneArray[h.zi] != [z] {
          InItsList(State(), z);
          Close(z);
        }
      }
    }
  }

  lemma PagesInRange(s: Heap, n: nat)
    requires Inv(s) && PageRuns.Alloc(s.runs, n).1 != NULL
    ensures var a := PageRuns.Alloc(s.runs, n).1; 0 <= a && 0 < n && a + n <= |s.usage|
  {
    AllocFree(s.runs, s.owner, n);
  }

  lemma NoPages(s: Heap, n: nat)
    requires Inv(s) && PageRuns.Alloc(s.runs, n).1 == NULL
    ensures PageRuns.Alloc(s.runs, n).0 == s.runs
  {
    PagesCanon(s);
    var i := FirstFit(s.runs, n, 0);
    if i < |s.runs| { StartsDiffer(s.runs, i); }
  }

  lemma ZoneHasChunk(s: Heap, zi: int)
    requires Inv(s) && 0 <= zi < NZONES && |s.lists| == NZONES && s.lists[zi] != [] && s.lists[zi][0] in s.zones
    ensures var h := s.zones[s.lists[zi][0]]; h.chunk == ClassSize(zi) && (h.uindex + 1 == h.nmax ==> h.free != [])
  {
    hide PagesOk, ClassSize, Offset;
    var z := s.lists[zi][0];
    assert z in s.lists[zi];
    ClassKnown(s, zi);
    ZoneKnown(s, z);
  }

  lemma BlockKnown(s: Heap, a: int)
    requires Inv(s) && a in s.large
    ensures 0 <= a < |s.usage| && s.usage[a] == Large(s.large[a]) && s.large[a] > 0 && InUse(s.runs, a, s.large[a])
  {
    assert BlockOk(s.usage, s.owner, a, s.large[a]);
    OwnedInUse(s.runs, s.owner, a, s.large[a]);
  }

  lemma InvSound(s: Heap)
    requires Inv(s)
    ensures Sound(s)
  {
  }

  lemma CacheKnown(s: Heap)
    requires Sound(s) && s.zfree != []
    ensures var z := s.zfree[0]; 0 <= z && 0 < s.zp && z + s.zp <= |s.usage| && InUse(s.runs, z, s.zp)
  {
    var z := s.zfree[0];
    assert z in s.zfree;
    assert z in Held(s.zones, s.zfree);
    assert ZonePagesOk(s.zp, s.usage, s.owner, z);
    OwnedInUse(s.runs, s.owner, z, s.zp);
  }

  /** The page table has an entry for what is held, of a chunk or of a block. */
  lemma UsageKnown(s: Heap, p: int, len: nat)
    requires Inv(s) && HasObject(s, p, len)
    ensures 0 <= p / PAGE < |s.usage| && !s.usage[p / PAGE].Free?
    ensures s.usage[p / PAGE].Large? ==> p / PAGE in s.large && s.large[p / PAGE] == s.usage[p / PAGE].pages
  {
    hide Inv, SmallAt, Addr;
    if z, k :| SmallAt(s, z, k, p, len) {
      ObjectSize(s, p, len);
      SmallFound(s, z, k, p, len);
      BtokupFindsTheZone(s, z, k, p, len, p);
    } else {
      var x :| LargeAt(s, x, p, len);
      LargeFound(s, x, p, len);
      BtokupFindsTheBlock(s, x, p, len);
    }
  }

  lemma PutBackOk(s: Heap, z: int, p: int, len: nat)
    requires Inv(s) && HasObject(s, p, len) && !Btokup(s, p).Large? && z == ZoneOf(s, p)
    ensures z in s.zones && 0 <= s.zones[z].zi < |s.lists| && Inv(PutChunk(s, z, p))
  {
    hide Inv, Addr, Live, PutChunk;
    if y, k :| SmallAt(s, y, k, p, len) {
      ObjectSize(s, p, len);
      BtokupFindsTheZone(s, y, k, p, len, p);
      ZoneKnown(s, y);
      PutChunkInv(s, y, k);
    } else {
      var x :| LargeAt(s, x, p, len);
      BtokupFindsTheBlock(s, x, p, len);
    }
  }

  /** A zone with a free chunk is in the list of its class. */
  lemma InItsList(s: Heap, z: int)
    requires Inv(s) && z in s.zones && s.zones[z].nfree == s.zones[z].nmax
    ensures 0 <= s.zones[z].zi < |s.lists| && z in s.lists[s.zones[z].zi]
  {
    hide PagesOk;
    ZoneKnown(s, z);
  }
}
