/** The alignment of what slab.c hands out: its header says that all power-of-two sizes are aligned to their
    size.  Addresses are relative to heap_start. */
module SlabAlign {
  import opened RtDef
  import opened PageRuns
  import opened RtList
  import opened Bits
  import opened SlabModel

  /** A chunk of a power-of-two size is aligned to its size exactly if its zone is. */
  lemma ChunkAligned(zp: nat, z: int, h: Zone, i: int)
    requires HeaderOk(zp, z, h) && Pow2(h.chunk) && 0 <= i && 0 <= z
    ensures Addr(h, i) >= 0 && Addr(h, i) % h.chunk == z * PAGE % h.chunk
  {
    hide ClassSize, Offset, Pow2;
    OffsetIs(h.chunk);
    var c, off := h.chunk, Offset(h.chunk);
    RoundDown(off, c);
    assert off == off / c * c + off % c;
    ModAdds(z * PAGE, off / c, c);
    ModAdds(z * PAGE + off, i, c);
  }

  /** An address on a page boundary is aligned to a power of two up to a page always, and to a larger one
      exactly if its page number is a multiple of the pages. */
  lemma PageAligned(z: nat, size: nat)
    requires Pow2(size)
    ensures z * PAGE % size == 0 <==> size <= PAGE || z % (size / PAGE) == 0
  {
    hide Pow2;
    assert Shl1(12) == PAGE;
    Pow2Positive(size);
    if size <= PAGE {
      Pow2Divides(size, 12);
      var q := PAGE / size;
      assert PAGE == q * size;
      assert z * PAGE == 0 + (z * q) * size;
      ModAdds(0, z * q, size);
    } else {
      Pow2Multiple(size, 12);
      var q := size / PAGE;
      assert size == q * PAGE;
      ModScales(z, q, PAGE);
    }
  }

  lemma Rounded(n: nat, g: nat)
    requires g > 0 && n % g == 0
    ensures (n + g - 1) / g * g == n
  {
    var q := n / g;
    assert n == q * g;
    Quotient(n + g - 1, g, q, g - 1);
  }

  /** A request of a power-of-two size from 8 on gets chunks of exactly that size. */
  lemma ChunkOfPowerOfTwo(n: nat)
    requires Pow2(n) && n < 16384
    ensures Chunk(n) == if n < 8 then 8 else n
  {
    hide Pow2;
    assert Shl1(3) == 8 && Shl1(4) == 16 && Shl1(5) == 32 && Shl1(6) == 64;
    assert Shl1(7) == 128 && Shl1(8) == 256 && Shl1(9) == 512 && Shl1(10) == 1024;
    if 8 <= n {
      var k := if n < 128 then 3 else if n < 256 then 4 else if n < 512 then 5 else if n < 1024 then 6
               else if n < 2048 then 7 else if n < 4096 then 8 else if n < 8192 then 9 else 10;
      Pow2Multiple(n, k);
      Rounded(n, Shl1(k));
    } else {
      Pow2Positive(n);
    }
  }

  lemma Pow2Positive(n: nat)
    requires Pow2(n)
    ensures n > 0
  {
  }

  /** The page where the zone or the block of the next allocation of this size starts */
  function StartPage(s: Heap, size: nat): int
    requires Shape(s)
  {
    if size >= Limit(s.zp) then PageRuns.Alloc(s.runs, PagesFor(size)).1
    else if size == 0 then NULL
    else
      ClassOf(s.zp, size);
      var zi := ZoneIndex(size);
      if s.lists[zi] != [] then s.lists[zi][0]
      else if s.zfree != [] then s.zfree[0]
      else PageRuns.Alloc(s.runs, s.zp).1
  }

  /** The chunk that rt_malloc returns, in its zone */
  lemma ChunkGiven(s: Heap, size: nat) returns (h: Zone, k: int)
    requires Inv(s) && Shape(s) && 0 < size < Limit(s.zp) && Malloc(s, size).1 != NULL
    ensures HeaderOk(s.zp, StartPage(s, size), h) && h.chunk == Chunk(size) && 0 <= k && 0 <= StartPage(s, size)
    ensures Malloc(s, size).1 == Addr(h, k)
  {
    hide ClassSize, Chunk, ZoneIndex, HeaderOk, Inv, Addr, NewHeader, TakeChunk, Live, Limit;
    ClassOf(s.zp, size);
    ZoneIndexIsBest(size) by { LimitIs(s.zp); }
    ChunkFits(s, size);
    var zi := ZoneIndex(size);
    ClassKnown(s, zi);
    if s.lists[zi] != [] {
      var z := s.lists[zi][0];
      assert z in s.lists[zi];
      ZoneKnown(s, z);
      ZoneThere(s, z);
      k := TakeChunkOk(s.zp, z, s.zones[z]);
      h := TakeChunk(s.zones[z]).0;
      AddrSame(h, s.zones[z], k);
      LiveIndex(h, k);
      ZiInRange(s.zp, z, s.zones[z]);
    } else {
      var z := StartPage(s, size);
      h, k := NewHeader(s.zp, z, zi, Chunk(size)), 0;
      ZpPositive(s);
      ZpAtLeast(s);
      NewHeaderOk(s.zp, z, zi, Chunk(size));
      NewHeaderChunk(s.zp, z, zi, Chunk(size));
      FreshThere(s);
    }
  }

  lemma LimitIs(zp: nat)
    ensures Limit(zp) <= 16384
  {
  }

  lemma ZpAtLeast(s: Heap)
    requires Inv(s)
    ensures s.zp >= 8
  {
  }

  lemma LiveIndex(h: Zone, k: int)
    requires Live(h, k)
    ensures 0 <= k
  {
  }

  lemma ZoneThere(s: Heap, z: int)
    requires Inv(s) && z in s.zones
    ensures 0 <= z
  {
    assert z in Held(s.zones, s.zfree);
    assert ZonePagesOk(s.zp, s.usage, s.owner, z);
  }

  lemma FreshThere(s: Heap)
    requires Inv(s)
    ensures s.zfree != [] ==> 0 <= s.zfree[0]
    ensures Alloc(s.runs, s.zp).1 != NULL ==> 0 <= Alloc(s.runs, s.zp).1
  {
    if s.zfree != [] {
      var z := s.zfree[0];
      assert z in s.zfree && z in Held(s.zones, s.zfree);
      assert ZonePagesOk(s.zp, s.usage, s.owner, z);
    }
    if Alloc(s.runs, s.zp).1 != NULL { AllocFree(s.runs, s.owner, s.zp); }
  }

  /** What rt_malloc returns for a power-of-two size is aligned to that size if and only if the size is at most
      a page, or the zone or block starts at a multiple of its pages. */
  lemma MallocAligned(s: Heap, size: nat)
    requires Inv(s) && Shape(s) && Pow2(size) && size < WORD && Malloc(s, size).1 != NULL
    ensures StartPage(s, size) >= 0 && Malloc(s, size).1 >= 0
    ensures Malloc(s, size).1 % size == 0 <==> size <= PAGE || StartPage(s, size) % (size / PAGE) == 0
  {
    hide Inv, Pow2, Chunk, ZoneIndex, HeaderOk, FromZone, FromNewZone;
    Pow2Positive(size);
    var p, z := Malloc(s, size).1, StartPage(s, size);
    if size >= Limit(s.zp) {
      PagesCanon(s);
      AllocSpec(s.runs, PagesFor(size));
      PageAligned(z, size);
    } else {
      LimitIs(s.zp);
      var h, k := ChunkGiven(s, size);
      ChunkOfPowerOfTwo(size);
      if size >= 8 {
        ChunkAligned(s.zp, z, h, k);
        PageAligned(z, size);
      } else {
        EightIsPow2();
        ChunkAligned(s.zp, z, h, k);
        PageAligned(z, 8);
        Pow2Divides(size, 3);
        assert Shl1(3) == 8;
        Divides(p, 8, size);
      }
    }
  }

  lemma Divides(p: nat, n: nat, d: nat)
    requires n > 0 && d > 0 && p % n == 0 && n % d == 0
    ensures p % d == 0
  {
    var q, r := p / n, n / d;
    assert p == q * n && n == r * d;
    assert p == 0 + (q * r) * d;
    ModAdds(0, q * r, d);
  }

  /** The fewest pages with room for a block of this size behind a page table that covers them */
  function PagesAround(size: nat): nat {
    size / PAGE + size / PAGE / 512 + 1
  }

  function TablePages(n: nat): nat { (n * 4 + PAGE - 1) / PAGE }

  lemma TableIsShort(size: nat)
    requires Pow2(size) && PAGE < size < WORD
    ensures var n, q := PagesAround(size), size / PAGE;
            size == q * PAGE && 0 < TablePages(n) < q && TablePages(n) + q <= n && n * PAGE < WORD
  {
    hide Pow2;
    assert Shl1(12) == PAGE;
    assert Shl1(16) == 0x1_0000 && Shl1(20) == 0x10_0000 && Shl1(21) == 512 * PAGE;
    assert Shl1(24) == 0x100_0000 && Shl1(28) == 0x1000_0000 && Shl1(31) == 0x8000_0000;
    Pow2Multiple(size, 12);
    if size >= 512 * PAGE { Pow2Multiple(size, 21); }
    if size > 0x8000_0000 { Pow2Multiple(size, 31); }
  }

  /** In a heap of that many pages the first block of a power-of-two size above a page is not aligned to it. */
  lemma MisalignedFirst(size: nat, usage: seq<Usage>)
    requires Pow2(size) && PAGE < size < WORD && |usage| == PagesAround(size)
    ensures var s := Init(|usage|, usage);
            Inv(s) && Shape(s) && |usage| * PAGE < WORD && Malloc(s, size).1 > 0 && Malloc(s, size).1 % size != 0
  {
    hide Pow2, Inv, Shape, Init, Malloc, Limit, ZonePages, PagesFor, TablePages;
    var n, q := |usage|, size / PAGE;
    InitInv(n, usage);
    InvShape(Init(n, usage));
    TableIsShort(size);
    InitialRuns(n, usage);
    PagesOf(size, q);
    LimitHere(size, n);
    FirstBlock(Init(n, usage), size, TablePages(n), n - TablePages(n));
    BelowIsNoMultiple(Malloc(Init(n, usage), size).1, size);
  }

  lemma BelowIsNoMultiple(p: int, size: nat)
    requires 0 < p < size
    ensures p % size != 0
  {
  }

  lemma InitialRuns(n: nat, usage: seq<Usage>)
    requires |usage| == n && 0 < TablePages(n) < n
    ensures Init(n, usage).runs == [Run(TablePages(n), n - TablePages(n))] && Init(n, usage).zp == ZonePages(n)
  {
    assert FirstFit([Run(0, n)], TablePages(n), 0) == 0;
  }

  lemma FirstBlock(s: Heap, size: nat, start: int, pages: int)
    requires Shape(s) && s.runs == [Run(start, pages)] && 0 < PagesFor(size) <= pages && start != NULL
    requires size > 0 && Limit(s.zp) <= size
    ensures Malloc(s, size).1 == start * PAGE
  {
    hide Shape;
    assert FirstFit(s.runs, PagesFor(size), 0) == 0;
  }

  lemma PagesOf(size: nat, q: nat)
    requires size == q * PAGE && size < WORD && q > 1
    ensures PagesFor(size) == q
  {
    assert size + PAGE - 1 < WORD;
  }

  lemma LimitHere(size: nat, n: nat)
    requires PAGE < size && size % PAGE == 0 && n == PagesAround(size)
    ensures Limit(ZonePages(n)) <= size
  {
    var q := size / PAGE;
    if q >= 4 {
      LimitIs(ZonePages(n));
    }
  }

  /** Malloc aligns exactly the power-of-two sizes up to a page, whatever the heap. */
  lemma AlignedExactly(size: nat)
    requires Pow2(size) && size < WORD
    ensures size > 0
    ensures (forall s: Heap :: Inv(s) && Shape(s) && Malloc(s, size).1 != NULL ==> Malloc(s, size).1 % size == 0) <==> size <= PAGE
  {
    hide Inv, Shape, Malloc, Pow2;
    Pow2Positive(size);
    if size <= PAGE {
      forall s: Heap | Inv(s) && Shape(s) && Malloc(s, size).1 != NULL
        ensures Malloc(s, size).1 % size == 0
      {
        MallocAligned(s, size);
      }
    } else {
      var usage := seq(PagesAround(size), _ => Large(0));
      MisalignedFirst(size, usage);
    }
  }
}
