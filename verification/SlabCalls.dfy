/** More of what calls on the slab come to: when requests for whole pages fail, the order in which chunks are given out, when an
    unused zone is put aside or given back, and that no page is ever lost. */
module SlabCalls {
  import opened RtDef
  import opened PageRuns
  import opened RtList
  import opened Bits
  import opened SlabModel

  /** A zone has 32, 64 or 128 KiB: the least of these sizes of which two, in bytes, are as many as the heap has KiB, or else
      the most. */
  lemma ZonePagesIs(n: nat)
    ensures var zone := ZonePages(n) * PAGE;
            && (zone == 0x8000 || zone == 0x1_0000 || zone == 0x2_0000)
            && (zone < 0x2_0000 ==> 2 * zone >= n * PAGE / 1024)
            && (zone > 0x8000 ==> zone < n * PAGE / 1024)
  {
  }

  // ---- requests for whole pages ----

  /** A request of the zone limit or more gets as many pages as it needs. */
  lemma PagesAreEnough(size: nat)
    requires 0 < size <= WORD - PAGE
    ensures (PagesFor(size) - 1) * PAGE < size <= PagesFor(size) * PAGE
  {
    assert (size + PAGE - 1) % WORD == size + PAGE - 1;
  }

  /** It fails if and only if rounding it up leaves 32 bits, or so many pages in a row are not free. */
  lemma MallocPagesFails(s: Heap, size: nat)
    requires Inv(s) && Shape(s) && Limit(s.zp) <= size < WORD
    ensures Malloc(s, size).1 == NULL <==> size > WORD - PAGE || forall a :: !AllFree(s.runs, a, PagesFor(size))
  {
    hide Inv, Shape, Canon;
    PagesCanon(s);
    LimitPositive(s);
    var n := PagesFor(size);
    if size > WORD - PAGE {
      assert (size + PAGE - 1) % WORD == size + PAGE - 1 - WORD;
      assert n == 0;
    } else {
      PagesAreEnough(size);
      AllocFails(s.runs, n);
      if Alloc(s.runs, n).1 != NULL { AllocSpec(s.runs, n); }
    }
  }

  lemma LimitPositive(s: Heap)
    requires Inv(s)
    ensures Limit(s.zp) > 0
  {
  }

  // ---- the chunks of a zone ----

  /** A new zone has as many chunks as fit behind its header. */
  lemma NewZoneIsFull(zp: nat, z: int, zi: int, chunk: nat)
    requires 0 < chunk && Offset(chunk) <= zp * PAGE
    ensures var h := NewHeader(zp, z, zi, chunk);
            h.base + h.nmax * chunk <= (z + zp) * PAGE < h.base + (h.nmax + 1) * chunk
  {
    hide Offset;
    var room := zp * PAGE - Offset(chunk);
    RoundDown(room, chunk);
    assert room == room / chunk * chunk + room % chunk;
    assert (room / chunk + 1) * chunk == room / chunk * chunk + chunk;
  }

  /** A zone after the next i chunks are given out */
  function TakenFrom(h: Zone, i: nat): Zone {
    if i == 0 then h else TakeChunk(TakenFrom(h, i - 1)).0
  }

  /** The chunks of a new zone are given out in the order of their addresses, each once. */
  lemma {:induction false} ChunksInOrder(zp: nat, z: int, zi: int, chunk: nat, i: nat)
    requires chunk > 0
    requires i < NewHeader(zp, z, zi, chunk).nmax
    ensures var h := NewHeader(zp, z, zi, chunk);
            && TakenFrom(h, i) == h.(nfree := h.nmax - 1 - i, uindex := i)
            && (i + 1 < h.nmax ==> TakeChunk(TakenFrom(h, i)).1 == Addr(h, i + 1))
  {
    hide Offset;
    if i > 0 { ChunksInOrder(zp, z, zi, chunk, i - 1); }
  }

  /** Once all have been given out, the chunk that came back last goes first. */
  lemma LastBackFirst(h: Zone, p: int)
    requires h.uindex + 1 == h.nmax
    ensures TakeChunk(Returned(h, p)) == (h, p)
  {
  }

  /** A zone has no live chunk if and only if all its chunks are counted free. */
  lemma NoneLive(zp: nat, z: int, h: Zone)
    requires HeaderOk(zp, z, h)
    ensures h.nfree == h.nmax <==> forall i :: !Live(h, i)
  {
    if h.nfree == h.nmax {
      forall i
        ensures !Live(h, i)
      {
        UnusedZone(zp, z, h, i);
      }
    }
    if forall i :: !Live(h, i) { AllReturned(zp, z, h); }
  }

  lemma AllReturned(zp: nat, z: int, h: Zone)
    requires HeaderOk(zp, z, h) && forall i :: !Live(h, i)
    ensures h.nfree == h.nmax
  {
    hide Offset, ClassSize;
    var f := set x | x in h.free;
    NoDupCount(h.free);
    AddrsCount(h, h.uindex + 1);
    forall a
      ensures a in f <==> a in Addrs(h, h.uindex + 1)
    {
      if a in f {
        assert IsChunk(h, a);
        var j :| 0 <= j <= h.uindex && a == Addr(h, j);
      }
      if a in Addrs(h, h.uindex + 1) {
        var i :| 0 <= i < h.uindex + 1 && a == Addr(h, i);
        assert !Live(h, i);
      }
    }
    assert f == Addrs(h, h.uindex + 1);
  }

  // ---- what a release does to the zones ----

  /** Chunk k is the only one of zone z that is live. */
  ghost predicate LastLive(s: Heap, z: int, k: int)
    requires z in s.zones
  {
    forall i :: Live(s.zones[z], i) ==> i == k
  }

  /** Another zone of the class of z has a free chunk. */
  ghost predicate HasSibling(s: Heap, z: int)
    requires z in s.zones
  {
    exists y :: y != z && y in s.zones && s.zones[y].zi == s.zones[z].zi && s.zones[y].nfree > 0
  }

  /** When the last live chunk of a zone comes back and another zone of its class has a free chunk, the zone is put aside, or given
      back to the page allocator if two are put aside already; otherwise no zone comes or goes, and no page does. */
  lemma FreeChunkComesTo(s: Heap, z: int, k: int)
    requires Inv(s) && z in s.zones && Live(s.zones[z], k)
    ensures 0 <= s.zones[z].zi < |s.lists|
    ensures var s' := FreeChunk(s, z, Addr(s.zones[z], k));
            if LastLive(s, z, k) && HasSibling(s, z) then
              && s'.zones == s.zones - {z}
              && (if |s.zfree| < RELEASE_THRESH then s'.zfree == [z] + s.zfree && s'.runs == s.runs
                  else s'.zfree == s.zfree && forall p :: FreePage(s'.runs, p) <==> FreePage(s.runs, p) || z <= p < z + s.zp)
            else
              s'.zones == s.zones[z := Returned(s.zones[z], Addr(s.zones[z], k))] && s'.zfree == s.zfree && s'.runs == s.runs
  {
    hide Inv, Live, Addr, Canon, HeaderOk, ListOk, PagesOk, HasSibling;
    ZoneKnown(s, z);
    ZiInRange(s.zp, z, s.zones[z]);
    ListsAre(s);
    var h, p := s.zones[z], Addr(s.zones[z], k);
    var h' := Returned(h, p);
    FreeCount(s.zp, z, h);
    PutChunkOk(s.zp, z, h, k);
    NoneLive(s.zp, z, h');
    assert h'.nfree == h'.nmax <==> LastLive(s, z, k);
    var s1 := PutChunk(s, z, p);
    PutChunkInv(s, z, k);
    ListsAre(s1);
    SiblingListed(s1, z) by { ZoneKnown(s1, z); }
    SameSiblings(s, s1, z);
    if h'.nfree == h'.nmax && s1.lists[h'.zi] != [z] {
      var s2 := CloseZone(s1, z);
      CloseZoneSound(s1, z);
      assert s2.zones == s.zones - {z};
      if |s2.zfree| > RELEASE_THRESH {
        ReleasedPages(s2);
        assert ReleaseZone(s2).zfree == s.zfree;
        CacheBound(s);
      }
    }
  }

  lemma CacheBound(s: Heap)
    requires Inv(s)
    ensures |s.zfree| <= RELEASE_THRESH
  {
  }

  lemma ListsAre(s: Heap)
    requires Inv(s)
    ensures |s.lists| == NZONES && forall i :: 0 <= i < NZONES ==> ListOk(s.zones, s.lists[i], i)
  {
  }

  /** The list of a class is [z] if and only if z has no sibling, once z has a free chunk. */
  lemma SiblingListed(s: Heap, z: int)
    requires z in s.zones && 0 <= s.zones[z].zi < |s.lists| && ListOk(s.zones, s.lists[s.zones[z].zi], s.zones[z].zi)
    requires s.zones[z].nfree > 0 || HeaderOk(s.zp, z, s.zones[z])
    ensures s.zones[z].nfree > 0 ==> (s.lists[s.zones[z].zi] != [z] <==> HasSibling(s, z))
  {
    hide HeaderOk;
    var list := s.lists[s.zones[z].zi];
    if s.zones[z].nfree > 0 {
      assert z in list;
      if HasSibling(s, z) {
        var y :| y != z && y in s.zones && s.zones[y].zi == s.zones[z].zi && s.zones[y].nfree > 0;
        assert y in list;
      } else if list != [z] {
        OneElement(list, z);
      }
    }
  }

  lemma OneElement(list: seq<int>, z: int)
    requires NoDup(list) && z in list && forall y :: y in list ==> y == z
    ensures list == [z]
  {
    NoDupCount(list);
    var names := set x | x in list;
    forall y
      ensures y in names <==> y in {z}
    {
    }
    assert names == {z};
    var first := list[0];
    assert first in list;
  }

  lemma SameSiblings(s: Heap, s1: Heap, z: int)
    requires z in s.zones && z in s1.zones && s1.zones[z].zi == s.zones[z].zi && s1.zones == s.zones[z := s1.zones[z]]
    ensures HasSibling(s1, z) <==> HasSibling(s, z)
  {
    if HasSibling(s, z) {
      var y :| y != z && y in s.zones && s.zones[y].zi == s.zones[z].zi && s.zones[y].nfree > 0;
      assert y in s1.zones && s1.zones[y] == s.zones[y];
    }
    if HasSibling(s1, z) {
      var y :| y != z && y in s1.zones && s1.zones[y].zi == s1.zones[z].zi && s1.zones[y].nfree > 0;
      assert y in s.zones && s1.zones[y] == s.zones[y];
    }
  }

  lemma ReleasedPages(s: Heap)
    requires Sound(s) && s.zfree != []
    ensures forall p :: FreePage(ReleaseZone(s).runs, p) <==> FreePage(s.runs, p) || s.zfree[0] <= p < s.zfree[0] + s.zp
  {
    hide HeadersOk, ListsOk, Canon;
    var z := s.zfree[0];
    assert z in Held(s.zones, s.zfree);
    assert ZonePagesOk(s.zp, s.usage, s.owner, z);
    OwnedInUse(s.runs, s.owner, z, s.zp);
    FreeSpec(s.runs, z, s.zp);
  }

  // ---- no page is lost ----

  /** The page is free, or in the zone or the block that it is booked to. */
  ghost predicate PageKept(runs: seq<Run>, owner: seq<int>, zp: nat, held: set<int>, large: map<int, nat>, p: int)
    requires 0 <= p < |owner|
  {
    var o := owner[p];
    if o == NULL then FreePage(runs, p)
    else (o in held && o <= p < o + zp) || (o in large && o <= p < o + large[o])
  }

  /** Every page behind the page table is free, or in a zone, in use or put aside, or in a block that a caller holds. */
  ghost predicate Accounted(s: Heap, table: nat) {
    forall p :: table <= p < |s.owner| ==> PageKept(s.runs, s.owner, s.zp, Held(s.zones, s.zfree), s.large, p)
  }

  lemma TakenAccounted(s: Heap, table: nat, n: nat, held: set<int>, large: map<int, nat>)
    requires Inv(s) && Accounted(s, table) && Alloc(s.runs, n).1 != NULL
    requires var a, all := Alloc(s.runs, n).1, Held(s.zones, s.zfree);
             (held == all && large == s.large[a := n]) || (held == all + {a} && large == s.large && n == s.zp)
    ensures var (r, a) := Alloc(s.runs, n);
            forall p :: table <= p < |s.owner| ==> PageKept(r, Filled(s.owner, a, n, a), s.zp, held, large, p)
  {
    hide HeadersOk, ListsOk, CacheOk, Canon, Inv;
    PagesCanon(s);
    AllocSpec(s.runs, n);
    var (r, a) := Alloc(s.runs, n);
    NewBlock(s, n);
    forall p | table <= p < |s.owner|
      ensures PageKept(r, Filled(s.owner, a, n, a), s.zp, held, large, p)
    {
      assert PageKept(s.runs, s.owner, s.zp, Held(s.zones, s.zfree), s.large, p);
    }
  }

  lemma NewBlock(s: Heap, n: nat)
    requires Inv(s) && Alloc(s.runs, n).1 != NULL
    ensures Alloc(s.runs, n).1 !in s.large
  {
    hide HeadersOk, ListsOk, CacheOk;
    ClaimBlockOk(s.zp, s.runs, s.usage, s.owner, s.large, Held(s.zones, s.zfree), n);
  }

  lemma MallocAccounted(s: Heap, table: nat, size: nat)
    requires Inv(s) && Shape(s) && Accounted(s, table) && size < WORD
    ensures Accounted(Malloc(s, size).0, table)
  {
    hide Inv, Accounted, FromZone, FromNewZone, MallocPages, ClassSize, Chunk, ZoneIndex, PagesFor;
    if size == 0 {
    } else if size >= Limit(s.zp) {
      PagesAccounted(s, table, size);
    } else {
      ClassOf(s.zp, size);
      var zi := ZoneIndex(size);
      if s.lists[zi] != [] {
        var z := s.lists[zi][0];
        assert z in s.lists[zi];
        SameZones(s, FromZone(s, zi).0, table) by { FromZoneKeeps(s, zi); }
      } else {
        NewZoneAccounted(s, table, zi, Chunk(size));
      }
    }
  }

  lemma FromZoneKeeps(s: Heap, zi: int)
    requires 0 <= zi < |s.lists| && s.lists[zi] != [] && s.lists[zi][0] in s.zones
    ensures var s' := FromZone(s, zi).0;
            s'.runs == s.runs && s'.owner == s.owner && s'.zp == s.zp && s'.large == s.large
            && Held(s'.zones, s'.zfree) == Held(s.zones, s.zfree)
  {
    hide TakeChunk;
  }

  lemma SameZones(s: Heap, s': Heap, table: nat)
    requires Accounted(s, table) && s'.runs == s.runs && s'.owner == s.owner && s'.zp == s.zp && s'.large == s.large
    requires Held(s'.zones, s'.zfree) == Held(s.zones, s.zfree)
    ensures Accounted(s', table)
  {
  }

  lemma PagesAccounted(s: Heap, table: nat, size: nat)
    requires Inv(s) && Accounted(s, table)
    ensures Accounted(MallocPages(s, size).0, table)
  {
    hide Inv, PagesFor;
    var n := PagesFor(size);
    var (runs, b) := Alloc(s.runs, n);
    if b != NULL { TakenAccounted(s, table, n, Held(s.zones, s.zfree), s.large[b := n]); }
  }

  lemma NewZoneAccounted(s: Heap, table: nat, zi: int, chunk: nat)
    requires Inv(s) && Accounted(s, table) && 0 <= zi < |s.lists| && chunk > 0
    ensures Accounted(FromNewZone(s, zi, chunk).0, table)
  {
    hide Inv, NewHeader;
    var s' := FromNewZone(s, zi, chunk).0;
    if s.zfree != [] {
      forall y
        ensures y in Held(s'.zones, s'.zfree) <==> y in Held(s.zones, s.zfree)
      {
        if y in s.zfree && y != s.zfree[0] { assert y in s.zfree[1..]; }
      }
      assert Held(s'.zones, s'.zfree) == Held(s.zones, s.zfree);
    } else {
      var (runs, z) := Alloc(s.runs, s.zp);
      if z != NULL {
        TakenAccounted(s, table, s.zp, Held(s.zones, s.zfree) + {z}, s.large);
        assert Held(s'.zones, s'.zfree) == Held(s.zones, s.zfree) + {z};
      }
    }
  }

  /** Pages that come back to the page allocator */
  lemma GivenAccounted(s: Heap, table: nat, a: int, n: nat, held: set<int>, large: map<int, nat>)
    requires Accounted(s, table) && FreeOk(s.runs, s.owner) && Owns(s.owner, a, n)
    requires var all := Held(s.zones, s.zfree);
             || (held == all && a in s.large && n == s.large[a] && large == s.large - {a} && a !in all)
             || (held == all - {a} && large == s.large && a in all && n == s.zp && a !in s.large)
    ensures forall p :: table <= p < |s.owner| ==>
              PageKept(PageRuns.Free(s.runs, a, n), Filled(s.owner, a, n, NULL), s.zp, held, large, p)
  {
    hide Canon;
    OwnedInUse(s.runs, s.owner, a, n);
    FreeSpec(s.runs, a, n);
    forall p | table <= p < |s.owner|
      ensures PageKept(PageRuns.Free(s.runs, a, n), Filled(s.owner, a, n, NULL), s.zp, held, large, p)
    {
      assert PageKept(s.runs, s.owner, s.zp, Held(s.zones, s.zfree), s.large, p);
    }
  }

  lemma FreePagesAccounted(s: Heap, table: nat, x: int)
    requires Inv(s) && Accounted(s, table) && x in s.large
    ensures Accounted(FreePages(s, x, s.large[x]), table)
  {
    hide HeadersOk, ListsOk, CacheOk, Canon;
    assert BlockOk(s.usage, s.owner, x, s.large[x]);
    ReleaseBlockOk(s.zp, s.runs, s.usage, s.owner, s.large, Held(s.zones, s.zfree), x);
    GivenAccounted(s, table, x, s.large[x], Held(s.zones, s.zfree), s.large - {x});
  }

  lemma ReleaseZoneAccounted(s: Heap, table: nat)
    requires Sound(s) && Accounted(s, table) && s.zfree != []
    ensures Accounted(ReleaseZone(s), table)
  {
    hide HeadersOk, ListsOk, Canon;
    var z := s.zfree[0];
    assert z in Held(s.zones, s.zfree);
    assert ZonePagesOk(s.zp, s.usage, s.owner, z);
    BlocksMarked(s);
    assert s.zfree[1..] == Dropped(s.zfree, 0);
    MemberDropped(s.zfree, 0);
    assert Held(s.zones, s.zfree[1..]) == Held(s.zones, s.zfree) - {z};
    GivenAccounted(s, table, z, s.zp, Held(s.zones, s.zfree) - {z}, s.large);
  }

  lemma BlocksMarked(s: Heap)
    requires Sound(s)
    ensures forall b :: b in s.large ==> 0 <= b < |s.usage| && s.usage[b].Large?
  {
    forall b | b in s.large
      ensures 0 <= b < |s.usage| && s.usage[b].Large?
    {
      assert BlockOk(s.usage, s.owner, b, s.large[b]);
    }
  }

  lemma FreeChunkAccounted(s: Heap, table: nat, z: int, k: int)
    requires Inv(s) && Accounted(s, table) && z in s.zones && Live(s.zones[z], k) && 0 <= s.zones[z].zi < |s.lists|
    ensures Accounted(FreeChunk(s, z, Addr(s.zones[z], k)), table)
  {
    hide Inv, Live, Addr, Accounted, Sound, PagesOk, HeadersOk, ListsOk;
    var p := Addr(s.zones[z], k);
    var s1 := PutChunk(s, z, p);
    PutChunkInv(s, z, k);
    SameZones(s, s1, table) by { assert s1.zones.Keys == s.zones.Keys; }
    var h := s1.zones[z];
    if h.nfree == h.nmax && s1.lists[h.zi] != [z] {
      var s2 := CloseZone(s1, z);
      CloseZoneSound(s1, z);
      assert Held(s2.zones, s2.zfree) == Held(s1.zones, s1.zfree);
      SameZones(s1, s2, table);
      if |s2.zfree| > RELEASE_THRESH { ReleaseZoneAccounted(s2, table); }
    }
  }

  lemma FreeAccounted(s: Heap, table: nat, p: int, len: nat)
    requires Inv(s) && Accounted(s, table) && HasObject(s, p, len)
    ensures Finds(s, p) && Accounted(FreeObject(s, p), table)
  {
    hide Inv, Addr, Live, FreeChunk, FreePages, Accounted;
    FreeObjectOk(s, p, len);
    if z, k :| SmallAt(s, z, k, p, len) {
      ObjectSize(s, p, len);
      BtokupFindsTheZone(s, z, k, p, len, p);
      ZoneKnown(s, z);
      FreeChunkAccounted(s, table, z, k);
    } else {
      var x :| LargeAt(s, x, p, len);
      BtokupFindsTheBlock(s, x, p, len);
      FreePagesAccounted(s, table, x);
    }
  }

  /** In no run is a page lost: every page behind the page table is free, in a zone, or in a block that a caller holds. */
  lemma {:induction false} RunAccounted(n: nat, usage: seq<Usage>, ss: seq<Heap>, ops: seq<Op>, k: nat)
    requires n > 0 && |usage| == n && IsRun(ss, ops) && ss[0] == Init(n, usage) && k <= |ops|
    ensures Inv(ss[k]) && |ss[k].owner| == n && Accounted(ss[k], (n * 4 + PAGE - 1) / PAGE)
  {
    hide Inv, HasObject, Init, Accounted, Malloc, FreeObject, Finds, Shape;
    RunOk(n, usage, ss, ops, k);
    if k == 0 {
      InitAccounted(n, usage);
    } else {
      RunAccounted(n, usage, ss, ops, k - 1);
      assert StepAt(ss, ops, k - 1);
      var s, table := ss[k - 1], (n * 4 + PAGE - 1) / PAGE;
      InvShape(s);
      match ops[k - 1] {
        case OpMalloc(size, p) => MallocAccounted(s, table, size); SamePages(s, size, p);
        case OpFree(p) =>
          var l :| HasObject(s, p, l);
          FreeAccounted(s, table, p, l);
          SamePagesFreed(s, p);
      }
    }
  }

  lemma SamePages(s: Heap, size: nat, p: int)
    requires Shape(s)
    ensures |Malloc(s, size).0.owner| == |s.owner|
  {
  }

  lemma SamePagesFreed(s: Heap, p: int)
    requires Finds(s, p)
    ensures |FreeObject(s, p).owner| == |s.owner|
  {
  }

  lemma InitAccounted(n: nat, usage: seq<Usage>)
    requires n > 0 && |usage| == n
    ensures |Init(n, usage).owner| == n && Accounted(Init(n, usage), (n * 4 + PAGE - 1) / PAGE)
  {
    var s, table := Init(n, usage), (n * 4 + PAGE - 1) / PAGE;
    var all := [Run(0, n)];
    assert Canon(all);
    assert 0 < table <= n;
    AllocFails(all, table);
    forall p | 0 <= p < n
      ensures FreePage(all, p)
    {
      assert Holds(all, 0, p);
    }
    assert AllFree(all, 0, table);
    AllocSpec(all, table);
    assert FirstFit(all, table, 0) == 0;
  }
}
