/** What slab.c does above its page allocator, on values: zones of equal chunks, the per-class lists of
    zones with free chunks, the cache of free zones, and the page table that finds a chunk's zone.
    Addresses are byte offsets from `heap_start`, pages are numbered from it. */
module SlabModel {
  import opened RtDef
  import opened PageRuns
  import opened RtList
  import opened Bits

  const PAGE := 4096             // RT_MM_PAGE_SIZE
  const NZONES := 72
  const RELEASE_THRESH := 2      // ZONE_RELEASE_THRESH
  const ZONE_HEADER := 36        // sizeof(slab_zone): nine words

  // ---- size classes ----

  /** The chunk size that zoneindex rounds a request of n bytes up to. */
  function Chunk(n: nat): nat {
    if n < 128 then (n + 7) / 8 * 8
    else if n < 256 then (n + 15) / 16 * 16
    else if n < 512 then (n + 31) / 32 * 32
    else if n < 1024 then (n + 63) / 64 * 64
    else if n < 2048 then (n + 127) / 128 * 128
    else if n < 4096 then (n + 255) / 256 * 256
    else if n < 8192 then (n + 511) / 512 * 512
    else (n + 1023) / 1024 * 1024
  }

  /** The class that zoneindex returns for a request of n bytes. */
  function ZoneIndex(n: nat): int {
    if n < 128 then Chunk(n) / 8 - 1
    else if n < 256 then Chunk(n) / 16 + 7
    else if n < 512 then Chunk(n) / 32 + 15
    else if n < 1024 then Chunk(n) / 64 + 23
    else if n < 2048 then Chunk(n) / 128 + 31
    else if n < 4096 then Chunk(n) / 256 + 39
    else if n < 8192 then Chunk(n) / 512 + 47
    else Chunk(n) / 1024 + 55
  }

  /** The chunk size of class i, whatever request it was computed from. */
  function ClassSize(i: int): int {
    if i < 16 then (i + 1) * 8
    else if i < 24 then (i - 7) * 16
    else if i < 32 then (i - 15) * 32
    else if i < 40 then (i - 23) * 64
    else if i < 48 then (i - 31) * 128
    else if i < 56 then (i - 39) * 256
    else if i < 64 then (i - 47) * 512
    else (i - 55) * 1024
  }

  lemma {:induction false} ClassSizesRise(i: int, j: int)
    requires i < j
    ensures ClassSize(i) < ClassSize(j)
    decreases j - i
  {
    assert ClassSize(j - 1) < ClassSize(j);
    if i < j - 1 { ClassSizesRise(i, j - 1); }
  }

  /** One line of the table: requests in (low, high] are rounded up to multiples of g. */
  predicate Fits(n: nat, zi: int, chunk: int) {
    0 <= zi < NZONES && ClassSize(zi) == chunk && ClassSize(zi - 1) < n <= chunk
  }

  lemma ZoneIndexTo512(n: nat)
    requires 0 < n < 512
    ensures Fits(n, ZoneIndex(n), Chunk(n))
  {
    if n < 128 { assert ZoneIndex(n) == (n + 7) / 8 - 1; }
    else if n < 256 { assert ZoneIndex(n) == (n + 15) / 16 + 7; }
    else { assert ZoneIndex(n) == (n + 31) / 32 + 15; }
  }

  lemma ZoneIndexTo2048(n: nat)
    requires 512 <= n < 2048
    ensures Fits(n, ZoneIndex(n), Chunk(n))
  {
    if n < 1024 { assert ZoneIndex(n) == (n + 63) / 64 + 23; }
    else { assert ZoneIndex(n) == (n + 127) / 128 + 31; }
  }

  lemma ZoneIndexTo16384(n: nat)
    requires 2048 <= n < 16384
    ensures Fits(n, ZoneIndex(n), Chunk(n))
  {
    if n < 4096 { assert ZoneIndex(n) == (n + 255) / 256 + 39; }
    else if n < 8192 { assert ZoneIndex(n) == (n + 511) / 512 + 47; }
    else { assert ZoneIndex(n) == (n + 1023) / 1024 + 55; }
  }

  /** zoneindex picks the smallest class whose chunks hold the request. */
  lemma ZoneIndexIsBest(n: nat)
    requires 0 < n < 16384
    ensures 0 <= ZoneIndex(n) < NZONES && ClassSize(ZoneIndex(n)) == Chunk(n) && n <= Chunk(n)
    ensures forall j :: 0 <= j < ZoneIndex(n) ==> ClassSize(j) < n
  {
    hide ClassSize, ZoneIndex, Chunk;
    if n < 512 { ZoneIndexTo512(n); } else if n < 2048 { ZoneIndexTo2048(n); } else { ZoneIndexTo16384(n); }
    var zi := ZoneIndex(n);
    forall j | 0 <= j < zi
      ensures ClassSize(j) < n
    {
      if j < zi - 1 { ClassSizesRise(j, zi - 1); }
    }
  }

  // ---- state ----

  /** struct memusage: what a page is used for */
  datatype Usage = Free | Small(off: nat) | Large(pages: nat)

  /** The header of a zone; `free` is the list of returned chunks, latest first. */
  datatype Zone = Zone(zi: int, chunk: nat, base: int, nmax: int, nfree: int, uindex: int, free: seq<int>)

  /** zp is zone_page_cnt.  zones has the zones with a valid magic, by page; lists[i] and zfree are the
      lists zone_array[i] and zone_free.  owner and large are bookkeeping of the model only: the start of
      the zone or the block that has a page, and the pages of each live block. */
  datatype Heap = Heap(zp: nat, runs: seq<Run>, usage: seq<Usage>, zones: map<int, Zone>,
                       lists: seq<seq<int>>, zfree: seq<int>, owner: seq<int>, large: map<int, nat>)

  function Limit(zp: nat): nat {
    if zp * PAGE / 4 > 16384 then 16384 else zp * PAGE / 4
  }

  /** The address of chunk i. */
  function Addr(z: Zone, i: int): int {
    z.base + i * z.chunk
  }

  // ---- operations ----

  /** s with v at the n positions from a on. */
  function Filled<T>(s: seq<T>, a: int, n: nat, v: T): (r: seq<T>)
    ensures |r| == |s|
  {
    seq(|s|, p requires 0 <= p < |s| => if a <= p < a + n then v else s[p])
  }

  /** The page table with its n entries from z on counted through. */
  function Marked(usage: seq<Usage>, z: int, n: nat): (r: seq<Usage>)
    ensures |r| == |usage|
  {
    seq(|usage|, p requires 0 <= p < |usage| => if z <= p < z + n then Small(p - z) else usage[p])
  }

  /** Where the chunks start in a zone: aligned to their size if that is a power of two, or to 8. */
  function Offset(chunk: nat): nat
    requires chunk > 0
  {
    if Or(chunk, chunk - 1) + 1 == 2 * chunk then AndNot(ZONE_HEADER + chunk - 1, chunk - 1)
    else AndNot(ZONE_HEADER + 7, 7)
  }

  function PagesFor(size: nat): nat {
    (size + PAGE - 1) % WORD / PAGE
  }

  function MallocPages(s: Heap, size: nat): (Heap, int) {
    var n := PagesFor(size);
    var (runs, b) := PageRuns.Alloc(s.runs, n);
    if b == NULL then (s, NULL)
    else (s.(runs := runs, usage := Filled(s.usage, b, 1, Large(n)), owner := Filled(s.owner, b, n, b),
             large := s.large[b := n]), b * PAGE)
  }

  /** A header after one of its chunks is given out, and that chunk. */
  function TakeChunk(z: Zone): (Zone, int) {
    if z.uindex + 1 != z.nmax then
      (z.(nfree := z.nfree - 1, uindex := z.uindex + 1), Addr(z, z.uindex + 1))
    else if z.free == [] then (z, NULL)
    else (z.(nfree := z.nfree - 1, free := z.free[1..]), z.free[0])
  }

  function FromZone(s: Heap, zi: int): (Heap, int)
    requires 0 <= zi < |s.lists| && s.lists[zi] != [] && s.lists[zi][0] in s.zones
  {
    var z := s.lists[zi][0];
    var (h, chunk) := TakeChunk(s.zones[z]);
    (s.(zones := s.zones[z := h],
        lists := if h.nfree == 0 then s.lists[zi := s.lists[zi][1..]] else s.lists), chunk)
  }

  function NewHeader(zp: nat, z: int, zi: int, chunk: nat): Zone
    requires chunk > 0
  {
    var nmax := (zp * PAGE - Offset(chunk)) / chunk;
    Zone(zi, chunk, z * PAGE + Offset(chunk), nmax, nmax - 1, 0, [])
  }

  /** Make zone z one of class zi and give out its first chunk. */
  function OpenZone(s: Heap, z: int, zi: int, chunk: nat): (Heap, int)
    requires 0 <= zi < |s.lists| && chunk > 0
  {
    var h := NewHeader(s.zp, z, zi, chunk);
    (s.(zones := s.zones[z := h], lists := s.lists[zi := [z] + s.lists[zi]]), Addr(h, 0))
  }

  function ClaimZone(s: Heap, runs: seq<Run>, z: int): Heap {
    s.(runs := runs, usage := Marked(s.usage, z, s.zp), owner := Filled(s.owner, z, s.zp, z))
  }

  function FromNewZone(s: Heap, zi: int, chunk: nat): (Heap, int)
    requires 0 <= zi < |s.lists| && chunk > 0
  {
    if s.zfree != [] then OpenZone(s.(zfree := s.zfree[1..]), s.zfree[0], zi, chunk)
    else
      var (runs, z) := PageRuns.Alloc(s.runs, s.zp);
      if z == NULL then (s, NULL) else OpenZone(ClaimZone(s, runs, z), z, zi, chunk)
  }

  /** The lists hold zones only, and there is one for each class. */
  ghost predicate Shape(s: Heap) {
    && |s.lists| == NZONES
    && forall i :: 0 <= i < NZONES ==> forall z :: z in s.lists[i] ==> z in s.zones
  }

  lemma ClassOf(zp: nat, size: nat)
    requires 0 < size < Limit(zp)
    ensures 0 <= ZoneIndex(size) < NZONES && Chunk(size) > 0
  {
    ZoneIndexIsBest(size);
  }

  /** rt_malloc */
  function Malloc(s: Heap, size: nat): (Heap, int)
    requires Shape(s)
  {
    if size == 0 then (s, NULL)
    else if size >= Limit(s.zp) then MallocPages(s, size)
    else
      ClassOf(s.zp, size);
      var zi := ZoneIndex(size);
      if s.lists[zi] != [] then
        var z := s.lists[zi][0];
        assert z in s.lists[zi];
        FromZone(s, zi)
      else FromNewZone(s, zi, Chunk(size))
  }

  function FreePages(s: Heap, a: int, n: nat): Heap {
    s.(runs := PageRuns.Free(s.runs, a, n), usage := Filled(s.usage, a, 1, Large(0)),
       owner := Filled(s.owner, a, n, NULL), large := s.large - {a})
  }

  /** Return a chunk to its zone, which joins the list of its class if it was full. */
  function PutChunk(s: Heap, z: int, p: int): Heap
    requires z in s.zones && 0 <= s.zones[z].zi < |s.lists|
  {
    var h := s.zones[z];
    s.(zones := s.zones[z := h.(free := [p] + h.free, nfree := h.nfree + 1)],
       lists := if h.nfree == 0 then s.lists[h.zi := [z] + s.lists[h.zi]] else s.lists)
  }

  /** Move an unused zone from the list of its class to the cache. */
  function CloseZone(s: Heap, z: int): Heap
    requires z in s.zones && 0 <= s.zones[z].zi < |s.lists|
  {
    var zi := s.zones[z].zi;
    s.(zones := s.zones - {z}, lists := s.lists[zi := Without(s.lists[zi], z)], zfree := [z] + s.zfree)
  }

  /** Give the first zone of the cache back to the page allocator. */
  function ReleaseZone(s: Heap): Heap
    requires s.zfree != []
  {
    var z := s.zfree[0];
    s.(zfree := s.zfree[1..], usage := Filled(s.usage, z, s.zp, Usage.Free),
       runs := PageRuns.Free(s.runs, z, s.zp), owner := Filled(s.owner, z, s.zp, NULL))
  }

  /** The page table entry of an address. */
  function Btokup(s: Heap, p: int): Usage {
    if 0 <= p / PAGE < |s.usage| then s.usage[p / PAGE] else Usage.Free
  }

  /** The zone that the page table names for an address. */
  function ZoneOf(s: Heap, p: int): int {
    p / PAGE - (match Btokup(s, p) case Small(off) => off case Large(n) => n case Free => 0)
  }

  function FreeChunk(s: Heap, z: int, p: int): Heap
    requires z in s.zones && 0 <= s.zones[z].zi < |s.lists|
  {
    var s1 := PutChunk(s, z, p);
    var h := s1.zones[z];
    if h.nfree == h.nmax && s1.lists[h.zi] != [z] then
      var s2 := CloseZone(s1, z);
      if |s2.zfree| > RELEASE_THRESH then ReleaseZone(s2) else s2
    else s1
  }

  /** rt_free */
  function FreeObject(s: Heap, p: int): Heap
    requires Btokup(s, p).Large? || (ZoneOf(s, p) in s.zones && 0 <= s.zones[ZoneOf(s, p)].zi < |s.lists|)
  {
    if Btokup(s, p).Large? then FreePages(s, p / PAGE, Btokup(s, p).pages) else FreeChunk(s, ZoneOf(s, p), p)
  }

  // ---- the invariant: pages ----

  /** The n pages from a on are in the heap and belong to whatever starts at a. */
  ghost predicate Owns(owner: seq<int>, a: int, n: nat) {
    && 0 <= a && 0 < n && a + n <= |owner|
    && forall p :: a <= p < a + n ==> owner[p] == a
  }

  /** The page table counts the n pages from z on. */
  ghost predicate Counted(usage: seq<Usage>, z: int, n: nat) {
    forall p :: 0 <= p < |usage| && z <= p < z + n ==> usage[p] == Small(p - z)
  }

  ghost predicate BlockOk(usage: seq<Usage>, owner: seq<int>, a: int, n: nat) {
    Owns(owner, a, n) && |owner| == |usage| && usage[a] == Large(n)
  }

  ghost predicate ZonePagesOk(zp: nat, usage: seq<Usage>, owner: seq<int>, z: int) {
    Owns(owner, z, zp) && |owner| == |usage| && Counted(usage, z, zp)
  }

  ghost predicate FreeOk(runs: seq<Run>, owner: seq<int>) {
    Canon(runs) && forall p :: FreePage(runs, p) ==> 0 <= p < |owner| && owner[p] == NULL
  }

  /** Free pages belong to nobody; zones (in use or cached) and blocks have their pages to themselves. */
  ghost predicate PagesOk(zp: nat, runs: seq<Run>, usage: seq<Usage>, owner: seq<int>, large: map<int, nat>, held: set<int>) {
    && FreeOk(runs, owner) && |owner| == |usage| && zp > 0
    && (forall z :: z in held ==> ZonePagesOk(zp, usage, owner, z))
    && forall a :: a in large ==> BlockOk(usage, owner, a, large[a])
  }

  lemma OwnedInUse(runs: seq<Run>, owner: seq<int>, a: int, n: nat)
    requires FreeOk(runs, owner) && Owns(owner, a, n)
    ensures InUse(runs, a, n)
  {
  }

  /** Pages that change hands from or to nobody leave every other owner alone. */
  lemma OwnsFrame(owner: seq<int>, a: int, n: nat, v: int, b: int, m: nat)
    requires Owns(owner, b, m) && a != b && 0 <= a && a + n <= |owner|
    requires forall p :: 0 <= p < |owner| && a <= p < a + n ==> owner[p] == NULL || owner[p] == a
    ensures Owns(Filled(owner, a, n, v), b, m)
    ensures n == 0 || b + m <= a || a + n <= b
  {
    var q := if a < b then b else a;
    if a - m < b < a + n && n > 0 {
      assert owner[q] == b;
    }
  }

  lemma AllocFree(runs: seq<Run>, owner: seq<int>, n: nat)
    requires FreeOk(runs, owner) && Alloc(runs, n).1 != NULL
    ensures var (r, a) := Alloc(runs, n);
            && 0 <= a && 0 < n && a + n <= |owner|
            && (forall p :: a <= p < a + n ==> owner[p] == NULL)
            && FreeOk(r, Filled(owner, a, n, a)) && Owns(Filled(owner, a, n, a), a, n)
  {
    AllocSpec(runs, n);
    var (r, a) := Alloc(runs, n);
    assert FreePage(runs, a) && FreePage(runs, a + n - 1);
    forall p | a <= p < a + n
      ensures owner[p] == NULL
    {
      assert FreePage(runs, p);
    }
  }

  lemma FreeOwned(runs: seq<Run>, owner: seq<int>, a: int, n: nat)
    requires FreeOk(runs, owner) && Owns(owner, a, n)
    ensures FreeOk(PageRuns.Free(runs, a, n), Filled(owner, a, n, NULL))
  {
    OwnedInUse(runs, owner, a, n);
    FreeSpec(runs, a, n);
  }

  lemma ClaimZoneOk(zp: nat, runs: seq<Run>, usage: seq<Usage>, owner: seq<int>, large: map<int, nat>, held: set<int>)
    requires PagesOk(zp, runs, usage, owner, large, held) && Alloc(runs, zp).1 != NULL
    ensures var (r, z) := Alloc(runs, zp);
            && z !in held
            && PagesOk(zp, r, Marked(usage, z, zp), Filled(owner, z, zp, z), large, held + {z})
  {
    hide Canon, InUse;
    AllocFree(runs, owner, zp);
    var (r, z) := Alloc(runs, zp);
    var u, o := Marked(usage, z, zp), Filled(owner, z, zp, z);
    forall y | y in held
      ensures y != z && ZonePagesOk(zp, u, o, y)
    {
      assert owner[y] == y;
      OwnsFrame(owner, z, zp, z, y, zp);
    }
    forall a | a in large
      ensures BlockOk(u, o, a, large[a])
    {
      assert owner[a] == a;
      OwnsFrame(owner, z, zp, z, a, large[a]);
    }
  }

  lemma ClaimBlockOk(zp: nat, runs: seq<Run>, usage: seq<Usage>, owner: seq<int>, large: map<int, nat>, held: set<int>, n: nat)
    requires PagesOk(zp, runs, usage, owner, large, held) && Alloc(runs, n).1 != NULL
    ensures var (r, b) := Alloc(runs, n);
            && b !in large && b !in held
            && PagesOk(zp, r, Filled(usage, b, 1, Large(n)), Filled(owner, b, n, b), large[b := n], held)
  {
    hide Canon, InUse;
    AllocFree(runs, owner, n);
    var (r, b) := Alloc(runs, n);
    var u, o := Filled(usage, b, 1, Large(n)), Filled(owner, b, n, b);
    forall y | y in held
      ensures y != b && ZonePagesOk(zp, u, o, y)
    {
      assert owner[y] == y;
      OwnsFrame(owner, b, n, b, y, zp);
    }
    forall a | a in large
      ensures a != b && BlockOk(u, o, a, large[a])
    {
      assert owner[a] == a;
      OwnsFrame(owner, b, n, b, a, large[a]);
    }
  }

  lemma ReleaseBlockOk(zp: nat, runs: seq<Run>, usage: seq<Usage>, owner: seq<int>, large: map<int, nat>, held: set<int>, b: int)
    requires PagesOk(zp, runs, usage, owner, large, held) && b in large
    ensures b !in held
    ensures var n := large[b];
            PagesOk(zp, PageRuns.Free(runs, b, n), Filled(usage, b, 1, Large(0)), Filled(owner, b, n, NULL), large - {b}, held)
  {
    hide Canon, InUse;
    var n := large[b];
    FreeOwned(runs, owner, b, n);
    var u, o := Filled(usage, b, 1, Large(0)), Filled(owner, b, n, NULL);
    forall y | y in held
      ensures y != b && ZonePagesOk(zp, u, o, y)
    {
      assert usage[y] == Small(0);
      OwnsFrame(owner, b, n, NULL, y, zp);
    }
    forall a | a in large - {b}
      ensures BlockOk(u, o, a, large[a])
    {
      OwnsFrame(owner, b, n, NULL, a, large[a]);
    }
  }

  lemma ReleaseZoneOk(zp: nat, runs: seq<Run>, usage: seq<Usage>, owner: seq<int>, large: map<int, nat>, held: set<int>, z: int)
    requires PagesOk(zp, runs, usage, owner, large, held) && z in held
    ensures PagesOk(zp, PageRuns.Free(runs, z, zp), Filled(usage, z, zp, Usage.Free), Filled(owner, z, zp, NULL), large, held - {z})
  {
    hide Canon, InUse;
    FreeOwned(runs, owner, z, zp);
    var u, o := Filled(usage, z, zp, Usage.Free), Filled(owner, z, zp, NULL);
    forall y | y in held - {z}
      ensures ZonePagesOk(zp, u, o, y)
    {
      OwnsFrame(owner, z, zp, NULL, y, zp);
    }
    forall a | a in large
      ensures BlockOk(u, o, a, large[a])
    {
      assert usage[z] == Small(0);
      OwnsFrame(owner, z, zp, NULL, a, large[a]);
    }
  }

  // ---- the invariant: zones ----

  /** Chunk i has been given out and not been returned. */
  predicate Live(h: Zone, i: int) {
    0 <= i <= h.uindex && Addr(h, i) !in h.free
  }

  ghost predicate IsChunk(h: Zone, a: int) {
    exists i :: 0 <= i <= h.uindex && a == Addr(h, i)
  }

  /** The chunks lie behind the header and inside the zone. */
  predicate RoomOk(zp: nat, z: int, h: Zone) {
    h.chunk > 0 && z * PAGE + ZONE_HEADER <= h.base && h.base + h.nmax * h.chunk <= (z + zp) * PAGE
  }

  ghost predicate HeaderOk(zp: nat, z: int, h: Zone) {
    && 0 <= h.zi < NZONES && h.chunk == ClassSize(h.zi) && h.nmax >= 2
    && RoomOk(zp, z, h) && h.base == z * PAGE + Offset(h.chunk)
    && 0 <= h.uindex < h.nmax
    && h.nfree == h.nmax - 1 - h.uindex + |h.free|
    && NoDup(h.free)
    && forall a :: a in h.free ==> IsChunk(h, a)
  }

  /** zone_array[i] has each zone of class i with a free chunk once, and nothing else. */
  ghost predicate ListOk(zones: map<int, Zone>, list: seq<int>, i: int) {
    && NoDup(list)
    && forall z :: z in list <==> z in zones && zones[z].zi == i && zones[z].nfree > 0
  }

  ghost predicate ListsOk(zones: map<int, Zone>, lists: seq<seq<int>>) {
    && |lists| == NZONES
    && forall i :: 0 <= i < NZONES ==> ListOk(zones, lists[i], i)
  }

  ghost predicate CacheOk(zones: map<int, Zone>, zfree: seq<int>) {
    NoDup(zfree) && forall z :: z in zfree ==> z !in zones
  }

  ghost predicate HeadersOk(zp: nat, zones: map<int, Zone>) {
    forall z :: z in zones ==> HeaderOk(zp, z, zones[z])
  }

  ghost function Held(zones: map<int, Zone>, zfree: seq<int>): set<int> {
    zones.Keys + set z | z in zfree
  }

  /** The invariant but for the size of the cache. */
  ghost predicate Sound(s: Heap) {
    && (s.zp == 8 || s.zp == 16 || s.zp == 32)
    && PagesOk(s.zp, s.runs, s.usage, s.owner, s.large, Held(s.zones, s.zfree))
    && HeadersOk(s.zp, s.zones)
    && ListsOk(s.zones, s.lists)
    && CacheOk(s.zones, s.zfree)
  }

  ghost predicate Inv(s: Heap) {
    Sound(s) && |s.zfree| <= RELEASE_THRESH
  }

  lemma InvShape(s: Heap)
    requires Inv(s)
    ensures Shape(s)
    ensures forall z :: z in s.zones ==> 0 <= s.zones[z].zi < NZONES
  {
    forall i | 0 <= i < NZONES
      ensures forall z :: z in s.lists[i] ==> z in s.zones
    {
      assert ListOk(s.zones, s.lists[i], i);
    }
  }

  // ---- chunks of one zone ----

  lemma AddrStep(h: Zone, i: int, j: int)
    requires h.chunk > 0 && i < j
    ensures Addr(h, i) + h.chunk <= Addr(h, j)
  {
    StepUp(i, j, h.chunk);
  }

  lemma StepUp(i: int, j: int, c: int)
    requires c > 0 && i < j
    ensures i * c + c <= j * c
  {
    Multiple(j - i, c);
    assert (j - i) * c == j * c - i * c;
  }

  lemma AddrIs(h: Zone, i: int, j: int)
    requires h.chunk > 0 && Addr(h, i) == Addr(h, j)
    ensures i == j
  {
    if i < j { AddrStep(h, i, j); }
    if j < i { AddrStep(h, j, i); }
  }

  lemma AddrRoom(zp: nat, z: int, h: Zone, i: int)
    requires RoomOk(zp, z, h) && 0 <= i < h.nmax
    ensures z * PAGE + ZONE_HEADER <= Addr(h, i) && Addr(h, i) + h.chunk <= (z + zp) * PAGE
  {
    if i > 0 { AddrStep(h, 0, i); }
    assert Addr(h, h.nmax) == h.base + h.nmax * h.chunk;
    AddrStep(h, i, h.nmax);
  }

  lemma TakeChunkOk(zp: nat, z: int, h: Zone) returns (k: int)
    requires HeaderOk(zp, z, h) && h.nfree > 0
    ensures var (h', c) := TakeChunk(h);
            && HeaderOk(zp, z, h') && h'.nfree == h.nfree - 1 && h'.zi == h.zi && h'.base == h.base && h'.chunk == h.chunk
            && c == Addr(h, k) && !Live(h, k)
            && forall i :: Live(h', i) <==> Live(h, i) || i == k
  {
    hide Offset, ClassSize;
    var (h', c) := TakeChunk(h);
    if h.uindex + 1 != h.nmax {
      k := h.uindex + 1;
      forall a | a in h.free
        ensures IsChunk(h', a) && a != c
      {
        assert IsChunk(h, a);
        var i :| 0 <= i <= h.uindex && a == Addr(h, i);
        assert a == Addr(h', i);
        AddrStep(h, i, k);
      }
      assert forall i :: Addr(h', i) == Addr(h, i);
      assert Addr(h', k) !in h'.free;
    } else {
      assert c in h.free && IsChunk(h, c);
      k :| 0 <= k <= h.uindex && c == Addr(h, k);
      assert h.free[1..] == Dropped(h.free, 0);
      MemberDropped(h.free, 0);
      forall a | a in h'.free
        ensures IsChunk(h', a)
      {
        assert IsChunk(h, a);
        var i :| 0 <= i <= h.uindex && a == Addr(h, i);
        assert a == Addr(h', i);
      }
      forall i
        ensures Live(h', i) <==> Live(h, i) || i == k
      {
        assert Addr(h', i) == Addr(h, i);
        if Addr(h, i) == c { AddrIs(h, i, k); }
      }
    }
  }

  function Returned(h: Zone, p: int): Zone {
    h.(free := [p] + h.free, nfree := h.nfree + 1)
  }

  lemma PutChunkOk(zp: nat, z: int, h: Zone, k: int)
    requires HeaderOk(zp, z, h) && Live(h, k)
    ensures var h' := Returned(h, Addr(h, k));
            HeaderOk(zp, z, h') && forall i :: Live(h', i) <==> Live(h, i) && i != k
  {
    hide Offset, ClassSize;
    var p := Addr(h, k);
    var h' := Returned(h, p);
    NoDupPushed(h.free, p);
    forall a | a in h'.free
      ensures IsChunk(h', a)
    {
      if a == p {
        assert a == Addr(h', k);
      } else {
        assert IsChunk(h, a);
        var i :| 0 <= i <= h.uindex && a == Addr(h, i);
        assert a == Addr(h', i);
      }
    }
    forall i
      ensures Live(h', i) <==> Live(h, i) && i != k
    {
      assert Addr(h', i) == Addr(h, i);
      if Addr(h, i) == p { AddrIs(h, i, k); }
    }
  }

  ghost function Addrs(h: Zone, n: nat): set<int> {
    if n == 0 then {} else Addrs(h, n - 1) + {Addr(h, n - 1)}
  }

  lemma {:induction false} AddrsCount(h: Zone, n: nat)
    requires h.chunk > 0
    ensures |Addrs(h, n)| == n
    ensures forall i :: 0 <= i < n ==> Addr(h, i) in Addrs(h, n)
    ensures forall a :: a in Addrs(h, n) ==> exists i :: 0 <= i < n && a == Addr(h, i)
  {
    if n > 0 {
      AddrsCount(h, n - 1);
      if Addr(h, n - 1) in Addrs(h, n - 1) {
        var i :| 0 <= i < n - 1 && Addr(h, n - 1) == Addr(h, i);
        AddrIs(h, i, n - 1);
      }
    }
  }

  lemma {:induction false} NoDupCount(s: seq<int>)
    requires NoDup(s)
    ensures |set x | x in s| == |s|
  {
    if s != [] {
      assert s[1..] == Dropped(s, 0);
      MemberDropped(s, 0);
      NoDupCount(s[1..]);
      assert (set x | x in s) == (set x | x in s[1..]) + {s[0]};
    }
  }

  lemma SubsetSame(a: set<int>, b: set<int>)
    requires a <= b && |a| == |b|
    ensures a == b
  {
    var d := b - a;
    assert b == a + d;
    assert |d| == 0;
  }

  /** A zone whose chunks are all counted free has no live chunk. */
  lemma UnusedZone(zp: nat, z: int, h: Zone, i: int)
    requires HeaderOk(zp, z, h) && h.nfree == h.nmax
    ensures !Live(h, i)
  {
    if 0 <= i <= h.uindex {
      var f := set x | x in h.free;
      NoDupCount(h.free);
      AddrsCount(h, h.uindex + 1);
      forall a | a in f
        ensures a in Addrs(h, h.uindex + 1)
      {
        assert IsChunk(h, a);
        var j :| 0 <= j <= h.uindex && a == Addr(h, j);
      }
      SubsetSame(f, Addrs(h, h.uindex + 1));
      assert Addr(h, i) in f;
    }
  }

  // ---- a fresh zone ----

  lemma OffsetIs(chunk: nat)
    requires chunk > 0
    ensures ZONE_HEADER <= Offset(chunk) <= ZONE_HEADER + chunk + 7
    ensures Pow2(chunk) ==> Offset(chunk) % chunk == 0
  {
    hide Or, AndNot, Pow2;
    Pow2Test(chunk);
    if Pow2(chunk) {
      MaskRoundsDown(ZONE_HEADER + chunk - 1, chunk);
      RoundDown(ZONE_HEADER + chunk - 1, chunk);
    } else {
      EightIsPow2();
      MaskRoundsDown(ZONE_HEADER + 7, 8);
    }
  }

  lemma EightIsPow2()
    ensures Pow2(8)
  {
    assert Pow2(1) && Pow2(2) && Pow2(4);
  }

  lemma NewHeaderOk(zp: nat, z: int, zi: int, chunk: nat)
    requires 0 <= zi < NZONES && chunk == ClassSize(zi) && zp >= 8 && 4 * chunk <= zp * PAGE
    ensures HeaderOk(zp, z, NewHeader(zp, z, zi, chunk))
    ensures forall i :: Live(NewHeader(zp, z, zi, chunk), i) <==> i == 0
  {
    assert chunk >= 8 by { if zi > 0 { ClassSizesRise(0, zi); } }
    hide Offset, ClassSize;
    OffsetIs(chunk);
    var h := NewHeader(zp, z, zi, chunk);
    Capacity(zp * PAGE - Offset(chunk), chunk);
    assert h.nmax * h.chunk <= zp * PAGE - Offset(chunk);
  }

  lemma Capacity(room: int, c: nat)
    requires c > 0 && room >= 2 * c
    ensures room / c >= 2 && room / c * c <= room
  {
    RoundDown(room, c);
    if room / c < 2 { StepUp(room / c, 2, c); }
  }

  // ---- the lists ----

  /** Only zone z and the list of its class change. */
  lemma ListsUpdated(zones: map<int, Zone>, zones': map<int, Zone>, lists: seq<seq<int>>, z: int, zi: int, list: seq<int>)
    requires ListsOk(zones, lists) && 0 <= zi < NZONES && ListOk(zones', list, zi)
    requires forall y :: y != z ==> (y in zones <==> y in zones') && (y in zones ==> zones[y] == zones'[y])
    requires z in zones ==> zones[z].zi == zi
    requires z in zones' ==> zones'[z].zi == zi
    ensures ListsOk(zones', lists[zi := list])
  {
    var lists' := lists[zi := list];
    forall i | 0 <= i < NZONES
      ensures ListOk(zones', lists'[i], i)
    {
      assert ListOk(zones, lists[i], i);
    }
  }

  lemma ListPushed(zones: map<int, Zone>, list: seq<int>, z: int, h: Zone)
    requires ListOk(zones, list, h.zi) && h.nfree > 0 && z !in list
    ensures ListOk(zones[z := h], [z] + list, h.zi)
  {
    NoDupPushed(list, z);
  }

  lemma ListPopped(zones: map<int, Zone>, list: seq<int>, h: Zone)
    requires list != [] && ListOk(zones, list, h.zi) && h.nfree == 0
    ensures ListOk(zones[list[0] := h], list[1..], h.zi)
  {
    assert list[1..] == Dropped(list, 0);
    MemberDropped(list, 0);
  }

  lemma ListKept(zones: map<int, Zone>, list: seq<int>, z: int, h: Zone)
    requires z in list && ListOk(zones, list, h.zi) && h.nfree > 0
    ensures ListOk(zones[z := h], list, h.zi)
  {
  }

  lemma ListClosed(zones: map<int, Zone>, list: seq<int>, z: int, zi: int)
    requires ListOk(zones, list, zi)
    ensures ListOk(zones - {z}, Without(list, z), zi)
  {
    WithoutSpec(list, z);
  }

  // ---- objects ----

  ghost predicate SmallAt(s: Heap, z: int, i: int, a: int, len: nat) {
    z in s.zones && Live(s.zones[z], i) && a == Addr(s.zones[z], i) && len == s.zones[z].chunk
  }

  ghost predicate LargeAt(s: Heap, b: int, a: int, len: nat) {
    b in s.large && a == b * PAGE && len == s.large[b] * PAGE
  }

  /** A caller holds the len bytes from a on. */
  ghost predicate HasObject(s: Heap, a: int, len: nat) {
    (exists z, i :: SmallAt(s, z, i, a, len)) || exists b :: LargeAt(s, b, a, len)
  }

  lemma SmallFound(s: Heap, z: int, i: int, a: int, len: nat)
    requires Inv(s) && SmallAt(s, z, i, a, len)
    ensures Owns(s.owner, z, s.zp) && Counted(s.usage, z, s.zp) && |s.owner| == |s.usage|
    ensures z * PAGE + ZONE_HEADER <= a && a + len <= (z + s.zp) * PAGE && len > 0
  {
    hide Offset, ClassSize;
    assert HeaderOk(s.zp, z, s.zones[z]);
    AddrRoom(s.zp, z, s.zones[z], i);
    assert z in Held(s.zones, s.zfree);
    assert ZonePagesOk(s.zp, s.usage, s.owner, z);
  }

  lemma LargeFound(s: Heap, b: int, a: int, len: nat)
    requires Inv(s) && LargeAt(s, b, a, len)
    ensures Owns(s.owner, b, s.large[b]) && |s.owner| == |s.usage| && s.usage[b] == Large(s.large[b])
  {
    assert BlockOk(s.usage, s.owner, b, s.large[b]);
  }

  /** btokup recovers the zone of a chunk from the address of any of its bytes. */
  lemma BtokupFindsTheZone(s: Heap, z: int, i: int, a: int, len: nat, q: int)
    requires Inv(s) && SmallAt(s, z, i, a, len) && a <= q < a + len
    ensures Btokup(s, q).Small? && ZoneOf(s, q) == z
  {
    hide Inv, SmallAt;
    SmallFound(s, z, i, a, len);
    var p := q / PAGE;
    assert z <= p < z + s.zp;
    assert s.usage[p] == Small(p - z);
  }

  /** It tells a block of pages from a chunk, and knows how many pages to release. */
  lemma BtokupFindsTheBlock(s: Heap, b: int, a: int, len: nat)
    requires Inv(s) && LargeAt(s, b, a, len)
    ensures Btokup(s, a) == Large(s.large[b]) && a / PAGE == b
  {
    LargeFound(s, b, a, len);
  }

  lemma OwnersApart(owner: seq<int>, a: int, n: nat, b: int, m: nat)
    requires Owns(owner, a, n) && Owns(owner, b, m) && a != b
    ensures a + n <= b || b + m <= a
  {
    OwnsFrame(owner, a, n, NULL, b, m);
  }

  lemma OwnersExtents(owner: seq<int>, x: int, n: nat, y: int, m: nat, a: int, k: nat, b: int, l: nat)
    requires Owns(owner, x, n) && Owns(owner, y, m) && x != y
    requires x * PAGE <= a && a + k <= (x + n) * PAGE && y * PAGE <= b && b + l <= (y + m) * PAGE
    ensures a + k <= b || b + l <= a
  {
    OwnersApart(owner, x, n, y, m);
  }

  lemma SmallApart(s: Heap, z: int, i: int, a: int, k: nat, y: int, j: int, b: int, l: nat)
    requires Inv(s) && SmallAt(s, z, i, a, k) && SmallAt(s, y, j, b, l) && (z != y || i != j)
    ensures a + k <= b || b + l <= a
  {
    hide Inv;
    SmallFound(s, z, i, a, k);
    SmallFound(s, y, j, b, l);
    if z != y {
      OwnersExtents(s.owner, z, s.zp, y, s.zp, a, k, b, l);
    } else if i < j {
      AddrStep(s.zones[z], i, j);
    } else {
      AddrStep(s.zones[z], j, i);
    }
  }

  lemma SmallLargeApart(s: Heap, z: int, i: int, a: int, k: nat, y: int, b: int, l: nat)
    requires Inv(s) && SmallAt(s, z, i, a, k) && LargeAt(s, y, b, l)
    ensures a + k <= b || b + l <= a
  {
    hide Inv;
    SmallFound(s, z, i, a, k);
    LargeFound(s, y, b, l);
    assert s.usage[z] == Small(0);
    OwnersExtents(s.owner, z, s.zp, y, s.large[y], a, k, b, l);
  }

  lemma LargeApart(s: Heap, x: int, a: int, k: nat, y: int, b: int, l: nat)
    requires Inv(s) && LargeAt(s, x, a, k) && LargeAt(s, y, b, l) && x != y
    ensures a + k <= b || b + l <= a
  {
    hide Inv;
    LargeFound(s, x, a, k);
    LargeFound(s, y, b, l);
    OwnersExtents(s.owner, x, s.large[x], y, s.large[y], a, k, b, l);
  }

  lemma ObjectSize(s: Heap, a: int, k: nat)
    requires Inv(s) && HasObject(s, a, k)
    ensures k > 0 && a >= 0
  {
    hide Inv;
    if z, i :| SmallAt(s, z, i, a, k) {
      SmallFound(s, z, i, a, k);
    } else {
      var b :| LargeAt(s, b, a, k);
      LargeFound(s, b, a, k);
    }
  }

  /** No byte is handed out twice: what two callers hold does not overlap, and what is held at an address
      has one size. */
  lemma ObjectsApart(s: Heap, a: int, k: nat, b: int, l: nat)
    requires Inv(s) && HasObject(s, a, k) && HasObject(s, b, l)
    ensures if a == b then k == l else a + k <= b || b + l <= a
  {
    hide Inv, Addr;
    ObjectSize(s, a, k);
    ObjectSize(s, b, l);
    if z, i :| SmallAt(s, z, i, a, k) {
      if y, j :| SmallAt(s, y, j, b, l) {
        if z != y || i != j { SmallApart(s, z, i, a, k, y, j, b, l); }
      } else {
        var y :| LargeAt(s, y, b, l);
        SmallLargeApart(s, z, i, a, k, y, b, l);
      }
    } else {
      var x :| LargeAt(s, x, a, k);
      if y, j :| SmallAt(s, y, j, b, l) {
        SmallLargeApart(s, y, j, b, l, x, a, k);
      } else {
        var y :| LargeAt(s, y, b, l);
        if x != y { LargeApart(s, x, a, k, y, b, l); }
      }
    }
  }

  // ---- what the operations do ----

  /** s' has what s has, and the len bytes from a on. */
  ghost predicate Gained(s: Heap, s': Heap, a: int, len: nat) {
    forall b, l :: HasObject(s', b, l) <==> HasObject(s, b, l) || (b == a && l == len)
  }

  /** s' has what s has, except what starts at a. */
  ghost predicate Lost(s: Heap, s': Heap, a: int) {
    forall b, l :: HasObject(s', b, l) <==> HasObject(s, b, l) && b != a
  }

  /** Zone z changes, the other zones and the blocks do not. */
  ghost predicate OneZone(s: Heap, s': Heap, z: int) {
    && s'.large == s.large
    && forall y :: y != z ==> (y in s.zones <==> y in s'.zones) && (y in s.zones ==> s.zones[y] == s'.zones[y])
  }

  lemma GainedChunk(s: Heap, s': Heap, z: int, k: int)
    requires OneZone(s, s', z) && z in s'.zones
    requires z in s.zones ==> s.zones[z].base == s'.zones[z].base && s.zones[z].chunk == s'.zones[z].chunk
    requires forall i :: Live(s'.zones[z], i) <==> (z in s.zones && Live(s.zones[z], i)) || i == k
    ensures Gained(s, s', Addr(s'.zones[z], k), s'.zones[z].chunk)
  {
    hide Live;
    var a, len := Addr(s'.zones[z], k), s'.zones[z].chunk;
    forall b, l
      ensures HasObject(s', b, l) <==> HasObject(s, b, l) || (b == a && l == len)
    {
      if HasObject(s', b, l) && !(b == a && l == len) {
        if y, i :| SmallAt(s', y, i, b, l) { assert SmallAt(s, y, i, b, l); }
        else { var x :| LargeAt(s', x, b, l); assert LargeAt(s, x, b, l); }
      }
      if HasObject(s, b, l) {
        if y, i :| SmallAt(s, y, i, b, l) { assert SmallAt(s', y, i, b, l); }
        else { var x :| LargeAt(s, x, b, l); assert LargeAt(s', x, b, l); }
      }
      assert SmallAt(s', z, k, a, len);
    }
  }

  lemma LostChunk(s: Heap, s': Heap, z: int, k: int)
    requires Inv(s) && OneZone(s, s', z) && z in s.zones && Live(s.zones[z], k)
    requires z in s'.zones ==> s.zones[z].base == s'.zones[z].base && s.zones[z].chunk == s'.zones[z].chunk
    requires forall i :: z in s'.zones && Live(s'.zones[z], i) <==> Live(s.zones[z], i) && i != k
    ensures Lost(s, s', Addr(s.zones[z], k))
  {
    hide Live, Inv, OneZone;
    var a := Addr(s.zones[z], k);
    assert SmallAt(s, z, k, a, s.zones[z].chunk);
    forall b, l
      ensures HasObject(s', b, l) <==> HasObject(s, b, l) && b != a
    {
      LostChunkAt(s, s', z, k, b, l);
    }
  }

  lemma LostChunkAt(s: Heap, s': Heap, z: int, k: int, b: int, l: nat)
    requires Inv(s) && OneZone(s, s', z) && z in s.zones && Live(s.zones[z], k)
    requires z in s'.zones ==> s.zones[z].base == s'.zones[z].base && s.zones[z].chunk == s'.zones[z].chunk
    requires forall i :: z in s'.zones && Live(s'.zones[z], i) <==> Live(s.zones[z], i) && i != k
    ensures HasObject(s', b, l) <==> HasObject(s, b, l) && b != Addr(s.zones[z], k)
  {
    hide Live, Inv, Addr;
    var a, len := Addr(s.zones[z], k), s.zones[z].chunk;
    assert SmallAt(s, z, k, a, len);
    assert HasObject(s, a, len);
    ObjectSize(s, a, len);
    if HasObject(s', b, l) {
      if y, i :| SmallAt(s', y, i, b, l) {
        assert Addr(s'.zones[y], i) == Addr(s.zones[y], i) by { AddrSame(s'.zones[y], s.zones[y], i); }
        assert SmallAt(s, y, i, b, l);
        SmallApart(s, y, i, b, l, z, k, a, len);
        assert HasObject(s, b, l);
        ObjectSize(s, b, l);
      } else {
        var x :| LargeAt(s', x, b, l);
        assert LargeAt(s, x, b, l);
        SmallLargeApart(s, z, k, a, len, x, b, l);
        assert HasObject(s, b, l);
        ObjectSize(s, b, l);
      }
    }
    if HasObject(s, b, l) && b != a {
      if y, i :| SmallAt(s, y, i, b, l) {
        if y == z { AddrSame(s'.zones[z], s.zones[z], i); }
        assert SmallAt(s', y, i, b, l);
      } else {
        var x :| LargeAt(s, x, b, l);
        assert LargeAt(s', x, b, l);
      }
    }
  }

  lemma AddrSame(h: Zone, g: Zone, i: int)
    requires h.base == g.base && h.chunk == g.chunk
    ensures Addr(h, i) == Addr(g, i)
  {
  }

  /** A zone in use gets a new header, and the list of its class is adjusted. */
  lemma ZoneChanged(s: Heap, z: int, h: Zone, list: seq<int>)
    requires Inv(s) && z in s.zones && HeaderOk(s.zp, z, h) && h.zi == s.zones[z].zi
    requires ListOk(s.zones[z := h], list, h.zi)
    ensures Inv(s.(zones := s.zones[z := h], lists := s.lists[h.zi := list]))
  {
    hide HeaderOk, PagesOk, ListOk;
    assert 0 <= h.zi < NZONES by { ZiInRange(s.zp, z, h); }
    var s' := s.(zones := s.zones[z := h], lists := s.lists[h.zi := list]);
    ListsUpdated(s.zones, s'.zones, s.lists, z, h.zi, list);
    assert Held(s'.zones, s'.zfree) == Held(s.zones, s.zfree);
  }

  lemma ZiInRange(zp: nat, z: int, h: Zone)
    requires HeaderOk(zp, z, h)
    ensures 0 <= h.zi < NZONES && h.chunk == ClassSize(h.zi) && h.chunk > 0
  {
    hide ClassSize, Offset;
  }

  lemma ZoneKnown(s: Heap, z: int)
    requires Inv(s) && z in s.zones
    ensures HeaderOk(s.zp, z, s.zones[z]) && 0 <= s.zones[z].zi < NZONES && |s.lists| == NZONES
    ensures ListOk(s.zones, s.lists[s.zones[z].zi], s.zones[z].zi)
  {
    hide HeaderOk, PagesOk, ListOk;
    ZiInRange(s.zp, z, s.zones[z]);
  }

  lemma ClassKnown(s: Heap, zi: int)
    requires Inv(s) && 0 <= zi < NZONES
    ensures |s.lists| == NZONES && ListOk(s.zones, s.lists[zi], zi)
  {
  }

  lemma FromZoneOk(s: Heap, zi: int)
    requires Inv(s) && 0 <= zi < NZONES && |s.lists| == NZONES && s.lists[zi] != [] && s.lists[zi][0] in s.zones
    ensures var (s', p) := FromZone(s, zi);
            Inv(s') && p != NULL && Gained(s, s', p, ClassSize(zi)) && forall l :: !HasObject(s, p, l)
  {
    hide ClassSize, HeaderOk, Live, TakeChunk, Addr, Inv, Gained, HasObject;
    var list := s.lists[zi];
    var z := list[0];
    var h := s.zones[z];
    var (h', p) := TakeChunk(h);
    ClassKnown(s, zi);
    assert z in list;
    ZoneKnown(s, z);
    var k := TakeChunkOk(s.zp, z, h);
    if h'.nfree == 0 { ListPopped(s.zones, list, h'); } else { ListKept(s.zones, list, z, h'); }
    var list' := if h'.nfree == 0 then list[1..] else list;
    ZoneChanged(s, z, h', list');
    var (s', _) := FromZone(s, zi);
    assert s' == s.(zones := s.zones[z := h'], lists := s.lists[zi := list']);
    AddrSame(h', h, k);
    ZiInRange(s.zp, z, h');
    GainedChunk(s, s', z, k);
    NewlyHeld(s, s', z, k);
    HeldAtLeastZero(s', z, k);
  }

  lemma HeldAtLeastZero(s: Heap, z: int, k: int)
    requires Inv(s) && z in s.zones && Live(s.zones[z], k)
    ensures Addr(s.zones[z], k) != NULL
  {
    hide Inv;
    SmallFound(s, z, k, Addr(s.zones[z], k), s.zones[z].chunk);
  }

  /** A chunk that has just become live was held by nobody, at no size. */
  lemma NewlyHeld(s: Heap, s': Heap, z: int, k: int)
    requires Inv(s') && OneZone(s, s', z) && z in s'.zones && Live(s'.zones[z], k)
    requires z in s.zones ==> s.zones[z].base == s'.zones[z].base && s.zones[z].chunk == s'.zones[z].chunk
    requires forall i :: Live(s'.zones[z], i) <==> (z in s.zones && Live(s.zones[z], i)) || i == k
    requires z in s.zones ==> !Live(s.zones[z], k)
    ensures forall l :: !HasObject(s, Addr(s'.zones[z], k), l)
  {
    hide Inv, Live, Addr;
    var a, len := Addr(s'.zones[z], k), s'.zones[z].chunk;
    assert SmallAt(s', z, k, a, len);
    assert HasObject(s', a, len);
    ObjectSize(s', a, len);
    forall l | HasObject(s, a, l)
      ensures false
    {
      if y, i :| SmallAt(s, y, i, a, l) {
        AddrSame(s'.zones[y], s.zones[y], i);
        assert SmallAt(s', y, i, a, l);
        assert HasObject(s', a, l);
        ObjectSize(s', a, l);
        SmallApart(s', y, i, a, l, z, k, a, len);
      } else {
        var x :| LargeAt(s, x, a, l);
        assert LargeAt(s', x, a, l);
        assert HasObject(s', a, l);
        ObjectSize(s', a, l);
        SmallLargeApart(s', z, k, a, len, x, a, l);
      }
    }
  }

  /** A zone's pages are at hand but it is in no list yet. */
  ghost predicate Spare(s: Heap, z: int) {
    && (s.zp == 8 || s.zp == 16 || s.zp == 32)
    && z !in s.zones && z !in s.zfree
    && PagesOk(s.zp, s.runs, s.usage, s.owner, s.large, Held(s.zones, s.zfree) + {z})
    && HeadersOk(s.zp, s.zones) && ListsOk(s.zones, s.lists) && CacheOk(s.zones, s.zfree)
    && |s.zfree| <= RELEASE_THRESH
  }

  lemma OpenZoneInv(s: Heap, z: int, zi: int, chunk: nat)
    requires Spare(s, z) && 0 <= zi < NZONES && |s.lists| == NZONES && chunk == ClassSize(zi) && chunk > 0
    requires HeaderOk(s.zp, z, NewHeader(s.zp, z, zi, chunk))
    ensures Inv(OpenZone(s, z, zi, chunk).0)
  {
    hide ClassSize, PagesOk, Offset;
    var h := NewHeader(s.zp, z, zi, chunk);
    var s' := OpenZone(s, z, zi, chunk).0;
    assert ListOk(s.zones, s.lists[zi], zi);
    ListPushed(s.zones, s.lists[zi], z, h);
    ListsUpdated(s.zones, s'.zones, s.lists, z, zi, [z] + s.lists[zi]);
    assert Held(s'.zones, s'.zfree) == Held(s.zones, s.zfree) + {z};
  }

  lemma OpenZoneOk(s: Heap, z: int, zi: int, chunk: nat)
    requires Spare(s, z) && 0 <= zi < NZONES && |s.lists| == NZONES && chunk == ClassSize(zi) && 0 < 4 * chunk <= s.zp * PAGE
    ensures var (s', p) := OpenZone(s, z, zi, chunk);
            Inv(s') && p != NULL && Gained(s, s', p, chunk) && forall l :: !HasObject(s, p, l)
  {
    hide ClassSize, Offset, HeaderOk, Live, Addr, Gained, HasObject, Inv, NewHeader;
    var h := NewHeader(s.zp, z, zi, chunk);
    var s' := OpenZone(s, z, zi, chunk).0;
    NewHeaderOk(s.zp, z, zi, chunk);
    OpenZoneInv(s, z, zi, chunk);
    assert h.chunk == chunk by { NewHeaderChunk(s.zp, z, zi, chunk); }
    GainedChunk(s, s', z, 0);
    NewlyHeld(s, s', z, 0);
    HeldAtLeastZero(s', z, 0);
  }

  lemma NewHeaderChunk(zp: nat, z: int, zi: int, chunk: nat)
    requires chunk > 0
    ensures NewHeader(zp, z, zi, chunk).chunk == chunk
  {
  }

  lemma CachePopped(s: Heap)
    requires Inv(s) && s.zfree != []
    ensures Spare(s.(zfree := s.zfree[1..]), s.zfree[0])
  {
    hide PagesOk, HeadersOk, ListsOk;
    assert s.zfree[1..] == Dropped(s.zfree, 0);
    MemberDropped(s.zfree, 0);
    assert Held(s.zones, s.zfree) == Held(s.zones, s.zfree[1..]) + {s.zfree[0]};
  }

  lemma ZoneClaimed(s: Heap)
    requires Inv(s) && Alloc(s.runs, s.zp).1 != NULL
    ensures var (r, z) := Alloc(s.runs, s.zp); Spare(ClaimZone(s, r, z), z)
  {
    hide PagesOk, HeadersOk, ListsOk;
    ClaimZoneOk(s.zp, s.runs, s.usage, s.owner, s.large, Held(s.zones, s.zfree));
  }

  /** The same objects are held. */
  ghost predicate SameObjects(s: Heap, s': Heap) {
    s.zones == s'.zones && s.large == s'.large
  }

  lemma GainedSame(s: Heap, t: Heap, s': Heap, a: int, len: nat)
    requires SameObjects(s, t) && Gained(t, s', a, len) && forall l :: !HasObject(t, a, l)
    ensures Gained(s, s', a, len) && forall l :: !HasObject(s, a, l)
  {
    forall b, l
      ensures HasObject(s, b, l) == HasObject(t, b, l)
    {
      if z, i :| SmallAt(s, z, i, b, l) { assert SmallAt(t, z, i, b, l); }
      if z, i :| SmallAt(t, z, i, b, l) { assert SmallAt(s, z, i, b, l); }
      if x :| LargeAt(s, x, b, l) { assert LargeAt(t, x, b, l); }
      if x :| LargeAt(t, x, b, l) { assert LargeAt(s, x, b, l); }
    }
  }

  lemma FromNewZoneOk(s: Heap, zi: int, chunk: nat)
    requires Inv(s) && 0 <= zi < NZONES && |s.lists| == NZONES && chunk == ClassSize(zi) && 0 < 4 * chunk <= s.zp * PAGE
    requires FromNewZone(s, zi, chunk).1 != NULL
    ensures var (s', p) := FromNewZone(s, zi, chunk);
            Inv(s') && Gained(s, s', p, chunk) && forall l :: !HasObject(s, p, l)
  {
    hide ClassSize, Inv, Gained, HasObject, Spare, OpenZone;
    if s.zfree != [] {
      var t, z := s.(zfree := s.zfree[1..]), s.zfree[0];
      CachePopped(s);
      OpenZoneOk(t, z, zi, chunk);
      GainedSame(s, t, OpenZone(t, z, zi, chunk).0, OpenZone(t, z, zi, chunk).1, chunk);
    } else {
      ZoneClaimed(s);
      var (r, z) := Alloc(s.runs, s.zp);
      var t := ClaimZone(s, r, z);
      OpenZoneOk(t, z, zi, chunk);
      GainedSame(s, t, OpenZone(t, z, zi, chunk).0, OpenZone(t, z, zi, chunk).1, chunk);
    }
  }

  lemma MallocPagesOk(s: Heap, size: nat)
    requires Inv(s) && size < WORD && MallocPages(s, size).1 != NULL
    ensures var (s', p) := MallocPages(s, size);
            var len := PagesFor(size) * PAGE;
            Inv(s') && len >= size && Gained(s, s', p, len) && forall l :: !HasObject(s, p, l)
  {
    hide PagesOk, HeadersOk, ListsOk, CacheOk, Gained, HasObject, Owns;
    var n := PagesFor(size);
    var (s', p) := MallocPages(s, size);
    AllocSpec(s.runs, n) by { PagesCanon(s); }
    ClaimBlockOk(s.zp, s.runs, s.usage, s.owner, s.large, Held(s.zones, s.zfree), n);
    assert Inv(s');
    var b := Alloc(s.runs, n).1;
    GainedBlock(s, s', b, n);
  }

  lemma PagesCanon(s: Heap)
    requires Inv(s)
    ensures Canon(s.runs)
  {
  }

  lemma GainedBlock(s: Heap, s': Heap, x: int, n: nat)
    requires Inv(s') && x !in s.large && s'.large == s.large[x := n] && s'.zones == s.zones && n > 0
    ensures Gained(s, s', x * PAGE, n * PAGE) && forall l :: !HasObject(s, x * PAGE, l)
  {
    hide Live, Inv, Addr;
    var a, len := x * PAGE, n * PAGE;
    assert LargeAt(s', x, a, len);
    assert HasObject(s', a, len);
    forall b, l
      ensures HasObject(s', b, l) <==> HasObject(s, b, l) || (b == a && l == len)
      ensures HasObject(s, b, l) ==> b != a
    {
      if z, i :| SmallAt(s', z, i, b, l) {
        assert SmallAt(s, z, i, b, l);
        SmallLargeApart(s', z, i, b, l, x, a, len);
        SmallFound(s', z, i, b, l);
      }
      if z, i :| SmallAt(s, z, i, b, l) {
        assert SmallAt(s', z, i, b, l);
        SmallLargeApart(s', z, i, b, l, x, a, len);
        SmallFound(s', z, i, b, l);
      }
      if y :| LargeAt(s', y, b, l) && y != x { assert LargeAt(s, y, b, l); }
      if y :| LargeAt(s, y, b, l) { assert LargeAt(s', y, b, l); }
    }
  }

  /** What rt_malloc gives for a request. */
  function Given(zp: nat, size: nat): nat {
    if size >= Limit(zp) then PagesFor(size) * PAGE else Chunk(size)
  }

  /** rt_malloc hands out bytes that nobody held, as many as were asked for at least; every other object
      stays held, and nothing changes when it fails. */
  lemma MallocOk(s: Heap, size: nat)
    requires Inv(s) && size < WORD && Shape(s)
    ensures var (s', p) := Malloc(s, size);
            && Inv(s')
            && (p == NULL ==> s' == s)
            && (p != NULL ==> Given(s.zp, size) >= size && Gained(s, s', p, Given(s.zp, size)) && forall l :: !HasObject(s, p, l))
  {
    hide Inv, Gained, HasObject, ClassSize, Chunk, FromZone, FromNewZone, MallocPages, ZoneIndex, PagesFor;
    if size == 0 {
    } else if size >= Limit(s.zp) {
      if MallocPages(s, size).1 != NULL { MallocPagesOk(s, size); } else { PagesFailed(s, size); }
    } else {
      ClassOf(s.zp, size);
      ZoneIndexIsBest(size);
      var zi := ZoneIndex(size);
      if s.lists[zi] != [] {
        var z := s.lists[zi][0];
        assert z in s.lists[zi];
        FromZoneOk(s, zi);
      } else {
        ChunkFits(s, size);
        if FromNewZone(s, zi, Chunk(size)).1 != NULL { FromNewZoneOk(s, zi, Chunk(size)); } else { NewZoneFailed(s, zi, Chunk(size)); }
      }
    }
  }

  lemma PagesFailed(s: Heap, size: nat)
    requires Inv(s) && MallocPages(s, size).1 == NULL
    ensures MallocPages(s, size).0 == s
  {
    hide PagesOk;
    PagesCanon(s);
    var (r, b) := Alloc(s.runs, PagesFor(size));
    if b != NULL { AllocSpec(s.runs, PagesFor(size)); }
  }

  lemma NewZoneFailed(s: Heap, zi: int, chunk: nat)
    requires Inv(s) && 0 <= zi < NZONES && |s.lists| == NZONES && chunk == ClassSize(zi) && 0 < 4 * chunk <= s.zp * PAGE
    requires FromNewZone(s, zi, chunk).1 == NULL
    ensures FromNewZone(s, zi, chunk).0 == s && s.zfree == [] && Alloc(s.runs, s.zp).1 == NULL
  {
    hide ClassSize, Inv, Gained, HasObject, Spare, OpenZone;
    if s.zfree != [] {
      CachePopped(s);
      OpenZoneOk(s.(zfree := s.zfree[1..]), s.zfree[0], zi, chunk);
    } else if Alloc(s.runs, s.zp).1 != NULL {
      ZoneClaimed(s);
      var (r, z) := Alloc(s.runs, s.zp);
      OpenZoneOk(ClaimZone(s, r, z), z, zi, chunk);
    }
  }

  lemma ChunkFits(s: Heap, size: nat)
    requires Inv(s) && 0 < size < Limit(s.zp)
    ensures Chunk(size) > 0 && 4 * Chunk(size) <= s.zp * PAGE
  {
  }

  /** rt_malloc fails only when it must: no zone of the class has a free chunk, no zone is cached, and no
      zone's worth of free pages lies in one piece. */
  lemma MallocFails(s: Heap, size: nat)
    requires Inv(s) && 0 < size < Limit(s.zp) && Shape(s)
    ensures Malloc(s, size).1 == NULL <==>
            && (forall z :: z in s.zones ==> s.zones[z].zi != ZoneIndex(size) || s.zones[z].nfree <= 0)
            && s.zfree == []
            && forall a :: !AllFree(s.runs, a, s.zp)
  {
    hide Inv, ClassSize, Chunk, FromZone, FromNewZone, OpenZone, ZoneIndex, HasObject, Gained, Spare, Canon;
    ClassOf(s.zp, size);
    ZoneIndexIsBest(size);
    var zi := ZoneIndex(size);
    ClassKnown(s, zi);
    PagesCanon(s);
    ZpPositive(s);
    AllocFails(s.runs, s.zp);
    if s.lists[zi] != [] {
      var z := s.lists[zi][0];
      assert z in s.lists[zi];
      FromZoneOk(s, zi);
    } else {
      ChunkFits(s, size);
      EmptyList(s.zones, zi, s.lists[zi]);
      if FromNewZone(s, zi, Chunk(size)).1 == NULL { NewZoneFailed(s, zi, Chunk(size)); }
      else { NewZoneMade(s, zi, Chunk(size)); }
    }
  }

  lemma ZpPositive(s: Heap)
    requires Inv(s)
    ensures s.zp > 0
  {
  }

  lemma EmptyList(zones: map<int, Zone>, zi: int, list: seq<int>)
    requires ListOk(zones, list, zi) && list == []
    ensures forall z :: z in zones ==> zones[z].zi != zi || zones[z].nfree <= 0
  {
    forall z | z in zones
      ensures zones[z].zi != zi || zones[z].nfree <= 0
    {
      assert z !in list;
    }
  }

  lemma NewZoneMade(s: Heap, zi: int, chunk: nat)
    requires 0 <= zi < |s.lists| && chunk > 0 && FromNewZone(s, zi, chunk).1 != NULL
    ensures s.zfree != [] || Alloc(s.runs, s.zp).1 != NULL
  {
  }

  // ---- rt_free ----

  lemma PutChunkInv(s: Heap, z: int, k: int)
    requires Inv(s) && z in s.zones && Live(s.zones[z], k) && 0 <= s.zones[z].zi < |s.lists|
    ensures var s' := PutChunk(s, z, Addr(s.zones[z], k));
            && Inv(s')
            && forall i :: Live(s'.zones[z], i) <==> Live(s.zones[z], i) && i != k
  {
    hide HeaderOk, Live, Addr, Inv;
    var h := s.zones[z];
    var p := Addr(h, k);
    var h', list := Returned(h, p), s.lists[h.zi];
    ZoneKnown(s, z);
    PutChunkOk(s.zp, z, h, k);
    FreeCount(s.zp, z, h);
    if h.nfree == 0 { ListPushed(s.zones, list, z, h'); } else { ListKept(s.zones, list, z, h'); }
    var list' := if h.nfree == 0 then [z] + list else list;
    ZoneChanged(s, z, h', list');
    assert PutChunk(s, z, p) == s.(zones := s.zones[z := h'], lists := s.lists[h.zi := list']);
  }

  lemma FreeCount(zp: nat, z: int, h: Zone)
    requires HeaderOk(zp, z, h)
    ensures h.nfree >= 0
  {
  }

  lemma CloseZoneSound(s: Heap, z: int)
    requires Inv(s) && z in s.zones && 0 <= s.zones[z].zi < |s.lists|
    ensures Sound(CloseZone(s, z))
    ensures var s' := CloseZone(s, z); s'.zfree[0] == z && |s'.zfree| <= RELEASE_THRESH + 1
  {
    hide HeaderOk, PagesOk, ListOk, Without;
    var zi := s.zones[z].zi;
    var s' := CloseZone(s, z);
    assert ListOk(s.zones, s.lists[zi], zi);
    ListClosed(s.zones, s.lists[zi], z, zi);
    ListsUpdated(s.zones, s'.zones, s.lists, z, zi, Without(s.lists[zi], z));
    NoDupPushed(s.zfree, z);
    assert Held(s'.zones, s'.zfree) == Held(s.zones, s.zfree);
  }

  lemma ReleaseZoneInv(s: Heap)
    requires Sound(s) && 0 < |s.zfree| <= RELEASE_THRESH + 1
    ensures Inv(ReleaseZone(s)) && SameObjects(s, ReleaseZone(s))
  {
    hide PagesOk, HeadersOk, ListsOk;
    var z := s.zfree[0];
    assert s.zfree[1..] == Dropped(s.zfree, 0);
    MemberDropped(s.zfree, 0);
    ReleaseZoneOk(s.zp, s.runs, s.usage, s.owner, s.large, Held(s.zones, s.zfree), z);
    assert Held(s.zones, s.zfree[1..]) == Held(s.zones, s.zfree) - {z};
  }

  lemma LostSame(s: Heap, t: Heap, s': Heap, a: int)
    requires SameObjects(t, s') && Lost(s, t, a)
    ensures Lost(s, s', a)
  {
    forall b, l
      ensures HasObject(s', b, l) == HasObject(t, b, l)
    {
      if z, i :| SmallAt(s', z, i, b, l) { assert SmallAt(t, z, i, b, l); }
      if z, i :| SmallAt(t, z, i, b, l) { assert SmallAt(s', z, i, b, l); }
      if x :| LargeAt(s', x, b, l) { assert LargeAt(t, x, b, l); }
      if x :| LargeAt(t, x, b, l) { assert LargeAt(s', x, b, l); }
    }
  }

  lemma FreeChunkOk(s: Heap, z: int, k: int)
    requires Inv(s) && z in s.zones && Live(s.zones[z], k) && 0 <= s.zones[z].zi < |s.lists|
    ensures var p := Addr(s.zones[z], k);
            Inv(FreeChunk(s, z, p)) && Lost(s, FreeChunk(s, z, p), p)
  {
    hide Inv, Live, Addr, Lost, Sound, SameObjects;
    var p := Addr(s.zones[z], k);
    var s1 := PutChunk(s, z, p);
    PutChunkInv(s, z, k);
    var h := s1.zones[z];
    if h.nfree == h.nmax && s1.lists[h.zi] != [z] {
      var s2 := CloseZone(s1, z);
      CloseZoneSound(s1, z);
      ZoneKnown(s1, z);
      forall i
        ensures !Live(h, i)
      {
        UnusedZone(s.zp, z, h, i);
      }
      LostChunk(s, s2, z, k);
      if |s2.zfree| > RELEASE_THRESH {
        ReleaseZoneInv(s2);
        LostSame(s, s2, ReleaseZone(s2), p);
      } else {
        SoundInv(s2);
      }
    } else {
      LostChunk(s, s1, z, k);
    }
  }

  lemma SoundInv(s: Heap)
    requires Sound(s) && |s.zfree| <= RELEASE_THRESH
    ensures Inv(s)
  {
  }

  lemma FreePagesOk(s: Heap, x: int)
    requires Inv(s) && x in s.large
    ensures var s' := FreePages(s, x, s.large[x]); Inv(s') && Lost(s, s', x * PAGE)
  {
    hide PagesOk, HeadersOk, ListsOk, Live, Addr, Lost, CacheOk;
    var s' := FreePages(s, x, s.large[x]);
    ReleaseBlockOk(s.zp, s.runs, s.usage, s.owner, s.large, Held(s.zones, s.zfree), x);
    assert Inv(s');
    LostBlock(s, s', x);
  }

  lemma LostBlock(s: Heap, s': Heap, x: int)
    requires Inv(s) && x in s.large && s'.large == s.large - {x} && s'.zones == s.zones
    ensures Lost(s, s', x * PAGE)
  {
    hide Live, Inv, Addr;
    var a, len := x * PAGE, s.large[x] * PAGE;
    assert LargeAt(s, x, a, len);
    assert HasObject(s, a, len);
    ObjectSize(s, a, len);
    forall b, l
      ensures HasObject(s', b, l) <==> HasObject(s, b, l) && b != a
    {
      if z, i :| SmallAt(s', z, i, b, l) {
        assert SmallAt(s, z, i, b, l);
        SmallLargeApart(s, z, i, b, l, x, a, len);
        SmallFound(s, z, i, b, l);
      }
      if z, i :| SmallAt(s, z, i, b, l) {
        assert SmallAt(s', z, i, b, l);
      }
      if y :| LargeAt(s', y, b, l) { assert LargeAt(s, y, b, l); }
      if y :| LargeAt(s, y, b, l) && y != x { assert LargeAt(s', y, b, l); }
    }
  }

  /** rt_free of what is held at p finds its zone or block, and takes exactly that object back. */
  lemma FreeObjectOk(s: Heap, p: int, len: nat)
    requires Inv(s) && HasObject(s, p, len)
    ensures Btokup(s, p).Large? || (ZoneOf(s, p) in s.zones && 0 <= s.zones[ZoneOf(s, p)].zi < |s.lists|)
    ensures Inv(FreeObject(s, p)) && Lost(s, FreeObject(s, p), p)
  {
    hide Inv, Addr, Live, Lost, FreeChunk, FreePages;
    if z, k :| SmallAt(s, z, k, p, len) {
      ObjectSize(s, p, len);
      BtokupFindsTheZone(s, z, k, p, len, p);
      ZoneKnown(s, z);
      FreeChunkOk(s, z, k);
    } else {
      var x :| LargeAt(s, x, p, len);
      BtokupFindsTheBlock(s, x, p, len);
      FreePagesOk(s, x);
    }
  }

  // ---- runs ----

  /** The zone size in pages that rt_system_heap_init picks for a heap of n pages. */
  function ZonePages(n: nat): nat {
    var kib := n * PAGE / 1024;
    if 2 * 32768 >= kib then 8 else if 2 * 65536 >= kib then 16 else 32
  }

  /** The heap after rt_system_heap_init: the page table takes the first pages, and says nothing yet. */
  function Init(n: nat, usage: seq<Usage>): Heap
    requires |usage| == n
  {
    var table := (n * 4 + PAGE - 1) / PAGE;
    Heap(ZonePages(n), PageRuns.Alloc([Run(0, n)], table).0, usage, map[], seq(NZONES, _ => []), [],
         seq(n, _ => NULL), map[])
  }

  lemma InitInv(n: nat, usage: seq<Usage>)
    requires n > 0 && |usage| == n
    ensures Inv(Init(n, usage)) && forall a, l :: !HasObject(Init(n, usage), a, l)
  {
    var s := Init(n, usage);
    var runs, table := [Run(0, n)], (n * 4 + PAGE - 1) / PAGE;
    assert Canon(runs);
    if Alloc(runs, table).1 != NULL { AllocSpec(runs, table); }
    forall p | FreePage(s.runs, p)
      ensures 0 <= p < n
    {
      assert FreePage(runs, p);
    }
    assert Held(s.zones, s.zfree) == {};
  }

  datatype Op = OpMalloc(size: nat, p: int) | OpFree(p: int)

  /** One call of rt_malloc, with its result, or of rt_free for something that is held. */
  ghost predicate Step(s: Heap, op: Op, s': Heap) {
    match op
    case OpMalloc(size, p) => size < WORD && (Shape(s) ==> (s', p) == Malloc(s, size))
    case OpFree(p) => (exists l :: HasObject(s, p, l)) && (Finds(s, p) ==> s' == FreeObject(s, p))
  }

  ghost predicate Finds(s: Heap, p: int) {
    Btokup(s, p).Large? || (ZoneOf(s, p) in s.zones && 0 <= s.zones[ZoneOf(s, p)].zi < |s.lists|)
  }

  /** What the caller of an allocator keeps track of: the size of what it holds at each address. */
  ghost function Track(objs: map<int, nat>, zp: nat, op: Op): map<int, nat> {
    match op
    case OpMalloc(size, p) => if p == NULL then objs else objs[p := Given(zp, size)]
    case OpFree(p) => objs - {p}
  }

  ghost predicate Agrees(s: Heap, objs: map<int, nat>) {
    forall a, l :: HasObject(s, a, l) <==> a in objs && objs[a] == l
  }

  /** A call keeps the invariant and the caller's view, and an address given out was not in the view. */
  lemma StepOk(s: Heap, op: Op, s': Heap, objs: map<int, nat>)
    requires Inv(s) && Agrees(s, objs) && Step(s, op, s')
    ensures Inv(s') && Agrees(s', Track(objs, s.zp, op)) && s'.zp == s.zp
    ensures op.OpMalloc? && op.p != NULL ==> op.p !in objs && Given(s.zp, op.size) >= op.size
  {
    hide Inv, HasObject, Given, FreeObject, Malloc, Btokup, ZoneOf, Shape;
    match op
    case OpMalloc(size, p) =>
      InvShape(s);
      MallocOk(s, size);
      SameZp(s, op, s');
      var l := if p in objs then objs[p] else 0;
      if p != NULL { assert !HasObject(s, p, l); }
    case OpFree(p) =>
      var l :| HasObject(s, p, l);
      FreeObjectOk(s, p, l);
      SameZp(s, op, s');
  }

  lemma SameZp(s: Heap, op: Op, s': Heap)
    requires Step(s, op, s') && (op.OpMalloc? ==> Shape(s)) && (op.OpFree? ==> Finds(s, op.p))
    ensures s'.zp == s.zp
  {
    hide Inv, HasObject;
  }

  ghost predicate StepAt(ss: seq<Heap>, ops: seq<Op>, i: nat) {
    i + 1 < |ss| && i < |ops| && Step(ss[i], ops[i], ss[i + 1])
  }

  ghost predicate IsRun(ss: seq<Heap>, ops: seq<Op>) {
    |ss| == |ops| + 1 && forall i :: 0 <= i < |ops| ==> StepAt(ss, ops, i)
  }

  ghost function Tracked(objs: map<int, nat>, zp: nat, ops: seq<Op>, k: nat): map<int, nat>
    requires k <= |ops|
  {
    if k == 0 then objs else Track(Tracked(objs, zp, ops, k - 1), zp, ops[k - 1])
  }

  /** After any run from initialisation the heap holds exactly what its callers hold by their own count. */
  lemma {:induction false} RunOk(n: nat, usage: seq<Usage>, ss: seq<Heap>, ops: seq<Op>, k: nat)
    requires n > 0 && |usage| == n && IsRun(ss, ops) && ss[0] == Init(n, usage) && k <= |ops|
    ensures Inv(ss[k]) && ss[k].zp == ss[0].zp && Agrees(ss[k], Tracked(map[], ss[0].zp, ops, k))
  {
    hide Inv, HasObject, Step, Init;
    if k == 0 {
      InitInv(n, usage);
    } else {
      RunOk(n, usage, ss, ops, k - 1);
      assert StepAt(ss, ops, k - 1);
      StepOk(ss[k - 1], ops[k - 1], ss[k], Tracked(map[], ss[0].zp, ops, k - 1));
    }
  }
}
