/** The page allocator under slab.c, on values: the list of runs of free pages.  Addresses are page
    numbers from `heap_start`. */
module PageRuns {
  import opened RtDef

  datatype Run = Run(start: int, pages: int)

  ghost predicate RunFits(runs: seq<Run>, i: nat)
    requires i < |runs|
  {
    && 0 <= runs[i].start && 0 < runs[i].pages
    && (i + 1 < |runs| ==> runs[i].start + runs[i].pages < runs[i + 1].start)
  }

  /** The runs are in address order and maximal: a used page lies between any two of them. */
  ghost predicate Canon(runs: seq<Run>) {
    forall i :: 0 <= i < |runs| ==> RunFits(runs, i)
  }

  ghost predicate Holds(runs: seq<Run>, i: nat, p: int) {
    i < |runs| && runs[i].start <= p < runs[i].start + runs[i].pages
  }

  /** Page p is free. */
  ghost predicate FreePage(runs: seq<Run>, p: int) {
    exists i: nat :: Holds(runs, i, p)
  }

  // ---- the operations ----

  /** The first run from i on with n pages. */
  function FirstFit(runs: seq<Run>, n: nat, i: nat): (r: nat)
    requires i <= |runs|
    ensures i <= r <= |runs|
    ensures r < |runs| ==> runs[r].pages >= n
    decreases |runs| - i
  {
    if i == |runs| || runs[i].pages >= n then i else FirstFit(runs, n, i + 1)
  }

  /** Take n pages off the front of run i. */
  function TakeFrom(runs: seq<Run>, i: nat, n: nat): seq<Run>
    requires i < |runs|
  {
    if runs[i].pages > n then runs[i := Run(runs[i].start + n, runs[i].pages - n)] else runs[..i] + runs[i + 1..]
  }

  /** rt_page_alloc */
  function Alloc(runs: seq<Run>, n: nat): (r: (seq<Run>, int)) {
    var i := FirstFit(runs, n, 0);
    if n == 0 || i == |runs| then (runs, NULL) else (TakeFrom(runs, i, n), runs[i].start)
  }

  /** rt_page_free: extend a run at its end, perhaps up to the next one; extend a run at its front; or
      start a new run. */
  function Free(runs: seq<Run>, a: int, n: nat): seq<Run> {
    if runs == [] then [Run(a, n)]
    else
      var b := runs[0];
      if b.start + b.pages == a then
        if |runs| > 1 && b.start + b.pages + n == runs[1].start
        then [Run(b.start, b.pages + n + runs[1].pages)] + runs[2..]
        else [Run(b.start, b.pages + n)] + runs[1..]
      else if b.start == a + n then [Run(a, b.pages + n)] + runs[1..]
      else if b.start > a + n then [Run(a, n)] + runs
      else [b] + Free(runs[1..], a, n)
  }

  /** The pages from a on, n of them, are all in use. */
  ghost predicate InUse(runs: seq<Run>, a: int, n: nat) {
    forall p :: a <= p < a + n ==> !FreePage(runs, p)
  }

  // ---- facts about runs ----

  lemma FreeInHead(runs: seq<Run>, p: int)
    requires runs != [] && runs[0].start <= p < runs[0].start + runs[0].pages
    ensures FreePage(runs, p)
  {
    assert Holds(runs, 0, p);
  }

  lemma Later(runs: seq<Run>, i: nat, j: nat)
    requires Canon(runs) && i < j < |runs|
    ensures runs[i].start + runs[i].pages < runs[j].start
    decreases j - i
  {
    assert RunFits(runs, i) && RunFits(runs, j - 1);
    if i < j - 1 { Later(runs, i, j - 1); }
  }

  lemma CanonTail(runs: seq<Run>)
    requires Canon(runs) && runs != []
    ensures Canon(runs[1..])
    ensures forall p :: FreePage(runs, p) <==> Holds(runs, 0, p) || FreePage(runs[1..], p)
    ensures forall p :: FreePage(runs[1..], p) ==> p > runs[0].start + runs[0].pages
  {
    forall i | 0 <= i < |runs[1..]|
      ensures RunFits(runs[1..], i)
    {
      assert RunFits(runs, i + 1);
    }
    forall p
      ensures FreePage(runs, p) <==> Holds(runs, 0, p) || FreePage(runs[1..], p)
      ensures FreePage(runs[1..], p) ==> p > runs[0].start + runs[0].pages
    {
      if FreePage(runs, p) {
        var i: nat :| Holds(runs, i, p);
        if i > 0 { assert Holds(runs[1..], i - 1, p); }
      }
      if FreePage(runs[1..], p) {
        var i: nat :| Holds(runs[1..], i, p);
        assert Holds(runs, i + 1, p);
        Later(runs, 0, i + 1);
      }
    }
  }

  lemma CanonCons(b: Run, rest: seq<Run>)
    requires Canon(rest) && 0 <= b.start && 0 < b.pages && (rest != [] ==> b.start + b.pages < rest[0].start)
    ensures Canon([b] + rest)
    ensures forall p :: FreePage([b] + rest, p) <==> b.start <= p < b.start + b.pages || FreePage(rest, p)
  {
    var r := [b] + rest;
    forall i | 0 <= i < |r|
      ensures RunFits(r, i)
    {
      if i > 0 { assert RunFits(rest, i - 1); }
    }
    assert r[1..] == rest;
    CanonTail(r);
  }

  lemma HeadFree(runs: seq<Run>)
    requires Canon(runs) && runs != []
    ensures RunFits(runs, 0) && FreePage(runs, runs[0].start) && !FreePage(runs, runs[0].start - 1)
    ensures !FreePage(runs, runs[0].start + runs[0].pages)
    ensures forall p :: FreePage(runs, p) ==> runs[0].start <= p
  {
    assert RunFits(runs, 0);
    assert Holds(runs, 0, runs[0].start);
    CanonTail(runs);
  }

  // ---- the main results ----

  /** The free list is determined by the set of free pages. */
  lemma {:induction false} CanonUnique(r: seq<Run>, s: seq<Run>)
    requires Canon(r) && Canon(s) && forall p :: FreePage(r, p) <==> FreePage(s, p)
    ensures r == s
  {
    if r == [] || s == [] {
      if r != [] { HeadFree(r); }
      if s != [] { HeadFree(s); }
    } else {
      HeadFree(r);
      HeadFree(s);
      CanonTail(r);
      CanonTail(s);
      assert r[0].start == s[0].start;
      var e, f := r[0].start + r[0].pages, s[0].start + s[0].pages;
      if e < f { FreeInHead(s, e); }
      if f < e { FreeInHead(r, f); }
      CanonUnique(r[1..], s[1..]);
    }
  }

  /** Releasing pages in use keeps the list canonical and frees exactly those pages. */
  lemma {:induction false} FreeSpec(runs: seq<Run>, a: int, n: nat)
    requires Canon(runs) && 0 <= a && 0 < n && InUse(runs, a, n)
    ensures Canon(Free(runs, a, n))
    ensures forall p :: FreePage(Free(runs, a, n), p) <==> FreePage(runs, p) || a <= p < a + n
    ensures Free(runs, a, n) != []
    ensures Free(runs, a, n)[0].start == if runs == [] || a < runs[0].start then a else runs[0].start
  {
    if runs == [] {
      CanonCons(Run(a, n), []);
      assert [Run(a, n)] + [] == [Run(a, n)];
    } else {
      var b := runs[0];
      CanonTail(runs);
      HeadFree(runs);
      Beside(runs, a, n);
      if b.start + b.pages == a {
        FreeBehind(runs, a, n);
      } else if b.start == a + n {
        CanonCons(Run(a, b.pages + n), runs[1..]);
      } else if b.start > a + n {
        CanonCons(Run(a, n), runs);
      } else {
        assert InUse(runs[1..], a, n);
        FreeSpec(runs[1..], a, n);
        CanonCons(b, Free(runs[1..], a, n));
      }
    }
  }

  /** Pages in use lie before or behind the first run, and before the second one if right behind it. */
  lemma Beside(runs: seq<Run>, a: int, n: nat)
    requires Canon(runs) && runs != [] && 0 < n && InUse(runs, a, n)
    ensures a + n <= runs[0].start || runs[0].start + runs[0].pages <= a
    ensures |runs| > 1 && runs[0].start + runs[0].pages == a ==> a + n <= runs[1].start
  {
    HeadFree(runs);
    if runs[0].start <= a < runs[0].start + runs[0].pages { FreeInHead(runs, a); }
    if |runs| > 1 {
      CanonTail(runs);
      HeadFree(runs[1..]);
      var q := runs[1].start;
      assert FreePage(runs, q);
    }
  }

  /** Releasing pages right behind the first run, up to the second one or not. */
  lemma FreeBehind(runs: seq<Run>, a: int, n: nat)
    requires Canon(runs) && runs != [] && 0 < n && InUse(runs, a, n) && runs[0].start + runs[0].pages == a
    ensures Canon(Free(runs, a, n))
    ensures forall p :: FreePage(Free(runs, a, n), p) <==> FreePage(runs, p) || a <= p < a + n
  {
    var b := runs[0];
    CanonTail(runs);
    HeadFree(runs);
    Beside(runs, a, n);
    if |runs| > 1 && a + n == runs[1].start {
      CanonTail(runs[1..]);
      assert runs[1..][1..] == runs[2..];
      assert RunFits(runs, 1);
      CanonCons(Run(b.start, b.pages + n + runs[1].pages), runs[2..]);
    } else {
      CanonCons(Run(b.start, b.pages + n), runs[1..]);
    }
  }

  /** Taking pages keeps the list canonical and takes exactly those pages, which were free. */
  lemma TakeSpec(runs: seq<Run>, i: nat, n: nat)
    requires Canon(runs) && i < |runs| && 0 < n <= runs[i].pages
    ensures Canon(TakeFrom(runs, i, n))
    ensures forall p :: FreePage(TakeFrom(runs, i, n), p) <==> FreePage(runs, p) && !(runs[i].start <= p < runs[i].start + n)
    ensures forall p :: runs[i].start <= p < runs[i].start + n ==> FreePage(runs, p)
  {
    var r := TakeFrom(runs, i, n);
    var cut := |runs| - |r|;
    forall j | 0 <= j < |r|
      ensures RunFits(r, j)
    {
      assert RunFits(runs, j);
      assert RunFits(runs, if j < i then j else j + cut);
      if j + 1 == i { Later(runs, j, i); if i + 1 < |runs| { Later(runs, j, i + 1); } }
    }
    forall p
      ensures FreePage(r, p) <==> FreePage(runs, p) && !(runs[i].start <= p < runs[i].start + n)
      ensures runs[i].start <= p < runs[i].start + n ==> FreePage(runs, p)
    {
      assert runs[i].start <= p < runs[i].start + n ==> Holds(runs, i, p);
      if FreePage(runs, p) && !(runs[i].start <= p < runs[i].start + n) {
        var j: nat :| Holds(runs, j, p);
        assert Holds(r, if j <= i - cut then j else j - cut, p);
      }
      if FreePage(r, p) {
        var j: nat :| Holds(r, j, p);
        var j' := if j < i then j else j + cut;
        assert Holds(runs, j', p);
        if j' < i { Later(runs, j', i); }
        if i < j' { Later(runs, i, j'); }
      }
    }
  }

  lemma AllocSpec(runs: seq<Run>, n: nat)
    requires Canon(runs) && Alloc(runs, n).1 != NULL
    ensures var (r, a) := Alloc(runs, n);
            && Canon(r) && 0 <= a && 0 < n
            && (forall p :: FreePage(r, p) <==> FreePage(runs, p) && !(a <= p < a + n))
            && (forall p :: a <= p < a + n ==> FreePage(runs, p))
  {
    var i := FirstFit(runs, n, 0);
    assert RunFits(runs, i);
    TakeSpec(runs, i, n);
  }

  /** rt_page_alloc fails exactly when no n pages in a row are free. */
  lemma AllocFails(runs: seq<Run>, n: nat)
    requires Canon(runs) && n > 0
    ensures Alloc(runs, n).1 == NULL <==> forall s :: !AllFree(runs, s, n)
  {
    var i := FirstFit(runs, n, 0);
    if i < |runs| {
      assert RunFits(runs, i);
      AllocSpec(runs, n);
      assert AllFree(runs, runs[i].start, n);
    } else {
      forall s
        ensures !AllFree(runs, s, n)
      {
        if AllFree(runs, s, n) {
          assert FreePage(runs, s);
          var j: nat :| Holds(runs, j, s);
          StaysInRun(runs, j, s, n);
          NoFit(runs, n, 0);
        }
      }
    }
  }

  /** And takes the lowest n pages in a row that are free. */
  lemma AllocLowest(runs: seq<Run>, n: nat, s: int)
    requires Canon(runs) && Alloc(runs, n).1 != NULL && AllFree(runs, s, n)
    ensures Alloc(runs, n).1 <= s
  {
    var i := FirstFit(runs, n, 0);
    assert RunFits(runs, i);
    assert FreePage(runs, s);
    var j: nat :| Holds(runs, j, s);
    StaysInRun(runs, j, s, n);
    if j < i { FirstFitFirst(runs, n, 0, j); }
    if i < j { Later(runs, i, j); }
  }

  lemma {:induction false} FirstFitFirst(runs: seq<Run>, n: nat, i: nat, j: nat)
    requires i <= |runs| && i <= j < FirstFit(runs, n, i)
    ensures runs[j].pages < n
    decreases |runs| - i
  {
    if i < j { FirstFitFirst(runs, n, i + 1, j); }
  }

  ghost predicate AllFree(runs: seq<Run>, s: int, n: nat) {
    forall p :: s <= p < s + n ==> FreePage(runs, p)
  }

  /** Free pages in a row lie in one run. */
  lemma {:induction false} StaysInRun(runs: seq<Run>, j: nat, s: int, n: nat)
    requires Canon(runs) && Holds(runs, j, s) && n > 0 && AllFree(runs, s, n)
    ensures s + n <= runs[j].start + runs[j].pages
  {
    var e := runs[j].start + runs[j].pages;
    if s + n > e {
      assert FreePage(runs, e);
      var k: nat :| Holds(runs, k, e);
      if k < j { Later(runs, k, j); }
      if j < k { Later(runs, j, k); }
    }
  }

  lemma {:induction false} NoFit(runs: seq<Run>, n: nat, i: nat)
    requires i <= |runs| && FirstFit(runs, n, i) == |runs|
    ensures forall j :: i <= j < |runs| ==> runs[j].pages < n
    decreases |runs| - i
  {
    if i < |runs| { NoFit(runs, n, i + 1); }
  }

  /** Freeing what was just allocated restores the identical list. */
  lemma FreeUndoesAlloc(runs: seq<Run>, n: nat)
    requires Canon(runs) && Alloc(runs, n).1 != NULL
    ensures Free(Alloc(runs, n).0, Alloc(runs, n).1, n) == runs
  {
    AllocSpec(runs, n);
    var (r, a) := Alloc(runs, n);
    FreeSpec(r, a, n);
    CanonUnique(Free(r, a, n), runs);
  }
}
