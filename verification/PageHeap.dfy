/** The page allocator of slab.c on its own data structure: run headers linked through `next`, found and
    relinked through a pointer to the link that names them. */
module PageHeap {
  import opened RtDef
  import opened PageRuns

  function StartOf(runs: seq<Run>, k: nat): int {
    if k < |runs| then runs[k].start else NULL
  }

  ghost predicate NodeAt(next: map<int, int>, page: map<int, int>, runs: seq<Run>, k: nat)
    requires k < |runs|
  {
    && runs[k].start in next && next[runs[k].start] == StartOf(runs, k + 1)
    && runs[k].start in page && page[runs[k].start] == runs[k].pages
  }

  ghost predicate Chain(next: map<int, int>, page: map<int, int>, runs: seq<Run>) {
    forall k :: 0 <= k < |runs| ==> NodeAt(next, page, runs, k)
  }

  lemma Node(next: map<int, int>, page: map<int, int>, runs: seq<Run>, k: nat)
    requires Chain(next, page, runs) && k < |runs|
    ensures NodeAt(next, page, runs, k)
  {
  }

  lemma StartsDiffer(runs: seq<Run>, k: nat)
    requires Canon(runs) && k < |runs|
    ensures forall i :: 0 <= i < |runs| && i != k ==> runs[i].start != runs[k].start
    ensures runs[k].start >= 0 && runs[k].pages > 0
  {
    assert RunFits(runs, k);
    forall i | 0 <= i < |runs| && i != k
      ensures runs[i].start != runs[k].start
    {
      assert RunFits(runs, i);
      if i < k { Later(runs, i, k); } else { Later(runs, k, i); }
    }
  }

  /** Free without its recursion: runs[..k] stay, the rest is changed at its head. */
  lemma {:induction false} FreeAt(runs: seq<Run>, a: int, n: nat, k: nat)
    requires k <= |runs|
    requires forall i :: 0 <= i < k ==> Passed(runs, a, n, i)
    ensures Free(runs, a, n) == runs[..k] + Free(runs[k..], a, n)
  {
    if k > 0 {
      assert Passed(runs, a, n, 0);
      forall i | 0 <= i < k - 1
        ensures Passed(runs[1..], a, n, i)
      {
        assert Passed(runs, a, n, i + 1);
      }
      FreeAt(runs[1..], a, n, k - 1);
      assert runs[1..][k - 1..] == runs[k..] && [runs[0]] + runs[1..][..k - 1] == runs[..k];
    } else {
      assert runs[..0] + Free(runs[0..], a, n) == Free(runs, a, n) by { assert runs[0..] == runs; }
    }
  }

  /** The loop of rt_page_free goes past run i. */
  predicate Passed(runs: seq<Run>, a: int, n: nat, i: nat) {
    i < |runs| && runs[i].start + runs[i].pages != a && runs[i].start != a + n && runs[i].start <= a + n
  }

  class PageList {
    var head: int                // rt_page_list
    var next: map<int, int>      // the fields of struct rt_page_head, by page
    var page: map<int, int>
    ghost var runs: seq<Run>

    ghost predicate Valid()
      reads this
    {
      Canon(runs) && Chain(next, page, runs) && head == StartOf(runs, 0)
    }

    /** rt_page_init */
    constructor (pages: nat)
      requires pages > 0
      ensures Valid() && runs == [Run(0, pages)]
    {
      head := 0;
      next := map[0 := NULL];
      page := map[0 := pages];
      runs := [Run(0, pages)];
    }

    /** `*prev = x`, where prev is the list head or the link of a run header */
    method SetLink(prev: int, x: int)
      modifies this`head, this`next
      ensures prev == NULL ==> head == x && next == old(next)
      ensures prev != NULL ==> head == old(head) && next == old(next)[prev := x]
    {
      if prev == NULL { head := x; } else { next := next[prev := x]; }
    }

    /** rt_page_alloc */
    method Alloc(n: nat) returns (b: int)
      requires Valid()
      modifies this
      ensures Valid() && (runs, b) == PageRuns.Alloc(old(runs), n)
    {
      hide Canon, Chain;
      if n == 0 { return NULL; }
      var prev := NULL;
      b := head;
      ghost var k: nat := 0;
      ghost var rs := runs;
      while b != NULL
        invariant unchanged(this) && rs == runs
        invariant k <= |rs| && b == StartOf(rs, k) && prev == (if k == 0 then NULL else rs[k - 1].start) && (k > 0 ==> prev >= 0)
        invariant FirstFit(rs, n, 0) == FirstFit(rs, n, k)
        decreases |rs| - k
      {
        Node(next, page, rs, k);
        StartsDiffer(rs, k);
        if page[b] >= n {
          TakeChain(next, page, rs, k, n);
          runs := TakeFrom(rs, k, n);
          if page[b] > n {
            var m := b + n;
            next := next[m := next[b]];
            page := page[m := page[b] - n];
            SetLink(prev, m);
          } else {
            SetLink(prev, next[b]);
          }
          return;
        }
        prev := b;
        b := next[b];
        k := k + 1;
        if k < |rs| { StartsDiffer(rs, k); }
      }
      if k < |rs| { StartsDiffer(rs, k); }
    }

    /** rt_page_free */
    method Free(a: int, n: nat)
      requires Valid() && 0 <= a && 0 < n && InUse(runs, a, n)
      modifies this
      ensures Valid() && runs == PageRuns.Free(old(runs), a, n)
    {
      hide Canon, Chain, InUse;
      var prev := NULL;
      var b := head;
      ghost var k: nat := 0;
      ghost var rs := runs;
      FreeSpec(rs, a, n);
      while b != NULL
        invariant unchanged(this) && rs == runs
        invariant k <= |rs| && b == StartOf(rs, k) && prev == (if k == 0 then NULL else rs[k - 1].start) && (k > 0 ==> prev >= 0)
        invariant forall i :: 0 <= i < k ==> Passed(rs, a, n, i)
        decreases |rs| - k
      {
        Node(next, page, rs, k);
        StartsDiffer(rs, k);
        FreeAt(rs, a, n, k);
        if b + page[b] == a {
          JoinChain(next, page, rs, k, a, n);
          page := page[b := page[b] + n];
          if b + page[b] == next[b] {
            Node(old(next), old(page), rs, k + 1);
            page := page[b := page[b] + page[next[b]]];
            next := next[b := next[next[b]]];
          }
          runs := PageRuns.Free(rs, a, n);
          return;
        }
        if b == a + n {
          FrontChain(next, page, rs, k, a, n);
          page := page[a := page[b] + n];
          next := next[a := next[b]];
          SetLink(prev, a);
          runs := PageRuns.Free(rs, a, n);
          return;
        }
        if b > a + n { break; }
        prev := b;
        b := next[b];
        k := k + 1;
        if k < |rs| { StartsDiffer(rs, k); }
      }
      if k < |rs| { StartsDiffer(rs, k); }
      FreeAt(rs, a, n, k);
      NewChain(next, page, rs, k, a, n);
      page := page[a := n];
      next := next[a := b];
      SetLink(prev, a);
      runs := PageRuns.Free(rs, a, n);
    }
  }

  /** The next fields after `*prev = x` for the link that names run k. */
  function Relinked(next: map<int, int>, runs: seq<Run>, k: nat, x: int): map<int, int>
    requires k <= |runs|
  {
    if k == 0 then next else next[runs[k - 1].start := x]
  }

  lemma TakeChain(next: map<int, int>, page: map<int, int>, runs: seq<Run>, k: nat, n: nat)
    requires Canon(runs) && Chain(next, page, runs) && k < |runs| && 0 < n <= runs[k].pages
    ensures var b := runs[k];
            var r := TakeFrom(runs, k, n);
            && Canon(r) && b.start in next
            && (b.pages > n ==>
                  && Chain(Relinked(next[b.start + n := next[b.start]], runs, k, b.start + n),
                           page[b.start + n := b.pages - n], r)
                  && StartOf(r, 0) == (if k == 0 then b.start + n else runs[0].start))
            && (b.pages == n ==>
                  && Chain(Relinked(next, runs, k, next[b.start]), page, r)
                  && StartOf(r, 0) == (if k == 0 then next[b.start] else runs[0].start))
  {
    var b := runs[k];
    var r := TakeFrom(runs, k, n);
    TakeSpec(runs, k, n);
    Node(next, page, runs, k);
    if k > 0 { StartsDiffer(runs, k - 1); Later(runs, k - 1, k); }
    var m := b.start + n;
    var nx := if b.pages > n then Relinked(next[m := next[b.start]], runs, k, m) else Relinked(next, runs, k, next[b.start]);
    var pg := if b.pages > n then page[m := b.pages - n] else page;
    var cut := |runs| - |r|;
    forall i | 0 <= i < |r|
      ensures NodeAt(nx, pg, r, i)
    {
      var j := if i < k then i else i + cut;
      Node(next, page, runs, j);
      if b.pages > n && i != k { Outside(runs, k, j, m); }
    }
  }

  /** An address inside the pages of run k is no header of another run. */
  lemma Outside(runs: seq<Run>, k: nat, j: nat, m: int)
    requires Canon(runs) && k < |runs| && j < |runs| && j != k && runs[k].start <= m <= runs[k].start + runs[k].pages
    ensures runs[j].start != m
  {
    assert RunFits(runs, j);
    if j < k { Later(runs, j, k); } else { Later(runs, k, j); }
  }

  lemma JoinChain(next: map<int, int>, page: map<int, int>, runs: seq<Run>, k: nat, a: int, n: nat)
    requires Canon(runs) && Chain(next, page, runs) && k < |runs| && runs[k].start + runs[k].pages == a && n > 0
    requires Free(runs, a, n) == runs[..k] + Free(runs[k..], a, n)
    ensures var b := runs[k].start;
            var r := Free(runs, a, n);
            var joins := k + 1 < |runs| && a + n == runs[k + 1].start;
            && StartOf(r, 0) == StartOf(runs, 0)
            && b in next && b in page && (joins <==> b + page[b] + n == next[b])
            && (joins ==>
                  && next[b] in next && next[b] in page
                  && Chain(next[b := next[next[b]]], page[b := page[b] + n][b := page[b] + n + page[next[b]]], r))
            && (!joins ==> Chain(next, page[b := page[b] + n], r))
  {
    var b := runs[k].start;
    var r := Free(runs, a, n);
    StartsDiffer(runs, k);
    Node(next, page, runs, k);
    var joins := k + 1 < |runs| && a + n == runs[k + 1].start;
    if k + 1 < |runs| { Node(next, page, runs, k + 1); StartsDiffer(runs, k + 1); }
    var nx := if joins then next[b := next[next[b]]] else next;
    var pg := if joins then page[b := page[b] + n][b := page[b] + n + page[next[b]]] else page[b := page[b] + n];
    var cut := |runs| - |r|;
    forall i | 0 <= i < |r|
      ensures NodeAt(nx, pg, r, i)
    {
      Node(next, page, runs, if i <= k then i else i + cut);
    }
  }

  lemma FrontChain(next: map<int, int>, page: map<int, int>, runs: seq<Run>, k: nat, a: int, n: nat)
    requires Canon(runs) && Chain(next, page, runs) && k < |runs| && runs[k].start == a + n && 0 <= a && n > 0
    requires InUse(runs, a, n) && runs[k].start + runs[k].pages != a
    requires Free(runs, a, n) == runs[..k] + Free(runs[k..], a, n)
    ensures var b := runs[k].start;
            var r := Free(runs, a, n);
            && b in next && b in page
            && Chain(Relinked(next[a := next[b]], runs, k, a), page[a := page[b] + n], r)
            && StartOf(r, 0) == (if k == 0 then a else runs[0].start)
  {
    var b := runs[k].start;
    var r := Free(runs, a, n);
    Node(next, page, runs, k);
    if k > 0 { StartsDiffer(runs, k - 1); NotHeader(runs, a, n, k - 1); }
    var nx, pg := Relinked(next[a := next[b]], runs, k, a), page[a := page[b] + n];
    forall i | 0 <= i < |r|
      ensures NodeAt(nx, pg, r, i)
    {
      Node(next, page, runs, i);
      NotHeader(runs, a, n, i);
    }
  }

  /** The first of the pages to be freed is no header. */
  lemma NotHeader(runs: seq<Run>, a: int, n: nat, i: nat)
    requires Canon(runs) && InUse(runs, a, n) && n > 0 && i < |runs|
    ensures runs[i].start != a
  {
    assert RunFits(runs, i);
    assert Holds(runs, i, runs[i].start);
    assert FreePage(runs, runs[i].start);
  }

  lemma NewChain(next: map<int, int>, page: map<int, int>, runs: seq<Run>, k: nat, a: int, n: nat)
    requires Canon(runs) && Chain(next, page, runs) && k <= |runs| && 0 <= a && n > 0 && InUse(runs, a, n)
    requires k < |runs| ==> runs[k].start > a + n
    requires Free(runs, a, n) == runs[..k] + Free(runs[k..], a, n)
    ensures var r := Free(runs, a, n);
            && Chain(Relinked(next[a := StartOf(runs, k)], runs, k, a), page[a := n], r)
            && StartOf(r, 0) == (if k == 0 then a else runs[0].start)
  {
    hide Canon, InUse, Free;
    NewRuns(runs, k, a, n);
    var r := runs[..k] + [Run(a, n)] + runs[k..];
    if k > 0 { StartsDiffer(runs, k - 1); NotHeader(runs, a, n, k - 1); }
    var nx, pg := Relinked(next[a := StartOf(runs, k)], runs, k, a), page[a := n];
    forall i | 0 <= i < |r|
      ensures NodeAt(nx, pg, r, i)
    {
      if i != k {
        var j := if i < k then i else i - 1;
        Node(next, page, runs, j);
        NotHeader(runs, a, n, j);
      }
    }
  }

  lemma NewRuns(runs: seq<Run>, k: nat, a: int, n: nat)
    requires k <= |runs| && Canon(runs) && (k < |runs| ==> runs[k].start > a + n)
    requires Free(runs, a, n) == runs[..k] + Free(runs[k..], a, n)
    ensures Free(runs, a, n) == runs[..k] + [Run(a, n)] + runs[k..]
  {
    if k < |runs| { StartsDiffer(runs, k); }
  }
}
