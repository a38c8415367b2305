/** A pool cut into blocks by headers, used or unused, as memheap.c and mem.c keep one: the facts about
    splitting a block, merging neighbours, and the sum of the unused payloads that both share.

    `blocks` are the header offsets in order, the end marker included; `live` are the used ones; `hd` is
    the size of a header. */
module Tiling {
  import opened RtList

  ghost predicate Spaced(blocks: seq<int>, hd: nat, i: nat)
    requires i + 1 < |blocks|
  {
    blocks[i] + hd <= blocks[i + 1]
  }

  /** The blocks start at offset 0, the last one at `last`, and are room for a header apart. */
  ghost predicate Tiled(blocks: seq<int>, hd: nat, last: int) {
    && hd > 0 && |blocks| >= 2
    && blocks[0] == 0 && blocks[|blocks| - 1] == last
    && forall i :: 0 <= i < |blocks| - 1 ==> Spaced(blocks, hd, i)
  }

  ghost predicate Fenced(blocks: seq<int>, live: set<int>, i: nat)
    requires i + 1 < |blocks|
  {
    blocks[i] in live || blocks[i + 1] in live
  }

  /** No two neighbours are both unused. */
  ghost predicate Coalesced(blocks: seq<int>, live: set<int>) {
    forall i :: 0 <= i < |blocks| - 1 ==> Fenced(blocks, live, i)
  }

  /** The unused payload between the neighbours a and c. */
  function Gap(a: int, c: int, live: set<int>, hd: nat): int {
    if a in live then 0 else c - a - hd
  }

  /** The sum of the unused payloads of the first n blocks. */
  function UnusedUpTo(blocks: seq<int>, live: set<int>, hd: nat, n: nat): int
    requires n < |blocks|
  {
    if n == 0 then 0 else UnusedUpTo(blocks, live, hd, n - 1) + Gap(blocks[n - 1], blocks[n], live, hd)
  }

  /** The sum of all unused payloads. */
  function Unused(blocks: seq<int>, live: set<int>, hd: nat): int
    requires |blocks| > 0
  {
    UnusedUpTo(blocks, live, hd, |blocks| - 1)
  }

  predicate MergesLeft(blocks: seq<int>, live: set<int>, k: nat)
    requires k + 1 < |blocks|
  {
    k > 0 && blocks[k - 1] !in live
  }

  predicate MergesRight(blocks: seq<int>, live: set<int>, k: nat)
    requires k + 1 < |blocks|
  {
    blocks[k + 1] !in live
  }

  /** The blocks once block k is merged with an unused left neighbour. */
  function LeftMerged(blocks: seq<int>, live: set<int>, k: nat): seq<int>
    requires k + 1 < |blocks|
  {
    if MergesLeft(blocks, live, k) then Dropped(blocks, k) else blocks
  }

  /** The blocks once block k is merged with its unused neighbours. */
  function MergedBlocks(blocks: seq<int>, live: set<int>, k: nat): seq<int>
    requires k + 1 < |blocks|
  {
    var rest := LeftMerged(blocks, live, k);
    if MergesRight(blocks, live, k) then Dropped(rest, if MergesLeft(blocks, live, k) then k else k + 1) else rest
  }

  lemma {:induction false} Apart(blocks: seq<int>, hd: nat, last: int, i: nat, j: nat)
    requires Tiled(blocks, hd, last) && i < j < |blocks|
    ensures blocks[i] + hd <= blocks[j]
    decreases j - i
  {
    assert Spaced(blocks, hd, j - 1);
    if i < j - 1 {
      Apart(blocks, hd, last, i, j - 1);
    }
  }

  lemma TiledNoDup(blocks: seq<int>, hd: nat, last: int)
    requires Tiled(blocks, hd, last)
    ensures NoDup(blocks)
  {
    forall i, j | 0 <= i < j < |blocks|
      ensures Differ(blocks, i, j)
    {
      Apart(blocks, hd, last, i, j);
    }
  }

  lemma TiledInsert(blocks: seq<int>, hd: nat, last: int, k: nat, n: int)
    requires Tiled(blocks, hd, last) && k + 1 < |blocks|
    requires blocks[k] + hd <= n && n + hd <= blocks[k + 1]
    ensures Tiled(Inserted(blocks, k, n), hd, last) && n !in blocks
  {
    var r := Inserted(blocks, k, n);
    assert Spaced(blocks, hd, k);
    forall i | 0 <= i < |r| - 1
      ensures Spaced(r, hd, i)
    {
      if i < k {
        assert Spaced(blocks, hd, i);
      } else if i > k + 1 {
        assert Spaced(blocks, hd, i - 1);
      }
    }
    forall i | 0 <= i < |blocks|
      ensures blocks[i] != n
    {
      if i < k { Apart(blocks, hd, last, i, k); }
      if k + 1 < i { Apart(blocks, hd, last, k + 1, i); }
    }
  }

  lemma TiledDrop(blocks: seq<int>, hd: nat, last: int, k: nat)
    requires Tiled(blocks, hd, last) && 0 < k && k + 1 < |blocks|
    ensures Tiled(Dropped(blocks, k), hd, last) && blocks[k] !in Dropped(blocks, k)
  {
    var r := Dropped(blocks, k);
    assert Spaced(blocks, hd, k - 1) && Spaced(blocks, hd, k);
    forall i | 0 <= i < |r| - 1
      ensures Spaced(r, hd, i)
    {
      assert Spaced(blocks, hd, if i < k then i else i + 1);
    }
    TiledNoDup(blocks, hd, last);
    MemberDropped(blocks, k);
  }

  // ---- the unused sum ----

  lemma {:induction false} UnusedInsertedUpTo(blocks: seq<int>, k: nat, n: int, live: set<int>, hd: nat, j: nat)
    requires k + 1 < |blocks| && j < |blocks|
    ensures j <= k ==> UnusedUpTo(Inserted(blocks, k, n), live, hd, j) == UnusedUpTo(blocks, live, hd, j)
    ensures j > k ==>
              UnusedUpTo(Inserted(blocks, k, n), live, hd, j + 1) == UnusedUpTo(blocks, live, hd, j)
              - Gap(blocks[k], blocks[k + 1], live, hd) + Gap(blocks[k], n, live, hd) + Gap(n, blocks[k + 1], live, hd)
  {
    if j > 0 {
      UnusedInsertedUpTo(blocks, k, n, live, hd, j - 1);
    }
  }

  /** Splitting block k at n exchanges its gap for two. */
  lemma UnusedInserted(blocks: seq<int>, k: nat, n: int, live: set<int>, hd: nat)
    requires k + 1 < |blocks|
    ensures Unused(Inserted(blocks, k, n), live, hd) == Unused(blocks, live, hd)
              - Gap(blocks[k], blocks[k + 1], live, hd) + Gap(blocks[k], n, live, hd) + Gap(n, blocks[k + 1], live, hd)
  {
    UnusedInsertedUpTo(blocks, k, n, live, hd, |blocks| - 1);
  }

  lemma UnusedDropped(blocks: seq<int>, k: nat, live: set<int>, hd: nat)
    requires 0 < k && k + 1 < |blocks|
    ensures Unused(Dropped(blocks, k), live, hd) == Unused(blocks, live, hd)
              + Gap(blocks[k - 1], blocks[k + 1], live, hd) - Gap(blocks[k - 1], blocks[k], live, hd) - Gap(blocks[k], blocks[k + 1], live, hd)
  {
    var d := Dropped(blocks, k);
    assert Inserted(d, k - 1, blocks[k]) == blocks;
    UnusedInserted(d, k - 1, blocks[k], live, hd);
  }

  lemma {:induction false} UnusedMarkUpTo(blocks: seq<int>, k: nat, live: set<int>, live': set<int>, hd: nat, j: nat)
    requires k + 1 < |blocks| && j < |blocks|
    requires forall i :: 0 <= i < |blocks| && i != k ==> (blocks[i] in live <==> blocks[i] in live')
    ensures UnusedUpTo(blocks, live', hd, j) == UnusedUpTo(blocks, live, hd, j)
              + (if j > k then Gap(blocks[k], blocks[k + 1], live', hd) - Gap(blocks[k], blocks[k + 1], live, hd) else 0)
  {
    if j > 0 {
      UnusedMarkUpTo(blocks, k, live, live', hd, j - 1);
    }
  }

  /** Changing the mark of block k alone changes its gap alone. */
  lemma UnusedMark(blocks: seq<int>, k: nat, live: set<int>, live': set<int>, hd: nat)
    requires k + 1 < |blocks|
    requires forall i :: 0 <= i < |blocks| && i != k ==> (blocks[i] in live <==> blocks[i] in live')
    ensures Unused(blocks, live', hd) == Unused(blocks, live, hd)
              - Gap(blocks[k], blocks[k + 1], live, hd) + Gap(blocks[k], blocks[k + 1], live', hd)
  {
    UnusedMarkUpTo(blocks, k, live, live', hd, |blocks| - 1);
  }

  /** Marks of addresses that are no blocks do not matter. */
  lemma {:induction false} UnusedSameUpTo(blocks: seq<int>, live: set<int>, live': set<int>, hd: nat, j: nat)
    requires j < |blocks| && forall i :: 0 <= i < |blocks| ==> (blocks[i] in live <==> blocks[i] in live')
    ensures UnusedUpTo(blocks, live', hd, j) == UnusedUpTo(blocks, live, hd, j)
  {
    if j > 0 {
      UnusedSameUpTo(blocks, live, live', hd, j - 1);
    }
  }

  lemma UnusedSame(blocks: seq<int>, live: set<int>, live': set<int>, hd: nat)
    requires |blocks| > 0 && forall i :: 0 <= i < |blocks| ==> (blocks[i] in live <==> blocks[i] in live')
    ensures Unused(blocks, live', hd) == Unused(blocks, live, hd)
  {
    UnusedSameUpTo(blocks, live, live', hd, |blocks| - 1);
  }

  /** A remainder split off an unused block has used neighbours. */
  lemma SplitCoalesced(blocks: seq<int>, live: set<int>, k: nat, n: int)
    requires k + 1 < |blocks| && Coalesced(blocks, live) && n !in blocks && blocks[k + 1] in live
    ensures Coalesced(Inserted(blocks, k, n), live + {blocks[k]})
  {
    var r := Inserted(blocks, k, n);
    forall i | 0 <= i < |r| - 1
      ensures Fenced(r, live + {blocks[k]}, i)
    {
      if i < k {
        assert Fenced(blocks, live, i);
      } else if i > k + 1 {
        assert Fenced(blocks, live, i - 1);
      }
    }
  }

  /** Dropping the header between two unused blocks gains one header of payload. */
  lemma MergeUnused(blocks: seq<int>, hd: nat, last: int, k: nat, live: set<int>)
    requires Tiled(blocks, hd, last) && 0 < k && k + 1 < |blocks|
    requires blocks[k - 1] !in live && blocks[k] !in live
    ensures Tiled(Dropped(blocks, k), hd, last)
    ensures Unused(Dropped(blocks, k), live, hd) == Unused(blocks, live, hd) + hd
  {
    TiledDrop(blocks, hd, last, k);
    UnusedDropped(blocks, k, live, hd);
  }

  lemma MergedBlocksMembers(blocks: seq<int>, live: set<int>, k: nat)
    requires NoDup(blocks) && k + 1 < |blocks|
    ensures forall x :: x in MergedBlocks(blocks, live, k) <==>
              x in blocks && (MergesLeft(blocks, live, k) ==> x != blocks[k]) && (MergesRight(blocks, live, k) ==> x != blocks[k + 1])
  {
    MemberDropped(blocks, k);
    MemberDropped(if MergesLeft(blocks, live, k) then Dropped(blocks, k) else blocks, if MergesLeft(blocks, live, k) then k else k + 1);
  }

  lemma MergedAt(blocks: seq<int>, live: set<int>, k: nat, i: nat)
    requires k + 1 < |blocks| && i < |MergedBlocks(blocks, live, k)|
    ensures var first := if MergesLeft(blocks, live, k) then k - 1 else k;
            var cut := (if MergesLeft(blocks, live, k) then 1 else 0) + (if MergesRight(blocks, live, k) then 1 else 0);
            var i' := if i <= first then i else i + cut;
            i' < |blocks| && MergedBlocks(blocks, live, k)[i] == blocks[i'] && |MergedBlocks(blocks, live, k)| == |blocks| - cut
  {
  }

  /** After the merges the released block stands between used ones. */
  lemma MergedCoalesced(blocks: seq<int>, live: set<int>, k: nat)
    requires Coalesced(blocks, live) && NoDup(blocks) && k + 1 < |blocks| && blocks[k] in live
    ensures Coalesced(MergedBlocks(blocks, live, k), live - {blocks[k]})
  {
    var r, live' := MergedBlocks(blocks, live, k), live - {blocks[k]};
    Unique(blocks, k);
    forall i | 0 <= i < |r| - 1
      ensures Fenced(r, live', i)
    {
      var cut := |blocks| - |r|;
      MergedAt(blocks, live, k, i);
      MergedAt(blocks, live, k, i + 1);
      assert Fenced(blocks, live, i);
      assert Fenced(blocks, live, i + cut);
    }
  }

  /** A position strictly inside a block, or inside two neighbours but not at their border, is no header. */
  lemma NotABlock(blocks: seq<int>, hd: nat, last: int, k: nat, n: int)
    requires Tiled(blocks, hd, last) && 0 < k && k + 1 < |blocks| && blocks[k - 1] < n < blocks[k + 1] && n != blocks[k]
    ensures n !in blocks
  {
    forall i | 0 <= i < |blocks|
      ensures blocks[i] != n
    {
      if i < k - 1 { Apart(blocks, hd, last, i, k - 1); }
      if k + 1 < i { Apart(blocks, hd, last, k + 1, i); }
    }
  }

  /** Moving the header of an unused block keeps its neighbours used. */
  lemma MovedCoalesced(blocks: seq<int>, live: set<int>, k: nat, n: int)
    requires Coalesced(blocks, live) && k + 2 < |blocks| && blocks[k] in live && blocks[k + 1] !in live
    ensures Coalesced(Inserted(Dropped(blocks, k + 1), k, n), live)
  {
    var r := Inserted(Dropped(blocks, k + 1), k, n);
    assert r == blocks[k + 1 := n];
    forall i | 0 <= i < |r| - 1
      ensures Fenced(r, live, i)
    {
      assert Fenced(blocks, live, i);
    }
  }

  /** A remainder cut off a used block before a used one has used neighbours. */
  lemma CutCoalesced(blocks: seq<int>, live: set<int>, k: nat, n: int)
    requires Coalesced(blocks, live) && k + 1 < |blocks| && blocks[k] in live && blocks[k + 1] in live
    ensures Coalesced(Inserted(blocks, k, n), live)
  {
    var r := Inserted(blocks, k, n);
    forall i | 0 <= i < |r| - 1
      ensures Fenced(r, live, i)
    {
      if i < k {
        assert Fenced(blocks, live, i);
      } else if i > k + 1 {
        assert Fenced(blocks, live, i - 1);
      }
    }
  }

  ghost predicate PairAt(blocks: seq<int>, x: int, y: int, i: nat) {
    i + 1 < |blocks| && blocks[i] == x && blocks[i + 1] == y
  }

  /** The block of header x ends where header y begins. */
  ghost predicate Ends(blocks: seq<int>, x: int, y: int) {
    exists i: nat :: PairAt(blocks, x, y, i)
  }

  /** The block of header x has a payload of `want` bytes at least. */
  ghost predicate Holds(blocks: seq<int>, hd: nat, x: int, want: int) {
    exists y :: Ends(blocks, x, y) && y - x - hd >= want
  }

  lemma EndsInserted(blocks: seq<int>, k: nat, n: int, x: int, y: int)
    requires k + 1 < |blocks| && Ends(blocks, x, y) && x != blocks[k]
    ensures Ends(Inserted(blocks, k, n), x, y)
  {
    var i: nat :| PairAt(blocks, x, y, i);
    assert PairAt(Inserted(blocks, k, n), x, y, if i < k then i else i + 1);
  }

  lemma EndsDropped(blocks: seq<int>, k: nat, x: int, y: int)
    requires k < |blocks| && Ends(blocks, x, y) && x != blocks[k] && y != blocks[k]
    ensures Ends(Dropped(blocks, k), x, y)
  {
    var i: nat :| PairAt(blocks, x, y, i);
    assert PairAt(Dropped(blocks, k), x, y, if i < k then i else i - 1);
  }

  /** The predecessor of a header is the one block that ends there. */
  lemma EndsAt(blocks: seq<int>, hd: nat, last: int, k: nat, x: int)
    requires Tiled(blocks, hd, last) && k + 1 < |blocks| && Ends(blocks, x, blocks[k + 1])
    ensures x == blocks[k]
  {
    TiledNoDup(blocks, hd, last);
    Unique(blocks, k + 1);
    var i: nat :| PairAt(blocks, x, blocks[k + 1], i);
    assert i == k;
  }

  // ---- merging on both sides ----

  /** Where the right neighbour stands once block k is merged with its left one. */
  lemma RightIndex(blocks: seq<int>, live: set<int>, k: nat)
    requires k + 1 < |blocks|
    ensures var rest, j := LeftMerged(blocks, live, k), if MergesLeft(blocks, live, k) then k else k + 1;
            && j < |rest| && rest[j] == blocks[k + 1] && j > 0
            && rest[j - 1] == (if MergesLeft(blocks, live, k) then blocks[k - 1] else blocks[k])
            && (j + 1 < |rest| <==> k + 2 < |blocks|)
  {
  }

  /** Each merge of an unused neighbour gains one header of payload. */
  lemma MergedUnused(blocks: seq<int>, hd: nat, last: int, k: nat, live: set<int>)
    requires Tiled(blocks, hd, last) && k + 1 < |blocks| && blocks[k] in live && last in live && NoDup(blocks)
    ensures var r, live' := MergedBlocks(blocks, live, k), live - {blocks[k]};
            && Tiled(r, hd, last)
            && Unused(r, live', hd) == Unused(blocks, live', hd) + (if MergesLeft(blocks, live, k) then hd else 0)
                                       + (if MergesRight(blocks, live, k) then hd else 0)
  {
    hide Dropped, Unused, Tiled, NoDup;
    var live' := live - {blocks[k]};
    var rest := LeftMerged(blocks, live, k);
    LastOf(blocks, hd, last);
    if MergesLeft(blocks, live, k) { MergeUnused(blocks, hd, last, k, live'); }
    RightIndex(blocks, live, k);
    if MergesRight(blocks, live, k) {
      MergeUnused(rest, hd, last, if MergesLeft(blocks, live, k) then k else k + 1, live');
    }
  }

  lemma LastOf(blocks: seq<int>, hd: nat, last: int)
    requires Tiled(blocks, hd, last)
    ensures |blocks| >= 2 && blocks[|blocks| - 1] == last
  {
  }

  /** The extent of another used block does not change. */
  lemma EndsMerged(blocks: seq<int>, live: set<int>, hd: nat, last: int, k: nat, x: int, y: int)
    requires Tiled(blocks, hd, last) && k + 1 < |blocks| && blocks[k] in live
    requires Ends(blocks, x, y) && x in live && x != blocks[k]
    ensures Ends(MergedBlocks(blocks, live, k), x, y)
  {
    hide Dropped, Ends, Tiled;
    if MergesLeft(blocks, live, k) {
      if y == blocks[k] { EndsAt(blocks, hd, last, k - 1, x); }
      EndsDropped(blocks, k, x, y);
    }
    RightIndex(blocks, live, k);
    if MergesRight(blocks, live, k) {
      if y == blocks[k + 1] { EndsAt(blocks, hd, last, k, x); }
      EndsDropped(LeftMerged(blocks, live, k), if MergesLeft(blocks, live, k) then k else k + 1, x, y);
    }
  }
}
