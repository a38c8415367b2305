/** The search for dependency loops among symbols outside choices (_check_dep_loop_sym in kconfiglib.py): a
    depth-first search along the dependents, and the ranks it shows to exist. */
module KconfigLoop {
  import opened KconfigExpr
  import opened KconfigCacheModel

  ghost predicate Edge(next: map<int, set<int>>, a: int, b: int) {
    a in next && b in next[a]
  }

  ghost predicate EdgeAt(next: map<int, set<int>>, path: seq<int>, i: nat) {
    i + 1 < |path| && Edge(next, path[i], path[i + 1])
  }

  ghost predicate IsPath(next: map<int, set<int>>, path: seq<int>) {
    forall i :: 0 <= i < |path| - 1 ==> EdgeAt(next, path, i)
  }

  /** A way along the dependents that comes back to where it began */
  ghost predicate IsLoop(next: map<int, set<int>>, path: seq<int>) {
    |path| > 1 && IsPath(next, path) && path[0] == path[|path| - 1]
  }

  /** Ranks that rise along all edges */
  ghost predicate Rises(next: map<int, set<int>>, rank: map<int, nat>) {
    forall a, b :: Edge(next, a, b) ==> a in rank && b in rank && rank[a] < rank[b]
  }

  /** With such ranks there is no loop. */
  lemma {:induction false} RisesAlong(next: map<int, set<int>>, rank: map<int, nat>, path: seq<int>, k: nat)
    requires Rises(next, rank) && IsPath(next, path) && 0 < k < |path|
    ensures path[0] in rank && path[k] in rank && rank[path[0]] < rank[path[k]]
  {
    assert EdgeAt(next, path, k - 1);
    if k > 1 { RisesAlong(next, rank, path, k - 1); }
  }

  lemma NoLoopWithRanks(next: map<int, set<int>>, rank: map<int, nat>, path: seq<int>)
    requires Rises(next, rank)
    ensures !IsLoop(next, path)
  {
    if IsLoop(next, path) { RisesAlong(next, rank, path, |path| - 1); }
  }

  lemma PathGrows(next: map<int, set<int>>, path: seq<int>, b: int)
    requires IsPath(next, path) && (path != [] ==> Edge(next, path[|path| - 1], b))
    ensures IsPath(next, path + [b])
  {
    var r := path + [b];
    forall i | 0 <= i < |r| - 1
      ensures EdgeAt(next, r, i)
    {
      if i < |path| - 1 { assert EdgeAt(next, path, i); }
    }
  }

  lemma PathTail(next: map<int, set<int>>, path: seq<int>, k: nat)
    requires IsPath(next, path) && k <= |path|
    ensures IsPath(next, path[k..])
  {
    var r := path[k..];
    forall i | 0 <= i < |r| - 1
      ensures EdgeAt(next, r, i)
    {
      assert EdgeAt(next, path, k + i);
    }
  }

  /** Every symbol is unvisited (0), on the way (1) or done (2). */
  ghost predicate Marks(next: map<int, set<int>>, visited: map<int, int>, path: seq<int>) {
    && visited.Keys == next.Keys
    && (forall a :: a in visited ==> 0 <= visited[a] <= 2 && (visited[a] == 1 <==> a in path))
    && (forall a :: a in path ==> a in visited)
  }

  /** What is done has only dependents that were done before it. */
  ghost predicate DoneOk(next: map<int, set<int>>, visited: map<int, int>, finish: map<int, nat>, clock: nat) {
    && (forall a :: a in visited && visited[a] == 2 ==> a in finish && finish[a] < clock)
    && forall a, b :: Edge(next, a, b) && a in visited && visited[a] == 2 ==>
         b in visited && visited[b] == 2 && b in finish && finish[b] < finish[a]
  }

  ghost function UnvisitedIn(visited: map<int, int>): set<int> {
    set a | a in visited && visited[a] == 0
  }

  lemma OtherUnvisited(visited: map<int, int>, s: int)
    ensures UnvisitedIn(visited[s := 2]) <= UnvisitedIn(visited)
    ensures s !in UnvisitedIn(visited[s := 1]) && UnvisitedIn(visited[s := 1]) <= UnvisitedIn(visited)
  {
  }

  class LoopSearch {
    const next: map<int, set<int>>             // _dependents
    var visited: map<int, int>                 // _visited
    ghost var finish: map<int, nat>
    ghost var clock: nat

    ghost predicate Valid(path: seq<int>)
      reads this
    {
      && (forall a, b :: Edge(next, a, b) ==> b in next)
      && Marks(next, visited, path) && IsPath(next, path) && DoneOk(next, visited, finish, clock)
    }

    ghost function Unvisited(): set<int>
      reads this
    {
      UnvisitedIn(visited)
    }

    constructor (next: map<int, set<int>>)
      requires forall a, b :: Edge(next, a, b) ==> b in next
      ensures Valid([]) && this.next == next
    {
      this.next := next;
      visited := map a | a in next :: 0;
      finish, clock := map[], 0;
    }

    /** _check_dep_loop_sym, entered from the symbols of path; `loop` is the loop found */
    method CheckDepLoop(s: int, ghost path: seq<int>) returns (found: bool, ghost loop: seq<int>)
      requires Valid(path) && s in next && (path != [] ==> Edge(next, path[|path| - 1], s))
      modifies this
      ensures found ==> IsLoop(next, loop)
      ensures !found ==> Valid(path) && visited[s] == 2 && Unvisited() <= old(Unvisited())
      ensures !found ==> forall a :: a in visited && old(visited)[a] == 2 ==> visited[a] == 2
      decreases |Unvisited()|
    {
      hide IsPath, DoneOk;
      loop := [];
      if visited[s] == 0 {
        ghost var path' := path + [s];
        PathGrows(next, path, s);
        MarkOnWay(next, visited, path, finish, clock, s);
        ghost var before := Unvisited();
        OtherUnvisited(visited, s);
        visited := visited[s := 1];
        FewerUnvisited(Unvisited(), before, s);
        var rest := next[s];
        while rest != {}
          invariant Valid(path') && visited[s] == 1 && Unvisited() <= before - {s} && rest <= next[s]
          invariant forall b :: b in next[s] && b !in rest ==> b in visited && visited[b] == 2
          invariant forall a :: a in visited && old(visited)[a] == 2 ==> visited[a] == 2
          decreases rest
        {
          SomeElement(rest);
          var dep :| dep in rest;
          FewerUnvisited(Unvisited(), before, s);
          ghost var was := visited;
          assert Edge(next, s, dep);
          found, loop := CheckDepLoop(dep, path');
          if found { return; }
          StillDone(next[s], rest, was, visited);
          rest := rest - {dep};
        }
        MarkDone(next, visited, path, finish, clock, s);
        OtherUnvisited(visited, s);
        visited := visited[s := 2];
        finish := finish[s := clock];
        clock := clock + 1;
        return false, [];
      }
      if visited[s] == 2 { return false, []; }
      ghost var k :| 0 <= k < |path| && path[k] == s;
      PathGrows(next, path, s);
      PathTail(next, path + [s], k);
      found, loop := true, (path + [s])[k..];
    }

    /** The check of all symbols: a loop, or ranks that show that there is none */
    method CheckAll(symbols: seq<int>) returns (found: bool, ghost loop: seq<int>, ghost rank: map<int, nat>)
      requires Valid([]) && forall a :: a in symbols <==> a in next
      modifies this
      ensures found ==> IsLoop(next, loop)
      ensures !found ==> Rises(next, rank) && forall a :: a in next ==> a in rank
    {
      hide IsPath, DoneOk, Marks;
      found, loop, rank := false, [], map[];
      var i := 0;
      while i < |symbols|
        invariant 0 <= i <= |symbols| && Valid([])
        invariant forall j :: 0 <= j < i ==> symbols[j] in visited && visited[symbols[j]] == 2
      {
        var s := symbols[i];
        assert s in symbols;
        KnownMarks(next, visited, []);
        ghost var was := visited;
        found, loop := CheckDepLoop(s, []);
        if found { return; }
        KnownMarks(next, visited, []);
        forall j | 0 <= j < i + 1
          ensures symbols[j] in visited && visited[symbols[j]] == 2
        {
          var a := symbols[j];
          assert a in was && a in visited;
        }
        i := i + 1;
      }
      AllDone(next, visited, symbols);
      rank := RankOf(next, visited, finish, clock);
    }
  }

  lemma KnownMarks(next: map<int, set<int>>, visited: map<int, int>, path: seq<int>)
    requires Marks(next, visited, path)
    ensures visited.Keys == next.Keys
  {
  }

  lemma MarkOnWay(next: map<int, set<int>>, visited: map<int, int>, path: seq<int>, finish: map<int, nat>, clock: nat, s: int)
    requires Marks(next, visited, path) && DoneOk(next, visited, finish, clock) && s in next && visited[s] == 0
    ensures Marks(next, visited[s := 1], path + [s]) && DoneOk(next, visited[s := 1], finish, clock)
  {
    assert visited[s := 1].Keys == visited.Keys;
  }

  lemma MarkDone(next: map<int, set<int>>, visited: map<int, int>, path: seq<int>, finish: map<int, nat>, clock: nat, s: int)
    requires Marks(next, visited, path + [s]) && DoneOk(next, visited, finish, clock) && s in next && visited[s] == 1 && s !in path
    requires forall b :: b in next[s] ==> b in visited && visited[b] == 2
    ensures Marks(next, visited[s := 2], path) && DoneOk(next, visited[s := 2], finish[s := clock], clock + 1)
  {
    assert visited[s := 2].Keys == visited.Keys;
  }

  lemma FewerUnvisited(a: set<int>, b: set<int>, s: int)
    requires s in b && a <= b - {s}
    ensures |a| < |b|
  {
    var c := b - {s};
    assert b == c + {s};
    assert c == a + (c - a);
  }

  lemma StillDone(all: set<int>, rest: set<int>, was: map<int, int>, now: map<int, int>)
    requires forall b :: b in all && b !in rest ==> b in was && was[b] == 2
    requires forall a :: a in was && was[a] == 2 ==> a in now && now[a] == 2
    ensures forall b :: b in all && b !in rest ==> b in now && now[b] == 2
  {
  }

  lemma AllDone(next: map<int, set<int>>, visited: map<int, int>, symbols: seq<int>)
    requires (forall a :: a in symbols <==> a in next)
    requires forall j :: 0 <= j < |symbols| ==> symbols[j] in visited && visited[symbols[j]] == 2
    ensures forall a :: a in next ==> a in visited && visited[a] == 2
  {
    forall a | a in next
      ensures a in visited && visited[a] == 2
    {
      assert a in symbols;
      var j :| 0 <= j < |symbols| && symbols[j] == a;
    }
  }

  /** Counting the finishing times backwards gives ranks. */
  lemma RankOf(next: map<int, set<int>>, visited: map<int, int>, finish: map<int, nat>, clock: nat) returns (rank: map<int, nat>)
    requires DoneOk(next, visited, finish, clock) && (forall a, b :: Edge(next, a, b) ==> b in next)
    requires forall a :: a in next ==> a in visited && visited[a] == 2
    ensures Rises(next, rank) && forall a :: a in next ==> a in rank
  {
    rank := map a | a in next :: if a in finish && finish[a] < clock then clock - finish[a] else 0;
  }

  // ---- ranks for evaluation ----

  /** next are the dependents that _build_dep makes known. */
  ghost predicate DependentsIn(c: Config, next: map<int, set<int>>) {
    next.Keys == c.defs.Keys && forall a, b :: Edge(next, a, b) <==> a in c.defs && DependsOn(c, b, a)
  }

  ghost predicate Reaches(next: map<int, set<int>>, a: int, b: int) {
    exists path: seq<int> :: path != [] && IsPath(next, path) && path[0] == a && path[|path| - 1] == b
  }

  lemma ReachesItself(next: map<int, set<int>>, a: int)
    ensures Reaches(next, a, a)
  {
    assert IsPath(next, [a]);
  }

  lemma ReachesBack(next: map<int, set<int>>, a: int, b: int, c: int)
    requires Edge(next, a, b) && Reaches(next, b, c)
    ensures Reaches(next, a, c)
  {
    var path :| path != [] && IsPath(next, path) && path[0] == b && path[|path| - 1] == c;
    var r := [a] + path;
    forall i | 0 <= i < |r| - 1
      ensures EdgeAt(next, r, i)
    {
      if i > 0 { assert EdgeAt(next, path, i - 1); }
    }
    assert IsPath(next, r);
  }

  /** Acyclicity is about the dependents, and about MODULES, which every tristate symbol reads. */
  lemma AcyclicIs(c: Config, next: map<int, set<int>>, rank: map<int, nat>)
    requires DependentsIn(c, next)
    ensures Acyclic(c, rank) <==>
              && (forall b :: b in c.defs ==> b in rank) && Rises(next, rank)
              && (c.modules in c.defs ==> forall b :: b in c.defs && c.defs[b].kind == TRISTATE ==> rank[c.modules] < rank[b])
  {
    hide DefItems;
    if Acyclic(c, rank) {
      forall b | b in c.defs
        ensures Ranked(c, rank, b)
      {
      }
      forall a, b | Edge(next, a, b)
        ensures a in rank && b in rank && rank[a] < rank[b]
      {
        assert DependsOn(c, b, a) && Ranked(c, rank, b);
      }
    }
    if (forall b :: b in c.defs ==> b in rank) && Rises(next, rank)
       && (c.modules in c.defs ==> forall b :: b in c.defs && c.defs[b].kind == TRISTATE ==> rank[c.modules] < rank[b]) {
      forall b | b in c.defs
        ensures Ranked(c, rank, b)
      {
        forall a | a in Reads(c, c.defs[b]) && a in c.defs
          ensures a in rank && rank[a] < rank[b]
        {
          if a in DefItems(c.defs[b]) { assert DependsOn(c, b, a) && Edge(next, a, b); }
        }
      }
    }
  }

  /** MODULES does not depend on a tristate symbol, directly or not, and is none itself. */
  ghost predicate ModulesFree(c: Config, next: map<int, set<int>>) {
    c.modules in c.defs ==> forall b :: b in c.defs && c.defs[b].kind == TRISTATE ==> !Reaches(next, b, c.modules)
  }

  /** Where the search finds no loop, there are ranks for all that is read, MODULES included, if and only if MODULES
      does not depend on a tristate symbol: the search does not follow the way from MODULES to those. */
  lemma LoopFreeIsAcyclic(c: Config, next: map<int, set<int>>, rank: map<int, nat>)
    requires DependentsIn(c, next) && Rises(next, rank) && forall b :: b in c.defs ==> b in rank
    ensures (exists r: map<int, nat> :: Acyclic(c, r)) <==> ModulesFree(c, next)
  {
    if ModulesFree(c, next) {
      var r := Lifted(c, next, rank);
      AcyclicIs(c, next, r);
    }
    forall r: map<int, nat> | Acyclic(c, r)
      ensures ModulesFree(c, next)
    {
      AcyclicIs(c, next, r);
      forall b | c.modules in c.defs && b in c.defs && c.defs[b].kind == TRISTATE
        ensures !Reaches(next, b, c.modules)
      {
        if Reaches(next, b, c.modules) { NotBehind(next, r, b, c.modules); }
      }
    }
  }

  lemma NotBehind(next: map<int, set<int>>, rank: map<int, nat>, a: int, b: int)
    requires Rises(next, rank) && Reaches(next, a, b) && a in rank && b in rank
    ensures rank[a] <= rank[b]
  {
    var path :| path != [] && IsPath(next, path) && path[0] == a && path[|path| - 1] == b;
    if |path| > 1 { RisesAlong(next, rank, path, |path| - 1); }
  }

  /** Ranks in which all symbols that MODULES does not depend on come behind it */
  lemma Lifted(c: Config, next: map<int, set<int>>, rank: map<int, nat>) returns (r: map<int, nat>)
    requires DependentsIn(c, next) && Rises(next, rank) && (forall b :: b in c.defs ==> b in rank) && ModulesFree(c, next)
    ensures (forall b :: b in c.defs ==> b in r) && Rises(next, r)
    ensures c.modules in c.defs ==> forall b :: b in c.defs && c.defs[b].kind == TRISTATE ==> r[c.modules] < r[b]
  {
    if c.modules !in c.defs { return rank; }
    hide DependsOn, Reaches;
    var m := c.modules;
    r := map a | a in rank :: if Reaches(next, a, m) then rank[a] else rank[a] + rank[m] + 1;
    ReachesItself(next, m);
    forall a, b | Edge(next, a, b)
      ensures a in r && b in r && r[a] < r[b]
    {
      if Reaches(next, b, m) { ReachesBack(next, a, b, m); }
    }
  }
}
