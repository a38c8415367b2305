/** The symbol caches of kconfiglib.py: values computed once and kept, and dropped again when a user value
    changes. */
module KconfigCache {
  import opened KconfigExpr
  import opened KconfigCacheModel

  /** The defined symbols of e have ranks below r. */
  ghost predicate Below(c: Config, rank: map<int, nat>, e: Expr, r: nat) {
    forall a :: a in Items(e) && a in c.defs ==> a in rank && rank[a] < r
  }

  function DependentsOf(dependents: map<int, set<int>>, a: int): set<int> {
    if a in dependents then dependents[a] else {}
  }

  /** _dependents of every symbol that can change its value: all symbols that may depend on it */
  ghost predicate DependentsOk(c: Config, dependents: map<int, set<int>>) {
    forall a, b :: a in c.defs ==> (b in DependentsOf(dependents, a) <==> DependsOn(c, b, a))
  }

  class Symbols {
    const c: Config
    const defined: seq<int>                    // unique_defined_syms
    var userValue: map<int, Tri>
    var cachedTri: map<int, Tri>               // _cached_tri_val
    var cachedVis: map<int, Tri>               // _cached_vis
    var dependents: map<int, set<int>>
    ghost const rank: map<int, nat>

    ghost predicate Static()
      reads this`dependents
    {
      && Acyclic(c, rank) && DependentsOk(c, dependents)
      && (forall s :: s in defined <==> s in c.defs) && (forall s :: s in c.consts ==> s !in c.defs)
    }

    ghost predicate Valid()
      reads this
    {
      Static() && Consistent(c, userValue, cachedTri, cachedVis)
    }

    /** A configuration as the parser leaves it, with nothing cached: _build_dep fills the dependents. */
    constructor (c: Config, defined: seq<int>, ghost rank: map<int, nat>)
      requires Acyclic(c, rank) && (forall s :: s in defined <==> s in c.defs) && forall s :: s in c.consts ==> s !in c.defs
      ensures Valid() && this.c == c && this.rank == rank
      ensures userValue == map[] && cachedTri == map[] && cachedVis == map[]
    {
      this.c, this.defined, this.rank := c, defined, rank;
      userValue, cachedTri, cachedVis, dependents := map[], map[], map[], map[];
      new;
      BuildDep();
    }

    // ---- _build_dep ----

    /** _make_depend_on */
    method MakeDependOn(sc: int, e: Expr)
      modifies this`dependents
      ensures Added(old(dependents), dependents, Items(e), c.consts.Keys, sc)
      decreases e
    {
      hide Added;
      ghost var before := dependents;
      match e
      case Sym(s) => Add(s, sc);
      case And(l, r) =>
        MakeDependOn(sc, l);
        ghost var mid := dependents;
        MakeDependOn(sc, r);
        AddedTwice(before, mid, dependents, Items(l), Items(r), c.consts.Keys, sc);
      case Or(l, r) =>
        MakeDependOn(sc, l);
        ghost var mid := dependents;
        MakeDependOn(sc, r);
        AddedTwice(before, mid, dependents, Items(l), Items(r), c.consts.Keys, sc);
      case Not(x) => MakeDependOn(sc, x);
      case Rel(op, a, b) =>
        Add(a, sc);
        ghost var mid := dependents;
        Add(b, sc);
        AddedTwice(before, mid, dependents, {a}, {b}, c.consts.Keys, sc);
        assert {a} + {b} == {a, b};
    }

    method Add(a: int, sc: int)
      modifies this`dependents
      ensures Added(old(dependents), dependents, {a}, c.consts.Keys, sc)
    {
      if a !in c.consts {
        dependents := dependents[a := DependentsOf(dependents, a) + {sc}];
      }
    }

    /** The part of _build_dep for the prompts of a symbol */
    method BuildPrompts(sc: int, ps: seq<Expr>)
      modifies this`dependents
      ensures Added(old(dependents), dependents, ItemsOf(ps), c.consts.Keys, sc)
    {
      hide Added;
      var i := 0;
      ghost var before := dependents;
      ghost var seen: set<int> := {};
      AddedNone(before, c.consts.Keys, sc);
      assert ps[i..] == ps;
      while i < |ps|
        invariant 0 <= i <= |ps|
        invariant seen + ItemsOf(ps[i..]) == ItemsOf(ps)
        invariant Added(before, dependents, seen, c.consts.Keys, sc)
      {
        assert ps[i..][1..] == ps[i + 1..];
        ghost var mid := dependents;
        MakeDependOn(sc, ps[i]);
        AddedTwice(before, mid, dependents, seen, Items(ps[i]), c.consts.Keys, sc);
        seen := seen + Items(ps[i]);
        i := i + 1;
      }
      assert seen == ItemsOf(ps);
    }

    /** The part for its defaults */
    method BuildDefaults(sc: int, ds: seq<(Expr, Expr)>)
      modifies this`dependents
      ensures Added(old(dependents), dependents, DefaultItems(ds), c.consts.Keys, sc)
    {
      hide Added;
      var i := 0;
      ghost var before := dependents;
      ghost var seen: set<int> := {};
      AddedNone(before, c.consts.Keys, sc);
      assert ds[i..] == ds;
      while i < |ds|
        invariant 0 <= i <= |ds|
        invariant seen + DefaultItems(ds[i..]) == DefaultItems(ds)
        invariant Added(before, dependents, seen, c.consts.Keys, sc)
      {
        assert ds[i..][1..] == ds[i + 1..];
        ghost var mid := dependents;
        MakeDependOn(sc, ds[i].0);
        AddedTwice(before, mid, dependents, seen, Items(ds[i].0), c.consts.Keys, sc);
        seen := seen + Items(ds[i].0);
        mid := dependents;
        MakeDependOn(sc, ds[i].1);
        AddedTwice(before, mid, dependents, seen, Items(ds[i].1), c.consts.Keys, sc);
        seen := seen + Items(ds[i].1);
        i := i + 1;
      }
      assert seen == DefaultItems(ds);
    }

    /** The part of _build_dep for one symbol */
    method BuildDepOf(sc: int)
      requires sc in c.defs
      modifies this`dependents
      ensures Added(old(dependents), dependents, DefItems(c.defs[sc]), c.consts.Keys, sc)
    {
      hide Added, ItemsOf, DefaultItems, Items;
      var d := c.defs[sc];
      ghost var before, k := dependents, c.consts.Keys;
      BuildPrompts(sc, d.prompts);
      ghost var s1 := dependents;
      BuildDefaults(sc, d.defaults);
      AddedTwice(before, s1, dependents, ItemsOf(d.prompts), DefaultItems(d.defaults), k, sc);
      ghost var items := ItemsOf(d.prompts) + DefaultItems(d.defaults);
      ghost var s2 := dependents;
      MakeDependOn(sc, d.revDep);
      AddedTwice(before, s2, dependents, items, Items(d.revDep), k, sc);
      ghost var s3 := dependents;
      MakeDependOn(sc, d.weakRevDep);
      AddedTwice(before, s3, dependents, items + Items(d.revDep), Items(d.weakRevDep), k, sc);
      ghost var s4 := dependents;
      MakeDependOn(sc, d.directDep);
      AddedTwice(before, s4, dependents, items + Items(d.revDep) + Items(d.weakRevDep), Items(d.directDep), k, sc);
    }

    /** _build_dep */
    method BuildDep()
      requires dependents == map[] && (forall s :: s in defined <==> s in c.defs)
      requires forall s :: s in c.consts ==> s !in c.defs
      modifies this`dependents
      ensures DependentsOk(c, dependents)
    {
      var i := 0;
      while i < |defined|
        invariant 0 <= i <= |defined|
        invariant forall a, b :: a in c.defs ==> (b in DependentsOf(dependents, a) <==> b in defined[..i] && DependsOn(c, b, a))
      {
        assert defined[..i + 1] == defined[..i] + [defined[i]];
        var s := defined[i];
        assert s in defined;
        BuildDepOf(s);
        i := i + 1;
      }
      assert defined[..i] == defined;
    }

    // ---- reading ----

    /** expr_value */
    method ExprValue(e: Expr, ghost r: nat) returns (v: Tri)
      requires Valid() && Below(c, rank, e, r)
      modifies this`cachedTri, this`cachedVis
      ensures Valid() && Within(old(cachedTri), cachedTri) && Within(old(cachedVis), cachedVis)
      ensures Eval(c, e, cachedTri) == Some(v)
      decreases r, 1, e
    {
      hide Acyclic, Consistent, DependentsOk;
      match e
      case Sym(s) =>
        v := SymValue(s, r);
      case And(left, right) =>
        var v1 := ExprValue(left, r);
        if v1 == 0 {
          v := 0;
        } else {
          ghost var tri := cachedTri;
          var v2 := ExprValue(right, r);
          EvalWithin(c, left, tri, cachedTri);
          v := Min(v1, v2);
        }
      case Or(left, right) =>
        var v1 := ExprValue(left, r);
        if v1 == 2 {
          v := 2;
        } else {
          ghost var tri := cachedTri;
          var v2 := ExprValue(right, r);
          EvalWithin(c, left, tri, cachedTri);
          v := Max(v1, v2);
        }
      case Not(x) =>
        var w := ExprValue(x, r);
        v := 2 - w;
      case Rel(op, a, b) =>
        var v1 := SymValue(a, r);
        ghost var tri := cachedTri;
        var v2 := SymValue(b, r);
        v := if c.relation(op, a, v1, b, v2) then 2 else 0;
    }

    /** The value of a symbol that an expression names: constant, undefined, or computed */
    method SymValue(s: int, ghost r: nat) returns (v: Tri)
      requires Valid() && (s in c.defs ==> s in rank && rank[s] < r)
      modifies this`cachedTri, this`cachedVis
      ensures Valid() && Within(old(cachedTri), cachedTri) && Within(old(cachedVis), cachedVis)
      ensures Leaf(c, cachedTri, s) == Some(v)
      decreases r, 0
    {
      hide Acyclic, Consistent, DependentsOk;
      if s in c.defs {
        v := TriValue(s);
      } else if s in c.consts {
        v := c.consts[s];
      } else {
        v := 0;
      }
    }

    /** The `type` property, as far as it is BOOL */
    method IsBoolNow(s: int) returns (b: bool)
      requires Valid() && s in c.defs
      modifies this`cachedTri, this`cachedVis
      ensures Valid() && Within(old(cachedTri), cachedTri) && Within(old(cachedVis), cachedVis)
      ensures IsBool(c, c.defs[s], cachedTri) == Some(if b then 1 else 0)
      decreases rank[s], 2
    {
      hide Acyclic, Consistent, DependentsOk;
      RankOf(c, rank, s);
      if c.defs[s].kind == BOOL {
        b := true;
      } else {
        var m := SymValue(c.modules, rank[s]);
        b := m == 0;
      }
    }

    /** _visibility */
    method ComputeVis(s: int) returns (v: Tri)
      requires Valid() && s in c.defs
      modifies this`cachedTri, this`cachedVis
      ensures Valid() && Within(old(cachedTri), cachedTri) && Within(old(cachedVis), cachedVis)
      ensures VisOf(c, c.defs[s], cachedTri) == Some(v)
      decreases rank[s], 3
    {
      hide Acyclic, Consistent, DependentsOk, Eval, IsBool;
      var d := c.defs[s];
      RankOf(c, rank, s);
      var vis: Tri := 0;
      var i := 0;
      ghost var tri0, vis0 := cachedTri, cachedVis;
      PromptsFrom(c, d.prompts, cachedTri);
      while i < |d.prompts|
        invariant 0 <= i <= |d.prompts| && Valid()
        invariant Within(tri0, cachedTri) && Within(vis0, cachedVis)
        invariant PromptsTo(c, d.prompts, cachedTri, i, vis)
      {
        PromptBelow(c, rank, d, i, rank[s]);
        ghost var tri := cachedTri;
        var p := ExprValue(d.prompts[i], rank[s]);
        PromptsStep(c, d.prompts, tri, cachedTri, i, vis, p);
        vis := Max(vis, p);
        i := i + 1;
      }
      PromptsDone(c, d.prompts, cachedTri, vis);
      if vis == 1 {
        ghost var tri := cachedTri;
        var b := IsBoolNow(s);
        PromptMaxWithin(c, d.prompts, tri, cachedTri, 0);
        v := if b then 2 else 1;
      } else {
        v := vis;
      }
    }

    /** visibility */
    method Visibility(s: int) returns (v: Tri)
      requires Valid() && s in c.defs
      modifies this`cachedTri, this`cachedVis
      ensures Valid() && Within(old(cachedTri), cachedTri) && Within(old(cachedVis), cachedVis)
      ensures s in cachedVis && v == cachedVis[s]
      decreases rank[s], 4
    {
      hide Acyclic, DependentsOk, VisOf, TriOf;
      if s !in cachedVis {
        v := ComputeVis(s);
        cachedVis := cachedVis[s := v];
      } else {
        v := cachedVis[s];
      }
    }

    /** The defaults of tri_value */
    method DefaultValue(s: int) returns (v: Tri)
      requires Valid() && s in c.defs
      modifies this`cachedTri, this`cachedVis
      ensures Valid() && Within(old(cachedTri), cachedTri) && Within(old(cachedVis), cachedVis)
      ensures DefaultOf(c, c.defs[s].defaults, cachedTri) == Some(v)
      decreases rank[s], 2
    {
      hide Acyclic, Consistent, DependentsOk, Eval;
      var ds := c.defs[s].defaults;
      RankOf(c, rank, s);
      var i := 0;
      ghost var tri0, vis0 := cachedTri, cachedVis;
      v := 0;
      while i < |ds|
        invariant 0 <= i <= |ds| && Valid() && v == 0
        invariant Within(tri0, cachedTri) && Within(vis0, cachedVis)
        invariant SkippedTo(c, ds, cachedTri, i)
      {
        DefaultBelow(c, rank, c.defs[s], i, rank[s]);
        ghost var tri := cachedTri;
        var cond := ExprValue(ds[i].1, rank[s]);
        SkippedWithin(c, ds, tri, cachedTri, i);
        if cond != 0 {
          tri := cachedTri;
          var val := ExprValue(ds[i].0, rank[s]);
          EvalWithin(c, ds[i].1, tri, cachedTri);
          SkippedWithin(c, ds, tri, cachedTri, i);
          DefaultAt(c, ds, cachedTri, i, val, cond);
          return Min(val, cond);
        }
        i := i + 1;
      }
      DefaultNone(c, ds, cachedTri);
    }

    /** The part of tri_value without a user value that counts */
    method WeakValue(s: int) returns (v: Tri)
      requires Valid() && s in c.defs
      modifies this`cachedTri, this`cachedVis
      ensures Valid() && Within(old(cachedTri), cachedTri) && Within(old(cachedVis), cachedVis)
      ensures WeakOf(c, c.defs[s], cachedTri) == Some(v)
      decreases rank[s], 3
    {
      hide Acyclic, Consistent, DependentsOk, Eval, DefaultOf;
      var d := c.defs[s];
      RankOf(c, rank, s);
      DepsBelow(c, rank, d, rank[s]);
      v := DefaultValue(s);
      ghost var tri := cachedTri;
      var w := ExprValue(d.weakRevDep, rank[s]);
      DefaultWithin(c, d.defaults, tri, cachedTri);
      if w != 0 {
        tri := cachedTri;
        var dd := ExprValue(d.directDep, rank[s]);
        DefaultWithin(c, d.defaults, tri, cachedTri);
        EvalWithin(c, d.weakRevDep, tri, cachedTri);
        if dd != 0 {
          v := Max(w, v);
        }
      }
    }

    /** The last part of tri_value: m to y */
    method Promote(s: int, val: Tri) returns (v: Tri)
      requires Valid() && s in c.defs
      modifies this`cachedTri, this`cachedVis
      ensures Valid() && Within(old(cachedTri), cachedTri) && Within(old(cachedVis), cachedVis)
      ensures Promoted(c, c.defs[s], val, cachedTri) == Some(v)
      decreases rank[s], 3
    {
      hide Acyclic, Consistent, DependentsOk, Eval, IsBool;
      var d := c.defs[s];
      RankOf(c, rank, s);
      DepsBelow(c, rank, d, rank[s]);
      v := val;
      if val == 1 {
        var b := IsBoolNow(s);
        if b {
          v := 2;
        } else {
          ghost var tri := cachedTri;
          var w := ExprValue(d.weakRevDep, rank[s]);
          IsBoolWithin(c, d, tri, cachedTri);
          if w == 2 {
            v := 2;
          }
        }
      }
    }

    /** The value before selects: the user value if the symbol is visible, or what defaults and implies give */
    method BaseValue(s: int) returns (v: Tri)
      requires Valid() && s in c.defs
      modifies this`cachedTri, this`cachedVis
      ensures Valid() && Within(old(cachedTri), cachedTri) && Within(old(cachedVis), cachedVis)
      ensures BaseOf(c, c.defs[s], UserOf(userValue, s), cachedTri) == Some(v) && s in cachedVis
      decreases rank[s], 5
    {
      hide Acyclic, DependentsOk, WeakOf, TriOf, VisOf;
      var d := c.defs[s];
      var vis := Visibility(s);
      if vis != 0 && s in userValue {
        v := Min(userValue[s], vis);
      } else {
        v := WeakValue(s);
      }
    }

    /** _warn_select_unsatisfied_deps, as far as it reads: the selects in e, and the direct dependencies of the selecting
        symbol of each one above dd */
    method WarnUnmet(e: Expr, dd: Tri, ghost r: nat)
      requires Valid() && Below(c, rank, e, r)
      modifies this`cachedTri, this`cachedVis
      ensures Valid() && Within(old(cachedTri), cachedTri) && Within(old(cachedVis), cachedVis)
      ensures SelectsRead(c, e, dd, cachedTri)
      decreases r, 2, e
    {
      hide Acyclic, Consistent, DependentsOk, Eval;
      if e.Or? {
        WarnUnmet(e.left, dd, r);
        ghost var tri := cachedTri;
        WarnUnmet(e.right, dd, r);
        SelectsWithin(c, e.left, dd, tri, cachedTri);
      } else {
        var v := ExprValue(e, r);
        if v > dd {
          ghost var tri := cachedTri;
          var selector := FirstOperand(e);
          if selector.Sym? && selector.s in c.defs {
            FirstItem(e);
            RankOf(c, rank, selector.s);
            DepsBelow(c, rank, c.defs[selector.s], rank[selector.s]);
            var w := ExprValue(c.defs[selector.s].directDep, rank[selector.s]);
          }
          EvalWithin(c, e, tri, cachedTri);
        }
      }
    }

    /** tri_value */
    method TriValue(s: int) returns (v: Tri)
      requires Valid() && s in c.defs
      modifies this`cachedTri, this`cachedVis
      ensures Valid() && Within(old(cachedTri), cachedTri) && Within(old(cachedVis), cachedVis)
      ensures s in cachedTri && v == cachedTri[s]
      ensures s !in old(cachedTri) ==> Answer(c, c.defs[s], UserOf(userValue, s), cachedTri) == Some(v)
      decreases rank[s], 6
    {
      hide Acyclic, DependentsOk, BaseOf, Promoted, Eval, Consistent, VisOf, SelectsRead;
      if s in cachedTri { return cachedTri[s]; }
      var d := c.defs[s];
      RankOf(c, rank, s);
      DepsBelow(c, rank, d, rank[s]);
      var val := BaseValue(s);
      ghost var tri1 := cachedTri;
      var rev := ExprValue(d.revDep, rank[s]);
      ghost var tri2 := cachedTri;
      if rev != 0 {
        var dd := ExprValue(d.directDep, rank[s]);
        if dd < rev {
          ghost var tri := cachedTri;
          WarnUnmet(d.revDep, dd, rank[s]);
          EvalWithin(c, d.directDep, tri, cachedTri);
        }
        val := Max(rev, val);
      }
      EvalWithin(c, d.revDep, tri2, cachedTri);
      assert WarningRead(c, d, cachedTri);
      ghost var tri3 := cachedTri;
      v := Promote(s, val);
      TriFromParts(c, d, UserOf(userValue, s), tri1, tri2, tri3, cachedTri);
      WarningWithin(c, d, tri3, cachedTri);
      CacheTri(c, userValue, cachedTri, cachedVis, s, v);
      AnswerWithin(c, d, UserOf(userValue, s), cachedTri, cachedTri[s := v]);
      cachedTri := cachedTri[s := v];
    }

    /** tri_value gives the value from scratch. */
    method ReadTri(s: int) returns (v: Tri)
      requires Valid() && s in c.defs
      modifies this`cachedTri, this`cachedVis
      ensures Valid() && s in rank && v == Fresh(c, rank, userValue, s)
    {
      hide TriOf, VisOf;
      v := TriValue(s);
      assert Ranked(c, rank, s);
      CachedIsFresh(c, rank, userValue, cachedTri, cachedVis, rank[s] + 1);
    }

    /** visibility gives the visibility from scratch. */
    method ReadVis(s: int) returns (v: Tri)
      requires Valid() && s in c.defs
      modifies this`cachedTri, this`cachedVis
      ensures Valid() && s in rank && v == FreshVis(c, rank, userValue, s)
    {
      hide TriOf, VisOf;
      v := Visibility(s);
      assert Ranked(c, rank, s);
      CachedIsFresh(c, rank, userValue, cachedTri, cachedVis, rank[s] + 1);
    }

    // ---- invalidation ----

    /** _invalidate */
    method Invalidate(s: int)
      modifies this`cachedTri, this`cachedVis
      ensures cachedTri == old(cachedTri) - {s} && cachedVis == old(cachedVis) - {s}
    {
      cachedTri := cachedTri - {s};
      cachedVis := cachedVis - {s};
    }

    /** _invalidate_all */
    method InvalidateAll()
      requires Static() && (forall s :: s in cachedVis ==> s in c.defs) && forall s :: s in cachedTri ==> s in cachedVis
      modifies this`cachedTri, this`cachedVis
      ensures cachedTri == map[] && cachedVis == map[]
    {
      hide Acyclic, DependentsOk;
      var i := 0;
      while i < |defined|
        invariant 0 <= i <= |defined|
        invariant forall s :: s in cachedVis ==> s in c.defs && s !in defined[..i]
        invariant forall s :: s in cachedTri ==> s in cachedVis
      {
        assert defined[..i + 1] == defined[..i] + [defined[i]];
        Invalidate(defined[i]);
        i := i + 1;
      }
      assert defined[..i] == defined;
      NothingLeft(cachedVis);
      NothingLeft(cachedTri);
    }

    /** _rec_invalidate */
    method RecInvalidate(s: int)
      requires Static() && s in c.defs
      requires (forall t :: t in cachedVis ==> t in c.defs) && forall t :: t in cachedTri ==> t in cachedVis
      modifies this`cachedTri, this`cachedVis
      ensures s !in cachedVis && forall t :: t in cachedTri ==> t in cachedVis
      ensures Kept(old(cachedTri), old(cachedVis), cachedTri, cachedVis)
      ensures Closed(c, old(cachedVis), cachedVis) && forall b :: b in cachedVis ==> !DependsOn(c, b, s)
      ensures s == c.modules ==> cachedVis == map[]
      decreases |cachedVis.Keys + {s}|
    {
      hide Acyclic, DependsOn;
      ghost var tri0, vis0 := cachedTri, cachedVis;
      if s == c.modules {
        InvalidateAll();
      } else {
        Invalidate(s);
        var rest := DependentsOf(dependents, s);
        while rest != {}
          invariant s !in cachedVis && (forall t :: t in cachedVis ==> t in c.defs) && forall t :: t in cachedTri ==> t in cachedVis
          invariant Kept(tri0, vis0, cachedTri, cachedVis)
          invariant forall b :: b in DependentsOf(dependents, s) && b !in rest ==> b !in cachedVis
          invariant DropsClosed(c, vis0, cachedVis, s)
          decreases rest
        {
          SomeElement(rest);
          var item :| item in rest;
          if item in cachedVis {
            ghost var tri1, vis1 := cachedTri, cachedVis;
            KeysWithin(vis1, vis0);
            FewerCached(vis0.Keys + {s}, vis1.Keys + {item}, s);
            RecInvalidate(item);
            DropsMore(c, vis0, vis1, cachedVis, s);
          }
          rest := rest - {item};
        }
      }
    }

    /** A prompt makes the user value count. */
    method RecInvalidateIfHasPrompt(s: int)
      requires Static() && s in c.defs
      requires (forall t :: t in cachedVis ==> t in c.defs) && forall t :: t in cachedTri ==> t in cachedVis
      modifies this`cachedTri, this`cachedVis
      ensures c.defs[s].prompts == [] ==> cachedTri == old(cachedTri) && cachedVis == old(cachedVis)
      ensures c.defs[s].prompts != [] ==>
                && s !in cachedVis && (forall t :: t in cachedTri ==> t in cachedVis)
                && Kept(old(cachedTri), old(cachedVis), cachedTri, cachedVis) && Closed(c, old(cachedVis), cachedVis)
    {
      if c.defs[s].prompts != [] {
        RecInvalidate(s);
      }
    }

    /** set_value; false for a value that the type of the symbol does not have, which is ignored */
    method SetValue(s: int, value: Tri) returns (ok: bool)
      requires Valid() && s in c.defs
      modifies this`userValue, this`cachedTri, this`cachedVis
      ensures Valid()
      ensures ok <==> c.defs[s].kind == TRISTATE || value != 1
      ensures userValue == if ok then old(userValue)[s := value] else old(userValue)
    {
      hide Acyclic, DependentsOk, Closed, Kept;
      if s in userValue && userValue[s] == value && (c.defs[s].kind == TRISTATE || value != 1) {
        return true;
      }
      if c.defs[s].kind == BOOL && value == 1 {
        return false;
      }
      ghost var users, tri, vis := userValue, cachedTri, cachedVis;
      userValue := userValue[s := value];
      RecInvalidateIfHasPrompt(s);
      if c.defs[s].prompts == [] {
        PromptlessKeepsConsistent(c, users, userValue, tri, vis, s);
      } else {
        DropKeepsConsistent(c, users, userValue, tri, vis, cachedTri, cachedVis, s);
      }
      ok := true;
    }

    /** unset_value */
    method UnsetValue(s: int)
      requires Valid() && s in c.defs
      modifies this`userValue, this`cachedTri, this`cachedVis
      ensures Valid() && userValue == old(userValue) - {s}
    {
      hide Acyclic, DependentsOk, Closed, Kept;
      if s in userValue {
        ghost var users, tri, vis := userValue, cachedTri, cachedVis;
        userValue := userValue - {s};
        RecInvalidateIfHasPrompt(s);
        if c.defs[s].prompts == [] {
          PromptlessKeepsConsistent(c, users, userValue, tri, vis, s);
        } else {
          DropKeepsConsistent(c, users, userValue, tri, vis, cachedTri, cachedVis, s);
        }
      }
    }

    /** A session of reads and changes, in any order: each read gives what an evaluation from scratch under the
        user values of that moment gives. */
    method Session(ops: seq<Op>) returns (answers: seq<Tri>)
      requires Valid() && forall i :: 0 <= i < |ops| ==> ops[i].s in c.defs
      modifies this`userValue, this`cachedTri, this`cachedVis
      ensures Valid() && userValue == UsersAfter(c, old(userValue), ops)
      ensures |answers| == |ops|
      ensures forall i :: 0 <= i < |ops| ==> Answers(c, rank, UsersAfter(c, old(userValue), ops[..i]), ops[i], answers[i])
    {
      hide Acyclic, DependentsOk, Consistent, UsersAfter;
      answers := [];
      var i := 0;
      SessionStart(c, userValue, ops);
      while i < |ops|
        invariant 0 <= i <= |ops| && |answers| == i && Valid()
        invariant userValue == UsersAfter(c, old(userValue), ops[..i])
        invariant forall j :: 0 <= j < i ==> Answers(c, rank, UsersAfter(c, old(userValue), ops[..j]), ops[j], answers[j])
      {
        ghost var users := userValue;
        var v: Tri := 0;
        match ops[i] {
          case Read(s) => v := ReadTri(s);
          case See(s) => v := ReadVis(s);
          case Set(s, value) => var ok := SetValue(s, value);
          case Unset(s) => UnsetValue(s);
        }
        SessionStep(c, old(userValue), ops, i);
        answers := answers + [v];
        i := i + 1;
      }
      assert ops[..i] == ops;
    }
  }

  datatype Op = Read(s: int) | See(s: int) | Set(s: int, value: Tri) | Unset(s: int)

  /** The user values after one operation */
  function UsersBy(c: Config, users: map<int, Tri>, op: Op): map<int, Tri> {
    match op
    case Set(s, v) => if s in c.defs && (c.defs[s].kind == TRISTATE || v != 1) then users[s := v] else users
    case Unset(s) => users - {s}
    case _ => users
  }

  function UsersAfter(c: Config, users: map<int, Tri>, ops: seq<Op>): map<int, Tri> {
    if ops == [] then users else UsersBy(c, UsersAfter(c, users, ops[..|ops| - 1]), ops[|ops| - 1])
  }

  ghost predicate Answers(c: Config, rank: map<int, nat>, users: map<int, Tri>, op: Op, v: Tri) {
    match op
    case Read(s) => s in c.defs && s in rank && v == Fresh(c, rank, users, s)
    case See(s) => s in c.defs && s in rank && v == FreshVis(c, rank, users, s)
    case _ => true
  }

  lemma SessionStart(c: Config, users: map<int, Tri>, ops: seq<Op>)
    ensures UsersAfter(c, users, ops[..0]) == users
  {
  }

  lemma SessionStep(c: Config, users: map<int, Tri>, ops: seq<Op>, i: nat)
    requires i < |ops|
    ensures UsersAfter(c, users, ops[..i + 1]) == UsersBy(c, UsersAfter(c, users, ops[..i]), ops[i])
  {
    assert ops[..i + 1][..i] == ops[..i];
  }

  /** sc joined the dependents of the symbols of items. */
  ghost predicate Added(before: map<int, set<int>>, after: map<int, set<int>>, items: set<int>, consts: set<int>, sc: int) {
    forall a :: DependentsOf(after, a) == DependentsOf(before, a) + (if a in items && a !in consts then {sc} else {})
  }

  lemma AddedNone(before: map<int, set<int>>, consts: set<int>, sc: int)
    ensures Added(before, before, {}, consts, sc)
  {
  }

  lemma AddedTwice(before: map<int, set<int>>, mid: map<int, set<int>>, after: map<int, set<int>>, a: set<int>, b: set<int>, consts: set<int>, sc: int)
    requires Added(before, mid, a, consts, sc) && Added(mid, after, b, consts, sc)
    ensures Added(before, after, a + b, consts, sc)
  {
  }

  lemma RankOf(c: Config, rank: map<int, nat>, s: int)
    requires Acyclic(c, rank) && s in c.defs
    ensures s in rank && Ranked(c, rank, s)
    ensures c.defs[s].kind == TRISTATE && c.modules in c.defs ==> c.modules in rank && rank[c.modules] < rank[s]
  {
    assert Ranked(c, rank, s);
  }

  lemma DepsBelow(c: Config, rank: map<int, nat>, d: Def, r: nat)
    requires forall a :: a in Reads(c, d) && a in c.defs ==> a in rank && rank[a] < r
    ensures Below(c, rank, d.revDep, r) && Below(c, rank, d.weakRevDep, r) && Below(c, rank, d.directDep, r)
  {
  }

  lemma {:induction false} FirstItem(e: Expr)
    ensures FirstOperand(e).Sym? ==> FirstOperand(e).s in Items(e)
  {
    if e.And? { FirstItem(e.left); }
  }

  lemma {:induction false} PromptItems(ps: seq<Expr>, i: nat)
    requires i < |ps|
    ensures Items(ps[i]) <= ItemsOf(ps)
  {
    if i > 0 { PromptItems(ps[1..], i - 1); }
  }

  lemma {:induction false} PairItems(ds: seq<(Expr, Expr)>, i: nat)
    requires i < |ds|
    ensures Items(ds[i].0) <= DefaultItems(ds) && Items(ds[i].1) <= DefaultItems(ds)
  {
    if i > 0 { PairItems(ds[1..], i - 1); }
  }

  lemma PromptBelow(c: Config, rank: map<int, nat>, d: Def, i: nat, r: nat)
    requires (forall a :: a in Reads(c, d) && a in c.defs ==> a in rank && rank[a] < r) && i < |d.prompts|
    ensures Below(c, rank, d.prompts[i], r)
  {
    PromptItems(d.prompts, i);
  }

  lemma DefaultBelow(c: Config, rank: map<int, nat>, d: Def, i: nat, r: nat)
    requires (forall a :: a in Reads(c, d) && a in c.defs ==> a in rank && rank[a] < r) && i < |d.defaults|
    ensures Below(c, rank, d.defaults[i].0, r) && Below(c, rank, d.defaults[i].1, r)
  {
    PairItems(d.defaults, i);
  }

  /** vis is the maximum of the first n prompts. */
  ghost predicate PromptsTo(c: Config, ps: seq<Expr>, env: map<int, Tri>, n: nat, vis: Tri) {
    n <= |ps| && PromptMax(c, ps[..n], env, 0) == Some(vis)
  }

  lemma PromptsFrom(c: Config, ps: seq<Expr>, env: map<int, Tri>)
    ensures PromptsTo(c, ps, env, 0, 0)
  {
  }

  lemma {:induction false} PromptMaxMore(c: Config, ps: seq<Expr>, e: Expr, env: map<int, Tri>, vis: Tri)
    requires PromptMax(c, ps, env, vis).Some? && Eval(c, e, env).Some?
    ensures PromptMax(c, ps + [e], env, vis) == Some(Max(PromptMax(c, ps, env, vis).v, Eval(c, e, env).v))
    decreases |ps|
  {
    if ps != [] {
      PromptMaxMore(c, ps[1..], e, env, Max(vis, Eval(c, ps[0], env).v));
      assert (ps + [e])[1..] == ps[1..] + [e];
    } else {
      assert ps + [e] == [e] && [e][1..] == [];
    }
  }

  lemma PromptsStep(c: Config, ps: seq<Expr>, env: map<int, Tri>, env': map<int, Tri>, n: nat, vis: Tri, p: Tri)
    requires PromptsTo(c, ps, env, n, vis) && n < |ps| && Within(env, env') && Eval(c, ps[n], env') == Some(p)
    ensures PromptsTo(c, ps, env', n + 1, Max(vis, p))
  {
    PromptMaxWithin(c, ps[..n], env, env', 0);
    PromptMaxMore(c, ps[..n], ps[n], env', 0);
    assert ps[..n + 1] == ps[..n] + [ps[n]];
  }

  lemma PromptsDone(c: Config, ps: seq<Expr>, env: map<int, Tri>, vis: Tri)
    requires PromptsTo(c, ps, env, |ps|, vis)
    ensures PromptMax(c, ps, env, 0) == Some(vis)
  {
    assert ps[..|ps|] == ps;
  }

  /** The conditions of the first n defaults do not hold. */
  ghost predicate SkippedTo(c: Config, ds: seq<(Expr, Expr)>, env: map<int, Tri>, n: nat) {
    n <= |ds| && forall i :: 0 <= i < n ==> Eval(c, ds[i].1, env) == Some(0)
  }

  lemma SkippedWithin(c: Config, ds: seq<(Expr, Expr)>, env: map<int, Tri>, env': map<int, Tri>, n: nat)
    requires SkippedTo(c, ds, env, n) && Within(env, env')
    ensures SkippedTo(c, ds, env', n)
  {
    forall i | 0 <= i < n
      ensures Eval(c, ds[i].1, env') == Some(0)
    {
      EvalWithin(c, ds[i].1, env, env');
    }
  }

  lemma {:induction false} DefaultFrom(c: Config, ds: seq<(Expr, Expr)>, env: map<int, Tri>, n: nat)
    requires SkippedTo(c, ds, env, n)
    ensures DefaultOf(c, ds, env) == DefaultOf(c, ds[n..], env)
    decreases n
  {
    if n > 0 {
      assert Eval(c, ds[0].1, env) == Some(0);
      forall i | 0 <= i < n - 1
        ensures Eval(c, ds[1..][i].1, env) == Some(0)
      {
        assert Eval(c, ds[i + 1].1, env) == Some(0);
      }
      DefaultFrom(c, ds[1..], env, n - 1);
      assert ds[1..][n - 1..] == ds[n..];
    } else {
      assert ds[0..] == ds;
    }
  }

  lemma DefaultAt(c: Config, ds: seq<(Expr, Expr)>, env: map<int, Tri>, n: nat, val: Tri, cond: Tri)
    requires SkippedTo(c, ds, env, n) && n < |ds| && cond != 0
    requires Eval(c, ds[n].1, env) == Some(cond) && Eval(c, ds[n].0, env) == Some(val)
    ensures DefaultOf(c, ds, env) == Some(Min(val, cond))
  {
    DefaultFrom(c, ds, env, n);
  }

  lemma DefaultNone(c: Config, ds: seq<(Expr, Expr)>, env: map<int, Tri>)
    requires SkippedTo(c, ds, env, |ds|)
    ensures DefaultOf(c, ds, env) == Some(0)
  {
    DefaultFrom(c, ds, env, |ds|);
  }

  /** The parts of a value computed one after the other, with caches growing in between, are the value. */
  lemma TriFromParts(c: Config, d: Def, user: Opt, tri1: map<int, Tri>, tri2: map<int, Tri>, tri3: map<int, Tri>, tri4: map<int, Tri>)
    requires Within(tri1, tri2) && Within(tri2, tri3) && Within(tri3, tri4)
    requires BaseOf(c, d, user, tri1).Some? && Eval(c, d.revDep, tri2).Some?
    requires var rev, val := Eval(c, d.revDep, tri2).v, BaseOf(c, d, user, tri1).v;
             && (rev != 0 ==> Eval(c, d.directDep, tri3).Some?)
             && Promoted(c, d, if rev != 0 then Max(rev, val) else val, tri4).Some?
    ensures var rev, val := Eval(c, d.revDep, tri2).v, BaseOf(c, d, user, tri1).v;
            TriOf(c, d, user, tri4) == Promoted(c, d, if rev != 0 then Max(rev, val) else val, tri4)
  {
    hide Eval, Promoted, BaseOf;
    BaseWithin(c, d, user, tri1, tri4);
    EvalWithin(c, d.revDep, tri2, tri4);
    if Eval(c, d.revDep, tri2).v != 0 { EvalWithin(c, d.directDep, tri3, tri4); }
  }

  lemma BaseWithin(c: Config, d: Def, user: Opt, env: map<int, Tri>, env': map<int, Tri>)
    requires Within(env, env') && BaseOf(c, d, user, env).Some?
    ensures BaseOf(c, d, user, env') == BaseOf(c, d, user, env)
  {
    hide VisOf, WeakOf, Within;
    VisWithin(c, d, env, env');
    if !(VisOf(c, d, env).v != 0 && user.Some?) { WeakWithin(c, d, env, env'); }
  }

  /** A value that follows from the cached values can be cached. */
  lemma CacheTri(c: Config, users: map<int, Tri>, tri: map<int, Tri>, vis: map<int, Tri>, s: int, v: Tri)
    requires Consistent(c, users, tri, vis) && s in c.defs && s in vis && TriOf(c, c.defs[s], UserOf(users, s), tri) == Some(v)
    ensures Consistent(c, users, tri[s := v], vis) && Within(tri, tri[s := v])
  {
    hide TriOf, VisOf;
    var tri' := tri[s := v];
    forall t | t in vis
      ensures VisOf(c, c.defs[t], tri') == Some(vis[t])
      ensures t in tri' ==> TriOf(c, c.defs[t], UserOf(users, t), tri') == Some(tri'[t])
    {
      VisWithin(c, c.defs[t], tri, tri');
      if t in tri' { TriWithin(c, c.defs[t], UserOf(users, t), tri, tri'); }
    }
  }

  lemma NothingLeft(m: map<int, Tri>)
    requires forall t :: t !in m
    ensures m == map[]
  {
    forall t
      ensures t !in m.Keys
    {
      assert t !in m;
    }
    assert |m.Keys| == 0;
  }

  lemma KeysWithin(m: map<int, Tri>, m': map<int, Tri>)
    requires Within(m, m')
    ensures m.Keys <= m'.Keys
  {
    forall t | t in m.Keys
      ensures t in m'.Keys
    {
      assert t in m;
    }
  }

  lemma FewerCached(all: set<int>, some: set<int>, s: int)
    requires some <= all && s in all && s !in some
    ensures |some| < |all|
  {
    assert some <= all - {s};
    assert |all - {s}| == |all| - 1;
    SubsetSmaller(some, all - {s});
  }

  lemma SubsetSmaller(a: set<int>, b: set<int>)
    requires a <= b
    ensures |a| <= |b|
  {
    assert b == a + (b - a);
  }

  /** What has been dropped so far, other than s itself, has taken its dependents along. */
  ghost predicate DropsClosed(c: Config, vis: map<int, Tri>, vis': map<int, Tri>, s: int) {
    && (forall a, b :: a in vis && a !in vis' && a != s && b in vis' ==> !DependsOn(c, b, a))
    && (c.modules in vis && c.modules !in vis' && c.modules != s ==> vis' == map[])
  }

  lemma DropsMore(c: Config, vis0: map<int, Tri>, vis1: map<int, Tri>, vis2: map<int, Tri>, s: int)
    requires DropsClosed(c, vis0, vis1, s) && Closed(c, vis1, vis2) && Within(vis2, vis1) && Within(vis1, vis0)
    ensures DropsClosed(c, vis0, vis2, s)
  {
    hide DependsOn;
    if c.modules in vis0 && c.modules !in vis2 && c.modules != s && c.modules !in vis1 {
      assert vis1 == map[];
      NothingLeft(vis2);
    }
  }
}
