/** What the values of symbols are (tri_value, visibility and expr_value in kconfiglib.py), said of the values of the
    expressions around them. */
module KconfigValues {
  import opened KconfigExpr
  import opened KconfigCacheModel
  import KconfigCache

  // ---- expressions ----

  /** env has a value for every defined symbol of the set. */
  ghost predicate Has(c: Config, env: map<int, Tri>, items: set<int>) {
    forall s :: s in items && s in c.defs ==> s in env
  }

  /** assign says the same about the symbols of the set: defined symbols have their values, constant ones theirs, and all others
      are n; a relation is that of the two values. */
  ghost predicate Assigns(c: Config, env: map<int, Tri>, assign: Env, items: set<int>) {
    && (forall s :: s in items ==> assign.tri(s) == SymbolValue(c, env, s))
    && forall op, a, b :: assign.rel(op, a, b) == c.relation(op, a, SymbolValue(c, env, a), b, SymbolValue(c, env, b))
  }

  function SymbolValue(c: Config, env: map<int, Tri>, s: int): Tri {
    if s in c.defs then (if s in env then env[s] else 0) else if s in c.consts then c.consts[s] else 0
  }

  /** Evaluation from cached values is the value of the expression, whatever it may leave out on the way. */
  lemma {:induction false} EvalIsValue(c: Config, e: Expr, env: map<int, Tri>, assign: Env)
    requires Has(c, env, Items(e)) && Assigns(c, env, assign, Items(e)) && Tristate(assign)
    ensures Eval(c, e, env) == Some(Value(e, assign))
  {
    match e
    case Sym(s) =>
    case And(l, r) => EvalIsValue(c, l, env, assign); EvalIsValue(c, r, env, assign);
    case Or(l, r) => EvalIsValue(c, l, env, assign); EvalIsValue(c, r, env, assign);
    case Not(x) => EvalIsValue(c, x, env, assign);
    case Rel(op, a, b) =>
  }

  // ---- a symbol, with all that it reads known ----

  /** The value of an expression */
  function V(c: Config, e: Expr, env: map<int, Tri>): Tri {
    OrZero(Eval(c, e, env))
  }

  /** No m for this symbol: it is bool, or MODULES is n. */
  predicate NoM(c: Config, d: Def, env: map<int, Tri>) {
    d.kind == BOOL || SymbolValue(c, env, c.modules) == 0
  }

  /** m goes up to y if there is no m for the symbol, or an imply says y. */
  function Up(c: Config, d: Def, env: map<int, Tri>, v: Tri): Tri {
    if v == 1 && (NoM(c, d, env) || V(c, d.weakRevDep, env) == 2) then 2 else v
  }

  function Least(a: Tri, b: Tri): Tri { if a < b then a else b }

  function Most(a: Tri, b: Tri): Tri { if a < b then b else a }

  lemma Known(c: Config, d: Def, user: Opt, env: map<int, Tri>)
    requires Has(c, env, Reads(c, d))
    ensures TriOf(c, d, user, env).Some? && VisOf(c, d, env).Some?
    ensures Has(c, env, Items(d.revDep)) && Has(c, env, Items(d.weakRevDep)) && Has(c, env, Items(d.directDep))
    ensures Has(c, env, ItemsOf(d.prompts)) && Has(c, env, DefaultItems(d.defaults))
    ensures Eval(c, d.revDep, env).Some? && Eval(c, d.weakRevDep, env).Some? && Eval(c, d.directDep, env).Some?
    ensures PromptMax(c, d.prompts, env, 0).Some? && DefaultOf(c, d.defaults, env).Some?
    ensures IsBool(c, d, env) == Some(if NoM(c, d, env) then 1 else 0)
  {
    hide TriOf, Eval, Items, ItemsOf, DefaultItems, PromptMax, DefaultOf;
    TriTotal(c, d, user, env);
    PromptMaxTotal(c, d.prompts, env, 0);
    DefaultTotal(c, d.defaults, env);
    EvalTotal(c, d.revDep, env);
    EvalTotal(c, d.weakRevDep, env);
    EvalTotal(c, d.directDep, env);
  }

  lemma {:induction false} PromptMaxIs(c: Config, ps: seq<Expr>, env: map<int, Tri>, vis: Tri)
    requires PromptMax(c, ps, env, vis).Some? && forall i :: 0 <= i < |ps| ==> Eval(c, ps[i], env).Some?
    ensures var m := PromptMax(c, ps, env, vis).v;
            m >= vis && (forall i :: 0 <= i < |ps| ==> V(c, ps[i], env) <= m) && (m == vis || exists i :: 0 <= i < |ps| && V(c, ps[i], env) == m)
    decreases |ps|
  {
    if ps != [] {
      var v := Eval(c, ps[0], env).v;
      var rest := ps[1..];
      forall i | 0 <= i < |rest|
        ensures Eval(c, rest[i], env).Some?
      {
        assert rest[i] == ps[i + 1];
      }
      PromptMaxIs(c, rest, env, if vis < v then v else vis);
      var m := PromptMax(c, ps, env, vis).v;
      forall i | 0 <= i < |ps|
        ensures V(c, ps[i], env) <= m
      {
        if i > 0 { assert ps[i] == rest[i - 1]; }
      }
      if m != vis {
        if m == v {
          assert V(c, ps[0], env) == m;
        } else {
          var i :| 0 <= i < |rest| && V(c, rest[i], env) == m;
          assert ps[i + 1] == rest[i];
        }
      }
    }
  }

  lemma {:induction false} PromptsKnown(c: Config, ps: seq<Expr>, env: map<int, Tri>, i: nat)
    requires Has(c, env, ItemsOf(ps)) && i < |ps|
    ensures Eval(c, ps[i], env).Some?
  {
    if i == 0 { EvalTotal(c, ps[0], env); } else { PromptsKnown(c, ps[1..], env, i - 1); }
  }

  /** A symbol is as visible as the condition of its most visible prompt, and fully if there is no m for it; without a prompt
      whose condition holds it is invisible. */
  lemma VisibilityIs(c: Config, d: Def, env: map<int, Tri>)
    requires Has(c, env, Reads(c, d))
    ensures VisOf(c, d, env).Some?
    ensures var vis := VisOf(c, d, env).v;
            && (vis == 0 <==> forall i :: 0 <= i < |d.prompts| ==> V(c, d.prompts[i], env) == 0)
            && (vis == 2 <==> exists i :: 0 <= i < |d.prompts| && (V(c, d.prompts[i], env) == 2 || (V(c, d.prompts[i], env) == 1 && NoM(c, d, env))))
  {
    hide Eval, Items, ItemsOf, DefaultItems, PromptMax, Reads, IsBool, NoM, V;
    Known(c, d, None, env);
    forall i | 0 <= i < |d.prompts|
      ensures Eval(c, d.prompts[i], env).Some?
    {
      PromptsKnown(c, d.prompts, env, i);
    }
    PromptMaxIs(c, d.prompts, env, 0);
  }

  /** The first default whose condition holds, capped by the condition */
  ghost predicate FirstDefault(c: Config, ds: seq<(Expr, Expr)>, env: map<int, Tri>, v: Tri) {
    || (v == 0 && forall i :: 0 <= i < |ds| ==> V(c, ds[i].1, env) == 0)
    || exists i :: DefaultAt(c, ds, env, v, i)
  }

  ghost predicate DefaultAt(c: Config, ds: seq<(Expr, Expr)>, env: map<int, Tri>, v: Tri, i: int) {
    && 0 <= i < |ds| && V(c, ds[i].1, env) != 0 && v == Least(V(c, ds[i].0, env), V(c, ds[i].1, env))
    && forall j :: 0 <= j < i ==> V(c, ds[j].1, env) == 0
  }

  lemma {:induction false} DefaultIs(c: Config, ds: seq<(Expr, Expr)>, env: map<int, Tri>)
    requires Has(c, env, DefaultItems(ds)) && DefaultOf(c, ds, env).Some?
    ensures FirstDefault(c, ds, env, DefaultOf(c, ds, env).v)
    decreases |ds|
  {
    if ds != [] {
      EvalTotal(c, ds[0].0, env);
      EvalTotal(c, ds[0].1, env);
      var v := DefaultOf(c, ds, env).v;
      if V(c, ds[0].1, env) != 0 {
        assert DefaultAt(c, ds, env, v, 0);
      } else {
        var rest := ds[1..];
        DefaultIs(c, rest, env);
        if i :| DefaultAt(c, rest, env, v, i) {
          forall j | 0 <= j < i + 1
            ensures V(c, ds[j].1, env) == 0
          {
            if j > 0 { assert ds[j] == rest[j - 1]; }
          }
          assert ds[i + 1] == rest[i];
          assert DefaultAt(c, ds, env, v, i + 1);
        } else {
          forall i | 0 <= i < |ds|
            ensures V(c, ds[i].1, env) == 0
          {
            if i > 0 { assert ds[i] == rest[i - 1]; }
          }
        }
      }
    }
  }

  /** The value before selects, of which tri_value is m to y: the user value as far as the symbol is visible; or else the first
      default, raised by an imply if and only if the direct dependencies are not n. */
  ghost predicate Plain(c: Config, d: Def, user: Opt, env: map<int, Tri>, vis: Tri, v: Tri) {
    if vis != 0 && user.Some? then v == Least(user.v, vis)
    else exists w: Tri :: FirstDefault(c, d.defaults, env, w)
           && v == if V(c, d.directDep, env) != 0 then Most(V(c, d.weakRevDep, env), w) else w
  }

  /** tri_value: the larger of what the selects say and the value before them, with m up to y where it has to be. */
  lemma TriValueIs(c: Config, d: Def, user: Opt, env: map<int, Tri>) returns (plain: Tri)
    requires Has(c, env, Reads(c, d))
    ensures TriOf(c, d, user, env).Some? && VisOf(c, d, env).Some?
    ensures BaseOf(c, d, user, env) == Some(plain) && Plain(c, d, user, env, VisOf(c, d, env).v, plain)
    ensures TriOf(c, d, user, env).v == Up(c, d, env, Most(V(c, d.revDep, env), plain))
  {
    hide Eval, Items, ItemsOf, DefaultItems, DefaultOf, VisOf, Reads, IsBool, NoM, FirstDefault;
    Known(c, d, user, env);
    DefaultIs(c, d.defaults, env);
    plain := BaseOf(c, d, user, env).v;
  }

  // ---- the laws ----

  /** Visible, with a user value and no select that counts: the smaller of user value and visibility. */
  lemma UserValueCounts(c: Config, d: Def, u: Tri, env: map<int, Tri>)
    requires Has(c, env, Reads(c, d)) && VisOf(c, d, env).Some? && VisOf(c, d, env).v != 0 && V(c, d.revDep, env) == 0
    ensures TriOf(c, d, Some(u), env) == Some(Up(c, d, env, Least(u, VisOf(c, d, env).v)))
  {
    hide Reads, VisOf, TriOf, Up, V;
    var plain := TriValueIs(c, d, Some(u), env);
  }

  /** Of an invisible symbol the user value does not matter, whether it has prompts or not. */
  lemma InvisibleIgnoresUser(c: Config, d: Def, user: Opt, user': Opt, env: map<int, Tri>)
    requires VisOf(c, d, env) == Some(0)
    ensures TriOf(c, d, user, env) == TriOf(c, d, user', env)
  {
  }

  /** No value is below what the selects say, and without selects it is what it would be if there were none: the larger of the
      two is the value, with m up to y. */
  lemma SelectsRaise(c: Config, d: Def, user: Opt, env: map<int, Tri>, none: Expr)
    requires Has(c, env, Reads(c, d)) && Has(c, env, Items(none)) && V(c, none, env) == 0
    ensures TriOf(c, d, user, env).Some? && TriOf(c, d.(revDep := none), user, env).Some?
    ensures var v, rev, bare := TriOf(c, d, user, env).v, V(c, d.revDep, env), TriOf(c, d.(revDep := none), user, env).v;
            v >= rev && v == Up(c, d, env, Most(rev, bare))
  {
    hide Eval, Items, ItemsOf, DefaultItems, NoM, V;
    var d' := d.(revDep := none);
    var plain := TriValueIs(c, d, user, env);
    var plain' := TriValueIs(c, d', user, env);
    SameBase(c, d, d', user, env);
    hide TriOf;
    assert NoM(c, d', env) == NoM(c, d, env) by { NoMSame(c, d, d', env); }
  }

  lemma NoMSame(c: Config, d: Def, d': Def, env: map<int, Tri>)
    requires d'.kind == d.kind
    ensures NoM(c, d', env) == NoM(c, d, env)
  {
  }

  lemma SameBase(c: Config, d: Def, d': Def, user: Opt, env: map<int, Tri>)
    requires d' == d.(revDep := d'.revDep)
    ensures BaseOf(c, d', user, env) == BaseOf(c, d, user, env)
  {
  }

  /** A bool symbol, and any symbol while MODULES is n, is never m, nor is its visibility. */
  lemma NeverM(c: Config, d: Def, user: Opt, env: map<int, Tri>)
    requires Has(c, env, Reads(c, d)) && NoM(c, d, env)
    ensures TriOf(c, d, user, env).Some? && TriOf(c, d, user, env).v != 1
    ensures VisOf(c, d, env).Some? && VisOf(c, d, env).v != 1
  {
    hide Reads, TriOf, V, NoM;
    var plain := TriValueIs(c, d, user, env);
    hide Up;
    VisNotM(c, d, env);
  }

  lemma VisNotM(c: Config, d: Def, env: map<int, Tri>)
    requires Has(c, env, Reads(c, d)) && NoM(c, d, env)
    ensures VisOf(c, d, env).Some? && VisOf(c, d, env).v != 1
  {
    hide Reads, V, NoM, PromptMax;
    Known(c, d, None, env);
  }

  // ---- from scratch, and in a session ----

  /** Evaluation from scratch knows all that a symbol reads, with the values from scratch. */
  lemma FreshKnows(c: Config, rank: map<int, nat>, users: map<int, Tri>, s: int)
    requires Acyclic(c, rank) && s in c.defs
    ensures s in rank && Has(c, Full(c, rank, users, rank[s]), Reads(c, c.defs[s]))
    ensures forall a :: a in Full(c, rank, users, rank[s]) ==>
              a in c.defs && a in rank && Full(c, rank, users, rank[s])[a] == Fresh(c, rank, users, a)
    ensures TriOf(c, c.defs[s], UserOf(users, s), Full(c, rank, users, rank[s])) == Some(Fresh(c, rank, users, s))
    ensures VisOf(c, c.defs[s], Full(c, rank, users, rank[s])) == Some(FreshVis(c, rank, users, s))
  {
    hide TriOf, VisOf, Reads, Full, Fresh;
    assert Ranked(c, rank, s);
    FullHas(c, rank, users, rank[s]);
    Known(c, c.defs[s], UserOf(users, s), Full(c, rank, users, rank[s]));
    FreshIs(c, rank, users, s);
  }

  /** The user value of s does not matter to symbols of its rank and below. */
  lemma {:induction false} FullIgnores(c: Config, rank: map<int, nat>, users: map<int, Tri>, users': map<int, Tri>, s: int, r: nat)
    requires s in rank && r <= rank[s] && forall t :: t != s ==> UserOf(users', t) == UserOf(users, t)
    ensures Full(c, rank, users', r) == Full(c, rank, users, r)
  {
    hide Extended, UserOf;
    if r > 0 {
      FullIgnores(c, rank, users, users', s, r - 1);
      ExtendedIgnores(c, rank, users, users', s, r, Full(c, rank, users, r - 1));
    }
  }

  lemma ExtendedIgnores(c: Config, rank: map<int, nat>, users: map<int, Tri>, users': map<int, Tri>, s: int, r: nat, env: map<int, Tri>)
    requires s in rank && r <= rank[s] && forall t :: t != s ==> UserOf(users', t) == UserOf(users, t)
    ensures Extended(c, rank, users', r, env) == Extended(c, rank, users, r, env)
  {
    hide TriOf, UserOf;
  }

  /** After a symbol got user value u: it is as visible as before, and if it is visible it has the smaller of u and its
      visibility, or what the selects say if that is more; if not, its value is as before. */
  lemma FreshAfterSet(c: Config, rank: map<int, nat>, users: map<int, Tri>, s: int, u: Tri)
    requires Acyclic(c, rank) && s in c.defs
    ensures s in rank
    ensures var d, env, users' := c.defs[s], Full(c, rank, users, rank[s]), users[s := u];
            var vis := FreshVis(c, rank, users, s);
            && FreshVis(c, rank, users', s) == vis
            && Fresh(c, rank, users', s) ==
                 if vis != 0 then Up(c, d, env, Most(V(c, d.revDep, env), Least(u, vis))) else Fresh(c, rank, users, s)
  {
    hide TriOf, VisOf, Reads, Full, Fresh, Up, V, FreshVis;
    FreshKnows(c, rank, users, s);
    FreshKnows(c, rank, users[s := u], s);
    FullIgnores(c, rank, users, users[s := u], s, rank[s]);
    var env := Full(c, rank, users, rank[s]);
    var plain := TriValueIs(c, c.defs[s], Some(u), env);
    if FreshVis(c, rank, users, s) == 0 {
      InvisibleIgnoresUser(c, c.defs[s], UserOf(users, s), Some(u), env);
    }
  }

  /** A session that sets a symbol and then reads it, whatever it did before: a visible symbol that no select forces has the value
      that was set, as far as it is visible. */
  lemma SessionReadsWhatItSets(c: Config, rank: map<int, nat>, users: map<int, Tri>, ops: seq<KconfigCache.Op>, i: nat, answer: Tri)
    requires Acyclic(c, rank) && i + 1 < |ops| && ops[i].Set? && ops[i + 1] == KconfigCache.Read(ops[i].s) && ops[i].s in c.defs
    requires c.defs[ops[i].s].kind == TRISTATE || ops[i].value != 1
    requires KconfigCache.Answers(c, rank, KconfigCache.UsersAfter(c, users, ops[..i + 1]), ops[i + 1], answer)
    requires ops[i].s in rank
    requires var s, before := ops[i].s, KconfigCache.UsersAfter(c, users, ops[..i]);
             FreshVis(c, rank, before, s) != 0 && V(c, c.defs[s].revDep, Full(c, rank, before, rank[s])) == 0
    ensures var s, before := ops[i].s, KconfigCache.UsersAfter(c, users, ops[..i]);
            answer == Up(c, c.defs[s], Full(c, rank, before, rank[s]), Least(ops[i].value, FreshVis(c, rank, before, s)))
  {
    hide Fresh, FreshVis, Full, Up, V, Acyclic;
    KconfigCache.SessionStep(c, users, ops, i);
    FreshAfterSet(c, rank, KconfigCache.UsersAfter(c, users, ops[..i]), ops[i].s, ops[i].value);
  }
}
