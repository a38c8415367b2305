/** The values of bool and tristate symbols outside choices (kconfiglib.py), computed from whatever symbol
    values are at hand, and what makes a set of cached values right. */
module KconfigCacheModel {
  import opened KconfigExpr

  /** n, m and y */
  type Tri = v: nat | v <= 2

  datatype Type = BOOL | TRISTATE

  /** A defined symbol: its original type, the conditions of its prompts, its defaults with their conditions,
      and its select, imply and depends-on expressions */
  datatype Def = Def(kind: Type, prompts: seq<Expr>, defaults: seq<(Expr, Expr)>, revDep: Expr, weakRevDep: Expr, directDep: Expr)

  /** consts are the values of constant symbols (undefined ones are n), modules is the symbol MODULES, and
      relation gives the outcome of a relation from the values of its operands. */
  datatype Config = Config(defs: map<int, Def>, consts: map<int, Tri>, modules: int,
                           relation: (RelOp, int, Tri, int, Tri) -> bool)

  datatype Opt = None | Some(v: Tri)

  // ---- values, as far as the values in env allow ----

  function Leaf(c: Config, env: map<int, Tri>, s: int): Opt {
    if s in c.defs then if s in env then Some(env[s]) else None
    else Some(if s in c.consts then c.consts[s] else 0)
  }

  /** expr_value; None if it would need a symbol that env does not have */
  function Eval(c: Config, e: Expr, env: map<int, Tri>): Opt {
    match e
    case Sym(s) => Leaf(c, env, s)
    case And(l, r) =>
      (match Eval(c, l, env)
       case None => None
       case Some(v1) =>
         if v1 == 0 then Some(0)
         else match Eval(c, r, env) case None => None case Some(v2) => Some(Min(v1, v2)))
    case Or(l, r) =>
      (match Eval(c, l, env)
       case None => None
       case Some(v1) =>
         if v1 == 2 then Some(2)
         else match Eval(c, r, env) case None => None case Some(v2) => Some(Max(v1, v2)))
    case Not(x) =>
      (match Eval(c, x, env) case None => None case Some(v) => Some(2 - v))
    case Rel(op, a, b) =>
      (match Leaf(c, env, a)
       case None => None
       case Some(v1) =>
         match Leaf(c, env, b) case None => None case Some(v2) => Some(if c.relation(op, a, v1, b, v2) then 2 else 0))
  }

  /** Whether the `type` of a symbol is BOOL, as 1 or 0: m does not exist while MODULES is n. */
  function IsBool(c: Config, d: Def, env: map<int, Tri>): Opt {
    if d.kind == BOOL then Some(1)
    else match Leaf(c, env, c.modules) case None => None case Some(v) => Some(if v == 0 then 1 else 0)
  }

  function PromptMax(c: Config, ps: seq<Expr>, env: map<int, Tri>, vis: Tri): Opt
    decreases |ps|
  {
    if ps == [] then Some(vis)
    else match Eval(c, ps[0], env) case None => None case Some(v) => PromptMax(c, ps[1..], env, Max(vis, v))
  }

  /** _visibility */
  function VisOf(c: Config, d: Def, env: map<int, Tri>): Opt {
    match PromptMax(c, d.prompts, env, 0)
    case None => None
    case Some(vis) =>
      if vis != 1 then Some(vis)
      else match IsBool(c, d, env) case None => None case Some(b) => Some(if b == 1 then 2 else 1)
  }

  /** The first default whose condition holds */
  function DefaultOf(c: Config, ds: seq<(Expr, Expr)>, env: map<int, Tri>): Opt
    decreases |ds|
  {
    if ds == [] then Some(0)
    else
      match Eval(c, ds[0].1, env)
      case None => None
      case Some(cond) =>
        if cond == 0 then DefaultOf(c, ds[1..], env)
        else match Eval(c, ds[0].0, env) case None => None case Some(v) => Some(Min(v, cond))
  }

  /** The default, or an imply that applies */
  function WeakOf(c: Config, d: Def, env: map<int, Tri>): Opt {
    match DefaultOf(c, d.defaults, env)
    case None => None
    case Some(val) =>
      match Eval(c, d.weakRevDep, env)
      case None => None
      case Some(w) =>
        if w == 0 then Some(val)
        else match Eval(c, d.directDep, env) case None => None case Some(dd) => Some(if dd != 0 then Max(w, val) else val)
  }

  function BaseOf(c: Config, d: Def, user: Opt, env: map<int, Tri>): Opt {
    match VisOf(c, d, env)
    case None => None
    case Some(vis) => if vis != 0 && user.Some? then Some(Min(user.v, vis)) else WeakOf(c, d, env)
  }

  /** m becomes y for bools, and under an imply of y. */
  function Promoted(c: Config, d: Def, val: Tri, env: map<int, Tri>): Opt {
    if val != 1 then Some(val)
    else
      match IsBool(c, d, env)
      case None => None
      case Some(b) =>
        if b == 1 then Some(2)
        else match Eval(c, d.weakRevDep, env) case None => None case Some(w) => Some(if w == 2 then 2 else 1)
  }

  /** tri_value.  The direct dependencies of a selected symbol are read to warn about unmet ones. */
  function TriOf(c: Config, d: Def, user: Opt, env: map<int, Tri>): Opt {
    match BaseOf(c, d, user, env)
    case None => None
    case Some(val) =>
      match Eval(c, d.revDep, env)
      case None => None
      case Some(rev) =>
        if rev != 0 && Eval(c, d.directDep, env).None? then None
        else Promoted(c, d, if rev != 0 then Max(rev, val) else val, env)
  }

  // ---- the warning about unmet dependencies ----

  /** split_expr(e, AND)[0]: of a select, the selecting symbol */
  function FirstOperand(e: Expr): Expr {
    match e
    case And(l, r) => FirstOperand(l)
    case _ => e
  }

  /** The direct dependencies of a selecting symbol; those of an undefined or constant one are n. */
  function SelectorDep(c: Config, e: Expr): (r: Expr) {
    match FirstOperand(e)
    case Sym(s) => if s in c.defs then c.defs[s].directDep else e
    case _ => e
  }

  /** env has what _warn_select_unsatisfied_deps reads: every select in e, and the direct dependencies of the
      selecting symbol of each one above dd. */
  predicate SelectsRead(c: Config, e: Expr, dd: Tri, env: map<int, Tri>) {
    match e
    case Or(l, r) => SelectsRead(c, l, dd, env) && SelectsRead(c, r, dd, env)
    case _ => Eval(c, e, env).Some? && (Eval(c, e, env).v > dd ==> Eval(c, SelectorDep(c, e), env).Some?)
  }

  /** It is called when a select exceeds the direct dependencies. */
  predicate WarningRead(c: Config, d: Def, env: map<int, Tri>) {
    match (Eval(c, d.revDep, env), Eval(c, d.directDep, env))
    case (Some(rev), Some(dd)) => dd < rev ==> SelectsRead(c, d.revDep, dd, env)
    case _ => true
  }

  /** tri_value with all that is read on the way to it */
  function Answer(c: Config, d: Def, user: Opt, env: map<int, Tri>): Opt {
    if WarningRead(c, d, env) then TriOf(c, d, user, env) else None
  }

  function UserOf(users: map<int, Tri>, s: int): Opt {
    if s in users then Some(users[s]) else None
  }

  // ---- dependencies ----

  function Items(e: Expr): set<int> {
    match e
    case Sym(s) => {s}
    case And(l, r) => Items(l) + Items(r)
    case Or(l, r) => Items(l) + Items(r)
    case Not(x) => Items(x)
    case Rel(op, a, b) => {a, b}
  }

  function ItemsOf(es: seq<Expr>): set<int> {
    if es == [] then {} else Items(es[0]) + ItemsOf(es[1..])
  }

  function DefaultItems(ds: seq<(Expr, Expr)>): set<int> {
    if ds == [] then {} else Items(ds[0].0) + Items(ds[0].1) + DefaultItems(ds[1..])
  }

  /** All symbols in the expressions of a symbol, as _build_dep goes through them */
  function DefItems(d: Def): set<int> {
    ItemsOf(d.prompts) + DefaultItems(d.defaults) + Items(d.revDep) + Items(d.weakRevDep) + Items(d.directDep)
  }

  /** The value of b may depend on a. */
  predicate DependsOn(c: Config, b: int, a: int) {
    b in c.defs && a in DefItems(c.defs[b])
  }

  /** env and env' say the same about the symbols of items. */
  ghost predicate Agree(env: map<int, Tri>, env': map<int, Tri>, items: set<int>) {
    forall s :: s in items ==> (s in env <==> s in env') && (s in env ==> env[s] == env'[s])
  }

  ghost predicate Within(env: map<int, Tri>, env': map<int, Tri>) {
    forall s :: s in env ==> s in env' && env'[s] == env[s]
  }

  lemma {:induction false} EvalAgree(c: Config, e: Expr, env: map<int, Tri>, env': map<int, Tri>)
    requires Agree(env, env', Items(e))
    ensures Eval(c, e, env) == Eval(c, e, env')
  {
    match e
    case Sym(s) =>
    case And(l, r) => EvalAgree(c, l, env, env'); EvalAgree(c, r, env, env');
    case Or(l, r) => EvalAgree(c, l, env, env'); EvalAgree(c, r, env, env');
    case Not(x) => EvalAgree(c, x, env, env');
    case Rel(op, a, b) =>
  }

  lemma {:induction false} EvalWithin(c: Config, e: Expr, env: map<int, Tri>, env': map<int, Tri>)
    requires Within(env, env') && Eval(c, e, env).Some?
    ensures Eval(c, e, env') == Eval(c, e, env)
  {
    match e
    case Sym(s) =>
    case And(l, r) =>
      EvalWithin(c, l, env, env');
      if Eval(c, l, env).v != 0 { EvalWithin(c, r, env, env'); }
    case Or(l, r) =>
      EvalWithin(c, l, env, env');
      if Eval(c, l, env).v != 2 { EvalWithin(c, r, env, env'); }
    case Not(x) => EvalWithin(c, x, env, env');
    case Rel(op, a, b) =>
  }

  lemma {:induction false} PromptMaxAgree(c: Config, ps: seq<Expr>, env: map<int, Tri>, env': map<int, Tri>, vis: Tri)
    requires Agree(env, env', ItemsOf(ps))
    ensures PromptMax(c, ps, env, vis) == PromptMax(c, ps, env', vis)
    decreases |ps|
  {
    if ps != [] {
      EvalAgree(c, ps[0], env, env');
      if Eval(c, ps[0], env).Some? { PromptMaxAgree(c, ps[1..], env, env', Max(vis, Eval(c, ps[0], env).v)); }
    }
  }

  lemma {:induction false} PromptMaxWithin(c: Config, ps: seq<Expr>, env: map<int, Tri>, env': map<int, Tri>, vis: Tri)
    requires Within(env, env') && PromptMax(c, ps, env, vis).Some?
    ensures PromptMax(c, ps, env', vis) == PromptMax(c, ps, env, vis)
    decreases |ps|
  {
    if ps != [] {
      EvalWithin(c, ps[0], env, env');
      PromptMaxWithin(c, ps[1..], env, env', Max(vis, Eval(c, ps[0], env).v));
    }
  }

  lemma {:induction false} DefaultAgree(c: Config, ds: seq<(Expr, Expr)>, env: map<int, Tri>, env': map<int, Tri>)
    requires Agree(env, env', DefaultItems(ds))
    ensures DefaultOf(c, ds, env) == DefaultOf(c, ds, env')
    decreases |ds|
  {
    if ds != [] {
      EvalAgree(c, ds[0].0, env, env');
      EvalAgree(c, ds[0].1, env, env');
      DefaultAgree(c, ds[1..], env, env');
    }
  }

  lemma {:induction false} DefaultWithin(c: Config, ds: seq<(Expr, Expr)>, env: map<int, Tri>, env': map<int, Tri>)
    requires Within(env, env') && DefaultOf(c, ds, env).Some?
    ensures DefaultOf(c, ds, env') == DefaultOf(c, ds, env)
    decreases |ds|
  {
    if ds != [] {
      EvalWithin(c, ds[0].1, env, env');
      if Eval(c, ds[0].1, env).v == 0 { DefaultWithin(c, ds[1..], env, env'); } else { EvalWithin(c, ds[0].0, env, env'); }
    }
  }

  /** What a symbol reads: the symbols of its expressions, and MODULES if it is tristate. */
  function Reads(c: Config, d: Def): set<int> {
    DefItems(d) + (if d.kind == TRISTATE then {c.modules} else {})
  }

  lemma AgreeParts(c: Config, d: Def, env: map<int, Tri>, env': map<int, Tri>)
    requires Agree(env, env', Reads(c, d))
    ensures Agree(env, env', ItemsOf(d.prompts)) && Agree(env, env', DefaultItems(d.defaults))
    ensures Agree(env, env', Items(d.revDep)) && Agree(env, env', Items(d.weakRevDep)) && Agree(env, env', Items(d.directDep))
    ensures IsBool(c, d, env) == IsBool(c, d, env')
  {
    hide ItemsOf, Items, DefaultItems;
  }

  /** Environments that agree on what a symbol reads give it the same values. */
  lemma ValuesAgree(c: Config, d: Def, user: Opt, env: map<int, Tri>, env': map<int, Tri>)
    requires Agree(env, env', Reads(c, d))
    ensures VisOf(c, d, env) == VisOf(c, d, env') && TriOf(c, d, user, env) == TriOf(c, d, user, env')
  {
    hide Eval, PromptMax, DefaultOf, Agree, Reads, IsBool;
    AgreeParts(c, d, env, env');
    PromptMaxAgree(c, d.prompts, env, env', 0);
    DefaultAgree(c, d.defaults, env, env');
    EvalAgree(c, d.revDep, env, env');
    EvalAgree(c, d.weakRevDep, env, env');
    EvalAgree(c, d.directDep, env, env');
    assert WeakOf(c, d, env) == WeakOf(c, d, env');
    assert BaseOf(c, d, user, env) == BaseOf(c, d, user, env');
    forall val: Tri
      ensures Promoted(c, d, val, env) == Promoted(c, d, val, env')
    {
    }
  }

  lemma IsBoolWithin(c: Config, d: Def, env: map<int, Tri>, env': map<int, Tri>)
    requires Within(env, env') && IsBool(c, d, env).Some?
    ensures IsBool(c, d, env') == IsBool(c, d, env)
  {
  }

  lemma VisWithin(c: Config, d: Def, env: map<int, Tri>, env': map<int, Tri>)
    requires Within(env, env') && VisOf(c, d, env).Some?
    ensures VisOf(c, d, env') == VisOf(c, d, env)
  {
    hide PromptMax, IsBool, Within;
    PromptMaxWithin(c, d.prompts, env, env', 0);
    if PromptMax(c, d.prompts, env, 0).v == 1 { IsBoolWithin(c, d, env, env'); }
  }

  lemma WeakWithin(c: Config, d: Def, env: map<int, Tri>, env': map<int, Tri>)
    requires Within(env, env') && WeakOf(c, d, env).Some?
    ensures WeakOf(c, d, env') == WeakOf(c, d, env)
  {
    hide Eval, DefaultOf, Within;
    DefaultWithin(c, d.defaults, env, env');
    EvalWithin(c, d.weakRevDep, env, env');
    if Eval(c, d.weakRevDep, env).v != 0 { EvalWithin(c, d.directDep, env, env'); }
  }

  lemma PromotedWithin(c: Config, d: Def, val: Tri, env: map<int, Tri>, env': map<int, Tri>)
    requires Within(env, env') && Promoted(c, d, val, env).Some?
    ensures Promoted(c, d, val, env') == Promoted(c, d, val, env)
  {
    hide Eval, IsBool, Within;
    if val == 1 {
      IsBoolWithin(c, d, env, env');
      if IsBool(c, d, env).v != 1 { EvalWithin(c, d.weakRevDep, env, env'); }
    }
  }

  /** More cached values do not change a value that could be computed. */
  lemma TriWithin(c: Config, d: Def, user: Opt, env: map<int, Tri>, env': map<int, Tri>)
    requires Within(env, env') && TriOf(c, d, user, env).Some?
    ensures TriOf(c, d, user, env') == TriOf(c, d, user, env)
  {
    hide Eval, VisOf, WeakOf, Promoted, Within;
    VisWithin(c, d, env, env');
    var vis := VisOf(c, d, env).v;
    if !(vis != 0 && user.Some?) { WeakWithin(c, d, env, env'); }
    EvalWithin(c, d.revDep, env, env');
    var rev, val := Eval(c, d.revDep, env).v, BaseOf(c, d, user, env).v;
    if rev != 0 { EvalWithin(c, d.directDep, env, env'); }
    PromotedWithin(c, d, if rev != 0 then Max(rev, val) else val, env, env');
  }

  lemma {:induction false} SelectsWithin(c: Config, e: Expr, dd: Tri, env: map<int, Tri>, env': map<int, Tri>)
    requires Within(env, env') && SelectsRead(c, e, dd, env)
    ensures SelectsRead(c, e, dd, env')
  {
    match e
    case Or(l, r) => SelectsWithin(c, l, dd, env, env'); SelectsWithin(c, r, dd, env, env');
    case _ =>
      EvalWithin(c, e, env, env');
      if Eval(c, e, env).v > dd { EvalWithin(c, SelectorDep(c, e), env, env'); }
  }

  lemma WarningWithin(c: Config, d: Def, env: map<int, Tri>, env': map<int, Tri>)
    requires Within(env, env') && WarningRead(c, d, env) && Eval(c, d.revDep, env).Some?
    requires Eval(c, d.revDep, env).v != 0 ==> Eval(c, d.directDep, env).Some?
    ensures WarningRead(c, d, env')
  {
    hide Eval, Within, SelectsRead;
    EvalWithin(c, d.revDep, env, env');
    var rev := Eval(c, d.revDep, env).v;
    if rev != 0 {
      EvalWithin(c, d.directDep, env, env');
      var dd := Eval(c, d.directDep, env).v;
      if dd < rev { SelectsWithin(c, d.revDep, dd, env, env'); }
    }
  }

  lemma AnswerWithin(c: Config, d: Def, user: Opt, env: map<int, Tri>, env': map<int, Tri>)
    requires Within(env, env') && Answer(c, d, user, env).Some?
    ensures Answer(c, d, user, env') == Answer(c, d, user, env)
  {
    hide Eval, BaseOf, Promoted, Within, WarningRead;
    TriWithin(c, d, user, env, env');
    WarningWithin(c, d, env, env');
  }

  // ---- evaluation from scratch ----

  /** Ranks that show the configuration to be without dependency loops. */
  ghost predicate Ranked(c: Config, rank: map<int, nat>, b: int)
    requires b in c.defs
  {
    b in rank && forall a :: a in Reads(c, c.defs[b]) && a in c.defs ==> a in rank && rank[a] < rank[b]
  }

  ghost predicate Acyclic(c: Config, rank: map<int, nat>) {
    forall b :: b in c.defs ==> Ranked(c, rank, b)
  }

  function OrZero(o: Opt): Tri {
    if o.Some? then o.v else 0
  }

  /** All symbols of rank below r, those that env does not have evaluated from it */
  ghost function Extended(c: Config, rank: map<int, nat>, users: map<int, Tri>, r: nat, env: map<int, Tri>): map<int, Tri> {
    map s | s in c.defs && s in rank && rank[s] < r ::
      if s in env then env[s] else OrZero(TriOf(c, c.defs[s], UserOf(users, s), env))
  }

  /** All symbols of rank below r, evaluated without any cache, lower ranks first. */
  ghost function Full(c: Config, rank: map<int, nat>, users: map<int, Tri>, r: nat): map<int, Tri> {
    if r == 0 then map[] else Extended(c, rank, users, r, Full(c, rank, users, r - 1))
  }

  /** The value of a symbol from scratch */
  ghost function Fresh(c: Config, rank: map<int, nat>, users: map<int, Tri>, s: int): Tri
    requires s in c.defs && s in rank
  {
    OrZero(TriOf(c, c.defs[s], UserOf(users, s), Full(c, rank, users, rank[s])))
  }

  ghost function FreshVis(c: Config, rank: map<int, nat>, users: map<int, Tri>, s: int): Tri
    requires s in c.defs && s in rank
  {
    OrZero(VisOf(c, c.defs[s], Full(c, rank, users, rank[s])))
  }

  /** Full has each symbol of a lower rank with its value from scratch. */
  lemma {:induction false} FullHas(c: Config, rank: map<int, nat>, users: map<int, Tri>, r: nat)
    ensures forall s :: s in Full(c, rank, users, r) <==> s in c.defs && s in rank && rank[s] < r
    ensures forall s :: s in c.defs && s in rank && rank[s] < r ==> Full(c, rank, users, r)[s] == Fresh(c, rank, users, s)
  {
    if r > 0 {
      FullHas(c, rank, users, r - 1);
      forall s | s in c.defs && s in rank && rank[s] < r
        ensures Full(c, rank, users, r)[s] == Fresh(c, rank, users, s)
      {
        if rank[s] == r - 1 { assert s !in Full(c, rank, users, r - 1); }
      }
    }
  }

  // ---- caches ----

  /** Every cached value follows from the cached values of other symbols; a symbol with a cached value has a
      cached visibility. */
  ghost predicate Consistent(c: Config, users: map<int, Tri>, tri: map<int, Tri>, vis: map<int, Tri>) {
    && (forall s :: s in vis ==> s in c.defs && VisOf(c, c.defs[s], tri) == Some(vis[s]))
    && (forall s :: s in tri ==> s in vis && TriOf(c, c.defs[s], UserOf(users, s), tri) == Some(tri[s]))
  }

  /** Values that follow from each other, in a configuration without loops, are the values from scratch. */
  lemma {:induction false} CachedIsFresh(c: Config, rank: map<int, nat>, users: map<int, Tri>, tri: map<int, Tri>, vis: map<int, Tri>, r: nat)
    requires Acyclic(c, rank) && Consistent(c, users, tri, vis)
    ensures forall s :: s in tri && rank[s] < r ==> s in c.defs && tri[s] == Fresh(c, rank, users, s)
    ensures forall s :: s in vis && rank[s] < r ==> s in c.defs && vis[s] == FreshVis(c, rank, users, s)
  {
    if r > 0 {
      CachedIsFresh(c, rank, users, tri, vis, r - 1);
      forall s | s in vis && rank[s] == r - 1
        ensures vis[s] == FreshVis(c, rank, users, s)
        ensures s in tri ==> tri[s] == Fresh(c, rank, users, s)
      {
        FreshStep(c, rank, users, tri, vis, s);
      }
    }
  }

  lemma FreshStep(c: Config, rank: map<int, nat>, users: map<int, Tri>, tri: map<int, Tri>, vis: map<int, Tri>, s: int)
    requires Acyclic(c, rank) && Consistent(c, users, tri, vis) && s in vis
    requires forall a :: a in tri && rank[a] < rank[s] ==> a in c.defs && tri[a] == Fresh(c, rank, users, a)
    ensures vis[s] == FreshVis(c, rank, users, s)
    ensures s in tri ==> tri[s] == Fresh(c, rank, users, s)
  {
    hide TriOf, VisOf, Fresh, Full, Reads;
    var d := c.defs[s];
    var user := UserOf(users, s);
    var full := Full(c, rank, users, rank[s]);
    var below := map a | a in tri && rank[a] < rank[s] :: tri[a];
    FullHas(c, rank, users, rank[s]);
    assert Ranked(c, rank, s);
    AgreeBelow(c, d, rank, tri, below, s);
    ValuesAgree(c, d, user, tri, below);
    VisWithin(c, d, below, full);
    if s in tri {
      TriWithin(c, d, user, below, full);
      FreshIs(c, rank, users, s);
    }
  }

  lemma AgreeBelow(c: Config, d: Def, rank: map<int, nat>, tri: map<int, Tri>, below: map<int, Tri>, s: int)
    requires s in c.defs && d == c.defs[s] && Ranked(c, rank, s)
    requires (forall a :: a in tri ==> a in c.defs && a in rank) && below == map a | a in tri && rank[a] < rank[s] :: tri[a]
    ensures Agree(tri, below, Reads(c, d))
  {
    hide Reads;
  }

  lemma FreshIs(c: Config, rank: map<int, nat>, users: map<int, Tri>, s: int)
    requires s in c.defs && s in rank
    ensures Fresh(c, rank, users, s) == OrZero(TriOf(c, c.defs[s], UserOf(users, s), Full(c, rank, users, rank[s])))
  {
  }

  lemma {:induction false} EvalTotal(c: Config, e: Expr, env: map<int, Tri>)
    requires forall a :: a in Items(e) && a in c.defs ==> a in env
    ensures Eval(c, e, env).Some?
  {
    match e
    case Sym(s) =>
    case And(l, r) => EvalTotal(c, l, env); EvalTotal(c, r, env);
    case Or(l, r) => EvalTotal(c, l, env); EvalTotal(c, r, env);
    case Not(x) => EvalTotal(c, x, env);
    case Rel(op, a, b) =>
  }

  lemma {:induction false} PromptMaxTotal(c: Config, ps: seq<Expr>, env: map<int, Tri>, vis: Tri)
    requires forall a :: a in ItemsOf(ps) && a in c.defs ==> a in env
    ensures PromptMax(c, ps, env, vis).Some?
    decreases |ps|
  {
    if ps != [] {
      EvalTotal(c, ps[0], env);
      PromptMaxTotal(c, ps[1..], env, Max(vis, Eval(c, ps[0], env).v));
    }
  }

  lemma {:induction false} DefaultTotal(c: Config, ds: seq<(Expr, Expr)>, env: map<int, Tri>)
    requires forall a :: a in DefaultItems(ds) && a in c.defs ==> a in env
    ensures DefaultOf(c, ds, env).Some?
    decreases |ds|
  {
    if ds != [] {
      EvalTotal(c, ds[0].0, env);
      EvalTotal(c, ds[0].1, env);
      DefaultTotal(c, ds[1..], env);
    }
  }

  /** With values for all that a symbol reads it has one itself. */
  lemma TriTotal(c: Config, d: Def, user: Opt, env: map<int, Tri>)
    requires forall a :: a in Reads(c, d) && a in c.defs ==> a in env
    ensures TriOf(c, d, user, env).Some?
  {
    hide Eval, PromptMax, DefaultOf, ItemsOf, Items, DefaultItems;
    PromptMaxTotal(c, d.prompts, env, 0);
    DefaultTotal(c, d.defaults, env);
    EvalTotal(c, d.revDep, env);
    EvalTotal(c, d.weakRevDep, env);
    EvalTotal(c, d.directDep, env);
    assert IsBool(c, d, env).Some?;
    assert VisOf(c, d, env).Some?;
    assert BaseOf(c, d, user, env).Some?;
  }

  /** Evaluation from scratch never lacks a value. */
  lemma FreshIsTotal(c: Config, rank: map<int, nat>, users: map<int, Tri>, s: int)
    requires Acyclic(c, rank) && s in c.defs
    ensures s in rank && TriOf(c, c.defs[s], UserOf(users, s), Full(c, rank, users, rank[s])).Some?
  {
    hide TriOf, Full, Reads;
    assert Ranked(c, rank, s);
    FullHas(c, rank, users, rank[s]);
    TriTotal(c, c.defs[s], UserOf(users, s), Full(c, rank, users, rank[s]));
  }

  // ---- invalidation ----

  /** Whatever may depend on a dropped symbol is dropped itself. */
  ghost predicate Closed(c: Config, vis: map<int, Tri>, vis': map<int, Tri>) {
    && (forall a, b :: a in vis && a !in vis' && b in vis' ==> !DependsOn(c, b, a))
    && (c.modules in vis && c.modules !in vis' ==> vis' == map[])
  }

  /** The caches of some symbols are dropped. */
  ghost predicate Kept(tri: map<int, Tri>, vis: map<int, Tri>, tri': map<int, Tri>, vis': map<int, Tri>) {
    Within(vis', vis) && Within(tri', tri) && forall s :: s in tri && s in vis' ==> s in tri'
  }

  /** After a symbol gets another user value, what is left of the caches is right, if the symbol and all that
      may depend on it are dropped. */
  lemma DropKeepsConsistent(c: Config, users: map<int, Tri>, users': map<int, Tri>, tri: map<int, Tri>, vis: map<int, Tri>,
                            tri': map<int, Tri>, vis': map<int, Tri>, x: int)
    requires Consistent(c, users, tri, vis) && Kept(tri, vis, tri', vis') && Closed(c, vis, vis') && x !in vis'
    requires forall s :: s in tri' ==> s in vis'
    requires forall s :: s != x ==> UserOf(users', s) == UserOf(users, s)
    ensures Consistent(c, users', tri', vis')
  {
    hide TriOf, VisOf, UserOf;
    forall s | s in vis'
      ensures s in c.defs && VisOf(c, c.defs[s], tri') == Some(vis'[s])
      ensures s in tri' ==> TriOf(c, c.defs[s], UserOf(users', s), tri') == Some(tri'[s])
    {
      var d := c.defs[s];
      forall a | a in Reads(c, d)
        ensures a in tri <==> a in tri'
      {
        if a in tri && a !in tri' {
          assert a in vis && a !in vis';
          NotRead(c, s, a, vis, vis');
        }
      }
      assert Agree(tri, tri', Reads(c, d));
      ValuesAgree(c, d, UserOf(users, s), tri, tri');
    }
  }

  lemma NotRead(c: Config, s: int, a: int, vis: map<int, Tri>, vis': map<int, Tri>)
    requires Closed(c, vis, vis') && s in vis' && s in c.defs && a in vis && a !in vis'
    ensures a !in Reads(c, c.defs[s])
  {
    assert !DependsOn(c, s, a);
  }

  /** A user value does not matter to a symbol without prompt. */
  lemma PromptlessKeepsConsistent(c: Config, users: map<int, Tri>, users': map<int, Tri>, tri: map<int, Tri>, vis: map<int, Tri>, x: int)
    requires Consistent(c, users, tri, vis)
    requires x in c.defs ==> c.defs[x].prompts == []
    requires forall s :: s != x ==> UserOf(users', s) == UserOf(users, s)
    ensures Consistent(c, users', tri, vis)
  {
    hide WeakOf, Promoted, Eval, UserOf;
  }

  lemma NoElement(s: set<int>)
    requires forall x :: x !in s
    ensures s == {}
  {
    forall x
      ensures x in s <==> x in {}
    {
    }
  }

  lemma SomeElement(s: set<int>)
    requires s != {}
    ensures exists x :: x in s
  {
    if forall x :: x !in s { NoElement(s); }
  }
}
