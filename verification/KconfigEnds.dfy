/** Which symbol values of kconfiglib.py can be evaluated at all.  tri_value calls itself for every symbol that it
    reads, and MODULES is read by tristate symbols only where a value or a visibility is m. */
module KconfigEnds {
  import opened KconfigExpr
  import opened KconfigCacheModel
  import opened KconfigLoop

  /** The symbols whose values follow from env */
  function Following(c: Config, users: map<int, Tri>, env: map<int, Tri>): map<int, Tri> {
    map s | s in c.defs && Answer(c, c.defs[s], UserOf(users, s), env).Some? :: Answer(c, c.defs[s], UserOf(users, s), env).v
  }

  /** What calls of tri_value nested n deep can evaluate */
  function Known(c: Config, users: map<int, Tri>, n: nat): map<int, Tri> {
    if n == 0 then map[] else Following(c, users, Known(c, users, n - 1))
  }

  /** The evaluation of s comes to an end. */
  ghost predicate Ends(c: Config, users: map<int, Tri>, s: int) {
    exists n: nat :: s in Known(c, users, n)
  }

  /** What can be evaluated that deep when MODULES is withheld from all symbols that would read it */
  function Withheld(c: Config, users: map<int, Tri>, n: nat): map<int, Tri> {
    if n == 0 then map[] else Following(c, users, Withheld(c, users, n - 1) - {c.modules})
  }

  // ---- deeper evaluation adds values and changes none ----

  lemma FollowingWithin(c: Config, users: map<int, Tri>, env: map<int, Tri>, env': map<int, Tri>)
    requires Within(env, env')
    ensures Within(Following(c, users, env), Following(c, users, env'))
  {
    hide Answer, Within;
    forall s | s in Following(c, users, env)
      ensures Answer(c, c.defs[s], UserOf(users, s), env') == Answer(c, c.defs[s], UserOf(users, s), env)
    {
      AnswerWithin(c, c.defs[s], UserOf(users, s), env, env');
    }
    WithinIs(Following(c, users, env), Following(c, users, env'));
  }

  lemma WithinIs(env: map<int, Tri>, env': map<int, Tri>)
    requires forall s :: s in env ==> s in env' && env'[s] == env[s]
    ensures Within(env, env')
  {
  }

  lemma {:induction false} KnownGrows(c: Config, users: map<int, Tri>, n: nat, m: nat)
    requires n <= m
    ensures Within(Known(c, users, n), Known(c, users, m))
    decreases m
  {
    hide Following;
    if n > 0 {
      KnownGrows(c, users, n - 1, m - 1);
      FollowingWithin(c, users, Known(c, users, n - 1), Known(c, users, m - 1));
    }
  }

  lemma {:induction false} WithheldIsKnown(c: Config, users: map<int, Tri>, n: nat)
    ensures Within(Withheld(c, users, n), Known(c, users, n))
  {
    hide Following;
    if n > 0 {
      WithheldIsKnown(c, users, n - 1);
      FollowingWithin(c, users, Withheld(c, users, n - 1) - {c.modules}, Known(c, users, n - 1));
    }
  }

  /** As long as MODULES has no value, withholding it makes no difference. */
  lemma {:induction false} KnownIsWithheld(c: Config, users: map<int, Tri>, n: nat)
    requires n > 0 ==> c.modules !in Known(c, users, n - 1)
    ensures Known(c, users, n) == Withheld(c, users, n)
  {
    hide Following;
    if n > 0 {
      if n > 1 { KnownGrows(c, users, n - 2, n - 1); }
      KnownIsWithheld(c, users, n - 1);
      var env := Known(c, users, n - 1);
      assert env - {c.modules} == env;
    }
  }

  // ---- how deep it has to go ----

  function SelectorItems(c: Config, e: Expr): set<int> {
    match e
    case Or(l, r) => SelectorItems(c, l) + SelectorItems(c, r)
    case _ => Items(SelectorDep(c, e))
  }

  /** All that tri_value may read, the warning included */
  function AllReads(c: Config, d: Def): set<int> {
    Reads(c, d) + SelectorItems(c, d.revDep)
  }

  lemma {:induction false} SelectsAgree(c: Config, e: Expr, dd: Tri, env: map<int, Tri>, env': map<int, Tri>)
    requires Agree(env, env', Items(e)) && Agree(env, env', SelectorItems(c, e))
    ensures SelectsRead(c, e, dd, env) == SelectsRead(c, e, dd, env')
  {
    match e
    case Or(l, r) => SelectsAgree(c, l, dd, env, env'); SelectsAgree(c, r, dd, env, env');
    case _ =>
      EvalAgree(c, e, env, env');
      EvalAgree(c, SelectorDep(c, e), env, env');
  }

  lemma AgreePart(env: map<int, Tri>, env': map<int, Tri>, items: set<int>, part: set<int>)
    requires Agree(env, env', items) && part <= items
    ensures Agree(env, env', part)
  {
  }

  lemma AnswerAgree(c: Config, d: Def, user: Opt, env: map<int, Tri>, env': map<int, Tri>)
    requires Agree(env, env', AllReads(c, d))
    ensures Answer(c, d, user, env) == Answer(c, d, user, env')
  {
    hide TriOf, Agree, SelectsRead, Eval, Items, ItemsOf, DefaultItems, SelectorItems;
    AgreePart(env, env', AllReads(c, d), Reads(c, d));
    ValuesAgree(c, d, user, env, env');
    AgreePart(env, env', AllReads(c, d), Items(d.revDep));
    AgreePart(env, env', AllReads(c, d), Items(d.directDep));
    AgreePart(env, env', AllReads(c, d), SelectorItems(c, d.revDep));
    EvalAgree(c, d.revDep, env, env');
    EvalAgree(c, d.directDep, env, env');
    if Eval(c, d.directDep, env).Some? { SelectsAgree(c, d.revDep, Eval(c, d.directDep, env).v, env, env'); }
  }

  lemma {:induction false} SelectsTotal(c: Config, e: Expr, dd: Tri, env: map<int, Tri>)
    requires forall a :: a in Items(e) + SelectorItems(c, e) && a in c.defs ==> a in env
    ensures SelectsRead(c, e, dd, env)
  {
    match e
    case Or(l, r) => SelectsTotal(c, l, dd, env); SelectsTotal(c, r, dd, env);
    case _ =>
      EvalTotal(c, e, env);
      EvalTotal(c, SelectorDep(c, e), env);
  }

  lemma AnswerTotal(c: Config, d: Def, user: Opt, env: map<int, Tri>)
    requires forall a :: a in AllReads(c, d) && a in c.defs ==> a in env
    ensures Answer(c, d, user, env).Some?
  {
    hide TriOf, SelectsRead, Eval, Items, ItemsOf, DefaultItems, SelectorItems;
    TriTotal(c, d, user, env);
    if Eval(c, d.directDep, env).Some? { SelectsTotal(c, d.revDep, Eval(c, d.directDep, env).v, env); }
  }

  /** The direct dependencies of a selecting symbol are read by one symbol on the way. */
  lemma {:induction false} SelectorBetween(c: Config, e: Expr, a: int) returns (t: int)
    requires a in SelectorItems(c, e)
    ensures a in Items(e) || (t in Items(e) && t in c.defs && a in Items(c.defs[t].directDep))
  {
    match e
    case Or(l, r) => if a in SelectorItems(c, l) { t := SelectorBetween(c, l, a); } else { t := SelectorBetween(c, r, a); }
    case _ =>
      t := match FirstOperand(e) case Sym(s) => s case _ => 0;
      FirstInside(e);
  }

  lemma {:induction false} FirstInside(e: Expr)
    ensures FirstOperand(e).Sym? ==> FirstOperand(e).s in Items(e)
  {
    if e.And? { FirstInside(e.left); }
  }

  lemma DirectReads(c: Config, t: int, a: int)
    requires t in c.defs && a in Items(c.defs[t].directDep)
    ensures DependsOn(c, t, a)
  {
  }

  lemma SelectReads(c: Config, s: int, t: int)
    requires s in c.defs && t in Items(c.defs[s].revDep)
    ensures DependsOn(c, s, t)
  {
  }

  /** Whatever is read, MODULES aside, has s among its dependents or theirs. */
  lemma ReadBefore(c: Config, next: map<int, set<int>>, s: int, a: int) returns (t: int)
    requires DependentsIn(c, next) && s in c.defs && a in AllReads(c, c.defs[s]) && a in c.defs
    ensures Edge(next, a, s) || (a == c.modules && c.defs[s].kind == TRISTATE) || (Edge(next, a, t) && Edge(next, t, s))
  {
    hide Items, ItemsOf, DefaultItems, SelectorItems, DefItems, Edge;
    var d := c.defs[s];
    t := s;
    if a in DefItems(d) {
      assert DependsOn(c, s, a);
    } else if a in SelectorItems(c, d.revDep) {
      t := SelectorBetween(c, d.revDep, a);
      if a in Items(d.revDep) {
        SelectReads(c, s, a);
      } else {
        SelectReads(c, s, t);
        DirectReads(c, t, a);
      }
    }
  }

  lemma RankBefore(c: Config, next: map<int, set<int>>, rank: map<int, nat>, s: int, a: int)
    requires Ranking(c, next, rank) && s in c.defs && a in AllReads(c, c.defs[s]) && a in c.defs && a != c.modules
    ensures rank[a] < rank[s]
  {
    hide AllReads, DependentsIn;
    var t := ReadBefore(c, next, s, a);
  }

  /** Ranks that show that the loop search finds nothing among the dependents next */
  ghost predicate Ranking(c: Config, next: map<int, set<int>>, rank: map<int, nat>) {
    DependentsIn(c, next) && Rises(next, rank) && forall b :: b in c.defs ==> b in rank
  }

  /** With MODULES withheld a symbol of rank r has its value at depth r + 1 or never. */
  lemma {:induction false} WithheldSettles(c: Config, users: map<int, Tri>, next: map<int, set<int>>, rank: map<int, nat>, s: int, n: nat)
    requires Ranking(c, next, rank) && s in c.defs && n > rank[s]
    ensures s in Withheld(c, users, n) <==> s in Withheld(c, users, rank[s] + 1)
    ensures s in Withheld(c, users, n) ==> Withheld(c, users, n)[s] == Withheld(c, users, rank[s] + 1)[s]
    decreases rank[s]
  {
    hide Ranking, AllReads, Answer;
    InRanking(c, next, rank, s);
    var d := c.defs[s];
    var env, env' := Withheld(c, users, n - 1) - {c.modules}, Withheld(c, users, rank[s]) - {c.modules};
    forall a | a in AllReads(c, d)
      ensures (a in env <==> a in env') && (a in env ==> env[a] == env'[a])
    {
      if a in c.defs && a != c.modules {
        RankBefore(c, next, rank, s, a);
        InRanking(c, next, rank, a);
        WithheldSettles(c, users, next, rank, a, n - 1);
        WithheldSettles(c, users, next, rank, a, rank[s]);
      }
    }
    AnswerAgree(c, d, UserOf(users, s), env, env');
  }

  lemma InRanking(c: Config, next: map<int, set<int>>, rank: map<int, nat>, a: int)
    requires Ranking(c, next, rank) && a in c.defs
    ensures a in rank
  {
  }

  /** Once MODULES has a value, every symbol gets one, lower ranks first. */
  lemma {:induction false} AllKnown(c: Config, users: map<int, Tri>, next: map<int, set<int>>, rank: map<int, nat>, n: nat, r: nat)
    requires Ranking(c, next, rank) && (c.modules in c.defs ==> c.modules in Known(c, users, n))
    ensures forall s :: s in c.defs && s in rank && rank[s] < r ==> s in Known(c, users, n + r)
  {
    hide Ranking, AllReads, Answer, Within;
    if r > 0 {
      AllKnown(c, users, next, rank, n, r - 1);
      var env := Known(c, users, n + r - 1);
      KnownGrows(c, users, n, n + r - 1);
      KeysWithin(Known(c, users, n), env);
      forall s | s in c.defs && s in rank && rank[s] < r
        ensures s in Known(c, users, n + r)
      {
        forall a | a in AllReads(c, c.defs[s]) && a in c.defs
          ensures a in env
        {
          if a != c.modules {
            RankBefore(c, next, rank, s, a);
            InRanking(c, next, rank, a);
          }
        }
        AnswerTotal(c, c.defs[s], UserOf(users, s), env);
      }
    }
  }

  lemma KeysWithin(env: map<int, Tri>, env': map<int, Tri>)
    requires Within(env, env')
    ensures forall s :: s in env ==> s in env'
  {
  }

  // ---- the main results ----

  /** MODULES has a value at the depth of its rank without being read itself. */
  predicate ModulesComes(c: Config, users: map<int, Tri>, rank: map<int, nat>) {
    c.modules in c.defs && c.modules in rank && c.modules in Withheld(c, users, rank[c.modules] + 1)
  }

  /** Where the loop search finds nothing, the evaluation of a symbol comes to an end if and only if the symbol or MODULES
      gets its value, at the depth of its rank, without MODULES being read. */
  lemma EndsExactly(c: Config, users: map<int, Tri>, next: map<int, set<int>>, rank: map<int, nat>, s: int)
    requires Ranking(c, next, rank) && s in c.defs
    ensures s in rank
    ensures Ends(c, users, s) <==> s in Withheld(c, users, rank[s] + 1) || ModulesComes(c, users, rank)
  {
    hide Ranking, Known, Withheld, Within;
    InRanking(c, next, rank, s);
    if s in Withheld(c, users, rank[s] + 1) {
      WithheldIsKnown(c, users, rank[s] + 1);
      KeysWithin(Withheld(c, users, rank[s] + 1), Known(c, users, rank[s] + 1));
    } else if ModulesComes(c, users, rank) {
      var n := rank[c.modules] + 1;
      WithheldIsKnown(c, users, n);
      KeysWithin(Withheld(c, users, n), Known(c, users, n));
      AllKnown(c, users, next, rank, n, rank[s] + 1);
    } else if Ends(c, users, s) {
      var n: nat :| s in Known(c, users, n);
      KnownNeeds(c, users, next, rank, s, n);
    }
  }

  /** What has a value has one with MODULES withheld, or MODULES has. */
  lemma {:induction false} KnownNeeds(c: Config, users: map<int, Tri>, next: map<int, set<int>>, rank: map<int, nat>, s: int, n: nat)
    requires Ranking(c, next, rank) && s in c.defs && s in rank && s in Known(c, users, n)
    ensures s in Withheld(c, users, rank[s] + 1) || ModulesComes(c, users, rank)
    decreases n
  {
    hide Ranking, Withheld, Within, Following;
    if n > 0 && c.modules in Known(c, users, n - 1) {
      KnownDefined(c, users, n - 1, c.modules);
      InRanking(c, next, rank, c.modules);
      KnownNeeds(c, users, next, rank, c.modules, n - 1);
    } else {
      KnownIsWithheld(c, users, n);
      Settled(c, users, next, rank, s, n);
    }
  }

  lemma KnownDefined(c: Config, users: map<int, Tri>, n: nat, s: int)
    requires s in Known(c, users, n)
    ensures s in c.defs
  {
  }

  lemma {:induction false} WithheldGrows(c: Config, users: map<int, Tri>, n: nat, m: nat)
    requires n <= m
    ensures Within(Withheld(c, users, n), Withheld(c, users, m))
    decreases m
  {
    hide Following;
    if n > 0 {
      WithheldGrows(c, users, n - 1, m - 1);
      FollowingWithin(c, users, Withheld(c, users, n - 1) - {c.modules}, Withheld(c, users, m - 1) - {c.modules});
    }
  }

  lemma Settled(c: Config, users: map<int, Tri>, next: map<int, set<int>>, rank: map<int, nat>, s: int, n: nat)
    requires Ranking(c, next, rank) && s in c.defs && s in rank && s in Withheld(c, users, n)
    ensures s in Withheld(c, users, rank[s] + 1)
  {
    hide Ranking, Withheld, Within;
    if n > rank[s] {
      WithheldSettles(c, users, next, rank, s, n);
    } else {
      WithheldGrows(c, users, n, rank[s] + 1);
      KeysWithin(Withheld(c, users, n), Withheld(c, users, rank[s] + 1));
    }
  }

  /** Every evaluation comes to an end if and only if MODULES gets its value without being read on the way. */
  lemma EvaluationEnds(c: Config, users: map<int, Tri>, next: map<int, set<int>>, rank: map<int, nat>)
    requires Ranking(c, next, rank)
    ensures (forall s :: s in c.defs ==> Ends(c, users, s)) <==> (c.modules in c.defs ==> ModulesComes(c, users, rank))
  {
    hide Ranking, Known, Withheld, Within, Ends;
    forall s | s in c.defs
      ensures c.modules in c.defs && ModulesComes(c, users, rank) ==> Ends(c, users, s)
      ensures c.modules !in c.defs ==> Ends(c, users, s)
    {
      EndsExactly(c, users, next, rank, s);
      if c.modules !in c.defs {
        AllKnown(c, users, next, rank, 0, rank[s] + 1);
        EndsBy(c, users, s, rank[s] + 1);
      }
    }
    if c.modules in c.defs {
      EndsExactly(c, users, next, rank, c.modules);
    }
  }

  lemma EndsBy(c: Config, users: map<int, Tri>, s: int, n: nat)
    requires s in Known(c, users, n)
    ensures Ends(c, users, s)
  {
  }

  /** If MODULES does not depend on a tristate symbol, evaluation comes to an end whatever the user values are. */
  lemma FreeEnds(c: Config, users: map<int, Tri>, next: map<int, set<int>>, rank: map<int, nat>)
    requires Ranking(c, next, rank) && ModulesFree(c, next)
    ensures forall s :: s in c.defs ==> Ends(c, users, s)
  {
    hide Ranking, Withheld, Ends, ModulesFree;
    EvaluationEnds(c, users, next, rank);
    if c.modules in c.defs {
      InRanking(c, next, rank, c.modules);
      ReachesItself(next, c.modules);
      BehindModules(c, users, next, rank, rank[c.modules] + 1);
    }
  }

  /** What MODULES depends on is evaluated without reading it. */
  lemma {:induction false} BehindModules(c: Config, users: map<int, Tri>, next: map<int, set<int>>, rank: map<int, nat>, r: nat)
    requires Ranking(c, next, rank) && ModulesFree(c, next) && c.modules in c.defs
    ensures forall s :: s in c.defs && s in rank && rank[s] < r && Reaches(next, s, c.modules) ==> s in Withheld(c, users, r)
  {
    hide Ranking, AllReads, Answer, Reaches, Edge;
    if r > 0 {
      BehindModules(c, users, next, rank, r - 1);
      var env := Withheld(c, users, r - 1) - {c.modules};
      forall s | s in c.defs && s in rank && rank[s] < r && Reaches(next, s, c.modules)
        ensures s in Withheld(c, users, r)
      {
        forall a | a in AllReads(c, c.defs[s]) && a in c.defs
          ensures a in env
        {
          BehindToo(c, next, rank, s, a);
        }
        AnswerTotal(c, c.defs[s], UserOf(users, s), env);
      }
    }
  }

  lemma BehindToo(c: Config, next: map<int, set<int>>, rank: map<int, nat>, s: int, a: int)
    requires Ranking(c, next, rank) && ModulesFree(c, next) && c.modules in c.defs
    requires s in c.defs && Reaches(next, s, c.modules) && a in AllReads(c, c.defs[s]) && a in c.defs
    ensures s in rank && a in rank && rank[a] < rank[s] && Reaches(next, a, c.modules) && a != c.modules
  {
    hide AllReads, Reaches, DependentsIn;
    var t := ReadBefore(c, next, s, a);
    if Edge(next, a, s) {
      ReachesBack(next, a, s, c.modules);
    } else {
      ReachesBack(next, t, s, c.modules);
      ReachesBack(next, a, t, c.modules);
    }
    NotBehind(next, rank, s, c.modules);
  }

  /** Where ranks exist for all reads, the value that evaluation comes to is the value from scratch. */
  lemma KnownIsFresh(c: Config, rank: map<int, nat>, users: map<int, Tri>, n: nat, s: int)
    requires Acyclic(c, rank) && s in Known(c, users, n)
    ensures s in c.defs && s in rank && Known(c, users, n)[s] == Fresh(c, rank, users, s)
  {
    hide TriOf, VisOf, Following, Known, Fresh, Within;
    var tri := Known(c, users, n);
    var vis := map t | t in tri && t in c.defs && VisOf(c, c.defs[t], tri).Some? :: VisOf(c, c.defs[t], tri).v;
    forall t | t in tri
      ensures t in c.defs && t in vis && TriOf(c, c.defs[t], UserOf(users, t), tri) == Some(tri[t])
    {
      KnownFollows(c, users, n, t);
      VisKnown(c, c.defs[t], UserOf(users, t), tri);
    }
    assert Ranked(c, rank, s);
    CachedIsFresh(c, rank, users, tri, vis, rank[s] + 1);
  }

  lemma KnownFollows(c: Config, users: map<int, Tri>, n: nat, t: int)
    requires t in Known(c, users, n)
    ensures t in c.defs && TriOf(c, c.defs[t], UserOf(users, t), Known(c, users, n)) == Some(Known(c, users, n)[t])
  {
    hide TriOf, WarningRead;
    KnownGrows(c, users, n - 1, n);
    AnswerWithin(c, c.defs[t], UserOf(users, t), Known(c, users, n - 1), Known(c, users, n));
  }

  lemma VisKnown(c: Config, d: Def, user: Opt, env: map<int, Tri>)
    requires TriOf(c, d, user, env).Some?
    ensures VisOf(c, d, env).Some?
  {
  }

  // ---- two configurations ----

  const A := 1         // a tristate symbol without prompt
  const MODULES := 0   // a bool symbol with a prompt that depends on A
  const N := -3
  const M := -1
  const Y := -2

  /** A has the default v. */
  function SmallConfig(v: int): Config {
    Config(map[A := Def(TRISTATE, [], [(Expr.Sym(v), Expr.Sym(Y))], Expr.Sym(N), Expr.Sym(N), Expr.Sym(Y)),
               MODULES := Def(BOOL, [Expr.Sym(A)], [], Expr.Sym(N), Expr.Sym(N), Expr.Sym(Y))],
           map[M := 1, Y := 2], MODULES, (op, a, v, b, w) => false)
  }

  lemma SmallItems(v: int)
    ensures DefItems(SmallConfig(v).defs[A]) == {v, Y, N} && DefItems(SmallConfig(v).defs[MODULES]) == {A, Y, N}
  {
    var ps, ds := [Expr.Sym(A)], [(Expr.Sym(v), Expr.Sym(Y))];
    assert ps[1..] == [] && ds[1..] == [];
    assert ItemsOf(ps) == {A} && DefaultItems(ds) == {v, Y};
    assert SmallConfig(v).defs[A] == Def(TRISTATE, [], ds, Expr.Sym(N), Expr.Sym(N), Expr.Sym(Y));
    assert SmallConfig(v).defs[MODULES] == Def(BOOL, ps, [], Expr.Sym(N), Expr.Sym(N), Expr.Sym(Y));
  }

  /** The loop search finds nothing in them, and MODULES depends on a tristate symbol. */
  lemma SmallRanks(v: int) returns (next: map<int, set<int>>, rank: map<int, nat>)
    requires v == M || v == Y
    ensures Ranking(SmallConfig(v), next, rank) && !ModulesFree(SmallConfig(v), next)
  {
    next := map[A := {MODULES}, MODULES := {}];
    rank := map[A := 0, MODULES := 1];
    SmallItems(v);
    assert Edge(next, A, MODULES);
    ReachesItself(next, MODULES);
    ReachesBack(next, A, MODULES, MODULES);
  }

  lemma NeedEachOther(users: map<int, Tri>, env: map<int, Tri>)
    ensures var c := SmallConfig(M);
            && (MODULES !in env ==> TriOf(c, c.defs[A], UserOf(users, A), env) == None)
            && (A !in env ==> TriOf(c, c.defs[MODULES], UserOf(users, MODULES), env) == None)
  {
  }

  /** With the default m the values of A and MODULES need each other: no evaluation of them comes to an end. */
  lemma {:induction false} ModulesNeedsA(users: map<int, Tri>, n: nat)
    ensures Known(SmallConfig(M), users, n) == map[]
  {
    hide TriOf;
    if n > 0 {
      ModulesNeedsA(users, n - 1);
      NeedEachOther(users, map[]);
    }
  }

  lemma WithY(users: map<int, Tri>)
    ensures var c := SmallConfig(Y);
            && TriOf(c, c.defs[A], UserOf(users, A), map[]) == Some(2)
            && TriOf(c, c.defs[MODULES], UserOf(users, MODULES), map[A := 2]).Some?
            && WarningRead(c, c.defs[A], map[]) && WarningRead(c, c.defs[MODULES], map[A := 2])
  {
    var c, env := SmallConfig(Y), map[A := 2];
    var ps := c.defs[MODULES].prompts;
    assert ps == [Expr.Sym(A)] && ps[1..] == [];
    assert PromptMax(c, ps, env, 0) == PromptMax(c, ps[1..], env, 2);
  }

  /** With the default y it comes to an end under all user values, although MODULES depends on a tristate symbol. */
  lemma EndsAnyway(users: map<int, Tri>)
    ensures Ends(SmallConfig(Y), users, A) && Ends(SmallConfig(Y), users, MODULES)
  {
    hide TriOf, WarningRead;
    var c := SmallConfig(Y);
    WithY(users);
    var one, two := Known(c, users, 1), Known(c, users, 2);
    assert Known(c, users, 0) == map[] && one == Following(c, users, map[]);
    assert A in one && one[A] == 2;
    if MODULES in one {
      EndsBy(c, users, MODULES, 1);
    } else {
      assert one == map[A := 2];
      EndsBy(c, users, MODULES, 2);
    }
    EndsBy(c, users, A, 1);
  }
}
