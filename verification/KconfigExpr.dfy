/** Kconfig expressions (kconfiglib.py): their values, how they are printed as tokens, and the top-down parser
    that reads them back. */
module KconfigExpr {
  datatype RelOp = EQUAL | UNEQUAL | LESS | LESS_EQUAL | GREATER | GREATER_EQUAL

  datatype Expr =
    | Sym(s: int)
    | And(left: Expr, right: Expr)
    | Or(left: Expr, right: Expr)
    | Not(arg: Expr)
    | Rel(op: RelOp, a: int, b: int)

  /** An assignment: a tristate value for every symbol, and the outcome of every relation. */
  datatype Env = Env(tri: int -> nat, rel: (RelOp, int, int) -> bool)

  ghost predicate Tristate(env: Env) {
    forall s :: env.tri(s) <= 2
  }

  function Min(a: nat, b: nat): nat {
    if a < b then a else b
  }

  function Max(a: nat, b: nat): nat {
    if a < b then b else a
  }

  /** expr_value, with its two short cuts */
  function Value(e: Expr, env: Env): (v: nat)
    requires Tristate(env)
    ensures v <= 2
  {
    match e
    case Sym(s) => env.tri(s)
    case And(l, r) => var v1 := Value(l, env); if v1 == 0 then 0 else Min(v1, Value(r, env))
    case Or(l, r) => var v1 := Value(l, env); if v1 == 2 then 2 else Max(v1, Value(r, env))
    case Not(x) => 2 - Value(x, env)
    case Rel(op, a, b) => if env.rel(op, a, b) then 2 else 0
  }

  /** The short cuts do not matter: && is the minimum and || the maximum; ! turns the values around, and a relation is y or
      n. */
  lemma ShortCuts(l: Expr, r: Expr, env: Env)
    requires Tristate(env)
    ensures Value(And(l, r), env) == Min(Value(l, env), Value(r, env))
    ensures Value(Or(l, r), env) == Max(Value(l, env), Value(r, env))
    ensures Value(Not(l), env) + Value(l, env) == 2 && Value(Not(And(l, r)), env) == Value(Or(Not(l), Not(r)), env)
    ensures forall op, a, b :: Value(Rel(op, a, b), env) == if env.rel(op, a, b) then 2 else 0
  {
  }

  // ---- printing ----

  datatype Token = TSym(s: int) | TRel(op: RelOp) | TAnd | TOr | TNot | TOpen | TClose | TEnd

  /** The tokens of expr_str(e) */
  function Tokens(e: Expr): (r: seq<Token>)
    ensures |r| > 0
    decreases e, 0
  {
    match e
    case Sym(s) => [TSym(s)]
    case And(l, r) => AndOperand(l) + [TAnd] + AndOperand(r)
    case Or(l, r) => OrOperand(l) + [TOr] + OrOperand(r)
    case Not(x) => if x.Sym? then [TNot, TSym(x.s)] else [TNot, TOpen] + Tokens(x) + [TClose]
    case Rel(op, a, b) => [TSym(a), TRel(op), TSym(b)]
  }

  /** An operand of && or ||, which _parenthesize puts in parentheses if it is of the other kind. */
  function AndOperand(e: Expr): seq<Token>
    decreases e, 1
  {
    if e.Or? then [TOpen] + Tokens(e) + [TClose] else Tokens(e)
  }

  function OrOperand(e: Expr): seq<Token>
    decreases e, 1
  {
    if e.And? then [TOpen] + Tokens(e) + [TClose] else Tokens(e)
  }

  // ---- parsing ----

  datatype Parsed = Ok(e: Expr, rest: seq<Token>) | Malformed

  predicate Starts(ts: seq<Token>, t: Token) {
    ts != [] && ts[0] == t
  }

  /** _parse_expr with transform_m off */
  function ParseExpr(ts: seq<Token>): (r: Parsed)
    ensures r.Ok? ==> |r.rest| < |ts|
    decreases |ts|, 3
  {
    match ParseAnd(ts)
    case Malformed => Malformed
    case Ok(l, rest) =>
      if Starts(rest, TOr) then
        match ParseExpr(rest[1..])
        case Malformed => Malformed
        case Ok(r, rest') => Ok(Or(l, r), rest')
      else Ok(l, rest)
  }

  /** _parse_and_expr */
  function ParseAnd(ts: seq<Token>): (r: Parsed)
    ensures r.Ok? ==> |r.rest| < |ts|
    decreases |ts|, 2
  {
    match ParseFactor(ts)
    case Malformed => Malformed
    case Ok(l, rest) =>
      if Starts(rest, TAnd) then
        match ParseAnd(rest[1..])
        case Malformed => Malformed
        case Ok(r, rest') => Ok(And(l, r), rest')
      else Ok(l, rest)
  }

  /** _parse_factor */
  function ParseFactor(ts: seq<Token>): (r: Parsed)
    ensures r.Ok? ==> |r.rest| < |ts|
    decreases |ts|, 1
  {
    if ts == [] then Malformed
    else
      match ts[0]
      case TSym(s) =>
        if |ts| > 1 && ts[1].TRel? then
          if |ts| > 2 && ts[2].TSym? then Ok(Rel(ts[1].op, s, ts[2].s), ts[3..]) else Malformed
        else Ok(Sym(s), ts[1..])
      case TNot =>
        (match ParseFactor(ts[1..])
         case Malformed => Malformed
         case Ok(x, rest) => Ok(Not(x), rest))
      case TOpen =>
        (match ParseExpr(ts[1..])
         case Malformed => Malformed
         case Ok(x, rest) => if Starts(rest, TClose) then Ok(x, rest[1..]) else Malformed)
      case _ => Malformed
  }

  // ---- what comes back ----

  /** && with its left operand's chain continued on the right */
  function JoinAnd(l: Expr, r: Expr): Expr {
    if l.And? then And(l.left, JoinAnd(l.right, r)) else And(l, r)
  }

  function JoinOr(l: Expr, r: Expr): Expr {
    if l.Or? then Or(l.left, JoinOr(l.right, r)) else Or(l, r)
  }

  /** e with all chains of && and of || associated to the right */
  function Normal(e: Expr): (r: Expr)
    ensures e.And? <==> r.And?
    ensures e.Or? <==> r.Or?
    ensures e.Sym? ==> r == e
    ensures r.Sym? ==> r == e
  {
    match e
    case Sym(s) => e
    case And(l, r) => JoinAnd(Normal(l), Normal(r))
    case Or(l, r) => JoinOr(Normal(l), Normal(r))
    case Not(x) => Not(Normal(x))
    case Rel(op, a, b) => e
  }

  lemma {:induction false} JoinAndAssoc(a: Expr, b: Expr, c: Expr)
    ensures JoinAnd(a, JoinAnd(b, c)) == JoinAnd(JoinAnd(a, b), c)
  {
    if a.And? { JoinAndAssoc(a.right, b, c); }
  }

  lemma {:induction false} JoinOrAssoc(a: Expr, b: Expr, c: Expr)
    ensures JoinOr(a, JoinOr(b, c)) == JoinOr(JoinOr(a, b), c)
  {
    if a.Or? { JoinOrAssoc(a.right, b, c); }
  }

  /** The first token of rest ends an operand of &&. */
  predicate EndsFactor(rest: seq<Token>) {
    rest == [] || !rest[0].TRel?
  }

  predicate EndsAnd(rest: seq<Token>) {
    EndsFactor(rest) && !Starts(rest, TAnd)
  }

  predicate EndsOr(rest: seq<Token>) {
    EndsAnd(rest) && !Starts(rest, TOr)
  }

  /** An expression in parentheses is a factor. */
  lemma {:induction false} ParenthesesParse(e: Expr, rest: seq<Token>)
    requires ParseExpr(Tokens(e) + ([TClose] + rest)) == Ok(Normal(e), [TClose] + rest)
    ensures ParseFactor([TOpen] + Tokens(e) + [TClose] + rest) == Ok(Normal(e), rest)
  {
    var ts := [TOpen] + Tokens(e) + [TClose] + rest;
    assert ts[1..] == Tokens(e) + ([TClose] + rest);
    assert ([TClose] + rest)[1..] == rest;
  }

  /** One step of _parse_and_expr: a factor, then the rest of the chain or the end. */
  lemma AndStep(ts: seq<Token>, l: Expr, tail: seq<Token>, r: Expr, rest: seq<Token>)
    requires ParseFactor(ts) == Ok(l, [TAnd] + tail) && ParseAnd(tail) == Ok(r, rest)
    ensures ParseAnd(ts) == Ok(And(l, r), rest)
  {
    hide ParseFactor;
    assert ([TAnd] + tail)[1..] == tail;
  }

  lemma OrStep(ts: seq<Token>, l: Expr, tail: seq<Token>, r: Expr, rest: seq<Token>)
    requires ParseAnd(ts) == Ok(l, [TOr] + tail) && ParseExpr(tail) == Ok(r, rest)
    ensures ParseExpr(ts) == Ok(Or(l, r), rest)
  {
    hide ParseAnd;
    assert ([TOr] + tail)[1..] == tail;
  }

  lemma AndPrinted(e: Expr, tail: seq<Token>)
    requires e.And?
    ensures AndOperand(e) + tail == AndOperand(e.left) + [TAnd] + (AndOperand(e.right) + tail)
    ensures Normal(e) == JoinAnd(Normal(e.left), Normal(e.right))
  {
  }

  lemma OrPrinted(e: Expr, tail: seq<Token>)
    requires e.Or?
    ensures OrOperand(e) + tail == OrOperand(e.left) + [TOr] + (OrOperand(e.right) + tail)
    ensures Tokens(e) == OrOperand(e)
    ensures Normal(e) == JoinOr(Normal(e.left), Normal(e.right))
  {
  }

  /** A printed operand of && followed by && continues the chain. */
  lemma {:induction false} AndOperandThen(e: Expr, tail: seq<Token>, r: Expr, rest: seq<Token>)
    requires ParseAnd(tail) == Ok(r, rest)
    ensures ParseAnd(AndOperand(e) + [TAnd] + tail) == Ok(JoinAnd(Normal(e), r), rest)
    decreases e, 2
  {
    hide ParseAnd, ParseFactor, Tokens, AndOperand, Normal;
    assert AndOperand(e) + [TAnd] + tail == AndOperand(e) + ([TAnd] + tail);
    if e.And? {
      var mid := AndOperand(e.right) + [TAnd] + tail;
      AndPrinted(e, [TAnd] + tail);
      assert AndOperand(e.right) + ([TAnd] + tail) == mid;
      AndOperandThen(e.right, tail, r, rest);
      AndOperandThen(e.left, mid, JoinAnd(Normal(e.right), r), rest);
      JoinAndAssoc(Normal(e.left), Normal(e.right), r);
    } else {
      FactorParses(e, [TAnd] + tail);
      AndStep(AndOperand(e) + ([TAnd] + tail), Normal(e), tail, r, rest);
      assert !Normal(e).And?;
    }
  }

  /** A printed operand of && that ends here. */
  lemma {:induction false} AndOperandLast(e: Expr, rest: seq<Token>)
    requires EndsAnd(rest)
    ensures ParseAnd(AndOperand(e) + rest) == Ok(Normal(e), rest)
    decreases e, 2
  {
    hide ParseFactor, Tokens, AndOperand, Normal;
    if e.And? {
      AndOperandLast(e.right, rest);
      AndOperandThen(e.left, AndOperand(e.right) + rest, Normal(e.right), rest);
      AndPrinted(e, rest);
    } else {
      FactorParses(e, rest);
    }
  }

  /** Anything but && is printed as one factor where an operand of && stands. */
  lemma {:induction false} FactorParses(e: Expr, rest: seq<Token>)
    requires !e.And? && EndsFactor(rest)
    ensures ParseFactor(AndOperand(e) + rest) == Ok(Normal(e), rest)
    decreases e, 1
  {
    var ts := AndOperand(e) + rest;
    match e
    case Sym(s) =>
      assert ts[1..] == rest;
    case Rel(op, a, b) =>
      assert ts[3..] == rest;
    case Or(l, r) =>
      OrParses(e, [TClose] + rest);
      ParenthesesParse(e, rest);
      assert ts == [TOpen] + Tokens(e) + [TClose] + rest;
    case Not(x) =>
      if x.Sym? {
        NotSymParses(x.s, rest);
      } else {
        ExprParses(x, [TClose] + rest);
        ParenthesesParse(x, rest);
        NotParses([TOpen] + Tokens(x) + [TClose] + rest, Normal(x), rest);
        assert ts == [TNot] + ([TOpen] + Tokens(x) + [TClose] + rest);
      }
  }

  lemma NotParses(ts: seq<Token>, x: Expr, rest: seq<Token>)
    requires ParseFactor(ts) == Ok(x, rest)
    ensures ParseFactor([TNot] + ts) == Ok(Not(x), rest)
  {
    assert ([TNot] + ts)[1..] == ts;
  }

  lemma NotSymParses(s: int, rest: seq<Token>)
    requires EndsFactor(rest)
    ensures ParseFactor([TNot, TSym(s)] + rest) == Ok(Not(Sym(s)), rest)
  {
    assert ([TSym(s)] + rest)[1..] == rest;
    NotParses([TSym(s)] + rest, Sym(s), rest);
    assert [TNot] + ([TSym(s)] + rest) == [TNot, TSym(s)] + rest;
  }

  /** A printed operand of || followed by || continues the chain. */
  lemma {:induction false} OrOperandThen(e: Expr, tail: seq<Token>, r: Expr, rest: seq<Token>)
    requires ParseExpr(tail) == Ok(r, rest)
    ensures ParseExpr(OrOperand(e) + [TOr] + tail) == Ok(JoinOr(Normal(e), r), rest)
    decreases e, 4
  {
    hide ParseExpr, ParseAnd, ParseFactor, Tokens, OrOperand, Normal;
    assert OrOperand(e) + [TOr] + tail == OrOperand(e) + ([TOr] + tail);
    if e.Or? {
      var mid := OrOperand(e.right) + [TOr] + tail;
      OrPrinted(e, [TOr] + tail);
      assert OrOperand(e.right) + ([TOr] + tail) == mid;
      OrOperandThen(e.right, tail, r, rest);
      OrOperandThen(e.left, mid, JoinOr(Normal(e.right), r), rest);
      JoinOrAssoc(Normal(e.left), Normal(e.right), r);
    } else {
      OneOrOperand(e, [TOr] + tail);
      OrStep(OrOperand(e) + ([TOr] + tail), Normal(e), tail, r, rest);
      assert !Normal(e).Or?;
    }
  }

  /** Anything but || is read by _parse_and_expr where an operand of || stands. */
  lemma {:induction false} OneOrOperand(e: Expr, rest: seq<Token>)
    requires !e.Or? && EndsAnd(rest)
    ensures ParseAnd(OrOperand(e) + rest) == Ok(Normal(e), rest)
    decreases e, 3
  {
    hide ParseFactor, Tokens, Normal;
    if e.And? {
      AndOperandLast(e, [TClose] + rest);
      ParenthesesParse(e, rest);
      assert OrOperand(e) + rest == [TOpen] + Tokens(e) + [TClose] + rest;
    } else {
      FactorParses(e, rest);
      assert AndOperand(e) == OrOperand(e);
    }
  }

  lemma {:induction false} OrParses(e: Expr, rest: seq<Token>)
    requires e.Or? && EndsOr(rest)
    ensures ParseExpr(Tokens(e) + rest) == Ok(Normal(e), rest)
    decreases e, 0
  {
    hide ParseFactor, Tokens, Normal, OrOperand;
    var tail := OrOperand(e.right) + rest;
    if e.right.Or? {
      OrParses(e.right, rest);
      OrPrinted(e.right, rest);
    } else {
      OneOrOperand(e.right, rest);
    }
    OrOperandThen(e.left, tail, Normal(e.right), rest);
    OrPrinted(e, rest);
  }

  /** Parsing what was printed consumes it all, and gives the expression with its chains associated to the right. */
  lemma {:induction false} ExprParses(e: Expr, rest: seq<Token>)
    requires EndsOr(rest)
    ensures ParseExpr(Tokens(e) + rest) == Ok(Normal(e), rest)
    decreases e, 5
  {
    hide ParseFactor, Normal, ParseAnd;
    if e.Or? {
      OrParses(e, rest);
    } else {
      AndOperandLast(e, rest);
      assert Tokens(e) == AndOperand(e);
    }
  }

  // ---- what re-association keeps ----

  lemma {:induction false} JoinAndValue(l: Expr, r: Expr, env: Env)
    requires Tristate(env)
    ensures Value(JoinAnd(l, r), env) == Min(Value(l, env), Value(r, env))
  {
    if l.And? { JoinAndValue(l.right, r, env); }
  }

  lemma {:induction false} JoinOrValue(l: Expr, r: Expr, env: Env)
    requires Tristate(env)
    ensures Value(JoinOr(l, r), env) == Max(Value(l, env), Value(r, env))
  {
    if l.Or? { JoinOrValue(l.right, r, env); }
  }

  /** Re-association keeps the value under every assignment. */
  lemma {:induction false} NormalValue(e: Expr, env: Env)
    requires Tristate(env)
    ensures Value(Normal(e), env) == Value(e, env)
  {
    match e
    case Sym(s) =>
    case Rel(op, a, b) =>
    case Not(x) => NormalValue(x, env);
    case And(l, r) =>
      NormalValue(l, env);
      NormalValue(r, env);
      JoinAndValue(Normal(l), Normal(r), env);
    case Or(l, r) =>
      NormalValue(l, env);
      NormalValue(r, env);
      JoinOrValue(Normal(l), Normal(r), env);
  }

  lemma Chained(a: seq<Token>, t: Token, b: seq<Token>, c: seq<Token>)
    ensures a + [t] + (b + [t] + c) == (a + [t] + b) + [t] + c
  {
  }

  lemma {:induction false} JoinAndPrinted(l: Expr, r: Expr)
    ensures Tokens(JoinAnd(l, r)) == AndOperand(l) + [TAnd] + AndOperand(r)
  {
    if l.And? {
      JoinAndPrinted(l.right, r);
      Chained(AndOperand(l.left), TAnd, AndOperand(l.right), AndOperand(r));
    }
  }

  lemma {:induction false} JoinOrPrinted(l: Expr, r: Expr)
    ensures Tokens(JoinOr(l, r)) == OrOperand(l) + [TOr] + OrOperand(r)
  {
    if l.Or? {
      JoinOrPrinted(l.right, r);
      Chained(OrOperand(l.left), TOr, OrOperand(l.right), OrOperand(r));
    }
  }

  /** And it prints the same. */
  lemma {:induction false} NormalPrinted(e: Expr)
    ensures Tokens(Normal(e)) == Tokens(e)
  {
    match e
    case Sym(s) =>
    case Rel(op, a, b) =>
    case Not(x) => NormalPrinted(x);
    case And(l, r) =>
      NormalPrinted(l);
      NormalPrinted(r);
      JoinAndPrinted(Normal(l), Normal(r));
    case Or(l, r) =>
      NormalPrinted(l);
      NormalPrinted(r);
      JoinOrPrinted(Normal(l), Normal(r));
  }

  /** Parsing the tokens of a printed expression consumes them all, and gives an expression that has the same
      value under every assignment and prints the same. */
  lemma PrintThenParse(e: Expr, env: Env)
    requires Tristate(env)
    ensures var p := ParseExpr(Tokens(e) + [TEnd]);
            && p.Ok? && p.rest == [TEnd]
            && Value(p.e, env) == Value(e, env)
            && Tokens(p.e) == Tokens(e)
  {
    ExprParses(e, [TEnd]);
    NormalValue(e, env);
    NormalPrinted(e);
  }
}
