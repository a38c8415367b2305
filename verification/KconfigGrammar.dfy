/** The grammar that _parse_expr in kconfiglib.py documents, and where expr_str puts parentheses. */
module KconfigGrammar {
  import opened KconfigExpr

  /** How a text is derived in the grammar */
  datatype Tree =
    | OfSym(s: int)
    | OfRel(op: RelOp, a: int, b: int)
    | OfNot(arg: Tree)
    | OfParens(inner: Tree)
    | OfAnd(left: Tree, right: Tree)
    | OfOr(left: Tree, right: Tree)

  /** factor: a symbol, a relation of two, '!' factor, or '(' expr ')' */
  predicate IsFactor(t: Tree)
    decreases t, 0
  {
    match t
    case OfSym(_) => true
    case OfRel(_, _, _) => true
    case OfNot(x) => IsFactor(x)
    case OfParens(x) => IsExpr(x)
    case _ => false
  }

  /** and_expr: factor, with '&&' and_expr behind it or not */
  predicate IsAndExpr(t: Tree)
    decreases t, 1
  {
    match t
    case OfAnd(l, r) => IsFactor(l) && IsAndExpr(r)
    case _ => IsFactor(t)
  }

  /** expr: and_expr, with '||' expr behind it or not */
  predicate IsExpr(t: Tree)
    decreases t, 2
  {
    match t
    case OfOr(l, r) => IsAndExpr(l) && IsExpr(r)
    case _ => IsAndExpr(t)
  }

  function Spelled(t: Tree): seq<Token> {
    match t
    case OfSym(s) => [TSym(s)]
    case OfRel(op, a, b) => [TSym(a), TRel(op), TSym(b)]
    case OfNot(x) => [TNot] + Spelled(x)
    case OfParens(x) => [TOpen] + Spelled(x) + [TClose]
    case OfAnd(l, r) => Spelled(l) + [TAnd] + Spelled(r)
    case OfOr(l, r) => Spelled(l) + [TOr] + Spelled(r)
  }

  function Meaning(t: Tree): Expr {
    match t
    case OfSym(s) => Sym(s)
    case OfRel(op, a, b) => Rel(op, a, b)
    case OfNot(x) => Not(Meaning(x))
    case OfParens(x) => Meaning(x)
    case OfAnd(l, r) => And(Meaning(l), Meaning(r))
    case OfOr(l, r) => Or(Meaning(l), Meaning(r))
  }

  // ---- what is accepted is in the grammar ----

  lemma {:induction false} FactorDerived(ts: seq<Token>) returns (t: Tree)
    requires ParseFactor(ts).Ok?
    ensures IsFactor(t) && Meaning(t) == ParseFactor(ts).e && Spelled(t) + ParseFactor(ts).rest == ts
    decreases |ts|, 1
  {
    t := OfSym(0);
    if ts[0].TSym? {
      t := if |ts| > 1 && ts[1].TRel? then OfRel(ts[1].op, ts[0].s, ts[2].s) else OfSym(ts[0].s);
    } else if ts[0] == TNot {
      var x := FactorDerived(ts[1..]);
      t := OfNot(x);
      assert ts == [TNot] + ts[1..];
    } else if ts[0] == TOpen {
      var x := ExprDerived(ts[1..]);
      t := OfParens(x);
      var close := ParseExpr(ts[1..]).rest;
      assert ts == [TOpen] + ts[1..] && close == [TClose] + close[1..];
    }
  }

  lemma Glue(a: seq<Token>, x: Token, b: seq<Token>, tail: seq<Token>, rest: seq<Token>)
    requires Starts(tail, x) && b + rest == tail[1..]
    ensures a + [x] + b + rest == a + tail
  {
    assert tail == [x] + tail[1..];
  }

  lemma {:induction false} AndDerived(ts: seq<Token>) returns (t: Tree)
    requires ParseAnd(ts).Ok?
    ensures IsAndExpr(t) && Meaning(t) == ParseAnd(ts).e && Spelled(t) + ParseAnd(ts).rest == ts
    decreases |ts|, 2
  {
    hide ParseFactor;
    t := FactorDerived(ts);
    var tail := ParseFactor(ts).rest;
    if Starts(tail, TAnd) {
      var r := AndDerived(tail[1..]);
      Glue(Spelled(t), TAnd, Spelled(r), tail, ParseAnd(ts).rest);
      t := OfAnd(t, r);
    }
  }

  lemma {:induction false} ExprDerived(ts: seq<Token>) returns (t: Tree)
    requires ParseExpr(ts).Ok?
    ensures IsExpr(t) && Meaning(t) == ParseExpr(ts).e && Spelled(t) + ParseExpr(ts).rest == ts
    decreases |ts|, 3
  {
    hide ParseAnd;
    t := AndDerived(ts);
    var tail := ParseAnd(ts).rest;
    if Starts(tail, TOr) {
      var r := ExprDerived(tail[1..]);
      Glue(Spelled(t), TOr, Spelled(r), tail, ParseExpr(ts).rest);
      t := OfOr(t, r);
    }
  }

  // ---- what is in the grammar is accepted ----

  lemma {:induction false} FactorAccepted(t: Tree, rest: seq<Token>)
    requires IsFactor(t) && EndsFactor(rest)
    ensures ParseFactor(Spelled(t) + rest) == Ok(Meaning(t), rest)
    decreases t, 0
  {
    var ts := Spelled(t) + rest;
    match t
    case OfSym(s) =>
      assert ts[1..] == rest;
    case OfRel(op, a, b) =>
      assert ts[3..] == rest;
    case OfNot(x) =>
      FactorAccepted(x, rest);
      assert ts[1..] == Spelled(x) + rest;
    case OfParens(x) =>
      ExprAccepted(x, [TClose] + rest);
      assert ts[1..] == Spelled(x) + ([TClose] + rest) && ([TClose] + rest)[1..] == rest;
  }

  lemma {:induction false} AndAccepted(t: Tree, rest: seq<Token>)
    requires IsAndExpr(t) && EndsAnd(rest)
    ensures ParseAnd(Spelled(t) + rest) == Ok(Meaning(t), rest)
    decreases t, 1
  {
    hide ParseFactor;
    if t.OfAnd? {
      var tail := Spelled(t.right) + rest;
      FactorAccepted(t.left, [TAnd] + tail);
      AndAccepted(t.right, rest);
      assert Spelled(t) + rest == Spelled(t.left) + ([TAnd] + tail) && ([TAnd] + tail)[1..] == tail;
    } else {
      FactorAccepted(t, rest);
    }
  }

  lemma {:induction false} ExprAccepted(t: Tree, rest: seq<Token>)
    requires IsExpr(t) && EndsOr(rest)
    ensures ParseExpr(Spelled(t) + rest) == Ok(Meaning(t), rest)
    decreases t, 2
  {
    hide ParseAnd;
    if t.OfOr? {
      var tail := Spelled(t.right) + rest;
      AndAccepted(t.left, [TOr] + tail);
      ExprAccepted(t.right, rest);
      assert Spelled(t) + rest == Spelled(t.left) + ([TOr] + tail) && ([TOr] + tail)[1..] == tail;
    } else {
      AndAccepted(t, rest);
    }
  }

  ghost predicate Derives(t: Tree, ts: seq<Token>, e: Expr) {
    IsExpr(t) && Spelled(t) == ts && Meaning(t) == e
  }

  /** The parser accepts all the tokens, and gives e, if and only if the grammar derives them with that meaning; so it rejects all
      other texts, and the grammar is not ambiguous. */
  lemma ParsesTheGrammar(ts: seq<Token>, e: Expr)
    ensures ParseExpr(ts + [TEnd]) == Ok(e, [TEnd]) <==> exists t :: Derives(t, ts, e)
  {
    hide ParseExpr, IsExpr;
    if ParseExpr(ts + [TEnd]) == Ok(e, [TEnd]) {
      var t := ExprDerived(ts + [TEnd]);
      SameFront(Spelled(t), ts, TEnd);
      assert Derives(t, ts, e);
    }
    if t :| Derives(t, ts, e) {
      ExprAccepted(t, [TEnd]);
    }
  }

  lemma SameFront(a: seq<Token>, b: seq<Token>, x: Token)
    requires a + [x] == b + [x]
    ensures a == b
  {
    assert |a| == |b|;
    assert a == (a + [x])[..|a|] && b == (b + [x])[..|b|];
  }

  // ---- parentheses ----

  /** The opening parentheses among the tokens */
  function Opens(ts: seq<Token>): nat {
    if ts == [] then 0 else (if ts[0] == TOpen then 1 else 0) + Opens(ts[1..])
  }

  lemma {:induction false} OpensJoin(a: seq<Token>, b: seq<Token>)
    ensures Opens(a + b) == Opens(a) + Opens(b)
  {
    if a == [] {
      assert a + b == b;
    } else {
      OpensJoin(a[1..], b);
      assert (a + b)[1..] == a[1..] + b;
    }
  }

  /** One pair for each || under &&, each && under ||, and each operand of ! that is no symbol */
  function Pairs(e: Expr): nat {
    match e
    case Sym(_) => 0
    case Rel(_, _, _) => 0
    case And(l, r) => (if l.Or? then 1 else 0) + (if r.Or? then 1 else 0) + Pairs(l) + Pairs(r)
    case Or(l, r) => (if l.And? then 1 else 0) + (if r.And? then 1 else 0) + Pairs(l) + Pairs(r)
    case Not(x) => (if x.Sym? then 0 else 1) + Pairs(x)
  }

  /** expr_str puts parentheses there and nowhere else. */
  lemma {:induction false} PrintsPairs(e: Expr)
    ensures Opens(Tokens(e)) == Pairs(e)
  {
    match e
    case Sym(s) => OpensOne(TSym(s));
    case Rel(op, a, b) =>
      OpensOne(TSym(a));
      OpensOne(TRel(op));
      OpensOne(TSym(b));
      OpensJoin([TSym(a)], [TRel(op)]);
      OpensJoin([TSym(a)] + [TRel(op)], [TSym(b)]);
      assert Tokens(e) == [TSym(a)] + [TRel(op)] + [TSym(b)];
    case And(l, r) =>
      OperandPairs(l, l.Or?);
      OperandPairs(r, r.Or?);
      PrintsPairs(l);
      PrintsPairs(r);
      OpensOne(TAnd);
      OpensJoin(AndOperand(l), [TAnd]);
      OpensJoin(AndOperand(l) + [TAnd], AndOperand(r));
    case Or(l, r) =>
      OperandPairs(l, l.And?);
      OperandPairs(r, r.And?);
      PrintsPairs(l);
      PrintsPairs(r);
      OpensOne(TOr);
      OpensJoin(OrOperand(l), [TOr]);
      OpensJoin(OrOperand(l) + [TOr], OrOperand(r));
    case Not(x) =>
      OpensOne(TNot);
      if x.Sym? {
        OpensOne(TSym(x.s));
        OpensJoin([TNot], [TSym(x.s)]);
        assert Tokens(e) == [TNot] + [TSym(x.s)];
      } else {
        PrintsPairs(x);
        OperandPairs(x, true);
        OpensJoin([TNot], [TOpen] + Tokens(x) + [TClose]);
        assert Tokens(e) == [TNot] + ([TOpen] + Tokens(x) + [TClose]);
      }
  }

  lemma OpensOne(t: Token)
    ensures Opens([t]) == if t == TOpen then 1 else 0
  {
    assert [t][1..] == [];
  }

  lemma OperandPairs(e: Expr, inParens: bool)
    ensures Opens(if inParens then [TOpen] + Tokens(e) + [TClose] else Tokens(e)) == Opens(Tokens(e)) + if inParens then 1 else 0
  {
    OpensOne(TOpen);
    OpensOne(TClose);
    OpensJoin([TOpen], Tokens(e));
    OpensJoin([TOpen] + Tokens(e), [TClose]);
  }
}
