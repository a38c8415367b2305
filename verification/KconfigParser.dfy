/** The parser of kconfiglib.py on its token list and cursor. */
module KconfigParser {
  import opened KconfigExpr

  /** _tokens, ended by None, and _tokens_i, the last token that was taken */
  class TokenCursor {
    const tokens: seq<Token>
    var i: int

    ghost predicate Valid()
      reads this
    {
      -1 <= i < |tokens| - 1 && tokens[|tokens| - 1] == TEnd
    }

    ghost function Rest(): seq<Token>
      reads this
      requires Valid()
    {
      tokens[i + 1..]
    }

    constructor (ts: seq<Token>)
      ensures Valid() && Rest() == ts + [TEnd]
    {
      tokens := ts + [TEnd];
      i := -1;
    }

    /** _next_token, for a token that is not None */
    method NextToken() returns (t: Token)
      requires Valid() && Rest()[0] != TEnd
      modifies this
      ensures Valid() && t == old(Rest())[0] && Rest() == old(Rest())[1..]
    {
      i := i + 1;
      t := tokens[i];
    }

    /** _peek_token */
    method PeekToken() returns (t: Token)
      requires Valid()
      ensures t == Rest()[0]
    {
      t := tokens[i + 1];
    }

    /** _check_token */
    method CheckToken(t: Token) returns (found: bool)
      requires Valid() && t != TEnd
      modifies this
      ensures Valid() && found == Starts(old(Rest()), t)
      ensures Rest() == if found then old(Rest())[1..] else old(Rest())
    {
      if tokens[i + 1] == t {
        i := i + 1;
        return true;
      }
      found := false;
    }

    /** _parse_expr with transform_m off; the result Malformed stands for KconfigError */
    method ParseExpr() returns (ok: bool, e: Expr)
      requires Valid()
      modifies this
      ensures Valid()
      ensures match KconfigExpr.ParseExpr(old(Rest()))
              case Malformed => !ok
              case Ok(x, rest) => ok && e == x && Rest() == rest
      decreases |Rest()|, 3
    {
      hide KconfigExpr.ParseAnd;
      ok, e := ParseAnd();
      if ok {
        var more := CheckToken(TOr);
        if more {
          var right;
          ok, right := ParseExpr();
          e := Or(e, right);
        }
      }
    }

    /** _parse_and_expr */
    method ParseAnd() returns (ok: bool, e: Expr)
      requires Valid()
      modifies this
      ensures Valid()
      ensures match KconfigExpr.ParseAnd(old(Rest()))
              case Malformed => !ok
              case Ok(x, rest) => ok && e == x && Rest() == rest
      decreases |Rest()|, 2
    {
      hide KconfigExpr.ParseFactor;
      ok, e := ParseFactor();
      if ok {
        var more := CheckToken(TAnd);
        if more {
          var right;
          ok, right := ParseAnd();
          e := And(e, right);
        }
      }
    }

    /** The part of _parse_factor behind symbol s: a relation, or s alone */
    method ParseOperand(s: int) returns (ok: bool, e: Expr)
      requires Valid()
      modifies this
      ensures Valid()
      ensures var ts := old(Rest());
              if !ts[0].TRel? then ok && e == Sym(s) && Rest() == ts
              else (ok <==> |ts| > 1 && ts[1].TSym?) && (ok ==> e == Rel(ts[0].op, s, ts[1].s) && Rest() == ts[2..])
    {
      ok, e := true, Sym(s);
      var next := PeekToken();
      if next.TRel? {
        next := NextToken();
        var operand := PeekToken();
        ok := operand.TSym?;
        if ok {
          operand := NextToken();
          e := Rel(next.op, s, operand.s);
        }
      }
    }

    /** _parse_factor */
    method ParseFactor() returns (ok: bool, e: Expr)
      requires Valid()
      modifies this
      ensures Valid()
      ensures match KconfigExpr.ParseFactor(old(Rest()))
              case Malformed => !ok
              case Ok(x, rest) => ok && e == x && Rest() == rest
      decreases |Rest()|, 1
    {
      hide KconfigExpr.ParseExpr;
      ok, e := false, Sym(0);
      var token := PeekToken();
      if token == TEnd { return; }
      token := NextToken();
      if token.TSym? {
        ok, e := ParseOperand(token.s);
      } else if token == TNot {
        ok, e := ParseFactor();
        e := Not(e);
      } else if token == TOpen {
        ok, e := ParseExpr();
        if ok {
          ok := CheckToken(TClose);
        }
      }
    }
  }
}
