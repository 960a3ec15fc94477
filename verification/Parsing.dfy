/**
  The expression parser as functions on token sequences.
 */
module Parsing {
  import opened Results
  import opened Syntax

  type ParsedTokens<T> = ParsedFrom<Token, T>

  function ParseExpr(ts: seq<Token>): (p: ParsedTokens<Cst>)
    ensures p.Ok? ==> |p.rest| < |ts|
    decreases |ts|, 3
  {
    match ParseUnary(ts)
    case Fail => Fail
    case Ok(u, r) => ParseRhs(u, r, 0)
  }

  function ParseUnary(ts: seq<Token>): (p: ParsedTokens<Cst>)
    ensures p.Ok? ==> |p.rest| < |ts|
    decreases |ts|, 2
  {
    if Peek(ts).Sees? && IsPrefix(Peek(ts).sym) then
      match ParseUnary(ts[1..])
      case Fail => Fail
      case Ok(x, r) => Ok(Unary(Peek(ts).sym, x), r)
    else ParsePrimary(ts)
  }

  function ParsePrimary(ts: seq<Token>): (p: ParsedTokens<Cst>)
    ensures p.Ok? ==> |p.rest| < |ts|
    decreases |ts|, 1
  {
    if Peek(ts) == SeesLiteral then Ok(Leaf(ts[0].text), ts[1..])
    else if Peek(ts) == Sees(LParen) then
      match ParseExpr(ts[1..])
      case Fail => Fail
      case Ok(e, r) => if Peek(r) == Sees(RParen) then Ok(Group(e), r[1..]) else Fail
    else if Peek(ts) == Sees(LSquare) then
      match ParseItems(ts[1..], RSquare)
      case Fail => Fail
      case Ok(items, r) => Ok(List(items), r)
    else Fail
  }

  /** The element loop of list literals and calls, up to and with the closing bracket. */
  function ParseItems(ts: seq<Token>, close: Sym): (p: ParsedTokens<Items>)
    ensures p.Ok? ==> |p.rest| < |ts|
    decreases |ts|, 4
  {
    if Peek(ts) == Sees(close) then Ok(Nil, ts[1..])
    else match ParseExpr(ts)
      case Fail => Fail
      case Ok(e, r) =>
        if Peek(r) == Sees(Comma) then
          match ParseItems(r[1..], close)
          case Fail => Fail
          case Ok(items, r') => Ok(More(e, items), r')
        else if Peek(r) == Sees(close) then Ok(Last(e), r[1..])
        else Fail
  }

  /** parsePostfix, with the operator token already taken. */
  function ParsePostfix(op: Sym, ts: seq<Token>): (p: ParsedTokens<Suffix>)
    ensures p.Ok? ==> |p.rest| <= |ts|
    decreases |ts|, 6
  {
    if op == Ellipsis then Ok(Splat, ts)
    else if op == LParen then
      match ParseItems(ts, RParen)
      case Fail => Fail
      case Ok(a, r) => Ok(Args(a), r)
    else if Peek(ts) == Sees(Colon) then ParseFromStart(ts[1..])
    else ParseIndex(ts)
  }

  /** After `[:`. */
  function ParseFromStart(ts: seq<Token>): (p: ParsedTokens<Suffix>)
    ensures p.Ok? ==> |p.rest| <= |ts|
    decreases |ts|, 4
  {
    if Peek(ts) == Sees(RSquare) then
      var r := ts[1..];
      if r == [] then Ok(Whole([]), r) else Ok(Whole(r[..1]), r[1..])
    else match ParseExpr(ts)
      case Fail => Fail
      case Ok(h, r) => if Peek(r) == Sees(RSquare) then Ok(To(h), r[1..]) else Fail
  }

  /** After `[`, when no colon follows. */
  function ParseIndex(ts: seq<Token>): (p: ParsedTokens<Suffix>)
    ensures p.Ok? ==> |p.rest| <= |ts|
    decreases |ts|, 5
  {
    match ParseExpr(ts)
    case Fail => Fail
    case Ok(i, r) =>
      if Peek(r) == Sees(Colon) then ParseSliceEnd(i, r[1..])
      else if Peek(r) == Sees(RSquare) then Ok(Index(i), r[1..])
      else Fail
  }

  /** After `[i:`. */
  function ParseSliceEnd(i: Cst, ts: seq<Token>): (p: ParsedTokens<Suffix>)
    ensures p.Ok? ==> |p.rest| <= |ts|
    decreases |ts|, 4
  {
    if Peek(ts) == Sees(RSquare) then Ok(From(i), ts[1..])
    else match ParseExpr(ts)
      case Fail => Fail
      case Ok(h, r) => if Peek(r) == Sees(RSquare) then Ok(Between(i, h), r[1..]) else Fail
  }

  /** The right operand of an operator: a prefix expression, and what binds tighter than the operator. */
  function ParseOperand(prec: nat, ts: seq<Token>): (p: ParsedTokens<Cst>)
    ensures p.Ok? ==> |p.rest| < |ts|
    decreases |ts|, 3
  {
    match ParseUnary(ts)
    case Fail => Fail
    case Ok(u, r) => if Binds(Peek(r), prec) then ParseRhs(u, r, prec + 1) else Ok(u, r)
  }

  /** The loop of parseRhs. */
  function ParseRhs(lhs: Cst, ts: seq<Token>, prio: nat): (p: ParsedTokens<Cst>)
    ensures p.Ok? ==> |p.rest| <= |ts|
    decreases |ts|, 0
  {
    if Stops(Peek(ts), prio) then Ok(lhs, ts)
    else
      var op := ts[0].sym;
      if IsPostfix(Peek(ts)) then
        match ParsePostfix(op, ts[1..])
        case Fail => Fail
        case Ok(s, r) => ParseRhs(Postfix(lhs, s), r, prio)
      else
        match ParseOperand(Precedence(op), ts[1..])
        case Fail => Fail
        case Ok(rhs, r) =>
          if op == Question then
            if Peek(r) != Sees(Colon) then Fail
            else match ParseExpr(r[1..])
              case Fail => Fail
              case Ok(x, r') => ParseRhs(Ternary(lhs, rhs, x), r', prio)
          else ParseRhs(Binary(op, lhs, rhs), r, prio)
  }
}
