/**
  The expression parser as the program runs it: tokens are taken off a shared state, and the left
  side grows in a loop.  Every method does what its counterpart in Parsing.dfy says.
 */
module Parser {
  import opened Results
  import opened Options
  import opened Syntax
  import S = Parsing
  import opened Ast
  import Sound = ParserSound
  import Theorems = ParserTheorems

  class State {
    var tokens: seq<Token>

    constructor (tokens: seq<Token>)
      ensures this.tokens == tokens
    {
      this.tokens := tokens;
    }

    method Pop()
      modifies this
      ensures tokens == if old(tokens) == [] then [] else old(tokens)[1..]
    {
      if tokens != [] {
        tokens := tokens[1..];
      }
    }

    method Match(t: Sym) returns (matched: bool)
      modifies this
      ensures matched == (Peek(old(tokens)) == Sees(t))
      ensures tokens == if matched then old(tokens)[1..] else old(tokens)
    {
      matched := Peek(tokens) == Sees(t);
      if matched {
        Pop();
      }
    }
  }

  /** The result, stripped of what only the concrete tree knows, and the tokens left over. */
  ghost predicate Agrees(p: S.ParsedTokens<Cst>, r: Option<Expr>, rest: seq<Token>) {
    match p
    case Ok(c, rest') => r == Some(Strip(c)) && rest == rest'
    case Fail => r == None
  }

  ghost predicate AgreesOnItems(p: S.ParsedTokens<Items>, r: Option<seq<Expr>>, rest: seq<Token>) {
    match p
    case Ok(items, rest') => r == Some(StripItems(items)) && rest == rest'
    case Fail => r == None
  }

  ghost predicate AgreesOnPostfix(p: S.ParsedTokens<Suffix>, lhs: Expr, r: Option<Expr>, rest: seq<Token>) {
    match p
    case Ok(s, rest') => r == Some(StripPostfix(lhs, s)) && rest == rest'
    case Fail => r == None
  }

  method ParseExpr(st: State) returns (r: Option<Expr>)
    modifies st
    ensures Agrees(S.ParseExpr(old(st.tokens)), r, st.tokens)
    decreases |st.tokens|, 3
  {
    hide S.ParseUnary;
    hide S.ParseRhs;
    ghost var u := S.ParseUnary(st.tokens);
    var lhs := ParseUnary(st);
    if lhs == None {
      return None;
    }
    r := ParseRhs(st, lhs.value, 0, u.value);
  }

  method ParseUnary(st: State) returns (r: Option<Expr>)
    modifies st
    ensures Agrees(S.ParseUnary(old(st.tokens)), r, st.tokens)
    decreases |st.tokens|, 2
  {
    hide S.ParsePrimary;
    var t := Peek(st.tokens);
    if t.Sees? && IsPrefix(t.sym) {
      st.Pop();
      var e := ParseUnary(st);
      return if e == None then None else Some(UnaryOp(t.sym, e.value));
    }
    r := ParsePrimary(st);
  }

  method ParsePrimary(st: State) returns (r: Option<Expr>)
    modifies st
    ensures Agrees(S.ParsePrimary(old(st.tokens)), r, st.tokens)
    decreases |st.tokens|, 1
  {
    hide S.ParseExpr;
    hide S.ParseItems;
    var t := Peek(st.tokens);
    if t == SeesLiteral {
      r := Some(Lit(st.tokens[0].text));
      st.Pop();
    } else if t == Sees(LParen) {
      st.Pop();
      var inside := ParseExpr(st);
      if inside == None {
        return None;
      }
      var closed := st.Match(RParen);
      r := if closed then inside else None;
    } else if t == Sees(LSquare) {
      st.Pop();
      var elms := ParseElements(st, RSquare);
      r := if elms == None then None else Some(LitList(elms.value));
    } else {
      r := None;
    }
  }

  /** The loops of parseList and of calls in parsePostfix. */
  method ParseElements(st: State, close: Sym) returns (r: Option<seq<Expr>>)
    requires close in {RParen, RSquare}
    modifies st
    ensures AgreesOnItems(S.ParseItems(old(st.tokens), close), r, st.tokens)
    decreases |st.tokens|, 4
  {
    hide S.ParseExpr;
    var elms: seq<Expr> := [];
    ghost var p0 := S.ParseItems(st.tokens, close);
    while Peek(st.tokens) != Sees(close)
      invariant |st.tokens| <= old(|st.tokens|)
      invariant var p := S.ParseItems(st.tokens, close);
        && p.Ok? == p0.Ok?
        && (p.Ok? ==> p.rest == p0.rest && StripItems(p0.value) == elms + StripItems(p.value))
      decreases |st.tokens|
    {
      var e := ParseExpr(st);
      if e == None {
        return None;
      }
      ghost var before := elms;
      elms := elms + [e.value];
      assert forall more: seq<Expr> :: before + ([e.value] + more) == elms + more;
      var comma := st.Match(Comma);
      if !comma {
        if Peek(st.tokens) == Sees(close) {
          st.Pop();
          return Some(elms);
        }
        return None;
      }
    }
    st.Pop();
    assert elms + [] == elms;
    r := Some(elms);
  }

  method ParsePostfix(st: State, lhs: Expr, op: Sym) returns (r: Option<Expr>)
    requires op in {Ellipsis, LParen, LSquare}
    modifies st
    ensures AgreesOnPostfix(S.ParsePostfix(op, old(st.tokens)), lhs, r, st.tokens)
    decreases |st.tokens|, 6
  {
    if op == Ellipsis {
      return Some(SplatOp(lhs));
    }
    if op == LParen {
      var args := ParseElements(st, RParen);
      return if args == None then None else Some(FunctionCall(lhs, args.value));
    }
    var fromStart := st.Match(Colon);
    if fromStart {
      r := ParseSliceFromStart(st, lhs);
    } else {
      r := ParseIndex(st, lhs);
    }
  }

  method ParseSliceFromStart(st: State, lhs: Expr) returns (r: Option<Expr>)
    modifies st
    ensures AgreesOnPostfix(S.ParseFromStart(old(st.tokens)), lhs, r, st.tokens)
    decreases |st.tokens|, 4
  {
    hide S.ParseExpr;
    hide Strip;
    var closed := st.Match(RSquare);
    if closed {
      st.Pop();
      return Some(SliceOp(lhs, None, None));
    }
    var end := ParseExpr(st);
    closed := st.Match(RSquare);
    r := if closed && end.Some? then Some(SliceOp(lhs, None, end)) else None;
  }

  method ParseIndex(st: State, lhs: Expr) returns (r: Option<Expr>)
    modifies st
    ensures AgreesOnPostfix(S.ParseIndex(old(st.tokens)), lhs, r, st.tokens)
    decreases |st.tokens|, 5
  {
    hide S.ParseExpr;
    hide S.ParseSliceEnd;
    hide Strip;
    ghost var i := S.ParseExpr(st.tokens);
    var idx := ParseExpr(st);
    if idx == None {
      return None;
    }
    var colon := st.Match(Colon);
    if colon {
      r := ParseSliceEnd(st, lhs, idx.value, i.value);
    } else {
      var closed := st.Match(RSquare);
      r := if closed then Some(SubscriptOp(lhs, idx.value)) else None;
    }
  }

  method ParseSliceEnd(st: State, lhs: Expr, idx: Expr, ghost i: Cst) returns (r: Option<Expr>)
    requires idx == Strip(i)
    modifies st
    ensures AgreesOnPostfix(S.ParseSliceEnd(i, old(st.tokens)), lhs, r, st.tokens)
    decreases |st.tokens|, 4
  {
    hide S.ParseExpr;
    hide Strip;
    var closed := st.Match(RSquare);
    if closed {
      return Some(SliceOp(lhs, Some(idx), None));
    }
    var end := ParseExpr(st);
    closed := st.Match(RSquare);
    r := if closed && end.Some? then Some(SliceOp(lhs, Some(idx), end)) else None;
  }

  /** One turn of the loop of parseRhs, with all that it calls taken as given. */
  lemma RhsTurn(c: Cst, ts: seq<Token>, prio: nat)
    ensures S.ParseRhs(c, ts, prio) ==
      if Stops(Peek(ts), prio) then Ok(c, ts)
      else
        var op := ts[0].sym;
        if IsPostfix(Peek(ts)) then
          var s := S.ParsePostfix(op, ts[1..]);
          if s.Fail? then Fail else S.ParseRhs(Postfix(c, s.value), s.rest, prio)
        else
          var p := S.ParseOperand(Precedence(op), ts[1..]);
          if p.Fail? then Fail
          else if op != Question then S.ParseRhs(Binary(op, c, p.value), p.rest, prio)
          else if Peek(p.rest) != Sees(Colon) then Fail
          else
            var x := S.ParseExpr(p.rest[1..]);
            if x.Fail? then Fail else S.ParseRhs(Ternary(c, p.value, x.value), x.rest, prio)
  {
    hide S.ParsePostfix;
    hide S.ParseOperand;
    hide S.ParseExpr;
  }

  /** c is a concrete tree of the left side. */
  method ParseRhs(st: State, lhs0: Expr, prio: nat, ghost c0: Cst) returns (r: Option<Expr>)
    requires Strip(c0) == lhs0
    modifies st
    ensures Agrees(S.ParseRhs(c0, old(st.tokens), prio), r, st.tokens)
    decreases |st.tokens|, 0
  {
    hide S.ParseExpr;
    hide S.ParsePostfix;
    hide S.ParseOperand;
    hide StripPostfix;
    hide Precedence;
    hide MakeInfix;
    hide S.ParseRhs;
    var lhs := lhs0;
    ghost var c := c0;
    while true
      invariant |st.tokens| <= old(|st.tokens|)
      invariant Strip(c) == lhs
      invariant S.ParseRhs(c, st.tokens, prio) == S.ParseRhs(c0, old(st.tokens), prio)
      decreases |st.tokens|
    {
      RhsTurn(c, st.tokens, prio);
      var t := Peek(st.tokens);
      if LookPrecedence(t) < prio && !IsRightAssociative(t) && !IsPostfix(t) {
        return Some(lhs);
      }
      ghost var ts := st.tokens;
      Sound.OperatorTaken(ts, prio);
      var op := st.tokens[0].sym;
      st.Pop();
      if IsPostfix(t) {
        ghost var s := S.ParsePostfix(op, ts[1..]);
        var e := ParsePostfix(st, lhs, op);
        if e == None {
          return None;
        }
        lhs, c := e.value, Postfix(c, s.value);
      } else {
        ghost var p := S.ParseOperand(Precedence(op), ts[1..]);
        var rhs := ParseOperand(st, Precedence(op));
        if rhs == None {
          return None;
        }
        if op == Question {
          var colon := st.Match(Colon);
          if !colon {
            return None;
          }
          ghost var x := S.ParseExpr(st.tokens);
          var els := ParseExpr(st);
          if els == None {
            return None;
          }
          lhs, c := TernaryOp(lhs, rhs.value, els.value), Ternary(c, p.value, x.value);
        } else {
          lhs, c := MakeInfix(op, lhs, rhs.value), Binary(op, c, p.value);
        }
      }
    }
  }

  /** The part of the loop of parseRhs that reads the right operand. */
  method ParseOperand(st: State, prec: nat) returns (r: Option<Expr>)
    modifies st
    ensures Agrees(S.ParseOperand(prec, old(st.tokens)), r, st.tokens)
    decreases |st.tokens|, 3
  {
    hide S.ParseUnary;
    hide S.ParseRhs;
    ghost var u := S.ParseUnary(st.tokens);
    r := ParseUnary(st);
    if r == None {
      return None;
    }
    var next := Peek(st.tokens);
    if LookPrecedence(next) > prec || IsRightAssociative(next) {
      r := ParseRhs(st, r.value, prec + 1, u.value);
    }
  }

  /** Printing a tree and parsing the tokens gives the same tree exactly when it is in normal form. */
  method PrintAndParse(a: Expr) returns (r: Option<Expr>, rest: seq<Token>)
    requires Wf(a)
    ensures r == Some(a) && rest == [] <==> Normal(Embed(a))
  {
    var st := new State(Str(a));
    r := ParseExpr(st);
    rest := st.tokens;
    Theorems.ParseUndoesPrint(a);
  }
}
