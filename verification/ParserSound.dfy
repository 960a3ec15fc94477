/** Whatever the parser accepts is the tokens of a normal-form tree. */
module ParserSound {
  import opened Sequences
  import opened Syntax
  import opened Parsing

  lemma {:induction false} SoundExpr(ts: seq<Token>)
    requires ParseExpr(ts).Ok?
    ensures var p := ParseExpr(ts);
      Normal(p.value) && Toks(p.value) + p.rest == ts && Stops(Peek(p.rest), 0) && !Absorbs(p.value, Peek(p.rest))
    decreases |ts|, 3
  {
    var u := ParseUnary(ts);
    SoundUnary(ts);
    SoundRhs(u.value, u.rest, 0);
    var p := ParseExpr(ts);
    Reassemble(ts, u, p);
  }

  lemma Reassemble(ts: seq<Token>, u: ParsedTokens<Cst>, p: ParsedTokens<Cst>)
    requires u.Ok? && p.Ok? && IsHead(u.value) && Toks(u.value) + u.rest == ts
    requires Head(p.value) == u.value && Tail(p.value) + p.rest == Tail(u.value) + u.rest
    ensures Toks(p.value) + p.rest == ts
    ensures !IsHead(p.value) ==> Peek(Tail(p.value)) == Peek(u.rest)
  {
    TokensSplit(p.value);
    assert Tail(u.value) + u.rest == u.rest;
    assert Toks(p.value) + p.rest == Toks(u.value) + (Tail(p.value) + p.rest);
    if Tail(p.value) != [] {
      assert u.rest[0] == Tail(p.value)[0];
    }
  }

  lemma {:induction false} SoundUnary(ts: seq<Token>)
    requires ParseUnary(ts).Ok?
    ensures var p := ParseUnary(ts); IsHead(p.value) && Normal(p.value) && Toks(p.value) + p.rest == ts
    decreases |ts|, 2
  {
    if Peek(ts).Sees? && IsPrefix(Peek(ts).sym) {
      SoundUnary(ts[1..]);
    } else {
      SoundPrimary(ts);
    }
  }

  lemma {:induction false} SoundPrimary(ts: seq<Token>)
    requires ParsePrimary(ts).Ok?
    ensures var p := ParsePrimary(ts); IsHead(p.value) && Normal(p.value) && Toks(p.value) + p.rest == ts
    decreases |ts|, 1
  {
    if Peek(ts) == Sees(LParen) {
      SoundExpr(ts[1..]);
      var e := ParseExpr(ts[1..]);
      FirstAndRest(LParen, ts);
      FirstAndRest(RParen, e.rest);
      Assoc4(Tok(LParen), Toks(e.value), Tok(RParen), e.rest[1..]);
    } else if Peek(ts) == Sees(LSquare) {
      SoundItems(ts[1..], RSquare);
    }
  }

  lemma {:induction false} SoundItems(ts: seq<Token>, close: Sym)
    requires ParseItems(ts, close).Ok? && close in {RParen, RSquare}
    ensures var p := ParseItems(ts, close); NormalItems(p.value, close) && ItemToks(p.value, close) + p.rest == ts
    decreases |ts|, 4
  {
    hide Toks;
    hide Normal;
    hide Absorbs;
    if Peek(ts) == Sees(close) {
      FirstAndRest(close, ts);
    } else {
      SoundExpr(ts);
      var e := ParseExpr(ts);
      if Peek(e.rest) == Sees(Comma) {
        SoundItems(e.rest[1..], close);
        FirstAndRest(Comma, e.rest);
        var p := ParseItems(e.rest[1..], close);
        Assoc4(Toks(e.value), Tok(Comma), ItemToks(p.value, close), p.rest);
      } else {
        FirstAndRest(close, e.rest);
        Assoc(Toks(e.value), Tok(close), e.rest[1..]);
      }
    }
  }

  lemma {:induction false} SoundPostfix(op: Sym, ts: seq<Token>)
    requires ParsePostfix(op, ts).Ok? && op in {Ellipsis, LParen, LSquare}
    ensures var p := ParsePostfix(op, ts);
      && SuffixOp(p.value) == op && NormalSuffix(p.value) && SuffixToks(p.value) + p.rest == ts
      && (p.value == Whole([]) ==> p.rest == [])
    decreases |ts|, 6
  {
    hide SuffixToks;
    hide NormalSuffix;
    if op == LParen {
      SoundItems(ts, RParen);
      ArgsSuffix(ParseItems(ts, RParen).value);
    } else if op == Ellipsis {
      SplatSuffix(ts);
    } else {
      if Peek(ts) == Sees(Colon) {
        SoundFromStart(ts[1..]);
        FirstAndRest(Colon, ts);
      } else {
        SoundIndex(ts);
      }
    }
  }

  lemma ArgsSuffix(a: Items)
    requires NormalItems(a, RParen)
    ensures NormalSuffix(Args(a)) && SuffixToks(Args(a)) == ItemToks(a, RParen)
  {
  }

  lemma SplatSuffix(ts: seq<Token>)
    ensures NormalSuffix(Splat) && SuffixToks(Splat) + ts == ts
  {
  }

  lemma {:induction false} SoundFromStart(ts: seq<Token>)
    requires ParseFromStart(ts).Ok?
    ensures var p := ParseFromStart(ts);
      && SuffixOp(p.value) == LSquare && NormalSuffix(p.value)
      && SuffixToks(p.value) + p.rest == Tok(Colon) + ts
      && (p.value == Whole([]) ==> p.rest == [])
    decreases |ts|, 4
  {
    hide Toks;
    hide Normal;
    hide Absorbs;
    var p := ParseFromStart(ts);
    if Peek(ts) == Sees(RSquare) {
      FirstAndRest(RSquare, ts);
      assert p.value.swallowed + p.rest == ts[1..];
      Assoc4(Tok(Colon), Tok(RSquare), p.value.swallowed, p.rest);
    } else {
      SoundExpr(ts);
      FirstAndRest(RSquare, ParseExpr(ts).rest);
      Assoc4(Tok(Colon), Toks(p.value.hi), Tok(RSquare), p.rest);
    }
  }

  lemma {:induction false} SoundIndex(ts: seq<Token>)
    requires ParseIndex(ts).Ok?
    ensures var p := ParseIndex(ts);
      && SuffixOp(p.value) == LSquare && NormalSuffix(p.value) && !p.value.Whole?
      && SuffixToks(p.value) + p.rest == ts
    decreases |ts|, 5
  {
    hide Toks;
    hide Normal;
    hide Absorbs;
    SoundExpr(ts);
    var e := ParseExpr(ts);
    if Peek(e.rest) == Sees(Colon) {
      SoundSliceEnd(e.value, e.rest[1..]);
      FirstAndRest(Colon, e.rest);
    } else {
      FirstAndRest(RSquare, e.rest);
      Assoc(Toks(e.value), Tok(RSquare), e.rest[1..]);
    }
  }

  lemma {:induction false} SoundSliceEnd(i: Cst, ts: seq<Token>)
    requires ParseSliceEnd(i, ts).Ok? && Normal(i) && !Absorbs(i, Sees(Colon))
    ensures var p := ParseSliceEnd(i, ts);
      && SuffixOp(p.value) == LSquare && NormalSuffix(p.value) && !p.value.Whole?
      && SuffixToks(p.value) + p.rest == Toks(i) + (Tok(Colon) + ts)
    decreases |ts|, 4
  {
    hide Toks;
    hide Normal;
    hide Absorbs;
    var p := ParseSliceEnd(i, ts);
    if Peek(ts) == Sees(RSquare) {
      FirstAndRest(RSquare, ts);
      Assoc4(Toks(i), Tok(Colon), Tok(RSquare), p.rest);
    } else {
      SoundExpr(ts);
      FirstAndRest(RSquare, ParseExpr(ts).rest);
      Assoc(Toks(p.value.hi), Tok(RSquare), p.rest);
      Assoc4(Toks(i), Tok(Colon), Toks(p.value.hi) + Tok(RSquare), p.rest);
    }
  }

  lemma {:induction false} SoundOperand(prec: nat, ts: seq<Token>)
    requires ParseOperand(prec, ts).Ok?
    ensures var p := ParseOperand(prec, ts);
      && Normal(p.value) && FitsOperand(prec, p.value) && Toks(p.value) + p.rest == ts
      && !OperandAbsorbs(prec, p.value, Peek(p.rest))
    decreases |ts|, 3
  {
    var u := ParseUnary(ts);
    SoundUnary(ts);
    if Binds(Peek(u.rest), prec) {
      SoundRhs(u.value, u.rest, prec + 1);
      Reassemble(ts, u, ParseRhs(u.value, u.rest, prec + 1));
    }
  }

  /** The left side grown by one operator, with the tokens after it. */
  ghost predicate Grown(lhs: Cst, ts: seq<Token>, prio: nat, e: Cst, rest: seq<Token>) {
    && Normal(e) && LeftEdge(e, prio) && !Absorbs(e, Peek(rest))
    && Head(e) == Head(lhs) && Tail(e) + rest == Tail(lhs) + ts
  }

  ghost predicate Growable(lhs: Cst, ts: seq<Token>, prio: nat) {
    Normal(lhs) && LeftEdge(lhs, prio) && !Absorbs(lhs, Peek(ts)) && !Stops(Peek(ts), prio)
  }

  lemma GrowPostfix(lhs: Cst, ts: seq<Token>, prio: nat, s: Suffix, rest: seq<Token>)
    requires Growable(lhs, ts, prio) && Peek(ts) == Sees(SuffixOp(s))
    requires NormalSuffix(s) && SuffixToks(s) + rest == ts[1..] && (s == Whole([]) ==> rest == [])
    ensures Grown(lhs, ts, prio, Postfix(lhs, s), rest)
  {
    hide Toks;
    hide SuffixToks;
    FirstAndRest(SuffixOp(s), ts);
    Assoc4(Tail(lhs), Tok(SuffixOp(s)), SuffixToks(s), rest);
  }

  lemma GrowBinary(lhs: Cst, ts: seq<Token>, prio: nat, r: Cst, rest: seq<Token>)
    requires Growable(lhs, ts, prio) && Peek(ts).Sees? && IsBinary(Peek(ts).sym)
    requires Normal(r) && FitsOperand(Precedence(Peek(ts).sym), r) && Toks(r) + rest == ts[1..]
    requires !OperandAbsorbs(Precedence(Peek(ts).sym), r, Peek(rest))
    ensures Grown(lhs, ts, prio, Binary(Peek(ts).sym, lhs, r), rest)
  {
    hide Precedence;
    hide Toks;
    FirstAndRest(Peek(ts).sym, ts);
    Assoc4(Tail(lhs), Tok(Peek(ts).sym), Toks(r), rest);
  }

  lemma GrowTernary(lhs: Cst, ts: seq<Token>, prio: nat, t: Cst, mid: seq<Token>, x: Cst, rest: seq<Token>)
    requires Growable(lhs, ts, prio) && Peek(ts) == Sees(Question)
    requires Normal(t) && FitsOperand(Precedence(Question), t) && Toks(t) + mid == ts[1..]
    requires Peek(mid) == Sees(Colon) && !Absorbs(t, Peek(mid))
    requires Normal(x) && Toks(x) + rest == mid[1..] && Stops(Peek(rest), 0) && !Absorbs(x, Peek(rest))
    ensures Grown(lhs, ts, prio, Ternary(lhs, t, x), rest)
  {
    hide Precedence;
    hide Toks;
    FirstAndRest(Colon, mid);
    FirstAndRest(Question, ts);
    Assoc4(Toks(t), Tok(Colon), Toks(x), rest);
    Assoc4(Tail(lhs), Tok(Question), Toks(t) + (Tok(Colon) + Toks(x)), rest);
  }

  lemma OperatorTaken(ts: seq<Token>, prio: nat)
    requires !Stops(Peek(ts), prio)
    ensures ts != [] && ts[0].Symbol? && Precedence(ts[0].sym) >= -1
    ensures IsPostfix(Peek(ts)) ==> ts[0].sym in {Ellipsis, LParen, LSquare}
    ensures !IsPostfix(Peek(ts)) && ts[0].sym != Question ==> IsBinary(ts[0].sym)
  {
  }

  /** From a left side that lets the next token go, the loop of parseRhs builds a tree around it. */
  lemma {:induction false} SoundRhs(lhs: Cst, ts: seq<Token>, prio: nat)
    requires ParseRhs(lhs, ts, prio).Ok?
    requires Normal(lhs) && LeftEdge(lhs, prio) && !Absorbs(lhs, Peek(ts))
    ensures var p := ParseRhs(lhs, ts, prio); Grown(lhs, ts, prio, p.value, p.rest) && Stops(Peek(p.rest), prio)
    decreases |ts|, 0
  {
    hide Normal;
    hide LeftEdge;
    hide Absorbs;
    hide Precedence;
    hide FitsOperand;
    if !Stops(Peek(ts), prio) {
      OperatorTaken(ts, prio);
      var op := ts[0].sym;
      if IsPostfix(Peek(ts)) {
        SoundPostfix(op, ts[1..]);
        var p := ParsePostfix(op, ts[1..]);
        GrowPostfix(lhs, ts, prio, p.value, p.rest);
        SoundRhs(Postfix(lhs, p.value), p.rest, prio);
      } else {
        SoundOperand(Precedence(op), ts[1..]);
        var p := ParseOperand(Precedence(op), ts[1..]);
        if op == Question {
          SoundExpr(p.rest[1..]);
          var x := ParseExpr(p.rest[1..]);
          GrowTernary(lhs, ts, prio, p.value, p.rest, x.value, x.rest);
          SoundRhs(Ternary(lhs, p.value, x.value), x.rest, prio);
        } else {
          GrowBinary(lhs, ts, prio, p.value, p.rest);
          SoundRhs(Binary(op, lhs, p.value), p.rest, prio);
        }
      }
    }
  }
}
