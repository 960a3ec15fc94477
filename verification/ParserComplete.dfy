/** The parser reads every normal-form tree back from its tokens. */
module ParserComplete {
  import opened Results
  import opened Sequences
  import opened Syntax
  import opened Parsing

  predicate StartsOperand(t: Look) {
    t == SeesLiteral || t == Sees(LParen) || t == Sees(LSquare) || (t.Sees? && IsPrefix(t.sym))
  }

  lemma {:induction false} FirstToken(e: Cst, rest: seq<Token>)
    requires Normal(e)
    ensures StartsOperand(Peek(Toks(e) + rest))
  {
    match e
    case Binary(op, l, r) =>
      Assoc(Toks(l), Tok(op) + Toks(r), rest);
      FirstToken(l, Tok(op) + Toks(r) + rest);
    case Ternary(c, t, x) =>
      var more := Tok(Question) + (Toks(t) + (Tok(Colon) + Toks(x)));
      Assoc(Toks(c), more, rest);
      FirstToken(c, more + rest);
    case Postfix(b, s) =>
      var more := Tok(SuffixOp(s)) + SuffixToks(s);
      Assoc(Toks(b), more, rest);
      FirstToken(b, more + rest);
    case _ =>
  }

  lemma StopsHere(lhs: Cst, ts: seq<Token>, prio: nat)
    requires Stops(Peek(ts), prio)
    ensures ParseRhs(lhs, ts, prio) == Ok(lhs, ts)
  {
  }

  lemma {:induction false} CompleteExpr(e: Cst, rest: seq<Token>)
    requires Normal(e) && Stops(Peek(rest), 0) && !Absorbs(e, Peek(rest))
    ensures ParseExpr(Toks(e) + rest) == Ok(e, rest)
    decreases e, 5
  {
    hide Toks;
    hide Normal;
    hide Absorbs;
    hide LeftEdge;
    hide ParseRhs;
    hide ParseUnary;
    TokensSplit(e);
    AllOpsTaken(e);
    Assoc(Toks(Head(e)), Tail(e), rest);
    CompleteHead(e, Tail(e) + rest);
    CompleteTail(e, rest, 0);
    StopsHere(e, rest, 0);
  }

  /** At priority zero no operator is turned away. */
  lemma {:induction false} AllOpsTaken(e: Cst)
    requires Normal(e)
    ensures LeftEdge(e, 0)
  {
    match e
    case Binary(_, l, _) => AllOpsTaken(l);
    case Ternary(c, _, _) => AllOpsTaken(c);
    case Postfix(b, _) => AllOpsTaken(b);
    case _ =>
  }

  lemma {:induction false} CompleteHead(e: Cst, rest: seq<Token>)
    requires Normal(e)
    ensures ParseUnary(Toks(Head(e)) + rest) == Ok(Head(e), rest)
    decreases e, 0
  {
    hide ParseExpr;
    hide ParseItems;
    match e
    case Binary(_, l, _) => CompleteHead(l, rest);
    case Ternary(c, _, _) => CompleteHead(c, rest);
    case Postfix(b, _) => CompleteHead(b, rest);
    case Leaf(t) =>
      assert (Toks(e) + rest)[1..] == rest;
    case Group(i) =>
      var more := Tok(RParen) + rest;
      Assoc4(Tok(LParen), Toks(i), Tok(RParen), rest);
      AfterFirst(LParen, Toks(i) + more);
      AfterFirst(RParen, rest);
      CompleteExpr(i, more);
    case List(items) =>
      Assoc(Tok(LSquare), ItemToks(items, RSquare), rest);
      AfterFirst(LSquare, ItemToks(items, RSquare) + rest);
      CompleteItems(items, RSquare, rest);
    case Unary(op, x) =>
      Assoc(Tok(op), Toks(x), rest);
      AfterFirst(op, Toks(x) + rest);
      CompleteHead(x, rest);
  }

  /** What can come after an expression inside brackets. */
  lemma BracketsStop(sym: Sym)
    requires sym in {RParen, RSquare, Comma, Colon}
    ensures Stops(Sees(sym), 0) && !StartsOperand(Sees(sym))
  {
  }

  /** One element of a list, and the bracket or comma after it. */
  lemma {:induction false} CompleteElement(e: Cst, sym: Sym, rest: seq<Token>)
    requires Normal(e) && !Absorbs(e, Sees(sym)) && sym in {RParen, RSquare, Comma, Colon}
    ensures var ts := Toks(e) + (Tok(sym) + rest);
      && ParseExpr(ts) == Ok(e, Tok(sym) + rest)
      && Peek(Tok(sym) + rest) == Sees(sym) && (Tok(sym) + rest)[1..] == rest
      && forall other <- {RParen, RSquare, Comma, Colon} :: Peek(ts) != Sees(other)
    decreases e, 6
  {
    hide Toks;
    hide Normal;
    hide Absorbs;
    hide ParseExpr;
    hide Stops;
    hide StartsOperand;
    BracketsStop(sym);
    AfterFirst(sym, rest);
    FirstToken(e, Tok(sym) + rest);
    CompleteExpr(e, Tok(sym) + rest);
    forall other | other in {RParen, RSquare, Comma, Colon}
      ensures !StartsOperand(Sees(other))
    {
      BracketsStop(other);
    }
  }

  lemma {:induction false} CompleteItems(items: Items, close: Sym, rest: seq<Token>)
    requires NormalItems(items, close) && close in {RParen, RSquare}
    ensures ParseItems(ItemToks(items, close) + rest, close) == Ok(items, rest)
    decreases items, 0
  {
    hide Toks;
    hide Normal;
    hide Absorbs;
    hide ParseExpr;
    match items
    case Nil =>
      AfterFirst(close, rest);
    case Last(e) =>
      Assoc(Toks(e), Tok(close), rest);
      CompleteElement(e, close, rest);
    case More(e, r) =>
      Assoc4(Toks(e), Tok(Comma), ItemToks(r, close), rest);
      CompleteElement(e, Comma, ItemToks(r, close) + rest);
      CompleteItems(r, close, rest);
  }

  lemma {:induction false} CompletePostfix(s: Suffix, rest: seq<Token>)
    requires NormalSuffix(s) && (s == Whole([]) ==> rest == [])
    ensures ParsePostfix(SuffixOp(s), SuffixToks(s) + rest) == Ok(s, rest)
    decreases s, 2
  {
    match s
    case Splat => assert SuffixToks(s) + rest == rest;
    case Args(a) => CompleteItems(a, RParen, rest);
    case To(h) => CompleteFromStart(s, rest);
    case Whole(w) => CompleteFromStart(s, rest);
    case _ => CompleteIndex(s, rest);
  }

  lemma {:induction false} CompleteFromStart(s: Suffix, rest: seq<Token>)
    requires (s.To? || s.Whole?) && NormalSuffix(s) && (s == Whole([]) ==> rest == [])
    ensures ParsePostfix(LSquare, SuffixToks(s) + rest) == Ok(s, rest)
    decreases s, 1
  {
    hide Toks;
    hide Normal;
    hide Absorbs;
    hide ParseExpr;
    if s.To? {
      Assoc4(Tok(Colon), Toks(s.hi), Tok(RSquare), rest);
      AfterFirst(Colon, Toks(s.hi) + (Tok(RSquare) + rest));
      CompleteElement(s.hi, RSquare, rest);
    } else {
      var w := s.swallowed;
      Assoc4(Tok(Colon), Tok(RSquare), w, rest);
      AfterFirst(Colon, Tok(RSquare) + (w + rest));
      AfterFirst(RSquare, w + rest);
      if w == [] {
        assert w + rest == [];
      } else {
        assert (w + rest)[..1] == w && (w + rest)[1..] == rest;
      }
    }
  }

  lemma {:induction false} CompleteIndex(s: Suffix, rest: seq<Token>)
    requires (s.Index? || s.From? || s.Between?) && NormalSuffix(s)
    ensures ParsePostfix(LSquare, SuffixToks(s) + rest) == Ok(s, rest)
    decreases s, 1
  {
    hide Toks;
    hide Normal;
    hide Absorbs;
    hide ParseExpr;
    hide ParseSliceEnd;
    var close := Tok(RSquare) + rest;
    IndexTokens(s, rest);
    if s.Index? {
      CompleteElement(s.index, RSquare, rest);
    } else {
      var end := if s.Between? then Toks(s.hi) + close else close;
      CompleteElement(s.lo, Colon, end);
      CompleteSliceEnd(s.lo, s, rest);
    }
  }

  lemma IndexTokens(s: Suffix, rest: seq<Token>)
    requires s.Index? || s.From? || s.Between?
    ensures SuffixToks(s) + rest == match s
      case Index(i) => Toks(i) + (Tok(RSquare) + rest)
      case From(l) => Toks(l) + (Tok(Colon) + (Tok(RSquare) + rest))
      case Between(l, h) => Toks(l) + (Tok(Colon) + (Toks(h) + (Tok(RSquare) + rest)))
      case _ => []
  {
    hide Toks;
    match s
    case Index(i) => Assoc(Toks(i), Tok(RSquare), rest);
    case From(l) => Assoc4(Toks(l), Tok(Colon), Tok(RSquare), rest);
    case Between(l, h) =>
      Assoc4(Toks(l), Tok(Colon), Toks(h) + Tok(RSquare), rest);
      Assoc(Toks(h), Tok(RSquare), rest);
  }

  lemma {:induction false} CompleteSliceEnd(i: Cst, s: Suffix, rest: seq<Token>)
    requires (s.From? || s.Between?) && s.lo == i && NormalSuffix(s)
    ensures s.From? ==> ParseSliceEnd(i, Tok(RSquare) + rest) == Ok(s, rest)
    ensures s.Between? ==> ParseSliceEnd(i, Toks(s.hi) + (Tok(RSquare) + rest)) == Ok(s, rest)
    decreases s, 0
  {
    hide Toks;
    hide Normal;
    hide Absorbs;
    hide ParseExpr;
    AfterFirst(RSquare, rest);
    if s.Between? {
      CompleteElement(s.hi, RSquare, rest);
    }
  }

  lemma {:induction false} CompleteOperand(prec: nat, r: Cst, rest: seq<Token>)
    requires Normal(r) && FitsOperand(prec, r) && !OperandAbsorbs(prec, r, Peek(rest))
    ensures ParseOperand(prec, Toks(r) + rest) == Ok(r, rest)
    decreases r, 4
  {
    hide Toks;
    hide Normal;
    hide Absorbs;
    hide LeftEdge;
    hide ParseRhs;
    hide ParseUnary;
    hide Precedence;
    TokensSplit(r);
    Assoc(Toks(Head(r)), Tail(r), rest);
    CompleteHead(r, Tail(r) + rest);
    if IsHead(r) {
      assert Head(r) == r && Tail(r) + rest == rest;
    } else {
      assert Peek(Tail(r) + rest) == Peek(Tail(r));
      CompleteTail(r, rest, prec + 1);
      StopsHere(r, rest, prec + 1);
    }
  }

  lemma NotPostfix(op: Sym)
    requires IsBinary(op)
    ensures !IsPostfix(Sees(op)) && op != Question && Precedence(op) >= 0
  {
  }

  /** One turn of the loop of parseRhs, for each kind of operator. */
  lemma TurnBinary(l: Cst, op: Sym, r: Cst, rest: seq<Token>, prio: nat)
    requires IsBinary(op) && !Stops(Sees(op), prio)
    requires ParseOperand(Precedence(op), Toks(r) + rest) == Ok(r, rest)
    ensures ParseRhs(l, Tok(op) + (Toks(r) + rest), prio) == ParseRhs(Binary(op, l, r), rest, prio)
  {
    hide Toks;
    hide ParseOperand;
    hide Precedence;
    AfterFirst(op, Toks(r) + rest);
    NotPostfix(op);
  }

  lemma TurnTernary(c: Cst, t: Cst, x: Cst, rest: seq<Token>, prio: nat)
    requires !Stops(Sees(Question), prio)
    requires ParseOperand(Precedence(Question), Toks(t) + (Tok(Colon) + (Toks(x) + rest)))
      == Ok(t, Tok(Colon) + (Toks(x) + rest))
    requires ParseExpr(Toks(x) + rest) == Ok(x, rest)
    ensures ParseRhs(c, Tok(Question) + (Toks(t) + (Tok(Colon) + (Toks(x) + rest))), prio)
      == ParseRhs(Ternary(c, t, x), rest, prio)
  {
    hide Toks;
    hide ParseOperand;
    hide ParseExpr;
    AfterFirst(Colon, Toks(x) + rest);
    AfterFirst(Question, Toks(t) + (Tok(Colon) + (Toks(x) + rest)));
  }

  lemma TurnPostfix(b: Cst, s: Suffix, rest: seq<Token>, prio: nat)
    requires ParsePostfix(SuffixOp(s), SuffixToks(s) + rest) == Ok(s, rest)
    ensures ParseRhs(b, Tok(SuffixOp(s)) + (SuffixToks(s) + rest), prio) == ParseRhs(Postfix(b, s), rest, prio)
  {
    hide SuffixToks;
    hide ParsePostfix;
    AfterFirst(SuffixOp(s), SuffixToks(s) + rest);
  }

  lemma ColonEndsOperand(t: Cst)
    requires !Absorbs(t, Sees(Colon))
    ensures !OperandAbsorbs(Precedence(Question), t, Sees(Colon))
  {
  }

  /** The loop of parseRhs takes a tree from its leftmost operand to the whole. */
  lemma {:induction false} CompleteTail(e: Cst, rest: seq<Token>, prio: nat)
    requires Normal(e) && LeftEdge(e, prio) && !Absorbs(e, Peek(rest))
    ensures ParseRhs(Head(e), Tail(e) + rest, prio) == ParseRhs(e, rest, prio)
    decreases e, 3
  {
    hide Precedence;
    hide ParseRhs;
    hide ParseOperand;
    hide ParseExpr;
    hide ParsePostfix;
    hide Toks;
    match e
    case Binary(op, l, r) =>
      var more := Tok(op) + (Toks(r) + rest);
      Assoc4(Tail(l), Tok(op), Toks(r), rest);
      CompleteTail(l, more, prio);
      CompleteOperand(Precedence(op), r, rest);
      TurnBinary(l, op, r, rest, prio);
    case Ternary(c, t, x) =>
      var mid := Tok(Colon) + (Toks(x) + rest);
      var more := Tok(Question) + (Toks(t) + mid);
      Assoc4(Tail(c), Tok(Question), Toks(t) + (Tok(Colon) + Toks(x)), rest);
      Assoc4(Toks(t), Tok(Colon), Toks(x), rest);
      CompleteTail(c, more, prio);
      ColonEndsOperand(t);
      CompleteOperand(Precedence(Question), t, mid);
      CompleteExpr(x, rest);
      TurnTernary(c, t, x, rest, prio);
    case Postfix(b, s) =>
      var more := Tok(SuffixOp(s)) + (SuffixToks(s) + rest);
      Assoc4(Tail(b), Tok(SuffixOp(s)), SuffixToks(s), rest);
      CompleteTail(b, more, prio);
      CompletePostfix(s, rest);
      TurnPostfix(b, s, rest, prio);
    case _ =>
      assert Tail(e) + rest == rest;
  }
}
