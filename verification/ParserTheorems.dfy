/**
  What the expression parser and the printer do to each other.
 */
module ParserTheorems {
  import opened Results
  import opened Options
  import opened Syntax
  import opened Parsing
  import opened ParserComplete
  import opened ParserSound
  import opened Ast

  lemma {:induction false} EndAbsorbsNothing(e: Cst)
    ensures !Absorbs(e, EndOfFile)
  {
    match e
    case Binary(_, _, r) => EndAbsorbsNothing(r);
    case Ternary(_, _, x) => EndAbsorbsNothing(x);
    case _ =>
  }

  /** The parser accepts exactly the tokens of normal-form trees, up to a token that cannot go on. */
  lemma AcceptsExactlyNormal(ts: seq<Token>, e: Cst, rest: seq<Token>)
    ensures ParseExpr(ts) == Ok(e, rest) <==>
      (Normal(e) && ts == Toks(e) + rest && Stops(Peek(rest), 0) && !Absorbs(e, Peek(rest)))
  {
    if ParseExpr(ts) == Ok(e, rest) {
      SoundExpr(ts);
    }
    if Normal(e) && ts == Toks(e) + rest && Stops(Peek(rest), 0) && !Absorbs(e, Peek(rest)) {
      CompleteExpr(e, rest);
    }
  }

  /** No token sequence has two normal-form readings. */
  lemma Unambiguous(a: Cst, b: Cst)
    requires Normal(a) && Normal(b) && Toks(a) == Toks(b)
    ensures a == b
  {
    EndAbsorbsNothing(a);
    EndAbsorbsNothing(b);
    assert Toks(a) + [] == Toks(a) && Toks(b) + [] == Toks(b);
    CompleteExpr(a, []);
    CompleteExpr(b, []);
  }

  /** Parsing what `str()` printed gives the tree back, and leaves nothing over. */
  ghost predicate ReadsBack(a: Expr)
    requires Wf(a)
  {
    var p := ParseExpr(Str(a));
    p.Ok? && p.rest == [] && Strip(p.value) == a
  }

  /** Parse undoes print exactly on the trees in precedence-normal form. */
  lemma ParseUndoesPrint(a: Expr)
    requires Wf(a)
    ensures ReadsBack(a) <==> Normal(Embed(a))
  {
    EmbedPrints(a);
    EmbedStrips(a);
    var ts := Str(a);
    assert ts + [] == ts;
    if Normal(Embed(a)) {
      EndAbsorbsNothing(Embed(a));
      CompleteExpr(Embed(a), []);
    }
    if ReadsBack(a) {
      SoundExpr(ts);
      var c := ParseExpr(ts).value;
      assert Toks(c) + [] == Toks(c);
      StripIsWf(c);
      EmbedOfStrip(c);
    }
  }

  /** Stripping does not make the printed form longer, and only a plain tree keeps its length. */
  ghost predicate Shrinks(c: Cst) {
    && Wf(Strip(c))
    && |Toks(Embed(Strip(c)))| <= |Toks(c)|
    && (|Toks(Embed(Strip(c)))| == |Toks(c)| ==> Embed(Strip(c)) == c)
  }

  lemma {:induction false} EmbedOfStrip(c: Cst)
    requires Normal(c)
    ensures Shrinks(c)
    decreases c
  {
    hide MakeInfix;
    hide Absorbs;
    hide FitsOperand;
    StripIsWf(c);
    match c
    case Leaf(_) =>
    case Group(i) => EmbedOfStrip(i);
    case List(items) =>
      StripItemsAreWf(items, RSquare);
      EmbedOfStripItems(items, RSquare);
    case Unary(_, x) => EmbedOfStrip(x);
    case Binary(op, l, r) =>
      EmbedOfStrip(l);
      EmbedOfStrip(r);
      EmbedOfInfix(op, Strip(l), Strip(r));
    case Ternary(a, t, x) => EmbedOfStrip(a); EmbedOfStrip(t); EmbedOfStrip(x);
    case Postfix(b, s) =>
      EmbedOfStrip(b);
      EmbedOfStripPostfix(b, s);
  }

  lemma {:induction false} EmbedOfStripPostfix(b: Cst, s: Suffix)
    requires Shrinks(b) && NormalSuffix(s) && Wf(Strip(Postfix(b, s)))
    ensures Shrinks(Postfix(b, s))
    decreases s
  {
    hide Shrinks;
    hide Normal;
    hide Absorbs;
    hide Toks;
    hide Wf;
    match s
    case Splat => SplatShrinks(b);
    case Args(a) =>
      StripItemsAreWf(a, RParen);
      EmbedOfStripItems(a, RParen);
      ArgsShrink(b, a);
    case Index(i) =>
      EmbedOfStrip(i);
      IndexShrinks(b, i);
    case From(l) =>
      EmbedOfStrip(l);
      FromShrinks(b, l);
    case To(h) =>
      EmbedOfStrip(h);
      ToShrinks(b, h);
    case Between(l, h) =>
      EmbedOfStrip(l);
      EmbedOfStrip(h);
      BetweenShrinks(b, l, h);
    case Whole(w) => WholeShrinks(b, w);
  }

  lemma SplatShrinks(b: Cst)
    requires Shrinks(b) && Wf(Strip(Postfix(b, Splat)))
    ensures Shrinks(Postfix(b, Splat))
  {
  }

  lemma ArgsShrink(b: Cst, a: Items)
    requires Shrinks(b) && (forall x <- StripItems(a) :: Wf(x)) && Wf(Strip(Postfix(b, Args(a))))
    requires |ItemToks(EmbedList(StripItems(a)), RParen)| <= |ItemToks(a, RParen)|
    requires |ItemToks(EmbedList(StripItems(a)), RParen)| == |ItemToks(a, RParen)| ==> EmbedList(StripItems(a)) == a
    ensures Shrinks(Postfix(b, Args(a)))
  {
  }

  lemma IndexShrinks(b: Cst, i: Cst)
    requires Shrinks(b) && Shrinks(i) && Wf(Strip(Postfix(b, Index(i))))
    ensures Shrinks(Postfix(b, Index(i)))
  {
  }

  lemma FromShrinks(b: Cst, l: Cst)
    requires Shrinks(b) && Shrinks(l) && Wf(Strip(Postfix(b, From(l))))
    ensures Shrinks(Postfix(b, From(l)))
  {
  }

  lemma ToShrinks(b: Cst, h: Cst)
    requires Shrinks(b) && Shrinks(h) && Wf(Strip(Postfix(b, To(h))))
    ensures Shrinks(Postfix(b, To(h)))
  {
  }

  lemma BetweenShrinks(b: Cst, l: Cst, h: Cst)
    requires Shrinks(b) && Shrinks(l) && Shrinks(h) && Wf(Strip(Postfix(b, Between(l, h))))
    ensures Shrinks(Postfix(b, Between(l, h)))
  {
  }

  lemma WholeShrinks(b: Cst, w: seq<Token>)
    requires Shrinks(b) && Wf(Strip(Postfix(b, Whole(w))))
    ensures Shrinks(Postfix(b, Whole(w)))
  {
  }

  lemma {:induction false} EmbedOfStripItems(items: Items, close: Sym)
    requires NormalItems(items, close) && forall x <- StripItems(items) :: Wf(x)
    ensures |ItemToks(EmbedList(StripItems(items)), close)| <= |ItemToks(items, close)|
    ensures |ItemToks(EmbedList(StripItems(items)), close)| == |ItemToks(items, close)|
      ==> EmbedList(StripItems(items)) == items
    decreases items
  {
    match items
    case Nil =>
    case Last(e) => EmbedOfStrip(e);
    case More(e, r) =>
      StripIsWf(e);
      StripItemsAreWf(r, close);
      EmbedOfStrip(e);
      EmbedOfStripItems(r, close);
      assert StripItems(items)[1..] == StripItems(r);
  }

  lemma EmbedOfInfix(op: Sym, l: Expr, r: Expr)
    requires Wf(l) && Wf(r) && IsBinary(op) && Wf(MakeInfix(op, l, r))
    ensures Embed(MakeInfix(op, l, r)) == Binary(op, Embed(l), Embed(r))
  {
    hide Wf;
    hide Embed;
    hide IsBinary;
    if MakeInfix(op, l, r).ComparisonOp? {
      EmbedOfChain(op, l, r);
    } else {
      EmbedOfSimple(op, l, r);
    }
  }

  lemma EmbedOfSimple(op: Sym, l: Expr, r: Expr)
    requires Wf(l) && Wf(r) && Wf(MakeInfix(op, l, r)) && !MakeInfix(op, l, r).ComparisonOp?
    ensures Embed(MakeInfix(op, l, r)) == Binary(op, Embed(l), Embed(r))
  {
    hide IsAssignment;
    hide IsComparison;
    hide Wf;
    hide EmbedChain;
    hide EmbedList;
    if IsAssignment(op) {
      assert MakeInfix(op, l, r) == AssignOp(op, l, r);
    } else if op == Period {
      assert MakeInfix(op, l, r) == DotOp(l, r);
    } else {
      assert MakeInfix(op, l, r) == BinaryOp(op, l, r);
    }
  }

  lemma EmbedOfChain(op: Sym, l: Expr, r: Expr)
    requires Wf(l) && Wf(r) && Wf(MakeInfix(op, l, r)) && MakeInfix(op, l, r).ComparisonOp?
    ensures Embed(MakeInfix(op, l, r)) == Binary(op, Embed(l), Embed(r))
  {
    hide IsAssignment;
    hide IsComparison;
    var m := MakeInfix(op, l, r);
    if l.ComparisonOp? {
      assert m.exprs[..|m.ops|] == l.exprs && m.ops[..|m.ops| - 1] == l.ops;
    } else {
      assert m.exprs[..1] == [l] && m.ops[..0] == [];
      assert EmbedChain([l], []) == Embed(l);
    }
  }

  // ---------------------------------------------------------------- the whole slice

  /** The whole slice takes one token too many: in `x [ : ] + y` the plus is lost and y is left over. */
  lemma WholeSliceSwallows()
    ensures var x, y := Literal("x"), Literal("y");
      ParseExpr([x, Symbol(LSquare), Symbol(Colon), Symbol(RSquare), Symbol(Plus), y])
        == Ok(Postfix(Leaf("x"), Whole([Symbol(Plus)])), [y])
  {
    var x, y := Literal("x"), Literal("y");
    var e := Postfix(Leaf("x"), Whole([Symbol(Plus)]));
    assert Toks(e) + [y] == [x, Symbol(LSquare), Symbol(Colon), Symbol(RSquare), Symbol(Plus), y];
    CompleteExpr(e, [y]);
  }

  /** Otherwise than intended, a tree with a whole slice reads back only when nothing is printed after it. */
  lemma WholeSliceMustBeLast(l: Expr, op: Sym, r: Expr)
    requires Wf(l) && Wf(BinaryOp(op, SliceOp(l, None, None), r))
    ensures !ReadsBack(BinaryOp(op, SliceOp(l, None, None), r))
  {
    hide ReadsBack;
    hide Wf;
    WholeSliceAbsorbs(l, op, r);
    ParseUndoesPrint(BinaryOp(op, SliceOp(l, None, None), r));
  }

  lemma WholeSliceAbsorbs(l: Expr, op: Sym, r: Expr)
    requires Wf(BinaryOp(op, SliceOp(l, None, None), r))
    ensures !Normal(Embed(BinaryOp(op, SliceOp(l, None, None), r)))
  {
    hide Str;
    var slice := SliceOp(l, None, None);
    assert Embed(slice) == Postfix(Embed(l), Whole([]));
    assert Absorbs(Embed(slice), Sees(op));
  }
}
