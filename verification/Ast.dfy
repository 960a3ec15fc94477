/**
  Abstract syntax trees: how the parser builds them, how `str()` prints them, and which of them it
  reads back from what was printed.
 */
module Ast {
  import opened Options
  import opened Syntax

  datatype Expr =
    | Lit(text: string)
    | LitList(elms: seq<Expr>)
    | UnaryOp(op: Sym, expr: Expr)
    | BinaryOp(op: Sym, lhs: Expr, rhs: Expr)
    | AssignOp(op: Sym, lhs: Expr, rhs: Expr)
    | DotOp(lhs: Expr, rhs: Expr)
    | ComparisonOp(exprs: seq<Expr>, ops: seq<Sym>)
    | TernaryOp(op1: Expr, op2: Expr, op3: Expr)
    | SplatOp(expr: Expr)
    | FunctionCall(callee: Expr, arguments: seq<Expr>)
    | SubscriptOp(list: Expr, index: Expr)
    | SliceOp(list: Expr, start: Option<Expr>, end: Option<Expr>)

  /** What parseRhs makes of an operator: a comparison of a comparison extends the chain. */
  function MakeInfix(op: Sym, l: Expr, r: Expr): Expr {
    if IsAssignment(op) then AssignOp(op, l, r)
    else if IsComparison(op) then
      if l.ComparisonOp? then ComparisonOp(l.exprs + [r], l.ops + [op]) else ComparisonOp([l, r], [op])
    else if op == Period then DotOp(l, r)
    else BinaryOp(op, l, r)
  }

  /** The tree the parser returns for a concrete one. */
  function Strip(c: Cst): Expr
    decreases c
  {
    match c
    case Leaf(t) => Lit(t)
    case Group(i) => Strip(i)
    case List(items) => LitList(StripItems(items))
    case Unary(op, x) => UnaryOp(op, Strip(x))
    case Binary(op, l, r) => MakeInfix(op, Strip(l), Strip(r))
    case Ternary(a, t, x) => TernaryOp(Strip(a), Strip(t), Strip(x))
    case Postfix(b, s) => StripPostfix(Strip(b), s)
  }

  function StripItems(items: Items): seq<Expr>
    decreases items
  {
    match items
    case Nil => []
    case Last(e) => [Strip(e)]
    case More(e, r) => [Strip(e)] + StripItems(r)
  }

  function StripPostfix(b: Expr, s: Suffix): Expr
    decreases s
  {
    match s
    case Splat => SplatOp(b)
    case Args(a) => FunctionCall(b, StripItems(a))
    case Index(i) => SubscriptOp(b, Strip(i))
    case From(l) => SliceOp(b, Some(Strip(l)), None)
    case To(h) => SliceOp(b, None, Some(Strip(h)))
    case Between(l, h) => SliceOp(b, Some(Strip(l)), Some(Strip(h)))
    case Whole(_) => SliceOp(b, None, None)
  }

  /** The trees the parser can make: operators of the right kind, and chains of at least one comparison. */
  predicate Wf(a: Expr) {
    match a
    case Lit(_) => true
    case LitList(xs) => forall x <- xs :: Wf(x)
    case UnaryOp(op, e) => IsPrefix(op) && Wf(e)
    case BinaryOp(op, l, r) =>
      IsBinary(op) && !IsAssignment(op) && !IsComparison(op) && op != Period && Wf(l) && Wf(r)
    case AssignOp(op, l, r) => IsAssignment(op) && Wf(l) && Wf(r)
    case DotOp(l, r) => Wf(l) && Wf(r)
    case ComparisonOp(xs, ops) =>
      && |xs| == |ops| + 1 > 1 && !xs[0].ComparisonOp?
      && (forall x <- xs :: Wf(x)) && (forall op <- ops :: IsComparison(op))
    case TernaryOp(x, y, z) => Wf(x) && Wf(y) && Wf(z)
    case SplatOp(e) => Wf(e)
    case FunctionCall(f, xs) => Wf(f) && forall x <- xs :: Wf(x)
    case SubscriptOp(l, i) => Wf(l) && Wf(i)
    case SliceOp(l, s, e) => Wf(l) && (s.Some? ==> Wf(s.value)) && (e.Some? ==> Wf(e.value))
  }

  // ---------------------------------------------------------------- printing

  /** The tokens of `str()`: no parentheses anywhere. */
  function Str(a: Expr): seq<Token>
    requires Wf(a)
    decreases a, 1
  {
    match a
    case Lit(t) => [Literal(t)]
    case LitList(xs) => Tok(LSquare) + StrList(xs, RSquare)
    case UnaryOp(op, e) => Tok(op) + Str(e)
    case BinaryOp(op, l, r) => Str(l) + (Tok(op) + Str(r))
    case AssignOp(op, l, r) => Str(l) + (Tok(op) + Str(r))
    case DotOp(l, r) => Str(l) + (Tok(Period) + Str(r))
    case ComparisonOp(xs, ops) => StrChain(xs, ops)
    case TernaryOp(x, y, z) => Str(x) + (Tok(Question) + (Str(y) + (Tok(Colon) + Str(z))))
    case SplatOp(e) => Str(e) + Tok(Ellipsis)
    case FunctionCall(f, xs) => Str(f) + (Tok(LParen) + StrList(xs, RParen))
    case SubscriptOp(l, i) => Str(l) + (Tok(LSquare) + (Str(i) + Tok(RSquare)))
    case SliceOp(l, s, e) =>
      Str(l) + (Tok(LSquare) + ((if s.Some? then Str(s.value) else []) +
        (Tok(Colon) + ((if e.Some? then Str(e.value) else []) + Tok(RSquare)))))
  }

  function StrList(xs: seq<Expr>, close: Sym): seq<Token>
    requires forall x <- xs :: Wf(x)
    decreases xs, 0
  {
    if xs == [] then Tok(close)
    else if |xs| == 1 then Str(xs[0]) + Tok(close)
    else Str(xs[0]) + (Tok(Comma) + StrList(xs[1..], close))
  }

  function StrChain(xs: seq<Expr>, ops: seq<Sym>): seq<Token>
    requires |xs| == |ops| + 1 && forall x <- xs :: Wf(x)
    decreases xs, 0
  {
    if ops == [] then Str(xs[0])
    else StrChain(xs[..|ops|], ops[..|ops| - 1]) + (Tok(ops[|ops| - 1]) + Str(xs[|ops|]))
  }

  // ---------------------------------------------------------------- as a concrete tree

  /** The concrete tree, without parentheses and trailing commas, that prints like a. */
  function Embed(a: Expr): Cst
    requires Wf(a)
    decreases a, 1
  {
    match a
    case Lit(t) => Leaf(t)
    case LitList(xs) => List(EmbedList(xs))
    case UnaryOp(op, e) => Unary(op, Embed(e))
    case BinaryOp(op, l, r) => Binary(op, Embed(l), Embed(r))
    case AssignOp(op, l, r) => Binary(op, Embed(l), Embed(r))
    case DotOp(l, r) => Binary(Period, Embed(l), Embed(r))
    case ComparisonOp(xs, ops) => EmbedChain(xs, ops)
    case TernaryOp(x, y, z) => Ternary(Embed(x), Embed(y), Embed(z))
    case SplatOp(e) => Postfix(Embed(e), Splat)
    case FunctionCall(f, xs) => Postfix(Embed(f), Args(EmbedList(xs)))
    case SubscriptOp(l, i) => Postfix(Embed(l), Index(Embed(i)))
    case SliceOp(l, s, e) =>
      Postfix(Embed(l),
        if s.Some? then if e.Some? then Between(Embed(s.value), Embed(e.value)) else From(Embed(s.value))
        else if e.Some? then To(Embed(e.value)) else Whole([]))
  }

  function EmbedList(xs: seq<Expr>): Items
    requires forall x <- xs :: Wf(x)
    decreases xs, 0
  {
    if xs == [] then Nil
    else if |xs| == 1 then Last(Embed(xs[0]))
    else More(Embed(xs[0]), EmbedList(xs[1..]))
  }

  function EmbedChain(xs: seq<Expr>, ops: seq<Sym>): Cst
    requires |xs| == |ops| + 1 && forall x <- xs :: Wf(x)
    decreases xs, 0
  {
    if ops == [] then Embed(xs[0])
    else Binary(ops[|ops| - 1], EmbedChain(xs[..|ops|], ops[..|ops| - 1]), Embed(xs[|ops|]))
  }

  lemma {:induction false} EmbedPrints(a: Expr)
    requires Wf(a)
    ensures Toks(Embed(a)) == Str(a)
    decreases a, 1
  {
    hide IsBinary;
    hide IsAssignment;
    hide IsComparison;
    hide IsPrefix;
    match a
    case Lit(_) =>
    case LitList(xs) => EmbedListPrints(xs, RSquare);
    case UnaryOp(_, e) => EmbedPrints(e);
    case BinaryOp(_, l, r) => EmbedPrints(l); EmbedPrints(r);
    case AssignOp(_, l, r) => EmbedPrints(l); EmbedPrints(r);
    case DotOp(l, r) => EmbedPrints(l); EmbedPrints(r);
    case ComparisonOp(xs, ops) => EmbedChainPrints(xs, ops);
    case TernaryOp(x, y, z) => EmbedPrints(x); EmbedPrints(y); EmbedPrints(z);
    case SplatOp(e) => EmbedPrints(e); assert Tok(Ellipsis) + [] == Tok(Ellipsis);
    case FunctionCall(f, xs) => EmbedPrints(f); EmbedListPrints(xs, RParen);
    case SubscriptOp(l, i) => EmbedPrints(l); EmbedPrints(i);
    case SliceOp(l, s, e) =>
      EmbedPrints(l);
      if s.Some? { EmbedPrints(s.value); }
      if e.Some? { EmbedPrints(e.value); }
      SlicePrints(a);
  }

  lemma SlicePrints(a: Expr)
    requires Wf(a) && a.SliceOp?
    requires Toks(Embed(a.list)) == Str(a.list)
    requires a.start.Some? ==> Toks(Embed(a.start.value)) == Str(a.start.value)
    requires a.end.Some? ==> Toks(Embed(a.end.value)) == Str(a.end.value)
    ensures Toks(Embed(a)) == Str(a)
  {
    hide Toks;
    hide Str;
    var l := Embed(a.list);
    if a.start.Some? && a.end.Some? {
      SliceToks(l, Between(Embed(a.start.value), Embed(a.end.value)));
    } else if a.start.Some? {
      SliceToks(l, From(Embed(a.start.value)));
    } else if a.end.Some? {
      SliceToks(l, To(Embed(a.end.value)));
    } else {
      SliceToks(l, Whole([]));
    }
    SliceStr(a);
  }

  lemma SliceToks(l: Cst, s: Suffix)
    requires s.From? || s.To? || s.Between? || s == Whole([])
    ensures Toks(Postfix(l, s)) == Toks(l) + (Tok(LSquare) +
      ((if s.From? || s.Between? then Toks(s.lo) else []) +
       (Tok(Colon) + ((if s.To? || s.Between? then Toks(s.hi) else []) + Tok(RSquare)))))
  {
    var t := Tok(Colon) + (Tok(RSquare) + []);
    assert t == Tok(Colon) + ([] + Tok(RSquare)) && [] + t == t;
  }

  lemma SliceStr(a: Expr)
    requires Wf(a) && a.SliceOp?
    ensures Str(a) == Str(a.list) + (Tok(LSquare) +
      ((if a.start.Some? then Str(a.start.value) else []) +
       (Tok(Colon) + ((if a.end.Some? then Str(a.end.value) else []) + Tok(RSquare)))))
  {
  }

  lemma {:induction false} EmbedListPrints(xs: seq<Expr>, close: Sym)
    requires forall x <- xs :: Wf(x)
    ensures ItemToks(EmbedList(xs), close) == StrList(xs, close)
    decreases xs, 0
  {
    if xs != [] {
      EmbedPrints(xs[0]);
      EmbedListPrints(xs[1..], close);
    }
  }

  lemma {:induction false} EmbedChainPrints(xs: seq<Expr>, ops: seq<Sym>)
    requires |xs| == |ops| + 1 && forall x <- xs :: Wf(x)
    ensures Toks(EmbedChain(xs, ops)) == StrChain(xs, ops)
    decreases xs, 0
  {
    EmbedPrints(xs[|ops|]);
    if ops != [] {
      EmbedChainPrints(xs[..|ops|], ops[..|ops| - 1]);
    }
  }

  lemma {:induction false} EmbedStrips(a: Expr)
    requires Wf(a)
    ensures Strip(Embed(a)) == a
    decreases a, 1
  {
    hide IsBinary;
    hide IsAssignment;
    hide IsComparison;
    match a
    case Lit(_) =>
    case LitList(xs) => EmbedListStrips(xs);
    case UnaryOp(_, e) => EmbedStrips(e);
    case BinaryOp(_, l, r) => EmbedStrips(l); EmbedStrips(r);
    case AssignOp(op, l, r) => EmbedStrips(l); EmbedStrips(r);
    case DotOp(l, r) => EmbedStrips(l); EmbedStrips(r); DotIsPlain();
    case ComparisonOp(xs, ops) => EmbedChainStrips(xs, ops);
    case TernaryOp(x, y, z) => EmbedStrips(x); EmbedStrips(y); EmbedStrips(z);
    case SplatOp(e) => EmbedStrips(e);
    case FunctionCall(f, xs) => EmbedStrips(f); EmbedListStrips(xs);
    case SubscriptOp(l, i) => EmbedStrips(l); EmbedStrips(i);
    case SliceOp(l, s, e) =>
      EmbedStrips(l);
      if s.Some? { EmbedStrips(s.value); }
      if e.Some? { EmbedStrips(e.value); }
      SliceStrips(a);
  }

  lemma DotIsPlain()
    ensures !IsAssignment(Period) && !IsComparison(Period)
  {
  }

  lemma SliceStrips(a: Expr)
    requires Wf(a) && a.SliceOp?
    requires Strip(Embed(a.list)) == a.list
    requires a.start.Some? ==> Strip(Embed(a.start.value)) == a.start.value
    requires a.end.Some? ==> Strip(Embed(a.end.value)) == a.end.value
    ensures Strip(Embed(a)) == a
  {
    hide Wf;
    hide Toks;
  }

  lemma {:induction false} EmbedListStrips(xs: seq<Expr>)
    requires forall x <- xs :: Wf(x)
    ensures StripItems(EmbedList(xs)) == xs
    decreases xs, 0
  {
    if xs != [] {
      EmbedStrips(xs[0]);
      EmbedListStrips(xs[1..]);
    }
  }

  lemma {:induction false} EmbedChainStrips(xs: seq<Expr>, ops: seq<Sym>)
    requires |xs| == |ops| + 1 && (forall x <- xs :: Wf(x)) && (forall op <- ops :: IsComparison(op))
    requires !xs[0].ComparisonOp?
    ensures Strip(EmbedChain(xs, ops)) == if ops == [] then xs[0] else ComparisonOp(xs, ops)
    decreases xs, 0
  {
    EmbedStrips(xs[|ops|]);
    if ops != [] {
      var ys, qs := xs[..|ops|], ops[..|ops| - 1];
      EmbedChainStrips(ys, qs);
      ChainGrows(xs, ops);
    }
  }

  lemma ChainGrows(xs: seq<Expr>, ops: seq<Sym>)
    requires |xs| == |ops| + 1 > 1 && IsComparison(ops[|ops| - 1]) && !xs[0].ComparisonOp?
    ensures var ys, qs := xs[..|ops|], ops[..|ops| - 1];
      MakeInfix(ops[|ops| - 1], if qs == [] then ys[0] else ComparisonOp(ys, qs), xs[|ops|]) == ComparisonOp(xs, ops)
  {
    var ys, qs := xs[..|ops|], ops[..|ops| - 1];
    assert ys + [xs[|ops|]] == xs && qs + [ops[|ops| - 1]] == ops;
    if qs == [] {
      assert xs == [xs[0], xs[1]] && ops == [ops[0]];
    }
  }

  // ---------------------------------------------------------------- the parser's trees

  lemma MakeInfixIsWf(op: Sym, l: Expr, r: Expr)
    requires IsBinary(op) && Wf(l) && Wf(r)
    ensures Wf(MakeInfix(op, l, r))
  {
    hide Wf;
    hide IsBinary;
    hide IsAssignment;
    hide IsComparison;
    if IsAssignment(op) {
      AssignIsWf(op, l, r);
    } else if !IsComparison(op) {
      if op == Period {
        DotIsWf(l, r);
      } else {
        BinaryIsWf(op, l, r);
      }
    } else {
      if l.ComparisonOp? {
        LongerChainIsWf(l, op, r);
      } else {
        PairIsWf(l, op, r);
      }
    }
  }

  lemma AssignIsWf(op: Sym, l: Expr, r: Expr)
    requires IsAssignment(op) && Wf(l) && Wf(r)
    ensures Wf(AssignOp(op, l, r))
  {
    hide IsAssignment;
  }

  lemma DotIsWf(l: Expr, r: Expr)
    requires Wf(l) && Wf(r)
    ensures Wf(DotOp(l, r))
  {
  }

  lemma BinaryIsWf(op: Sym, l: Expr, r: Expr)
    requires IsBinary(op) && !IsAssignment(op) && !IsComparison(op) && op != Period && Wf(l) && Wf(r)
    ensures Wf(BinaryOp(op, l, r))
  {
    hide IsBinary;
    hide IsAssignment;
    hide IsComparison;
  }

  lemma PairIsWf(l: Expr, op: Sym, r: Expr)
    requires Wf(l) && Wf(r) && !l.ComparisonOp? && IsComparison(op)
    ensures Wf(ComparisonOp([l, r], [op]))
  {
    hide IsComparison;
  }

  lemma LongerChainIsWf(l: Expr, op: Sym, r: Expr)
    requires Wf(l) && Wf(r) && l.ComparisonOp? && IsComparison(op)
    ensures Wf(ComparisonOp(l.exprs + [r], l.ops + [op]))
  {
    hide IsComparison;
    var xs, ops := l.exprs + [r], l.ops + [op];
    assert forall i :: 0 <= i < |xs| ==> Wf(xs[i]);
    assert forall i :: 0 <= i < |ops| ==> IsComparison(ops[i]);
  }

  lemma {:induction false} StripIsWf(c: Cst)
    requires Normal(c)
    ensures Wf(Strip(c))
  {
    hide MakeInfix;
    hide Absorbs;
    hide FitsOperand;
    match c
    case Leaf(_) =>
    case Group(i) => StripIsWf(i);
    case List(items) => StripItemsAreWf(items, RSquare);
    case Unary(_, x) => StripIsWf(x);
    case Binary(op, l, r) => StripIsWf(l); StripIsWf(r); MakeInfixIsWf(op, Strip(l), Strip(r));
    case Ternary(a, t, x) => StripIsWf(a); StripIsWf(t); StripIsWf(x);
    case Postfix(b, s) =>
      StripIsWf(b);
      match s {
        case Splat =>
        case Args(a) => StripItemsAreWf(a, RParen);
        case Index(i) => StripIsWf(i);
        case From(l) => StripIsWf(l);
        case To(h) => StripIsWf(h);
        case Between(l, h) => StripIsWf(l); StripIsWf(h);
        case Whole(_) =>
      }
  }

  lemma {:induction false} StripItemsAreWf(items: Items, close: Sym)
    requires NormalItems(items, close)
    ensures forall x <- StripItems(items) :: Wf(x)
  {
    match items
    case Nil =>
    case Last(e) => StripIsWf(e);
    case More(e, r) => StripIsWf(e); StripItemsAreWf(r, close);
  }
}
