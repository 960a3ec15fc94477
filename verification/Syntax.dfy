/**
  Tokens, operator tables and concrete syntax of the command language, as the expression parser
  sees them.  A concrete tree keeps what the parser forgets (parentheses, trailing commas), so that
  the tokens it was read from can be told from it.
 */
module Syntax {

  datatype Sym =
    | Exclamation | Tilde
    | Period | Caret | Asterisk | Slash | Percent | Plus | Minus | DoublePlus
    | ShiftLeft | ShiftRight | Ampersand | Pipe
    | EqualTo | NotEqual | LAngle | RAngle | LessThanEqual | GreaterThanEqual
    | LogicalAnd | LogicalOr
    | Equal | PlusEquals | MinusEquals | TimesEquals | DivideEquals | RemainderEquals
    | ShiftLeftEquals | ShiftRightEquals | BitwiseAndEquals | BitwiseOrEquals | ExponentEquals
    | Pipeline
    | Question | Colon | Comma | LParen | RParen | LSquare | RSquare | Ellipsis
    | Semicolon | LBrace | RBrace | FatRightArrow | Keyword

  /** A literal or a name is one token; its text is not looked at. */
  datatype Token = Literal(text: string) | Symbol(sym: Sym)

  /** The type of the next token. */
  datatype Look = EndOfFile | SeesLiteral | Sees(sym: Sym)

  function Peek(ts: seq<Token>): Look {
    if ts == [] then EndOfFile else if ts[0].Literal? then SeesLiteral else Sees(ts[0].sym)
  }

  // ---------------------------------------------------------------- operator tables

  predicate IsComparison(op: Sym) {
    op in {EqualTo, NotEqual, LAngle, LessThanEqual, RAngle, GreaterThanEqual}
  }

  predicate IsAssignment(op: Sym) {
    op in {Equal, PlusEquals, MinusEquals, TimesEquals, DivideEquals, RemainderEquals, ShiftLeftEquals,
           ShiftRightEquals, BitwiseAndEquals, BitwiseOrEquals, ExponentEquals}
  }

  predicate IsPrefix(op: Sym) {
    op in {Exclamation, Minus, Plus, Tilde}
  }

  predicate IsPostfix(t: Look) {
    t in {Sees(LSquare), Sees(LParen), Sees(Ellipsis)}
  }

  predicate IsRightAssociative(t: Look) {
    t == Sees(Caret)
  }

  function Precedence(op: Sym): int {
    match op
    case LParen => 9000
    case Period => 8000
    case LSquare => 2800
    case Caret => 2600
    case Asterisk => 2400
    case Slash => 2200
    case Percent => 2000
    case Plus => 1800
    case Minus => 1800
    case DoublePlus => 1800
    case ShiftLeft => 1600
    case ShiftRight => 1600
    case Ampersand => 1400
    case Pipe => 1000
    case LogicalAnd => 600
    case LogicalOr => 400
    case Question => 201
    case Pipeline => 1
    case _ => if IsComparison(op) then 800 else if IsAssignment(op) then 200 else -1
  }

  function LookPrecedence(t: Look): int {
    if t.Sees? then Precedence(t.sym) else -1
  }

  /** parseRhs gives its left side back when it sees this token. */
  predicate Stops(t: Look, prio: nat) {
    LookPrecedence(t) < prio && !IsRightAssociative(t) && !IsPostfix(t)
  }

  /** The token takes the operand before it away from an operator of precedence prec. */
  predicate Binds(t: Look, prec: int) {
    LookPrecedence(t) > prec || IsRightAssociative(t)
  }

  predicate IsBinary(op: Sym) {
    Precedence(op) >= 0 && op != Question && op != LParen && op != LSquare
  }

  // ---------------------------------------------------------------- concrete trees

  datatype Cst =
    | Leaf(text: string)
    | Group(inner: Cst)
    | List(items: Items)
    | Unary(op: Sym, operand: Cst)
    | Binary(op: Sym, lhs: Cst, rhs: Cst)
    | Ternary(cond: Cst, thn: Cst, els: Cst)
    | Postfix(base: Cst, suffix: Suffix)

  /** What stands between brackets; `More(e, Nil)` ends in a comma. */
  datatype Items = Nil | Last(e: Cst) | More(e: Cst, rest: Items)

  /** For [:] the parser pops one token too many; `swallowed` is that token, if there was one. */
  datatype Suffix =
    | Splat
    | Args(args: Items)
    | Index(index: Cst)
    | From(lo: Cst)
    | To(hi: Cst)
    | Between(lo: Cst, hi: Cst)
    | Whole(swallowed: seq<Token>)

  function SuffixOp(s: Suffix): Sym {
    match s case Splat => Ellipsis case Args(_) => LParen case _ => LSquare
  }

  function Tok(s: Sym): seq<Token> {
    [Symbol(s)]
  }

  function Toks(e: Cst): seq<Token> {
    match e
    case Leaf(t) => [Literal(t)]
    case Group(i) => Tok(LParen) + (Toks(i) + Tok(RParen))
    case List(items) => Tok(LSquare) + ItemToks(items, RSquare)
    case Unary(op, x) => Tok(op) + Toks(x)
    case Binary(op, l, r) => Toks(l) + (Tok(op) + Toks(r))
    case Ternary(c, t, x) => Toks(c) + (Tok(Question) + (Toks(t) + (Tok(Colon) + Toks(x))))
    case Postfix(b, s) => Toks(b) + (Tok(SuffixOp(s)) + SuffixToks(s))
  }

  function ItemToks(items: Items, close: Sym): seq<Token> {
    match items
    case Nil => Tok(close)
    case Last(e) => Toks(e) + Tok(close)
    case More(e, r) => Toks(e) + (Tok(Comma) + ItemToks(r, close))
  }

  /** The tokens of a suffix after its first one. */
  function SuffixToks(s: Suffix): seq<Token> {
    match s
    case Splat => []
    case Args(a) => ItemToks(a, RParen)
    case Index(i) => Toks(i) + Tok(RSquare)
    case From(l) => Toks(l) + (Tok(Colon) + Tok(RSquare))
    case To(h) => Tok(Colon) + (Toks(h) + Tok(RSquare))
    case Between(l, h) => Toks(l) + (Tok(Colon) + (Toks(h) + Tok(RSquare)))
    case Whole(w) => Tok(Colon) + (Tok(RSquare) + w)
  }

  // ---------------------------------------------------------------- normal form

  /** What parseUnary can return: no operator outside brackets but prefix ones. */
  predicate IsHead(e: Cst) {
    e.Leaf? || e.Group? || e.List? || e.Unary?
  }

  /** The leftmost operand of a tree, and the tokens after it. */
  function Head(e: Cst): (h: Cst)
    ensures IsHead(h)
  {
    match e
    case Binary(_, l, _) => Head(l)
    case Ternary(c, _, _) => Head(c)
    case Postfix(b, _) => Head(b)
    case _ => e
  }

  function Tail(e: Cst): seq<Token> {
    match e
    case Binary(op, l, r) => Tail(l) + (Tok(op) + Toks(r))
    case Ternary(c, t, x) => Tail(c) + (Tok(Question) + (Toks(t) + (Tok(Colon) + Toks(x))))
    case Postfix(b, s) => Tail(b) + (Tok(SuffixOp(s)) + SuffixToks(s))
    case _ => []
  }

  /** The tree ends in an operand that would take the next token for itself. */
  predicate Absorbs(e: Cst, t: Look)
    decreases e, 0
  {
    match e
    case Binary(op, _, r) => OperandAbsorbs(Precedence(op), r, t)
    case Ternary(_, _, x) => Absorbs(x, t) || !Stops(t, 0)
    case Postfix(_, Whole(w)) => w == [] && t != EndOfFile
    case _ => false
  }

  /** The same for the right operand of an operator. */
  predicate OperandAbsorbs(prec: int, r: Cst, t: Look)
    decreases r, 1
  {
    Absorbs(r, t) || Binds(t, prec) || (!IsHead(r) && IsPostfix(t))
  }

  /** Every operator down the left edge of the tree is one that a parse at this priority takes. */
  predicate LeftEdge(e: Cst, prio: nat) {
    match e
    case Binary(op, l, _) => !Stops(Sees(op), prio) && LeftEdge(l, prio)
    case Ternary(c, _, _) => !Stops(Sees(Question), prio) && LeftEdge(c, prio)
    case Postfix(b, _) => LeftEdge(b, prio)
    case _ => true
  }

  /** The tree can be the right operand of an operator of this precedence. */
  predicate FitsOperand(prec: nat, r: Cst) {
    IsHead(r) || (Binds(Peek(Tail(r)), prec) && LeftEdge(r, prec + 1))
  }

  predicate Normal(e: Cst) {
    match e
    case Leaf(_) => true
    case Group(i) => Normal(i) && !Absorbs(i, Sees(RParen))
    case List(items) => NormalItems(items, RSquare)
    case Unary(op, x) => IsPrefix(op) && IsHead(x) && Normal(x)
    case Binary(op, l, r) =>
      && IsBinary(op)
      && Normal(l) && !Absorbs(l, Sees(op))
      && Normal(r) && FitsOperand(Precedence(op), r)
    case Ternary(c, t, x) =>
      && Normal(c) && !Absorbs(c, Sees(Question))
      && Normal(t) && FitsOperand(Precedence(Question), t) && !Absorbs(t, Sees(Colon))
      && Normal(x)
    case Postfix(b, s) => Normal(b) && !Absorbs(b, Sees(SuffixOp(s))) && NormalSuffix(s)
  }

  predicate NormalItems(items: Items, close: Sym) {
    match items
    case Nil => true
    case Last(e) => Normal(e) && !Absorbs(e, Sees(close))
    case More(e, r) => Normal(e) && !Absorbs(e, Sees(Comma)) && NormalItems(r, close)
  }

  predicate NormalSuffix(s: Suffix) {
    match s
    case Splat => true
    case Args(a) => NormalItems(a, RParen)
    case Index(i) => Normal(i) && !Absorbs(i, Sees(RSquare))
    case From(l) => Normal(l) && !Absorbs(l, Sees(Colon))
    case To(h) => Normal(h) && !Absorbs(h, Sees(RSquare))
    case Between(l, h) => Normal(l) && !Absorbs(l, Sees(Colon)) && Normal(h) && !Absorbs(h, Sees(RSquare))
    case Whole(w) => |w| <= 1
  }

  lemma {:induction false} TokensSplit(e: Cst)
    ensures Toks(e) == Toks(Head(e)) + Tail(e)
    ensures Tail(e) == [] <==> IsHead(e)
  {
    match e
    case Binary(_, l, _) => TokensSplit(l);
    case Ternary(c, _, _) => TokensSplit(c);
    case Postfix(b, _) => TokensSplit(b);
    case _ =>
  }

  lemma Assoc4(a: seq<Token>, b: seq<Token>, c: seq<Token>, d: seq<Token>)
    ensures (a + (b + c)) + d == a + (b + (c + d))
  {
  }

  lemma AfterFirst(s: Sym, ts: seq<Token>)
    ensures Peek(Tok(s) + ts) == Sees(s) && (Tok(s) + ts)[1..] == ts
  {
  }

  lemma FirstAndRest(s: Sym, ts: seq<Token>)
    requires Peek(ts) == Sees(s)
    ensures ts == Tok(s) + ts[1..]
  {
  }
}
