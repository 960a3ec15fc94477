/**
  What the parser makes of operators next to each other, told by a ranking of the operators and nothing else.
 */
module Operators {
  import opened Results
  import opened Syntax
  import opened Parsing
  import opened ParserComplete
  import opened ParserTheorems

  // ---------------------------------------------------------------- the ranking

  /** The levels of the infix operators, from the tightest to the loosest; -1 for everything else. */
  function Level(op: Sym): int {
    match op
    case Period => 0
    case Caret => 1
    case Asterisk => 2
    case Slash => 3
    case Percent => 4
    case Plus | Minus | DoublePlus => 5
    case ShiftLeft | ShiftRight => 6
    case Ampersand => 7
    case Pipe => 8
    case EqualTo | NotEqual | LAngle | LessThanEqual | RAngle | GreaterThanEqual => 9
    case LogicalAnd => 10
    case LogicalOr => 11
    case Equal | PlusEquals | MinusEquals | TimesEquals | DivideEquals | RemainderEquals => 12
    case ShiftLeftEquals | ShiftRightEquals | BitwiseAndEquals | BitwiseOrEquals | ExponentEquals => 12
    case Pipeline => 13
    case _ => -1
  }

  predicate IsInfix(op: Sym) {
    Level(op) >= 0
  }

  /** Down the levels the precedences fall. */
  function PrecedenceAt(level: int): int {
    if level <= 0 then 8000
    else if level <= 7 then 2800 - 200 * level
    else if level == 8 then 1000
    else if level <= 11 then 2600 - 200 * level
    else if level == 12 then 200
    else 1
  }

  lemma LevelTellsPrecedence(op: Sym)
    ensures IsInfix(op) ==> Level(op) <= 13 && Precedence(op) == PrecedenceAt(Level(op))
  {
  }

  lemma LevelsAgree(x: Sym, y: Sym)
    requires IsInfix(x) && IsInfix(y)
    ensures Precedence(x) > Precedence(y) <==> Level(x) < Level(y)
  {
    LevelTellsPrecedence(x);
    LevelTellsPrecedence(y);
    hide Level;
    hide Precedence;
  }

  lemma InfixIsBinary(op: Sym)
    ensures IsInfix(op) ==> IsBinary(op) && Precedence(op) >= 1
  {
    LevelTellsPrecedence(op);
    hide Precedence;
  }

  lemma OnlyInfixIsBinary(op: Sym)
    ensures IsBinary(op) ==> IsInfix(op)
  {
  }

  lemma InfixIsNoPostfix(op: Sym)
    ensures IsInfix(op) ==> !IsPostfix(Sees(op))
  {
    hide Precedence;
  }

  // ---------------------------------------------------------------- three operands

  /** A literal, a name, something in brackets, or any of these under prefix operators. */
  predicate IsOperand(e: Cst) {
    IsHead(e) && Normal(e)
  }

  lemma ReadWhole(e: Cst)
    requires Normal(e)
    ensures ParseExpr(Toks(e)) == Ok(e, [])
  {
    EndAbsorbsNothing(e);
    assert Toks(e) + [] == Toks(e);
    AcceptsExactlyNormal(Toks(e), e, []);
  }

  predicate GroupsLeft(first: Sym, second: Sym) {
    second != Caret && Level(first) <= Level(second)
  }

  /**
    Of two operators in a row the tighter takes the middle operand, the first of equals; only before `^` the
    operand is always the power's, even after a dot.
   */
  lemma Grouping(a: Cst, first: Sym, b: Cst, second: Sym, c: Cst)
    requires IsInfix(first) && IsInfix(second) && IsOperand(a) && IsOperand(b) && IsOperand(c)
    ensures ParseExpr(Toks(a) + (Tok(first) + (Toks(b) + (Tok(second) + Toks(c))))) ==
      if GroupsLeft(first, second) then Ok(Binary(second, Binary(first, a, b), c), [])
      else Ok(Binary(first, a, Binary(second, b, c)), [])
  {
    var ts := Toks(a) + (Tok(first) + (Toks(b) + (Tok(second) + Toks(c))));
    if GroupsLeft(first, second) {
      var e := Binary(second, Binary(first, a, b), c);
      LeftIsNormal(a, first, b, second, c);
      ReadWhole(e);
      Assoc4(Toks(a), Tok(first), Toks(b), Tok(second) + Toks(c));
      assert Toks(e) == ts;
    } else {
      var e := Binary(first, a, Binary(second, b, c));
      RightIsNormal(a, first, b, second, c);
      ReadWhole(e);
      assert Toks(e) == ts;
    }
  }

  lemma OperandAbsorbsNothing(h: Cst, t: Look)
    requires IsHead(h)
    ensures !Absorbs(h, t)
  {
  }

  lemma BinaryIsNormal(op: Sym, l: Cst, r: Cst)
    requires IsBinary(op) && Normal(l) && Normal(r) && !Absorbs(l, Sees(op)) && FitsOperand(Precedence(op), r)
    ensures Normal(Binary(op, l, r))
  {
    hide Precedence;
    hide IsBinary;
    hide Absorbs;
    hide FitsOperand;
  }

  /** After two operands with an operator between them. */
  lemma PairAbsorbs(a: Cst, op: Sym, b: Cst, t: Look)
    requires IsHead(b)
    ensures Absorbs(Binary(op, a, b), t) <==> Binds(t, Precedence(op))
  {
    hide Precedence;
    hide Binds;
    OperandAbsorbsNothing(b, t);
  }

  lemma HeadFits(prec: nat, h: Cst)
    requires IsHead(h)
    ensures FitsOperand(prec, h)
  {
  }

  lemma LeftIsNormal(a: Cst, first: Sym, b: Cst, second: Sym, c: Cst)
    requires IsInfix(first) && IsInfix(second) && IsOperand(a) && IsOperand(b) && IsOperand(c)
    requires GroupsLeft(first, second)
    ensures Normal(Binary(second, Binary(first, a, b), c))
  {
    hide Level;
    hide Precedence;
    hide Normal;
    hide Absorbs;
    hide FitsOperand;
    hide IsBinary;
    InfixIsBinary(second);
    LevelsAgree(second, first);
    PairIsNormal(a, first, b);
    PairAbsorbs(a, first, b, Sees(second));
    HeadFits(Precedence(second), c);
    BinaryIsNormal(second, Binary(first, a, b), c);
  }

  lemma RightIsNormal(a: Cst, first: Sym, b: Cst, second: Sym, c: Cst)
    requires IsInfix(first) && IsInfix(second) && IsOperand(a) && IsOperand(b) && IsOperand(c)
    requires !GroupsLeft(first, second)
    ensures Normal(Binary(first, a, Binary(second, b, c)))
  {
    hide Level;
    hide Precedence;
    hide Normal;
    hide Absorbs;
    hide FitsOperand;
    hide IsBinary;
    InfixIsBinary(first);
    LevelsAgree(second, first);
    PairIsNormal(b, second, c);
    PairFits(Precedence(first), b, second, c);
    OperandAbsorbsNothing(a, Sees(first));
    BinaryIsNormal(first, a, Binary(second, b, c));
  }

  lemma PairIsNormal(b: Cst, op: Sym, c: Cst)
    requires IsInfix(op) && IsOperand(b) && IsOperand(c)
    ensures Normal(Binary(op, b, c))
  {
    hide Level;
    hide Precedence;
    hide Normal;
    hide Absorbs;
    hide FitsOperand;
    hide IsBinary;
    InfixIsBinary(op);
    OperandAbsorbsNothing(b, Sees(op));
    HeadFits(Precedence(op), c);
    BinaryIsNormal(op, b, c);
  }

  lemma PairFits(prec: nat, b: Cst, op: Sym, c: Cst)
    requires IsHead(b) && (Precedence(op) > prec || op == Caret)
    ensures FitsOperand(prec, Binary(op, b, c))
  {
    hide Precedence;
    hide Toks;
    var r := Binary(op, b, c);
    assert Tail(b) == [] && Tail(r)[0] == Symbol(op);
    assert LeftEdge(b, prec + 1);
  }

  // ---------------------------------------------------------------- suffixes and the ternary

  /** A call always belongs to the operand before it, a subscript too but after a dot; a splat takes all before it. */
  predicate StaysWithOperand(op: Sym, s: Suffix) {
    s.Args? || (op != Period && !s.Splat?)
  }

  lemma SuffixGrouping(a: Cst, op: Sym, b: Cst, s: Suffix)
    requires IsInfix(op) && IsOperand(a) && IsOperand(b) && NormalSuffix(s)
    ensures ParseExpr(Toks(a) + (Tok(op) + (Toks(b) + (Tok(SuffixOp(s)) + SuffixToks(s))))) ==
      if StaysWithOperand(op, s) then Ok(Binary(op, a, Postfix(b, s)), []) else Ok(Postfix(Binary(op, a, b), s), [])
  {
    var ts := Toks(a) + (Tok(op) + (Toks(b) + (Tok(SuffixOp(s)) + SuffixToks(s))));
    if StaysWithOperand(op, s) {
      var e := Binary(op, a, Postfix(b, s));
      SuffixInside(a, op, b, s);
      ReadWhole(e);
      assert Toks(e) == ts;
    } else {
      var e := Postfix(Binary(op, a, b), s);
      SuffixOutside(a, op, b, s);
      ReadWhole(e);
      Assoc4(Toks(a), Tok(op), Toks(b), Tok(SuffixOp(s)) + SuffixToks(s));
      assert Toks(e) == ts;
    }
  }

  lemma SuffixBinds(op: Sym, s: Suffix)
    requires IsInfix(op)
    ensures Binds(Sees(SuffixOp(s)), Precedence(op)) <==> StaysWithOperand(op, s)
  {
    hide Precedence;
    hide Level;
    SuffixPrecedence();
    CaretIsFirst(op);
    LevelTellsPrecedence(op);
  }

  lemma SuffixPrecedence()
    ensures Precedence(LParen) == 9000 && Precedence(LSquare) == 2800 && Precedence(Ellipsis) == -1
  {
  }

  lemma SuffixInside(a: Cst, op: Sym, b: Cst, s: Suffix)
    requires IsInfix(op) && IsOperand(a) && IsOperand(b) && NormalSuffix(s) && StaysWithOperand(op, s)
    ensures Normal(Binary(op, a, Postfix(b, s)))
  {
    hide Level;
    hide Precedence;
    hide Normal;
    hide NormalSuffix;
    hide Absorbs;
    hide FitsOperand;
    hide IsBinary;
    InfixIsBinary(op);
    SuffixBinds(op, s);
    SuffixIsNormal(b, s);
    SuffixFits(Precedence(op), b, s);
    OperandAbsorbsNothing(a, Sees(op));
    BinaryIsNormal(op, a, Postfix(b, s));
  }

  lemma SuffixFits(prec: nat, b: Cst, s: Suffix)
    requires IsHead(b) && Binds(Sees(SuffixOp(s)), prec)
    ensures FitsOperand(prec, Postfix(b, s))
  {
    hide Precedence;
    hide Toks;
    hide SuffixToks;
    hide Binds;
    assert Tail(b) == [] && Tail(Postfix(b, s))[0] == Symbol(SuffixOp(s));
    assert LeftEdge(b, prec + 1);
  }

  lemma SuffixOutside(a: Cst, op: Sym, b: Cst, s: Suffix)
    requires IsInfix(op) && IsOperand(a) && IsOperand(b) && NormalSuffix(s) && !StaysWithOperand(op, s)
    ensures Normal(Postfix(Binary(op, a, b), s))
  {
    hide Level;
    hide Precedence;
    hide Absorbs;
    hide Binds;
    hide NormalSuffix;
    SuffixBinds(op, s);
    PairIsNormal(a, op, b);
    PairAbsorbs(a, op, b, Sees(SuffixOp(s)));
  }

  lemma SuffixIsNormal(b: Cst, s: Suffix)
    requires IsOperand(b) && NormalSuffix(s)
    ensures Normal(Postfix(b, s))
  {
    hide Absorbs;
    hide NormalSuffix;
    OperandAbsorbsNothing(b, Sees(SuffixOp(s)));
  }

  /** Prefix operators come before suffixes: in `-f(x)` it is `-f` that is called. */
  lemma PrefixBeforeSuffix(op: Sym, f: Cst, s: Suffix)
    requires IsPrefix(op) && IsOperand(f) && NormalSuffix(s)
    ensures ParseExpr(Tok(op) + (Toks(f) + (Tok(SuffixOp(s)) + SuffixToks(s)))) == Ok(Postfix(Unary(op, f), s), [])
  {
    hide NormalSuffix;
    hide Absorbs;
    hide ParseExpr;
    hide SuffixToks;
    var e := Postfix(Unary(op, f), s);
    assert IsOperand(Unary(op, f));
    SuffixIsNormal(Unary(op, f), s);
    ReadWhole(e);
    Assoc3(Tok(op), Toks(f), Tok(SuffixOp(s)) + SuffixToks(s));
    assert Toks(Unary(op, f)) == Tok(op) + Toks(f);
    assert Toks(e) == Tok(op) + (Toks(f) + (Tok(SuffixOp(s)) + SuffixToks(s)));
  }

  lemma Assoc3(a: seq<Token>, b: seq<Token>, c: seq<Token>)
    ensures (a + b) + c == a + (b + c)
  {
  }

  /** Looser than the ternary: assignments and the pipeline. */
  predicate IsLoose(op: Sym) {
    Level(op) >= 12
  }

  lemma LooseMeans(op: Sym)
    requires IsInfix(op)
    ensures IsBinary(op) && Precedence(op) >= 0 && Precedence(op) != 201 == Precedence(Question)
    ensures IsLoose(op) <==> Precedence(op) < 201
  {
    hide Precedence;
    hide Level;
    TernaryPrecedence();
    InfixIsBinary(op);
    LevelTellsPrecedence(op);
  }

  lemma LooseIsNoCaret(op: Sym)
    ensures IsLoose(op) ==> op != Caret
  {
    hide Precedence;
  }

  /** The condition of a ternary takes every operator before it but the loose ones. */
  lemma TernaryCondition(a: Cst, op: Sym, b: Cst, c: Cst, d: Cst)
    requires IsInfix(op) && IsOperand(a) && IsOperand(b) && IsOperand(c) && IsOperand(d)
    ensures ParseExpr(Toks(a) + (Tok(op) + (Toks(b) + (Tok(Question) + (Toks(c) + (Tok(Colon) + Toks(d))))))) ==
      if IsLoose(op) then Ok(Binary(op, a, Ternary(b, c, d)), []) else Ok(Ternary(Binary(op, a, b), c, d), [])
  {
    var end := Tok(Question) + (Toks(c) + (Tok(Colon) + Toks(d)));
    if IsLoose(op) {
      var e := Binary(op, a, Ternary(b, c, d));
      TernaryInside(a, op, b, c, d);
      ReadWhole(e);
      assert Toks(e) == Toks(a) + (Tok(op) + (Toks(b) + end));
    } else {
      var e := Ternary(Binary(op, a, b), c, d);
      TernaryOutside(a, op, b, c, d);
      ReadWhole(e);
      Assoc4(Toks(a), Tok(op), Toks(b), end);
      assert Toks(e) == Toks(a) + (Tok(op) + (Toks(b) + end));
    }
  }

  lemma TernaryIsNormal(b: Cst, c: Cst, d: Cst)
    requires Normal(b) && Normal(c) && Normal(d) && !Absorbs(b, Sees(Question)) && !Absorbs(c, Sees(Colon))
    requires FitsOperand(201, c)
    ensures Normal(Ternary(b, c, d))
  {
    hide Precedence;
    hide Absorbs;
    hide FitsOperand;
    TernaryPrecedence();
  }

  lemma TernaryPrecedence()
    ensures Precedence(Question) == 201 && Precedence(Colon) == -1
  {
  }

  lemma PlainTernary(b: Cst, c: Cst, d: Cst)
    requires IsOperand(b) && IsOperand(c) && Normal(d)
    ensures Normal(Ternary(b, c, d))
  {
    hide Normal;
    hide Absorbs;
    hide FitsOperand;
    OperandAbsorbsNothing(b, Sees(Question));
    OperandAbsorbsNothing(c, Sees(Colon));
    HeadFits(201, c);
    TernaryIsNormal(b, c, d);
  }

  lemma TernaryInside(a: Cst, op: Sym, b: Cst, c: Cst, d: Cst)
    requires IsInfix(op) && IsOperand(a) && IsOperand(b) && IsOperand(c) && IsOperand(d) && IsLoose(op)
    ensures Normal(Binary(op, a, Ternary(b, c, d)))
  {
    hide Level;
    hide Precedence;
    hide Normal;
    hide Absorbs;
    hide FitsOperand;
    hide IsBinary;
    LooseMeans(op);
    PlainTernary(b, c, d);
    TernaryFits(Precedence(op), b, c, d);
    OperandAbsorbsNothing(a, Sees(op));
    BinaryIsNormal(op, a, Ternary(b, c, d));
  }

  lemma TernaryFits(prec: nat, b: Cst, c: Cst, d: Cst)
    requires IsHead(b) && Precedence(Question) > prec
    ensures FitsOperand(prec, Ternary(b, c, d))
  {
    hide Precedence;
    hide Toks;
    assert Tail(b) == [] && Tail(Ternary(b, c, d))[0] == Symbol(Question);
    assert LeftEdge(b, prec + 1);
  }

  lemma TernaryOutside(a: Cst, op: Sym, b: Cst, c: Cst, d: Cst)
    requires IsInfix(op) && IsOperand(a) && IsOperand(b) && IsOperand(c) && IsOperand(d) && !IsLoose(op)
    ensures Normal(Ternary(Binary(op, a, b), c, d))
  {
    hide Level;
    hide Precedence;
    hide Normal;
    hide Absorbs;
    hide FitsOperand;
    hide IsBinary;
    LooseMeans(op);
    PairIsNormal(a, op, b);
    PairAbsorbs(a, op, b, Sees(Question));
    OperandAbsorbsNothing(c, Sees(Colon));
    HeadFits(201, c);
    TernaryIsNormal(Binary(op, a, b), c, d);
  }

  /** The last branch takes all that follows it. */
  lemma TernaryLastBranch(a: Cst, b: Cst, c: Cst, op: Sym, d: Cst)
    requires IsInfix(op) && IsOperand(a) && IsOperand(b) && IsOperand(c) && IsOperand(d)
    ensures ParseExpr(Toks(a) + (Tok(Question) + (Toks(b) + (Tok(Colon) + (Toks(c) + (Tok(op) + Toks(d))))))) ==
      Ok(Ternary(a, b, Binary(op, c, d)), [])
  {
    var e := Ternary(a, b, Binary(op, c, d));
    hide Normal;
    hide Level;
    hide ParseExpr;
    PairIsNormal(c, op, d);
    PlainTernary(a, b, Binary(op, c, d));
    ReadWhole(e);
    assert Toks(Binary(op, c, d)) == Toks(c) + (Tok(op) + Toks(d));
  }

  /** The middle branch takes no loose operator: an assignment there is an error. */
  lemma TernaryMiddleBranch(a: Cst, b: Cst, op: Sym, c: Cst, d: Cst)
    requires IsInfix(op) && IsOperand(a) && IsOperand(b) && IsOperand(c) && IsOperand(d)
    ensures ParseExpr(Toks(a) + (Tok(Question) + (Toks(b) + (Tok(op) + (Toks(c) + (Tok(Colon) + Toks(d))))))) ==
      if IsLoose(op) then Fail else Ok(Ternary(a, Binary(op, b, c), d), [])
  {
    var end := Tok(Colon) + Toks(d);
    if IsLoose(op) {
      LooseFails(a, b, op, Toks(c) + end);
    } else {
      var e := Ternary(a, Binary(op, b, c), d);
      MiddleIsNormal(a, b, op, c, d);
      ReadWhole(e);
      Assoc4(Toks(b), Tok(op), Toks(c), end);
      assert Toks(e) == Toks(a) + (Tok(Question) + (Toks(b) + (Tok(op) + (Toks(c) + end))));
    }
  }

  lemma MiddleIsNormal(a: Cst, b: Cst, op: Sym, c: Cst, d: Cst)
    requires IsInfix(op) && IsOperand(a) && IsOperand(b) && IsOperand(c) && IsOperand(d) && !IsLoose(op)
    ensures Normal(Ternary(a, Binary(op, b, c), d))
  {
    ColonBindsNothing(op);
    hide Level;
    hide Precedence;
    hide Normal;
    hide Absorbs;
    hide FitsOperand;
    hide IsBinary;
    LooseMeans(op);
    PairIsNormal(b, op, c);
    PairAbsorbs(b, op, c, Sees(Colon));
    PairFits(201, b, op, c);
    OperandAbsorbsNothing(a, Sees(Question));
    TernaryIsNormal(a, Binary(op, b, c), d);
  }

  lemma ColonBindsNothing(op: Sym)
    requires IsInfix(op)
    ensures !Binds(Sees(Colon), Precedence(op))
  {
    hide Precedence;
    hide Level;
    TernaryPrecedence();
    InfixIsBinary(op);
  }

  lemma LooseFails(a: Cst, b: Cst, op: Sym, more: seq<Token>)
    requires IsInfix(op) && IsLoose(op) && IsOperand(a) && IsOperand(b)
    ensures ParseExpr(Toks(a) + (Tok(Question) + (Toks(b) + (Tok(op) + more)))) == Fail
  {
    hide Level;
    hide Precedence;
    hide ParseUnary;
    hide Normal;
    hide IsBinary;
    LooseMeans(op);
    LooseIsNoCaret(op);
    var rest := Toks(b) + (Tok(op) + more);
    CompleteHead(a, Tok(Question) + rest);
    CompleteHead(b, Tok(op) + more);
    ColonIsNoInfix(op);
    AfterFirst(Question, rest);
    AfterFirst(op, more);
    assert ParseOperand(201, rest) == Ok(b, Tok(op) + more);
    assert ParseRhs(a, Tok(Question) + rest, 0) == Fail;
  }

  lemma ColonIsNoInfix(op: Sym)
    ensures IsInfix(op) ==> op != Colon
  {
  }

  // ---------------------------------------------------------------- normal form, by levels alone

  /** The infix operators, the dot aside. */
  predicate IsArithmetic(op: Sym) {
    IsInfix(op) && op != Period
  }

  predicate Arithmetic(e: Cst) {
    IsHead(e) || (e.Binary? && IsArithmetic(e.op) && Arithmetic(e.lhs) && Arithmetic(e.rhs))
  }

  /**
    For trees of these operators normal form is what the levels say: an operand binds at least as tightly on
    the left and more tightly on the right, but `^` nests to the right.
   */
  lemma PrecedenceNormalForm(op: Sym, l: Cst, r: Cst)
    requires IsArithmetic(op) && Arithmetic(l) && Arithmetic(r) && Normal(l) && Normal(r)
    ensures Normal(Binary(op, l, r)) <==>
      && (IsHead(l) || (op != Caret && Level(l.op) <= Level(op)))
      && (IsHead(r) || Level(r.op) < Level(op) || op == r.op == Caret)
  {
    if !IsHead(l) {
      LevelsAgree(op, l.op);
    }
    if !IsHead(r) {
      LevelsAgree(r.op, op);
    }
    hide Level;
    LeftSide(op, l);
    RightSide(op, r);
    hide Precedence;
    hide Level;
    hide Absorbs;
    hide FitsOperand;
    Table(op);
  }

  lemma Table(op: Sym)
    requires IsArithmetic(op)
    ensures IsBinary(op) && 1 <= Precedence(op) <= 2600 && (Precedence(op) == 2600 <==> op == Caret)
    ensures !IsPostfix(Sees(op))
  {
    hide Precedence;
    hide IsBinary;
    InfixIsBinary(op);
    InfixIsNoPostfix(op);
    LevelTellsPrecedence(op);
    CaretIsFirst(op);
  }

  lemma CaretIsFirst(op: Sym)
    ensures op == Caret <==> Level(op) == 1
    ensures op == Period <==> Level(op) == 0
  {
  }

  lemma LeftSide(op: Sym, l: Cst)
    requires IsArithmetic(op) && Arithmetic(l) && Normal(l)
    ensures !Absorbs(l, Sees(op)) <==> IsHead(l) || (op != Caret && Precedence(l.op) >= Precedence(op))
  {
    hide Precedence;
    hide Level;
    Table(op);
    if !IsHead(l) && op != Caret && Precedence(l.op) >= Precedence(op) {
      RightEdgeHolds(l, op);
    }
  }

  lemma RightSide(op: Sym, r: Cst)
    requires IsArithmetic(op) && Arithmetic(r) && Normal(r)
    ensures Precedence(op) >= 0
    ensures FitsOperand(Precedence(op), r) <==>
      IsHead(r) || Precedence(r.op) > Precedence(op) || op == r.op == Caret
  {
    hide Precedence;
    hide Level;
    hide Normal;
    hide FitsOperand;
    Table(op);
    if IsHead(r) {
      HeadFits(Precedence(op), r);
    } else {
      Table(r.op);
      BinaryFits(Precedence(op), r);
    }
  }

  lemma BinaryFits(prec: nat, r: Cst)
    requires Arithmetic(r) && Normal(r) && !IsHead(r)
    ensures FitsOperand(prec, r) <==> Precedence(r.op) > prec || r.op == Caret
  {
    hide Precedence;
    hide Level;
    hide Normal;
    hide Toks;
    Table(r.op);
    if Precedence(r.op) > prec || r.op == Caret {
      LeftEdgeHolds(r, prec);
    }
  }

  /** A normal tree lets an operator go that binds no tighter than its top one. */
  lemma {:induction false} RightEdgeHolds(e: Cst, op: Sym)
    requires Arithmetic(e) && Normal(e) && !IsHead(e) && IsArithmetic(op)
    requires op != Caret && Precedence(e.op) >= Precedence(op)
    ensures !Absorbs(e, Sees(op))
  {
    hide Precedence;
    hide Level;
    Table(op);
    Table(e.op);
    if !IsHead(e.rhs) {
      Table(e.rhs.op);
      RightEdgeHolds(e.rhs, op);
    }
    assert !OperandAbsorbs(Precedence(e.op), e.rhs, Sees(op));
  }

  /** Down its left edge a normal tree only binds tighter. */
  lemma {:induction false} LeftEdgeHolds(e: Cst, prec: nat)
    requires Arithmetic(e) && Normal(e) && !IsHead(e)
    requires Precedence(e.op) > prec || e.op == Caret
    ensures LeftEdge(e, prec + 1) && Tail(e) != [] && Binds(Peek(Tail(e)), prec)
  {
    hide Precedence;
    hide Level;
    Table(e.op);
    if IsHead(e.lhs) {
      assert Tail(e)[0] == Symbol(e.op);
    } else {
      Table(e.lhs.op);
      assert !OperandAbsorbs(Precedence(e.lhs.op), e.lhs.rhs, Sees(e.op));
      LeftEdgeHolds(e.lhs, prec);
      assert Tail(e)[0] == Tail(e.lhs)[0];
    }
  }
}
