/**
  The tagged binary format as a grammar: which bytes stand for which tree.  The decoder accepts these bytes,
  in any of their forms, and no others.
 */
module CodecGrammar {
  import opened Options
  import opened Bytes
  import opened Codec
  import opened Results
  import opened Sequences

  // ---------------------------------------------------------------- the grammar

  /** Eight bytes, least significant first. */
  function EightLittle(s: seq<int>): int
    requires |s| == 8
  {
    s[0] + 0x100 * (s[1] + 0x100 * (s[2] + 0x100 * (s[3] + 0x100 * (s[4] + 0x100 * (s[5] + 0x100 * (s[6] + 0x100 * s[7]))))))
  }

  /** A number in one byte, three or nine; the shortest is not demanded. */
  predicate IsNumber(w: seq<Byte>, x: nat) {
    || (|w| == 1 && w[0] as int == 0x80 + x)
    || (|w| == 3 && w[0] == 0x12 && w[1] as int + 0x100 * w[2] as int == x)
    || (|w| == 9 && w[0] == 0x04 && EightLittle(w[1..]) == x)
  }

  predicate IsReal(w: seq<Byte>, bits: nat) {
    |w| == 9 && w[0] == 0x0D && EightLittle(w[1..]) == bits
  }

  predicate IsFlag(w: seq<Byte>, b: bool) {
    w == [if b then 0x0E else 0x0F]
  }

  ghost predicate IsText(w: seq<Byte>, s: seq<Byte>) {
    exists n: seq<Byte> :: IsNumber(n, |s|) && w == [0x09] + (n + s)
  }

  ghost predicate IsOp(w: seq<Byte>, o: Op) {
    exists n: seq<Byte>, t: seq<Byte> :: IsNumber(n, o.op) && IsText(t, o.str) && w == [0x13] + (n + t)
  }

  ghost predicate AreOps(w: seq<Byte>, ops: seq<Op>)
    decreases |ops|
  {
    if ops == [] then w == []
    else exists a: seq<Byte>, b: seq<Byte> :: IsOp(a, ops[0]) && AreOps(b, ops[1..]) && w == a + b
  }

  const EXPRESSIONS_FROM_0x30: seq<Kind> :=
    [LitChar, LitString, LitList, LitInteger, LitDouble, LitBoolean, VarRef, SubscriptOp, SliceOp, SplatOp, UnaryOp,
     BinaryOp, TernaryOp, ComparisonOp, AssignOp, FunctionCall]

  predicate IsExprTag(b: Byte, k: Kind) {
    || (0x30 <= b < 0x40 && EXPRESSIONS_FROM_0x30[b - 0x30] == k)
    || (b == 0x69 && k == DotOp)
  }

  /** A statement is a definition or an expression; a block is read where nothing else may stand. */
  predicate IsTag(b: Byte, role: Role, k: Kind) {
    match role
    case AsExpr => IsExprTag(b, k)
    case AsStmt => IsExprTag(b, k) || (b == 0x71 && k == VarDefn)
    case AsBlock => b == 0x40 && k == Block
  }

  ghost predicate IsNode(w: seq<Byte>, role: Role, n: Node)
    decreases n, 1
  {
    && w != [] && IsTag(w[0], role, n.kind)
    && AreFields(w[1..], Schema(n.kind), n.fields)
  }

  ghost predicate AreFields(w: seq<Byte>, shapes: seq<Shape>, fs: seq<Field>)
    decreases fs, 0
  {
    && |shapes| == |fs|
    && if fs == [] then w == []
       else exists a: seq<Byte>, b: seq<Byte> ::
         IsField(a, shapes[0], fs[0]) && AreFields(b, shapes[1..], fs[1..]) && w == a + b
  }

  ghost predicate IsField(w: seq<Byte>, shape: Shape, f: Field)
    decreases f, 1
  {
    match f
    case Number(n) => shape == ANumber && IsNumber(w, n)
    case Real(bits) => shape == AReal && IsReal(w, bits)
    case Flag(b) => shape == AFlag && IsFlag(w, b)
    case Text(s) => shape == AText && IsText(w, s)
    case Child(e) => shape == AnExpr && IsNode(w, AsExpr, e)
    case Maybe(None) => shape == MaybeExpr && IsFlag(w, false)
    case Maybe(Some(e)) => shape == MaybeExpr && w != [] && IsFlag(w[..1], true) && IsNode(w[1..], AsExpr, e)
    case Children(es) =>
      (shape == Exprs || shape == Stmts) && AreChildren(w, if shape == Exprs then AsExpr else AsStmt, es)
    case Ops(ops) => shape == OpList && AreCountedOps(w, ops)
  }

  /** A tag, how many there are, and these. */
  ghost predicate AreChildren(w: seq<Byte>, role: Role, es: seq<Node>)
    decreases es, 1
  {
    exists n: seq<Byte>, b: seq<Byte> :: IsNumber(n, |es|) && AreNodes(b, role, es) && w == [0x10] + (n + b)
  }

  ghost predicate AreCountedOps(w: seq<Byte>, ops: seq<Op>) {
    exists n: seq<Byte>, b: seq<Byte> :: IsNumber(n, |ops|) && AreOps(b, ops) && w == [0x10] + (n + b)
  }

  ghost predicate AreNodes(w: seq<Byte>, role: Role, es: seq<Node>)
    decreases es, 0
  {
    if es == [] then w == []
    else exists a: seq<Byte>, b: seq<Byte> :: IsNode(a, role, es[0]) && AreNodes(b, role, es[1..]) && w == a + b
  }

  // ---------------------------------------------------------------- the small parts, both ways

  lemma TagRead(b: Byte, role: Role, k: Kind)
    ensures IsTag(b, role, k) <==> KindOf(b) == Some(k) && Allows(role, k)
  {
  }

  lemma EightSplits(s: seq<Byte>)
    requires |s| == 8
    ensures FromLittleEndian(s) == EightLittle(s)
  {
    hide FromLittleEndian;
    LittleSplits(s);
    LittleSplits(s[1..]);
    LittleSplits(s[2..]);
    LittleSplits(s[3..]);
    LittleSplits(s[4..]);
    LittleSplits(s[5..]);
    LittleSplits(s[6..]);
    LittleSplits(s[7..]);
    assert s[8..] == [];
    LittleOfNone();
  }

  lemma LittleOfNone()
    ensures FromLittleEndian([]) == 0
  {
  }

  lemma LittleSplits(s: seq<Byte>)
    requires s != []
    ensures FromLittleEndian(s) == s[0] + 0x100 * FromLittleEndian(s[1..])
  {
  }

  lemma TwoSplits(s: seq<Byte>)
    requires |s| == 2
    ensures FromLittleEndian(s) == s[0] as int + 0x100 * s[1] as int
  {
    hide FromLittleEndian;
    LittleSplits(s);
    LittleSplits(s[1..]);
    assert s[1..][1..] == [];
    LittleOfNone();
  }

  lemma NumberAccepted(w: seq<Byte>, x: nat, rest: seq<Byte>)
    requires IsNumber(w, x)
    ensures DecodeNumber(w + rest) == Ok(x, rest)
  {
    hide FromLittleEndian;
    var s := w + rest;
    assert s[|w|..] == rest && s[0] == w[0];
    if |w| == 3 {
      TwoSplits(w[1..]);
      assert s[1..3] == w[1..];
    } else if |w| == 9 {
      EightSplits(w[1..]);
      assert s[1..9] == w[1..];
    }
  }

  lemma NumberRead(s: seq<Byte>)
    requires DecodeNumber(s).Ok?
    ensures IsPart(s, DecodeNumber(s).rest) && IsNumber(Taken(s, DecodeNumber(s).rest), DecodeNumber(s).value)
  {
    hide FromLittleEndian;
    if s[0] < TAG_TINY_U64 {
      if s[0] == TAG_SMALL_U64 {
        TwoSplits(s[1..3]);
        assert s[..3][1] == s[1..3][0] && s[..3][2] == s[1..3][1];
      } else {
        EightSplits(s[1..9]);
        assert s[..9][1..] == s[1..9];
      }
    }
  }

  /** The rest of a text, and what was taken before it. */
  predicate IsPart(s: seq<Byte>, r: seq<Byte>) {
    |r| <= |s| && s[|s| - |r|..] == r
  }

  function Taken(s: seq<Byte>, r: seq<Byte>): seq<Byte>
    requires |r| <= |s|
  {
    s[..|s| - |r|]
  }

  lemma TakenTwice(s: seq<Byte>, r: seq<Byte>, t: seq<Byte>)
    requires IsPart(s, r) && IsPart(r, t)
    ensures IsPart(s, t) && Taken(s, t) == Taken(s, r) + Taken(r, t)
  {
    assert s == Taken(s, r) + r && r == Taken(r, t) + t;
  }

  lemma TakenFirst(s: seq<Byte>, r: seq<Byte>)
    requires s != [] && IsPart(s[1..], r)
    ensures IsPart(s, r) && Taken(s, r) == [s[0]] + Taken(s[1..], r)
  {
  }

  lemma RealAccepted(w: seq<Byte>, bits: nat, rest: seq<Byte>)
    requires IsReal(w, bits)
    ensures DecodeReal(w + rest) == Ok(bits, rest)
  {
    hide FromLittleEndian;
    var s := w + rest;
    EightSplits(w[1..]);
    assert s[1..9] == w[1..] && s[9..] == rest && s[0] == w[0];
  }

  lemma RealRead(s: seq<Byte>)
    requires DecodeReal(s).Ok?
    ensures IsPart(s, DecodeReal(s).rest) && IsReal(Taken(s, DecodeReal(s).rest), DecodeReal(s).value)
  {
    hide FromLittleEndian;
    EightSplits(s[1..9]);
    assert s[..9][1..] == s[1..9];
  }

  lemma FlagAccepted(w: seq<Byte>, b: bool, rest: seq<Byte>)
    requires IsFlag(w, b)
    ensures DecodeFlag(w + rest) == Ok(b, rest)
  {
    assert (w + rest)[1..] == rest;
  }

  lemma FlagRead(s: seq<Byte>)
    requires DecodeFlag(s).Ok?
    ensures IsPart(s, DecodeFlag(s).rest) && IsFlag(Taken(s, DecodeFlag(s).rest), DecodeFlag(s).value)
    ensures DecodeFlag(s).rest == s[1..]
  {
  }

  lemma TextAccepted(w: seq<Byte>, text: seq<Byte>, rest: seq<Byte>)
    requires IsText(w, text)
    ensures DecodeText(w + rest) == Ok(text, rest)
  {
    hide IsNumber;
    hide DecodeNumber;
    var n :| IsNumber(n, |text|) && w == [0x09] + (n + text);
    NumberAccepted(n, |text|, text + rest);
    assert (w + rest)[1..] == n + (text + rest);
    assert (text + rest)[..|text|] == text && (text + rest)[|text|..] == rest;
  }

  lemma TextRead(s: seq<Byte>)
    requires DecodeText(s).Ok?
    ensures IsPart(s, DecodeText(s).rest) && IsText(Taken(s, DecodeText(s).rest), DecodeText(s).value)
  {
    hide IsNumber;
    hide DecodeNumber;
    var t := s[1..];
    NumberRead(t);
    var r, text, rest := DecodeNumber(t).rest, DecodeText(s).value, DecodeText(s).rest;
    assert IsPart(r, rest) && Taken(r, rest) == text;
    TakenTwice(t, r, rest);
    TakenFirst(s, rest);
    assert Taken(s, rest) == [0x09] + (Taken(t, r) + text);
  }

  lemma OpAccepted(w: seq<Byte>, o: Op, rest: seq<Byte>)
    requires IsOp(w, o)
    ensures DecodeOp(w + rest) == Ok(o, rest)
  {
    hide IsNumber;
    hide IsText;
    hide DecodeNumber;
    hide DecodeText;
    var n: seq<Byte>, t: seq<Byte> :| IsNumber(n, o.op) && IsText(t, o.str) && w == [0x13] + (n + t);
    NumberAccepted(n, o.op, t + rest);
    TextAccepted(t, o.str, rest);
    assert (w + rest)[1..] == n + (t + rest);
  }

  lemma OpRead(s: seq<Byte>)
    requires DecodeOp(s).Ok?
    ensures IsPart(s, DecodeOp(s).rest) && IsOp(Taken(s, DecodeOp(s).rest), DecodeOp(s).value)
  {
    hide IsNumber;
    hide IsText;
    hide DecodeNumber;
    hide DecodeText;
    var t := s[1..];
    NumberRead(t);
    var r, rest := DecodeNumber(t).rest, DecodeOp(s).rest;
    TextRead(r);
    TakenTwice(t, r, rest);
    TakenFirst(s, rest);
    hide Taken;
    hide IsPart;
    assert IsNumber(Taken(t, r), DecodeOp(s).value.op) && IsText(Taken(r, rest), DecodeOp(s).value.str);
  }

  lemma {:induction false} OpsAccepted(w: seq<Byte>, ops: seq<Op>, rest: seq<Byte>)
    requires AreOps(w, ops)
    ensures DecodeOps(|ops|, w + rest) == Ok(ops, rest)
    decreases |ops|
  {
    hide IsOp;
    hide DecodeOp;
    if ops == [] {
      assert w + rest == rest;
    } else {
      var a: seq<Byte>, b: seq<Byte> :| IsOp(a, ops[0]) && AreOps(b, ops[1..]) && w == a + b;
      OpAccepted(a, ops[0], b + rest);
      OpsAccepted(b, ops[1..], rest);
      assert ops == [ops[0]] + ops[1..];
      Assoc(a, b, rest);
    }
  }

  lemma NothingTaken(s: seq<Byte>)
    ensures IsPart(s, s) && Taken(s, s) == []
  {
  }

  lemma {:induction false} OpsRead(n: nat, s: seq<Byte>)
    requires DecodeOps(n, s).Ok?
    ensures var p := DecodeOps(n, s); |p.value| == n && IsPart(s, p.rest) && AreOps(Taken(s, p.rest), p.value)
  {
    hide IsOp;
    hide DecodeOp;
    hide Taken;
    hide IsPart;
    if n == 0 {
      NothingTaken(s);
    } else {
      OpRead(s);
      var r := DecodeOp(s).rest;
      OpsRead(n - 1, r);
      TakenTwice(s, r, DecodeOps(n, s).rest);
      var p := DecodeOps(n, s);
      assert p.value[1..] == DecodeOps(n - 1, r).value;
    }
  }

  // ---------------------------------------------------------------- trees: all of the grammar is accepted

  /** Bytes of the grammar are read as the tree they stand for, whatever follows. */
  lemma {:induction false} NodeAccepted(role: Role, n: Node, w: seq<Byte>, rest: seq<Byte>)
    requires IsNode(w, role, n)
    ensures Decode(role, w + rest) == Ok(n, rest)
    decreases n, 1
  {
    hide Schema;
    hide KindOf;
    hide IsTag;
    hide AreFields;
    hide DecodeFields;
    TagRead(w[0], role, n.kind);
    FieldsAccepted(Schema(n.kind), n.fields, w[1..], rest);
    assert (w + rest)[1..] == w[1..] + rest && (w + rest)[0] == w[0];
  }

  lemma {:induction false} FieldsAccepted(shapes: seq<Shape>, fs: seq<Field>, w: seq<Byte>, rest: seq<Byte>)
    requires AreFields(w, shapes, fs)
    ensures DecodeFields(shapes, w + rest) == Ok(fs, rest)
    decreases fs, 0
  {
    hide IsField;
    hide DecodeField;
    if fs == [] {
      assert w + rest == rest;
    } else {
      var a: seq<Byte>, b: seq<Byte> :|
        IsField(a, shapes[0], fs[0]) && AreFields(b, shapes[1..], fs[1..]) && w == a + b;
      FieldAccepted(shapes[0], fs[0], a, b + rest);
      FieldsAccepted(shapes[1..], fs[1..], b, rest);
      assert fs == [fs[0]] + fs[1..];
      Assoc(a, b, rest);
    }
  }

  lemma {:induction false} FieldAccepted(shape: Shape, f: Field, w: seq<Byte>, rest: seq<Byte>)
    requires IsField(w, shape, f)
    ensures DecodeField(shape, w + rest) == Ok(f, rest)
    decreases f, 1
  {
    hide IsNumber;
    hide IsReal;
    hide IsText;
    hide IsNode;
    hide AreChildren;
    hide AreCountedOps;
    hide DecodeNumber;
    hide DecodeReal;
    hide DecodeText;
    hide DecodeFlag;
    hide Decode;
    hide DecodeChildren;
    hide DecodeOps;
    match f
    case Number(n) => NumberAccepted(w, n, rest);
    case Real(bits) => RealAccepted(w, bits, rest);
    case Flag(b) => FlagAccepted(w, b, rest);
    case Text(s) => TextAccepted(w, s, rest);
    case Child(e) => NodeAccepted(AsExpr, e, w, rest);
    case Maybe(None) => FlagAccepted(w, false, rest);
    case Maybe(Some(e)) =>
      FlagAccepted(w[..1], true, w[1..] + rest);
      NodeAccepted(AsExpr, e, w[1..], rest);
      assert w + rest == w[..1] + (w[1..] + rest);
    case Children(es) => ChildrenAccepted(if shape == Exprs then AsExpr else AsStmt, es, w, rest);
    case Ops(ops) => CountedOpsAccepted(ops, w, rest);
  }

  lemma CountedOpsAccepted(ops: seq<Op>, w: seq<Byte>, rest: seq<Byte>)
    requires AreCountedOps(w, ops)
    ensures DecodeField(OpList, w + rest) == Ok(Ops(ops), rest)
  {
    hide IsNumber;
    hide AreOps;
    hide DecodeNumber;
    hide DecodeOps;
    var n: seq<Byte>, b: seq<Byte> :| IsNumber(n, |ops|) && AreOps(b, ops) && w == [0x10] + (n + b);
    NumberAccepted(n, |ops|, b + rest);
    OpsAccepted(b, ops, rest);
    assert (w + rest)[1..] == n + (b + rest) && (w + rest)[0] == 0x10;
  }

  lemma {:induction false} ChildrenAccepted(role: Role, es: seq<Node>, w: seq<Byte>, rest: seq<Byte>)
    requires AreChildren(w, role, es)
    ensures DecodeChildren(role, w + rest) == Ok(Children(es), rest)
    decreases es, 1
  {
    hide IsNumber;
    hide AreNodes;
    hide DecodeNumber;
    hide DecodeAll;
    var n: seq<Byte>, b: seq<Byte> :| IsNumber(n, |es|) && AreNodes(b, role, es) && w == [0x10] + (n + b);
    NumberAccepted(n, |es|, b + rest);
    NodesAccepted(role, es, b, rest);
    assert (w + rest)[1..] == n + (b + rest) && (w + rest)[0] == 0x10;
  }

  lemma {:induction false} NodesAccepted(role: Role, es: seq<Node>, w: seq<Byte>, rest: seq<Byte>)
    requires AreNodes(w, role, es)
    ensures DecodeAll(role, |es|, w + rest) == Ok(es, rest)
    decreases es, 0
  {
    hide IsNode;
    hide Decode;
    if es == [] {
      assert w + rest == rest;
    } else {
      var a: seq<Byte>, b: seq<Byte> :| IsNode(a, role, es[0]) && AreNodes(b, role, es[1..]) && w == a + b;
      NodeAccepted(role, es[0], a, b + rest);
      NodesAccepted(role, es[1..], b, rest);
      assert es == [es[0]] + es[1..];
      Assoc(a, b, rest);
    }
  }

  // ---------------------------------------------------------------- and nothing else is

  /** What is read as a tree is bytes of the grammar for it. */
  lemma {:induction false} NodeRead(role: Role, s: seq<Byte>)
    requires Decode(role, s).Ok?
    ensures var p := Decode(role, s); IsPart(s, p.rest) && IsNode(Taken(s, p.rest), role, p.value)
    decreases |s|, 0
  {
    hide Schema;
    hide KindOf;
    hide IsTag;
    hide AreFields;
    hide DecodeFields;
    var k := KindOf(s[0]).value;
    TagRead(s[0], role, k);
    FieldsRead(Schema(k), s[1..]);
    TakenFirst(s, Decode(role, s).rest);
    assert Taken(s, Decode(role, s).rest)[1..] == Taken(s[1..], Decode(role, s).rest);
  }

  lemma {:induction false} FieldsRead(shapes: seq<Shape>, s: seq<Byte>)
    requires DecodeFields(shapes, s).Ok?
    ensures var p := DecodeFields(shapes, s); IsPart(s, p.rest) && AreFields(Taken(s, p.rest), shapes, p.value)
    decreases |s|, 2 + |shapes|
  {
    hide IsField;
    hide DecodeField;
    hide Taken;
    hide IsPart;
    if shapes == [] {
      NothingTaken(s);
    } else {
      FieldRead(shapes[0], s);
      var r := DecodeField(shapes[0], s).rest;
      FieldsRead(shapes[1..], r);
      var p := DecodeFields(shapes, s);
      TakenTwice(s, r, p.rest);
      assert p.value[1..] == DecodeFields(shapes[1..], r).value;
    }
  }

  lemma {:induction false} FieldRead(shape: Shape, s: seq<Byte>)
    requires DecodeField(shape, s).Ok?
    ensures var p := DecodeField(shape, s); IsPart(s, p.rest) && IsField(Taken(s, p.rest), shape, p.value)
    decreases |s|, 1
  {
    hide IsNumber;
    hide IsReal;
    hide IsText;
    hide IsFlag;
    hide IsNode;
    hide AreChildren;
    hide AreCountedOps;
    hide DecodeNumber;
    hide DecodeReal;
    hide DecodeText;
    hide DecodeFlag;
    hide Decode;
    hide DecodeChildren;
    hide DecodeMaybe;
    hide DecodeOps;
    hide Taken;
    hide IsPart;
    match shape
    case ANumber => NumberRead(s);
    case AReal => RealRead(s);
    case AFlag => FlagRead(s);
    case AText => TextRead(s);
    case AnExpr => NodeRead(AsExpr, s);
    case MaybeExpr => MaybeRead(s);
    case Exprs => ChildrenRead(AsExpr, s);
    case Stmts => ChildrenRead(AsStmt, s);
    case OpList => CountedOpsRead(s);
  }

  lemma {:induction false} MaybeRead(s: seq<Byte>)
    requires DecodeMaybe(s).Ok?
    ensures var p := DecodeMaybe(s); IsPart(s, p.rest) && p.value.Maybe? && IsField(Taken(s, p.rest), MaybeExpr, p.value)
    decreases |s|, 0
  {
    hide IsNode;
    hide Decode;
    hide DecodeFlag;
    FlagRead(s);
    if DecodeFlag(s).value {
      NodeRead(AsExpr, s[1..]);
      var rest := DecodeMaybe(s).rest;
      TakenFirst(s, rest);
      assert Taken(s, rest)[1..] == Taken(s[1..], rest) && Taken(s, rest)[..1] == Taken(s, s[1..]);
    }
  }

  lemma CountedOpsRead(s: seq<Byte>)
    requires DecodeField(OpList, s).Ok?
    ensures var p := DecodeField(OpList, s);
      IsPart(s, p.rest) && p.value.Ops? && AreCountedOps(Taken(s, p.rest), p.value.ops)
  {
    hide IsNumber;
    hide AreOps;
    hide DecodeNumber;
    hide DecodeOps;
    var t := s[1..];
    NumberRead(t);
    var n, r := DecodeNumber(t).value, DecodeNumber(t).rest;
    OpsRead(n, r);
    var p := DecodeField(OpList, s);
    TakenTwice(t, r, p.rest);
    TakenFirst(s, p.rest);
    hide Taken;
    hide IsPart;
    assert IsNumber(Taken(t, r), |p.value.ops|) && AreOps(Taken(r, p.rest), p.value.ops);
  }

  lemma {:induction false} ChildrenRead(role: Role, s: seq<Byte>)
    requires DecodeChildren(role, s).Ok?
    ensures var p := DecodeChildren(role, s);
      IsPart(s, p.rest) && p.value.Children? && AreChildren(Taken(s, p.rest), role, p.value.es)
    decreases |s|, 0
  {
    hide IsNumber;
    hide AreNodes;
    hide DecodeNumber;
    hide DecodeAll;
    var t := s[1..];
    NumberRead(t);
    var n, r := DecodeNumber(t).value, DecodeNumber(t).rest;
    NodesRead(role, n, r);
    var p := DecodeChildren(role, s);
    TakenTwice(t, r, p.rest);
    TakenFirst(s, p.rest);
    hide Taken;
    hide IsPart;
    assert IsNumber(Taken(t, r), |p.value.es|) && AreNodes(Taken(r, p.rest), role, p.value.es);
  }

  lemma {:induction false} NodesRead(role: Role, n: nat, s: seq<Byte>)
    requires DecodeAll(role, n, s).Ok?
    ensures var p := DecodeAll(role, n, s);
      |p.value| == n && IsPart(s, p.rest) && AreNodes(Taken(s, p.rest), role, p.value)
    decreases |s|, 1
  {
    hide IsNode;
    hide Decode;
    hide Taken;
    hide IsPart;
    if n == 0 {
      NothingTaken(s);
    } else {
      NodeRead(role, s);
      var r := Decode(role, s).rest;
      NodesRead(role, n - 1, r);
      var p := DecodeAll(role, n, s);
      TakenTwice(s, r, p.rest);
      assert p.value[1..] == DecodeAll(role, n - 1, r).value;
    }
  }

  /** Main result: a tree is read, and so much left, exactly if the bytes before that are of the grammar for this tree. */
  lemma DecodesExactlyTheGrammar(role: Role, s: seq<Byte>, n: Node, rest: seq<Byte>)
    ensures Decode(role, s) == Ok(n, rest) <==> exists w: seq<Byte> :: IsNode(w, role, n) && s == w + rest
  {
    hide Decode;
    hide IsNode;
    if Decode(role, s) == Ok(n, rest) {
      NodeRead(role, s);
      assert s == Taken(s, rest) + rest;
    }
    if w: seq<Byte> :| IsNode(w, role, n) && s == w + rest {
      NodeAccepted(role, n, w, rest);
    }
  }
}
