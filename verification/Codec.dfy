/**
  The tagged binary format of syntax trees: what is written for each node, and what is read back.
 */
module Codec {
  import opened Options
  import opened Bytes
  import opened Results

  // ---------------------------------------------------------------- trees, as their serialisers see them

  /** The node classes that have a serialiser and can be met again by a deserialiser. */
  datatype Kind =
    | LitChar | LitString | LitList | LitInteger | LitDouble | LitBoolean | VarRef
    | SubscriptOp | SliceOp | SplatOp | UnaryOp | BinaryOp | TernaryOp | ComparisonOp | AssignOp | DotOp
    | FunctionCall | VarDefn | Block

  /** A node is its class and its members, in the order in which they are written. */
  datatype Node = Node(kind: Kind, fields: seq<Field>)

  datatype Field =
    | Number(n: nat)
    | Real(bits: nat)
    | Flag(b: bool)
    | Text(s: seq<Byte>)
    | Child(e: Node)
    | Maybe(m: Option<Node>)
    | Children(es: seq<Node>)
    | Ops(ops: seq<Op>)

  datatype Op = Op(op: nat, str: seq<Byte>)

  datatype Shape = ANumber | AReal | AFlag | AText | AnExpr | MaybeExpr | Exprs | Stmts | OpList

  /** The members of each class. */
  function Schema(k: Kind): seq<Shape> {
    match k
    case LitChar => [ANumber]
    case LitString => [AText]
    case LitList => [Exprs]
    case LitInteger => [ANumber, AFlag]
    case LitDouble => [AReal, AFlag]
    case LitBoolean => [AFlag]
    case VarRef => [AText]
    case SubscriptOp => [AnExpr, AnExpr]
    case SliceOp => [AnExpr, MaybeExpr, MaybeExpr]
    case SplatOp => [AnExpr]
    case UnaryOp => [ANumber, AText, AnExpr]
    case BinaryOp => [ANumber, AText, AnExpr, AnExpr]
    case TernaryOp => [ANumber, AText, AnExpr, AnExpr, AnExpr]
    case ComparisonOp => [Exprs, OpList]
    case AssignOp => [ANumber, AText, AnExpr, AnExpr]
    case DotOp => [AnExpr, AnExpr]
    case FunctionCall => [AnExpr, Exprs]
    case VarDefn => [AText, AnExpr]
    case Block => [Stmts]
  }

  function Tag(k: Kind): Byte {
    match k
    case LitChar => 0x30
    case LitString => 0x31
    case LitList => 0x32
    case LitInteger => 0x33
    case LitDouble => 0x34
    case LitBoolean => 0x35
    case VarRef => 0x36
    case SubscriptOp => 0x37
    case SliceOp => 0x38
    case SplatOp => 0x39
    case UnaryOp => 0x3A
    case BinaryOp => 0x3B
    case TernaryOp => 0x3C
    case ComparisonOp => 0x3D
    case AssignOp => 0x3E
    case DotOp => 0x69
    case FunctionCall => 0x3F
    case VarDefn => 0x71
    case Block => 0x40
  }

  function KindOf(tag: Byte): Option<Kind> {
    if tag == 0x30 then Some(LitChar)
    else if tag == 0x31 then Some(LitString)
    else if tag == 0x32 then Some(LitList)
    else if tag == 0x33 then Some(LitInteger)
    else if tag == 0x34 then Some(LitDouble)
    else if tag == 0x35 then Some(LitBoolean)
    else if tag == 0x36 then Some(VarRef)
    else if tag == 0x37 then Some(SubscriptOp)
    else if tag == 0x38 then Some(SliceOp)
    else if tag == 0x39 then Some(SplatOp)
    else if tag == 0x3A then Some(UnaryOp)
    else if tag == 0x3B then Some(BinaryOp)
    else if tag == 0x3C then Some(TernaryOp)
    else if tag == 0x3D then Some(ComparisonOp)
    else if tag == 0x3E then Some(AssignOp)
    else if tag == 0x69 then Some(DotOp)
    else if tag == 0x3F then Some(FunctionCall)
    else if tag == 0x71 then Some(VarDefn)
    else if tag == 0x40 then Some(Block)
    else None
  }

  /** Which deserialiser is called: Expr::deserialise, Stmt::deserialise or Block::deserialise. */
  datatype Role = AsExpr | AsStmt | AsBlock

  predicate Allows(role: Role, k: Kind) {
    match role
    case AsExpr => k != VarDefn && k != Block
    case AsStmt => k != Block
    case AsBlock => k == Block
  }

  /** A tree of the right shape, with numbers and lengths of 64 bits. */
  predicate WellFormed(role: Role, n: Node)
    decreases n
  {
    && Allows(role, n.kind)
    && |n.fields| == |Schema(n.kind)|
    && forall i :: 0 <= i < |n.fields| ==> FieldFits(Schema(n.kind)[i], n.fields[i])
  }

  predicate FieldFits(shape: Shape, f: Field)
    decreases f
  {
    match f
    case Number(n) => shape == ANumber && n < Power256(8)
    case Real(bits) => shape == AReal && bits < Power256(8)
    case Flag(_) => shape == AFlag
    case Text(s) => shape == AText && |s| < Power256(8)
    case Child(e) => shape == AnExpr && WellFormed(AsExpr, e)
    case Maybe(m) => shape == MaybeExpr && (m.Some? ==> WellFormed(AsExpr, m.value))
    case Children(es) =>
      (shape == Exprs || shape == Stmts) && |es| < Power256(8) &&
      forall e <- es :: WellFormed(if shape == Exprs then AsExpr else AsStmt, e)
    case Ops(ops) =>
      shape == OpList && |ops| < Power256(8) && forall o <- ops :: o.op < Power256(8) && |o.str| < Power256(8)
  }

  // ---------------------------------------------------------------- writing

  const TAG_U64: Byte := 0x04
  const TAG_STRING: Byte := 0x09
  const TAG_F64: Byte := 0x0D
  const TAG_BOOL_TRUE: Byte := 0x0E
  const TAG_BOOL_FALSE: Byte := 0x0F
  const TAG_STL_VECTOR: Byte := 0x10
  const TAG_SMALL_U64: Byte := 0x12
  const TAG_STL_PAIR: Byte := 0x13
  const TAG_TINY_U64: Byte := 0x80

  /** The n bytes of a number as they lie in memory, least significant first. */
  function LittleEndian(v: nat, n: nat): (s: seq<Byte>)
    ensures |s| == n
  {
    if n == 0 then [] else [v % 256] + LittleEndian(v / 256, n - 1)
  }

  function FromLittleEndian(s: seq<Byte>): nat {
    if s == [] then 0 else s[0] + 256 * FromLittleEndian(s[1..])
  }

  /** A 64-bit number: one byte, three or nine. */
  function EncodeNumber(x: nat): (s: seq<Byte>)
    ensures |s| == if x < 0x80 then 1 else if x < 0x10000 then 3 else 9
  {
    if x < 0x80 then [TAG_TINY_U64 + x]
    else if x < 0x10000 then [TAG_SMALL_U64] + LittleEndian(x, 2)
    else [TAG_U64] + LittleEndian(x, 8)
  }

  function EncodeFlag(b: bool): seq<Byte> {
    if b then [TAG_BOOL_TRUE] else [TAG_BOOL_FALSE]
  }

  function EncodeText(s: seq<Byte>): seq<Byte> {
    [TAG_STRING] + (EncodeNumber(|s|) + s)
  }

  function EncodeOp(o: Op): seq<Byte> {
    [TAG_STL_PAIR] + (EncodeNumber(o.op) + EncodeText(o.str))
  }

  function EncodeOps(ops: seq<Op>): seq<Byte> {
    if ops == [] then [] else EncodeOp(ops[0]) + EncodeOps(ops[1..])
  }

  function Encode(n: Node): seq<Byte>
    decreases n
  {
    [Tag(n.kind)] + EncodeFields(n.fields)
  }

  function EncodeFields(fs: seq<Field>): seq<Byte>
    decreases fs
  {
    if fs == [] then [] else EncodeField(fs[0]) + EncodeFields(fs[1..])
  }

  function EncodeField(f: Field): seq<Byte>
    decreases f
  {
    match f
    case Number(n) => EncodeNumber(n)
    case Real(bits) => [TAG_F64] + LittleEndian(bits, 8)
    case Flag(b) => EncodeFlag(b)
    case Text(s) => EncodeText(s)
    case Child(e) => Encode(e)
    case Maybe(None) => EncodeFlag(false)
    case Maybe(Some(e)) => EncodeFlag(true) + Encode(e)
    case Children(es) => [TAG_STL_VECTOR] + (EncodeNumber(|es|) + EncodeAll(es))
    case Ops(ops) => [TAG_STL_VECTOR] + (EncodeNumber(|ops|) + EncodeOps(ops))
  }

  function EncodeAll(es: seq<Node>): seq<Byte>
    decreases es
  {
    if es == [] then [] else Encode(es[0]) + EncodeAll(es[1..])
  }

  // ---------------------------------------------------------------- reading

  function DecodeNumber(s: seq<Byte>): (p: Parsed<nat>)
    ensures p.Ok? ==> |p.rest| < |s|
  {
    if s == [] then Fail
    else if s[0] >= TAG_TINY_U64 then Ok(s[0] - TAG_TINY_U64, s[1..])
    else if s[0] == TAG_SMALL_U64 then
      if |s| < 3 then Fail else Ok(FromLittleEndian(s[1..3]), s[3..])
    else if s[0] == TAG_U64 then
      if |s| < 9 then Fail else Ok(FromLittleEndian(s[1..9]), s[9..])
    else Fail
  }

  function DecodeReal(s: seq<Byte>): (p: Parsed<nat>)
    ensures p.Ok? ==> |p.rest| < |s|
  {
    if |s| < 9 || s[0] != TAG_F64 then Fail else Ok(FromLittleEndian(s[1..9]), s[9..])
  }

  function DecodeFlag(s: seq<Byte>): (p: Parsed<bool>)
    ensures p.Ok? ==> |p.rest| < |s|
  {
    if s == [] || (s[0] != TAG_BOOL_TRUE && s[0] != TAG_BOOL_FALSE) then Fail
    else Ok(s[0] == TAG_BOOL_TRUE, s[1..])
  }

  function DecodeText(s: seq<Byte>): (p: Parsed<seq<Byte>>)
    ensures p.Ok? ==> |p.rest| < |s|
  {
    if s == [] || s[0] != TAG_STRING then Fail
    else match DecodeNumber(s[1..])
      case Fail => Fail
      case Ok(n, r) => if |r| < n then Fail else Ok(r[..n], r[n..])
  }

  function DecodeOp(s: seq<Byte>): (p: Parsed<Op>)
    ensures p.Ok? ==> |p.rest| < |s|
  {
    if s == [] || s[0] != TAG_STL_PAIR then Fail
    else match DecodeNumber(s[1..])
      case Fail => Fail
      case Ok(op, r) => match DecodeText(r)
        case Fail => Fail
        case Ok(str, r') => Ok(Op(op, str), r')
  }

  function DecodeOps(n: nat, s: seq<Byte>): (p: Parsed<seq<Op>>)
    ensures p.Ok? ==> |p.rest| <= |s|
  {
    if n == 0 then Ok([], s)
    else match DecodeOp(s)
      case Fail => Fail
      case Ok(o, r) => match DecodeOps(n - 1, r)
        case Fail => Fail
        case Ok(os, r') => Ok([o] + os, r')
  }

  function Decode(role: Role, s: seq<Byte>): (p: Parsed<Node>)
    ensures p.Ok? ==> |p.rest| < |s|
    decreases |s|, 0
  {
    if s == [] || KindOf(s[0]).None? || !Allows(role, KindOf(s[0]).value) then Fail
    else
      var k := KindOf(s[0]).value;
      match DecodeFields(Schema(k), s[1..])
      case Fail => Fail
      case Ok(fs, r) => Ok(Node(k, fs), r)
  }

  function DecodeFields(shapes: seq<Shape>, s: seq<Byte>): (p: Parsed<seq<Field>>)
    ensures p.Ok? ==> |p.rest| <= |s|
    decreases |s|, 2 + |shapes|
  {
    if shapes == [] then Ok([], s)
    else match DecodeField(shapes[0], s)
      case Fail => Fail
      case Ok(f, r) => match DecodeFields(shapes[1..], r)
        case Fail => Fail
        case Ok(fs, r') => Ok([f] + fs, r')
  }

  function DecodeField(shape: Shape, s: seq<Byte>): (p: Parsed<Field>)
    ensures p.Ok? ==> |p.rest| < |s|
    decreases |s|, 1
  {
    match shape
    case ANumber => (match DecodeNumber(s) case Fail => Fail case Ok(n, r) => Ok(Number(n), r))
    case AReal => (match DecodeReal(s) case Fail => Fail case Ok(n, r) => Ok(Real(n), r))
    case AFlag => (match DecodeFlag(s) case Fail => Fail case Ok(b, r) => Ok(Flag(b), r))
    case AText => (match DecodeText(s) case Fail => Fail case Ok(t, r) => Ok(Text(t), r))
    case AnExpr => (match Decode(AsExpr, s) case Fail => Fail case Ok(e, r) => Ok(Child(e), r))
    case MaybeExpr => DecodeMaybe(s)
    case Exprs => DecodeChildren(AsExpr, s)
    case Stmts => DecodeChildren(AsStmt, s)
    case OpList =>
      if s == [] || s[0] != TAG_STL_VECTOR then Fail
      else match DecodeNumber(s[1..])
        case Fail => Fail
        case Ok(n, r) => match DecodeOps(n, r)
          case Fail => Fail
          case Ok(os, r') => Ok(Ops(os), r')
  }

  function DecodeMaybe(s: seq<Byte>): (p: Parsed<Field>)
    ensures p.Ok? ==> |p.rest| < |s|
    decreases |s|, 0
  {
    match DecodeFlag(s)
    case Fail => Fail
    case Ok(present, r) =>
      if !present then Ok(Maybe(None), r)
      else match Decode(AsExpr, r)
        case Fail => Fail
        case Ok(e, r') => Ok(Maybe(Some(e)), r')
  }

  function DecodeChildren(role: Role, s: seq<Byte>): (p: Parsed<Field>)
    ensures p.Ok? ==> |p.rest| < |s|
    decreases |s|, 0
  {
    if s == [] || s[0] != TAG_STL_VECTOR then Fail
    else match DecodeNumber(s[1..])
      case Fail => Fail
      case Ok(n, r) => match DecodeAll(role, n, r)
        case Fail => Fail
        case Ok(es, r') => Ok(Children(es), r')
  }

  function DecodeAll(role: Role, n: nat, s: seq<Byte>): (p: Parsed<seq<Node>>)
    ensures p.Ok? ==> |p.rest| <= |s|
    decreases |s|, 1
  {
    if n == 0 then Ok([], s)
    else match Decode(role, s)
      case Fail => Fail
      case Ok(e, r) => match DecodeAll(role, n - 1, r)
        case Fail => Fail
        case Ok(es, r') => Ok([e] + es, r')
  }
}
