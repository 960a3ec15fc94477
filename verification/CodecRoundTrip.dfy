/** Reading what was written gives the tree back and leaves the bytes after it alone. */
module CodecRoundTrip {
  import opened Options
  import opened Bytes
  import opened Codec
  import opened Results
  import opened Sequences

  lemma {:induction false} LittleEndianReadsBack(v: nat, n: nat)
    requires v < Power256(n)
    ensures FromLittleEndian(LittleEndian(v, n)) == v
  {
    if n > 0 {
      LittleEndianReadsBack(v / 256, n - 1);
      assert LittleEndian(v, n)[1..] == LittleEndian(v / 256, n - 1);
    }
  }

  lemma NumberReadsBack(x: nat, rest: seq<Byte>)
    requires x < Power256(8)
    ensures DecodeNumber(EncodeNumber(x) + rest) == Ok(x, rest)
  {
    hide LittleEndian;
    hide FromLittleEndian;
    hide Power256;
    var s := EncodeNumber(x) + rest;
    if x < 0x80 {
      assert s[1..] == rest;
    } else if x < 0x10000 {
      assert Power256(2) == 0x10000 by { Powers(); }
      LittleEndianReadsBack(x, 2);
      assert s[1..3] == LittleEndian(x, 2) && s[3..] == rest;
    } else {
      LittleEndianReadsBack(x, 8);
      assert s[1..9] == LittleEndian(x, 8) && s[9..] == rest;
    }
  }

  lemma Powers()
    ensures Power256(2) == 0x10000 < Power256(8)
  {
    assert Power256(1) == 256 && Power256(2) == 256 * Power256(1);
    assert Power256(3) == 256 * Power256(2) && Power256(4) == 256 * Power256(3);
    assert Power256(5) == 256 * Power256(4) && Power256(6) == 256 * Power256(5);
    assert Power256(7) == 256 * Power256(6);
  }

  lemma FlagReadsBack(b: bool, rest: seq<Byte>)
    ensures DecodeFlag(EncodeFlag(b) + rest) == Ok(b, rest)
  {
    assert (EncodeFlag(b) + rest)[1..] == rest;
  }

  lemma RealReadsBack(bits: nat, rest: seq<Byte>)
    requires bits < Power256(8)
    ensures DecodeReal(EncodeField(Real(bits)) + rest) == Ok(bits, rest)
  {
    hide LittleEndian;
    hide FromLittleEndian;
    hide Power256;
    LittleEndianReadsBack(bits, 8);
    var s := EncodeField(Real(bits)) + rest;
    assert s[1..9] == LittleEndian(bits, 8) && s[9..] == rest;
  }

  lemma TextReadsBack(t: seq<Byte>, rest: seq<Byte>)
    requires |t| < Power256(8)
    ensures DecodeText(EncodeText(t) + rest) == Ok(t, rest)
  {
    hide EncodeNumber;
    hide DecodeNumber;
    hide Power256;
    Assoc([TAG_STRING], EncodeNumber(|t|) + t, rest);
    Assoc(EncodeNumber(|t|), t, rest);
    NumberReadsBack(|t|, t + rest);
    assert (t + rest)[..|t|] == t && (t + rest)[|t|..] == rest;
    assert (EncodeText(t) + rest)[1..] == EncodeNumber(|t|) + (t + rest);
  }

  lemma OpReadsBack(o: Op, rest: seq<Byte>)
    requires o.op < Power256(8) && |o.str| < Power256(8)
    ensures DecodeOp(EncodeOp(o) + rest) == Ok(o, rest)
  {
    hide EncodeNumber;
    hide DecodeNumber;
    hide EncodeText;
    hide DecodeText;
    hide Power256;
    var num, str := EncodeNumber(o.op), EncodeText(o.str);
    Assoc([TAG_STL_PAIR], num + str, rest);
    Assoc(num, str, rest);
    NumberReadsBack(o.op, str + rest);
    TextReadsBack(o.str, rest);
    assert (EncodeOp(o) + rest)[1..] == num + (str + rest);
  }

  lemma {:induction false} OpsReadBack(ops: seq<Op>, rest: seq<Byte>)
    requires forall o <- ops :: o.op < Power256(8) && |o.str| < Power256(8)
    ensures DecodeOps(|ops|, EncodeOps(ops) + rest) == Ok(ops, rest)
  {
    hide Power256;
    hide EncodeOp;
    hide DecodeOp;
    if ops == [] {
      assert EncodeOps(ops) + rest == rest;
    } else {
      Assoc(EncodeOp(ops[0]), EncodeOps(ops[1..]), rest);
      OpReadsBack(ops[0], EncodeOps(ops[1..]) + rest);
      OpsReadBack(ops[1..], rest);
      assert [ops[0]] + ops[1..] == ops;
    }
  }

  lemma TagReadsBack(k: Kind)
    ensures KindOf(Tag(k)) == Some(k)
  {
  }

  /** Main result: any tree, whatever follows it. */
  lemma {:induction false} ReadsBack(role: Role, n: Node, rest: seq<Byte>)
    requires WellFormed(role, n)
    ensures Decode(role, Encode(n) + rest) == Ok(n, rest)
    decreases n
  {
    hide EncodeFields;
    hide DecodeFields;
    hide KindOf;
    hide Tag;
    hide FieldFits;
    hide Schema;
    TagReadsBack(n.kind);
    Assoc([Tag(n.kind)], EncodeFields(n.fields), rest);
    assert (Encode(n) + rest)[1..] == EncodeFields(n.fields) + rest;
    FieldsReadBack(Schema(n.kind), n.fields, rest);
  }

  lemma {:induction false} FieldsReadBack(shapes: seq<Shape>, fs: seq<Field>, rest: seq<Byte>)
    requires |shapes| == |fs|
    requires forall i :: 0 <= i < |fs| ==> FieldFits(shapes[i], fs[i])
    ensures DecodeFields(shapes, EncodeFields(fs) + rest) == Ok(fs, rest)
    decreases fs
  {
    hide EncodeField;
    hide DecodeField;
    hide FieldFits;
    if fs == [] {
      assert EncodeFields(fs) + rest == rest;
    } else {
      Assoc(EncodeField(fs[0]), EncodeFields(fs[1..]), rest);
      FieldReadsBack(shapes[0], fs[0], EncodeFields(fs[1..]) + rest);
      FieldsReadBack(shapes[1..], fs[1..], rest);
      assert [fs[0]] + fs[1..] == fs;
    }
  }

  lemma {:induction false} FieldReadsBack(shape: Shape, f: Field, rest: seq<Byte>)
    requires FieldFits(shape, f)
    ensures DecodeField(shape, EncodeField(f) + rest) == Ok(f, rest)
    decreases f
  {
    hide EncodeNumber;
    hide DecodeNumber;
    hide EncodeText;
    hide DecodeText;
    hide LittleEndian;
    hide DecodeReal;
    hide Encode;
    hide Decode;
    hide Power256;
    match f
    case Number(n) => NumberReadsBack(n, rest);
    case Real(bits) => RealReadsBack(bits, rest);
    case Flag(b) => FlagReadsBack(b, rest);
    case Text(s) => TextReadsBack(s, rest);
    case Child(e) => ReadsBack(AsExpr, e, rest);
    case Maybe(None) => FlagReadsBack(false, rest);
    case Maybe(Some(e)) =>
      Assoc(EncodeFlag(true), Encode(e), rest);
      FlagReadsBack(true, Encode(e) + rest);
      ReadsBack(AsExpr, e, rest);
    case Children(es) => ChildrenReadBack(if shape == Exprs then AsExpr else AsStmt, es, rest);
    case Ops(ops) => OpListReadsBack(ops, rest);
  }

  lemma OpListReadsBack(ops: seq<Op>, rest: seq<Byte>)
    requires FieldFits(OpList, Ops(ops))
    ensures DecodeField(OpList, EncodeField(Ops(ops)) + rest) == Ok(Ops(ops), rest)
  {
    hide EncodeNumber;
    hide DecodeNumber;
    hide EncodeOps;
    hide DecodeOps;
    hide Power256;
    Vector(|ops|, EncodeOps(ops), rest);
    NumberReadsBack(|ops|, EncodeOps(ops) + rest);
    OpsReadBack(ops, rest);
  }

  lemma Vector(n: nat, items: seq<Byte>, rest: seq<Byte>)
    ensures var s := [TAG_STL_VECTOR] + (EncodeNumber(n) + items) + rest;
      s[0] == TAG_STL_VECTOR && s[1..] == EncodeNumber(n) + (items + rest)
  {
    hide EncodeNumber;
    Assoc(EncodeNumber(n), items, rest);
  }

  lemma {:induction false} ChildrenReadBack(role: Role, es: seq<Node>, rest: seq<Byte>)
    requires |es| < Power256(8) && forall e <- es :: WellFormed(role, e)
    ensures DecodeChildren(role, EncodeField(Children(es)) + rest) == Ok(Children(es), rest)
    decreases es, 1
  {
    hide EncodeNumber;
    hide DecodeNumber;
    hide EncodeAll;
    hide DecodeAll;
    hide Power256;
    hide WellFormed;
    Vector(|es|, EncodeAll(es), rest);
    NumberReadsBack(|es|, EncodeAll(es) + rest);
    AllReadBack(role, es, rest);
  }

  lemma {:induction false} AllReadBack(role: Role, es: seq<Node>, rest: seq<Byte>)
    requires forall e <- es :: WellFormed(role, e)
    ensures DecodeAll(role, |es|, EncodeAll(es) + rest) == Ok(es, rest)
    decreases es, 0
  {
    hide Encode;
    hide Decode;
    hide WellFormed;
    if es == [] {
      assert EncodeAll(es) + rest == rest;
    } else {
      Assoc(Encode(es[0]), EncodeAll(es[1..]), rest);
      ReadsBack(role, es[0], EncodeAll(es[1..]) + rest);
      AllReadBack(role, es[1..], rest);
      assert [es[0]] + es[1..] == es;
    }
  }

  /** Two different trees are never written alike, even as the start of something longer. */
  lemma WrittenApart(role: Role, a: Node, b: Node, restA: seq<Byte>, restB: seq<Byte>)
    requires WellFormed(role, a) && WellFormed(role, b)
    requires Encode(a) + restA == Encode(b) + restB
    ensures a == b && restA == restB
  {
    ReadsBack(role, a, restA);
    ReadsBack(role, b, restB);
  }
}
