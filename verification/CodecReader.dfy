/** The reader of the tagged format: it consumes a span from the front. */
module CodecReader {
  import opened Options
  import opened Bytes
  import opened Codec
  import opened Results

  /** A view of bytes that shrinks from the front as it is read. */
  class Span {
    var bytes: seq<Byte>

    constructor (bytes: seq<Byte>)
      ensures this.bytes == bytes
    {
      this.bytes := bytes;
    }

    /** Never removes more than there is. */
    method RemovePrefix(n: nat)
      modifies this
      ensures bytes == old(bytes)[if n <= |old(bytes)| then n else |old(bytes)|..]
    {
      bytes := bytes[if n <= |bytes| then n else |bytes|..];
    }

    method ReadNumber() returns (x: Option<nat>)
      modifies this
      ensures x.None? <==> DecodeNumber(old(bytes)).Fail?
      ensures x.Some? ==> DecodeNumber(old(bytes)) == Ok(x.value, bytes)
    {
      if |bytes| < 1 {
        return None;
      }
      var tag := bytes[0];
      RemovePrefix(1);
      if tag != TAG_U64 && tag != TAG_SMALL_U64 && tag < TAG_TINY_U64 {
        return None;
      }
      if tag >= TAG_TINY_U64 {
        return Some(tag - TAG_TINY_U64);
      }
      var width := if tag == TAG_SMALL_U64 then 2 else 8;
      if |bytes| < width {
        return None;
      }
      x := Some(FromLittleEndian(bytes[..width]));
      assert bytes[..width] == old(bytes)[1..width + 1];
      RemovePrefix(width);
    }

    method ReadReal() returns (x: Option<nat>)
      modifies this
      ensures x.None? <==> DecodeReal(old(bytes)).Fail?
      ensures x.Some? ==> DecodeReal(old(bytes)) == Ok(x.value, bytes)
    {
      if |bytes| < 9 || bytes[0] != TAG_F64 {
        return None;
      }
      x := Some(FromLittleEndian(bytes[1..9]));
      RemovePrefix(9);
    }

    method ReadFlag() returns (x: Option<bool>)
      modifies this
      ensures x.None? <==> DecodeFlag(old(bytes)).Fail?
      ensures x.Some? ==> DecodeFlag(old(bytes)) == Ok(x.value, bytes)
    {
      if |bytes| < 1 || (bytes[0] != TAG_BOOL_TRUE && bytes[0] != TAG_BOOL_FALSE) {
        return None;
      }
      x := Some(bytes[0] == TAG_BOOL_TRUE);
      RemovePrefix(1);
    }

    method ReadText() returns (x: Option<seq<Byte>>)
      modifies this
      ensures x.None? <==> DecodeText(old(bytes)).Fail?
      ensures x.Some? ==> DecodeText(old(bytes)) == Ok(x.value, bytes)
    {
      if |bytes| < 1 || bytes[0] != TAG_STRING {
        return None;
      }
      RemovePrefix(1);
      var n := ReadNumber();
      if n.None? || |bytes| < n.value {
        return None;
      }
      x := Some(bytes[..n.value]);
      RemovePrefix(n.value);
    }

    method ReadOp() returns (x: Option<Op>)
      modifies this
      ensures x.None? <==> DecodeOp(old(bytes)).Fail?
      ensures x.Some? ==> DecodeOp(old(bytes)) == Ok(x.value, bytes)
    {
      if |bytes| < 1 || bytes[0] != TAG_STL_PAIR {
        return None;
      }
      RemovePrefix(1);
      var op := ReadNumber();
      if op.None? {
        return None;
      }
      var str := ReadText();
      if str.None? {
        return None;
      }
      x := Some(Op(op.value, str.value));
    }

    /** Expr::deserialise, Stmt::deserialise or Block::deserialise. */
    method ReadNode(role: Role) returns (x: Option<Node>)
      modifies this
      ensures x.None? <==> Decode(role, old(bytes)).Fail?
      ensures x.Some? ==> Decode(role, old(bytes)) == Ok(x.value, bytes)
      decreases |bytes|, 0
    {
      hide KindOf;
      hide Schema;
      hide DecodeField;
      if |bytes| < 1 {
        return None;
      }
      var kind := KindOf(bytes[0]);
      if kind.None? || !Allows(role, kind.value) {
        return None;
      }
      RemovePrefix(1);
      ghost var s := bytes;
      var shapes := Schema(kind.value);
      var fs: seq<Field> := [];
      PrefixNothing(DecodeFields(shapes, s));
      for i := 0 to |shapes|
        invariant |bytes| <= |s|
        invariant DecodeFields(shapes, s) == Prefixed(fs, DecodeFields(shapes[i..], bytes))
      {
        ghost var before := bytes;
        var f := ReadField(shapes[i]);
        if f.None? {
          return None;
        }
        PrefixOne(fs, f.value, DecodeFields(shapes[i..][1..], bytes));
        assert shapes[i..][1..] == shapes[i + 1..];
        fs := fs + [f.value];
      }
      assert fs + [] == fs;
      x := Some(Node(kind.value, fs));
    }

    method ReadField(shape: Shape) returns (x: Option<Field>)
      modifies this
      ensures x.None? <==> DecodeField(shape, old(bytes)).Fail?
      ensures x.Some? ==> DecodeField(shape, old(bytes)) == Ok(x.value, bytes)
      decreases |bytes|, 1
    {
      hide DecodeNumber;
      hide DecodeReal;
      hide DecodeFlag;
      hide DecodeText;
      hide Decode;
      hide DecodeChildren;
      hide DecodeOps;
      if shape == ANumber {
        var n := ReadNumber();
        x := if n.None? then None else Some(Number(n.value));
      } else if shape == AReal {
        var n := ReadReal();
        x := if n.None? then None else Some(Real(n.value));
      } else if shape == AFlag {
        var b := ReadFlag();
        x := if b.None? then None else Some(Flag(b.value));
      } else if shape == AText {
        var t := ReadText();
        x := if t.None? then None else Some(Text(t.value));
      } else if shape == AnExpr {
        var e := ReadNode(AsExpr);
        x := if e.None? then None else Some(Child(e.value));
      } else if shape == MaybeExpr {
        var present := ReadFlag();
        if present.None? {
          return None;
        }
        if !present.value {
          return Some(Maybe(None));
        }
        var e := ReadNode(AsExpr);
        x := if e.None? then None else Some(Maybe(e));
      } else if shape == OpList {
        x := ReadOps();
      } else {
        x := ReadChildren(if shape == Exprs then AsExpr else AsStmt);
      }
    }

    method ReadChildren(role: Role) returns (x: Option<Field>)
      modifies this
      ensures x.None? <==> DecodeChildren(role, old(bytes)).Fail?
      ensures x.Some? ==> DecodeChildren(role, old(bytes)) == Ok(x.value, bytes)
      decreases |bytes|, 0
    {
      hide Decode;
      if |bytes| < 1 || bytes[0] != TAG_STL_VECTOR {
        return None;
      }
      RemovePrefix(1);
      var sz := ReadNumber();
      if sz.None? {
        return None;
      }
      ghost var s := bytes;
      var es: seq<Node> := [];
      PrefixNothing(DecodeAll(role, sz.value, s));
      for i := 0 to sz.value
        invariant |bytes| <= |s| < |old(bytes)|
        invariant DecodeAll(role, sz.value, s) == Prefixed(es, DecodeAll(role, sz.value - i, bytes))
      {
        var e := ReadNode(role);
        if e.None? {
          return None;
        }
        PrefixOne(es, e.value, DecodeAll(role, sz.value - i - 1, bytes));
        es := es + [e.value];
      }
      assert es + [] == es;
      x := Some(Children(es));
    }

    method ReadOps() returns (x: Option<Field>)
      modifies this
      ensures x.None? <==> DecodeField(OpList, old(bytes)).Fail?
      ensures x.Some? ==> DecodeField(OpList, old(bytes)) == Ok(x.value, bytes)
    {
      hide DecodeOp;
      if |bytes| < 1 || bytes[0] != TAG_STL_VECTOR {
        return None;
      }
      RemovePrefix(1);
      var sz := ReadNumber();
      if sz.None? {
        return None;
      }
      ghost var s := bytes;
      var ops: seq<Op> := [];
      PrefixNothing(DecodeOps(sz.value, s));
      for i := 0 to sz.value
        invariant DecodeOps(sz.value, s) == Prefixed(ops, DecodeOps(sz.value - i, bytes))
      {
        var o := ReadOp();
        if o.None? {
          return None;
        }
        PrefixOne(ops, o.value, DecodeOps(sz.value - i - 1, bytes));
        ops := ops + [o.value];
      }
      assert ops + [] == ops;
      x := Some(Ops(ops));
    }
  }
}
