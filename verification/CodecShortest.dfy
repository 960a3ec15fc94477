/**
  What can be read can be written again, in no more bytes: the writer picks the shortest form, and
  reading yields only trees that it can write.
 */
module CodecShortest {
  import opened Bytes
  import opened Codec
  import opened Results
  import CodecRoundTrip

  lemma {:induction false} FromLittleEndianBounded(s: seq<Byte>)
    ensures FromLittleEndian(s) < Power256(|s|)
  {
    if s != [] {
      FromLittleEndianBounded(s[1..]);
    }
  }

  lemma NumberFits(s: seq<Byte>)
    requires DecodeNumber(s).Ok?
    ensures var p := DecodeNumber(s);
      p.value < Power256(8) && |EncodeNumber(p.value)| + |p.rest| <= |s|
  {
    hide FromLittleEndian;
    hide Power256;
    CodecRoundTrip.Powers();
    if s[0] == TAG_SMALL_U64 {
      FromLittleEndianBounded(s[1..3]);
    } else if s[0] == TAG_U64 {
      FromLittleEndianBounded(s[1..9]);
    }
  }

  lemma TextFits(s: seq<Byte>)
    requires DecodeText(s).Ok?
    ensures var p := DecodeText(s);
      |p.value| < Power256(8) && |EncodeText(p.value)| + |p.rest| <= |s|
  {
    hide DecodeNumber;
    hide EncodeNumber;
    hide Power256;
    NumberFits(s[1..]);
  }

  lemma OpFits(s: seq<Byte>)
    requires DecodeOp(s).Ok?
    ensures var p := DecodeOp(s);
      p.value.op < Power256(8) && |p.value.str| < Power256(8) && |EncodeOp(p.value)| + |p.rest| <= |s|
  {
    hide DecodeNumber;
    hide EncodeNumber;
    hide DecodeText;
    hide EncodeText;
    hide Power256;
    NumberFits(s[1..]);
    TextFits(DecodeNumber(s[1..]).rest);
  }

  lemma {:induction false} OpsFit(n: nat, s: seq<Byte>)
    requires DecodeOps(n, s).Ok?
    ensures var p := DecodeOps(n, s);
      && |p.value| == n && |EncodeOps(p.value)| + |p.rest| <= |s|
      && forall o <- p.value :: o.op < Power256(8) && |o.str| < Power256(8)
  {
    hide DecodeOp;
    hide EncodeOp;
    hide Power256;
    if n > 0 {
      OpFits(s);
      OpsFit(n - 1, DecodeOp(s).rest);
      var os := DecodeOps(n - 1, DecodeOp(s).rest).value;
      assert ([DecodeOp(s).value] + os)[1..] == os;
    }
  }

  lemma {:induction false} DecodedFits(role: Role, s: seq<Byte>)
    requires Decode(role, s).Ok?
    ensures var p := Decode(role, s); WellFormed(role, p.value) && |Encode(p.value)| + |p.rest| <= |s|
    decreases |s|, 0
  {
    hide DecodeFields;
    hide EncodeFields;
    hide FieldFits;
    hide Schema;
    hide KindOf;
    var k := KindOf(s[0]).value;
    DecodedFieldsFit(Schema(k), s[1..]);
  }

  lemma {:induction false} DecodedFieldsFit(shapes: seq<Shape>, s: seq<Byte>)
    requires DecodeFields(shapes, s).Ok?
    ensures var p := DecodeFields(shapes, s);
      && |p.value| == |shapes| && |EncodeFields(p.value)| + |p.rest| <= |s|
      && forall i :: 0 <= i < |shapes| ==> FieldFits(shapes[i], p.value[i])
    decreases |s|, 2 + |shapes|
  {
    hide DecodeField;
    hide EncodeField;
    hide FieldFits;
    if shapes != [] {
      var f := DecodeField(shapes[0], s);
      DecodedFieldFits(shapes[0], s);
      DecodedFieldsFit(shapes[1..], f.rest);
      var fs := DecodeFields(shapes[1..], f.rest).value;
      assert ([f.value] + fs)[1..] == fs;
    }
  }

  lemma {:induction false} DecodedFieldFits(shape: Shape, s: seq<Byte>)
    requires DecodeField(shape, s).Ok?
    ensures var p := DecodeField(shape, s); FieldFits(shape, p.value) && |EncodeField(p.value)| + |p.rest| <= |s|
    decreases |s|, 1
  {
    hide DecodeNumber;
    hide EncodeNumber;
    hide DecodeText;
    hide EncodeText;
    hide DecodeOps;
    hide EncodeOps;
    hide DecodeAll;
    hide EncodeAll;
    hide FromLittleEndian;
    hide LittleEndian;
    hide Decode;
    hide Encode;
    hide Power256;
    hide WellFormed;
    if shape == ANumber {
      NumberFits(s);
    } else if shape == AReal {
      FromLittleEndianBounded(s[1..9]);
    } else if shape == AText {
      TextFits(s);
    } else if shape == AnExpr {
      DecodedFits(AsExpr, s);
    } else if shape == MaybeExpr {
      var flag := DecodeFlag(s);
      if flag.value {
        DecodedFits(AsExpr, flag.rest);
      }
    } else if shape == OpList {
      NumberFits(s[1..]);
      var n := DecodeNumber(s[1..]);
      OpsFit(n.value, n.rest);
    } else if shape == Exprs || shape == Stmts {
      NumberFits(s[1..]);
      var n := DecodeNumber(s[1..]);
      DecodedAllFit(if shape == Exprs then AsExpr else AsStmt, n.value, n.rest);
    }
  }

  lemma {:induction false} DecodedAllFit(role: Role, n: nat, s: seq<Byte>)
    requires DecodeAll(role, n, s).Ok?
    ensures var p := DecodeAll(role, n, s);
      |p.value| == n && |EncodeAll(p.value)| + |p.rest| <= |s| && forall e <- p.value :: WellFormed(role, e)
    decreases |s|, 1
  {
    hide Decode;
    hide Encode;
    hide WellFormed;
    if n > 0 {
      DecodedFits(role, s);
      var e := Decode(role, s);
      DecodedAllFit(role, n - 1, e.rest);
      var es := DecodeAll(role, n - 1, e.rest).value;
      assert ([e.value] + es)[1..] == es;
    }
  }

  /** Loading, saving and loading again changes nothing, and the saved form does not grow. */
  lemma ReencodedReadsBack(role: Role, s: seq<Byte>, rest: seq<Byte>)
    requires Decode(role, s).Ok?
    ensures var n := Decode(role, s).value;
      Decode(role, Encode(n) + rest) == Ok(n, rest) && |Encode(n)| <= |s|
  {
    DecodedFits(role, s);
    CodecRoundTrip.ReadsBack(role, Decode(role, s).value, rest);
  }
}
