/** The writer of the tagged format: it makes room in its buffer before it writes. */
module CodecWriter {
  import opened Bytes
  import opened Codec
  import opened Results
  import opened Sequences
  import CodecRoundTrip

  /** The capacity after growing by 1.6 times, rounded down, until there is enough. */
  function GrownTo(cap: nat, need: nat): (r: nat)
    requires cap >= 2
    ensures r >= need && r >= cap
    decreases need - cap
  {
    if cap >= need then cap else GrownTo(cap * 8 / 5, need)
  }

  /** Growing makes progress exactly from capacity 2 on; a buffer of 0 or 1 bytes would grow for ever. */
  lemma GrowthMovesOn(cap: nat)
    ensures cap * 8 / 5 > cap <==> cap >= 2
  {
  }

  class Writer {
    const buffer: Buffer

    constructor (buffer: Buffer)
      ensures this.buffer == buffer
    {
      this.buffer := buffer;
    }

    ghost predicate Ready()
      reads buffer
    {
      buffer.Valid() && buffer.ptr.Length >= 2
    }

    /** Makes room for x bytes and a tag. */
    method Ensure(x: nat)
      requires Ready()
      modifies buffer
      ensures Ready() && buffer.Span() == old(buffer.Span())
      ensures buffer.ptr == old(buffer.ptr) || fresh(buffer.ptr)
      ensures buffer.ptr.Length == GrownTo(old(buffer.ptr.Length), old(buffer.len) + x + 1)
    {
      while buffer.Remaining() < x + 1
        invariant Ready() && buffer.Span() == old(buffer.Span()) && buffer.len == old(buffer.len)
        invariant buffer.ptr == old(buffer.ptr) || fresh(buffer.ptr)
        invariant GrownTo(buffer.ptr.Length, buffer.len + x + 1)
          == GrownTo(old(buffer.ptr.Length), old(buffer.len) + x + 1)
        decreases buffer.len + x + 1 - buffer.ptr.Length
      {
        ghost var span := buffer.Span();
        buffer.Grow();
        assert |buffer.Span()| == |span|;
      }
    }

    /** Writes what there is certainly room for. */
    method Put(data: seq<Byte>)
      requires Ready() && |data| <= buffer.Remaining()
      modifies buffer`len, buffer.ptr
      ensures Ready() && buffer.ptr == old(buffer.ptr)
      ensures buffer.Span() == old(buffer.Span()) + data && buffer.len == old(buffer.len) + |data|
    {
      var todo := buffer.Write(data);
      assert data[..todo] == data;
      assert |buffer.Span()| == |old(buffer.Span())| + |data|;
    }

    method WriteTag(t: Byte)
      requires Ready()
      modifies buffer, buffer.ptr
      ensures Ready() && buffer.Span() == old(buffer.Span()) + [t] && buffer.len == old(buffer.len) + 1
      ensures buffer.ptr == old(buffer.ptr) || fresh(buffer.ptr)
      ensures buffer.ptr.Length == GrownTo(old(buffer.ptr.Length), old(buffer.len) + 2)
    {
      Ensure(1);
      Put([t]);
    }

    method WriteFlag(b: bool)
      requires Ready()
      modifies buffer, buffer.ptr
      ensures Ready() && buffer.Span() == old(buffer.Span()) + EncodeFlag(b)
      ensures buffer.ptr == old(buffer.ptr) || fresh(buffer.ptr)
    {
      Ensure(1);
      WriteTag(if b then TAG_BOOL_TRUE else TAG_BOOL_FALSE);
    }

    method WriteNumber(x: nat)
      requires Ready() && x < Power256(8)
      modifies buffer, buffer.ptr
      ensures Ready() && buffer.Span() == old(buffer.Span()) + EncodeNumber(x)
      ensures buffer.len == old(buffer.len) + |EncodeNumber(x)|
      ensures buffer.ptr == old(buffer.ptr) || fresh(buffer.ptr)
      ensures buffer.ptr.Length == GrownTo(old(buffer.ptr.Length), old(buffer.len) + 9)
    {
      ghost var before := buffer.Span();
      Ensure(8);
      if x < 0x80 {
        Put([TAG_TINY_U64 + x]);
      } else if x < 0x10000 {
        WriteTag(TAG_SMALL_U64);
        Put(LittleEndian(x, 2));
        Assoc(before, [TAG_SMALL_U64], LittleEndian(x, 2));
      } else {
        WriteTag(TAG_U64);
        Put(LittleEndian(x, 8));
        Assoc(before, [TAG_U64], LittleEndian(x, 8));
      }
    }

    method WriteReal(bits: nat)
      requires Ready()
      modifies buffer, buffer.ptr
      ensures Ready() && buffer.Span() == old(buffer.Span()) + EncodeField(Real(bits))
      ensures buffer.ptr == old(buffer.ptr) || fresh(buffer.ptr)
    {
      ghost var before := buffer.Span();
      Ensure(8);
      WriteTag(TAG_F64);
      Put(LittleEndian(bits, 8));
      Assoc(before, [TAG_F64], LittleEndian(bits, 8));
    }

    /** Writes byte by byte, as far as the room goes. */
    method PutEach(s: seq<Byte>)
      requires Ready()
      modifies buffer`len, buffer.ptr
      ensures Ready() && buffer.ptr == old(buffer.ptr)
      ensures buffer.Span() == old(buffer.Span()) +
        s[..if |s| <= old(buffer.Remaining()) then |s| else old(buffer.Remaining())]
    {
      ghost var base, room := buffer.Span(), buffer.Remaining();
      for i := 0 to |s|
        invariant Ready() && buffer.ptr == old(buffer.ptr)
        invariant buffer.len == |base| + if i <= room then i else room
        invariant buffer.Span() == base + s[..if i <= room then i else room]
      {
        ghost var span := buffer.Span();
        var todo := buffer.Write([s[i]]);
        assert [s[i]][..todo] == if i < room then [s[i]] else [];
        assert |buffer.Span()| == |span| + todo;
        assert i < room ==> s[..i] + [s[i]] == s[..i + 1];
        assert span + [] == span;
      }
    }

    /**
      The room made for a string counts nine bytes for its length and none for its tag.  Its last byte
      is lost exactly if the length takes all nine and no more room than that was made.
     */
    method WriteText(s: seq<Byte>)
      requires Ready() && |s| < Power256(8)
      modifies buffer, buffer.ptr
      ensures Ready()
      ensures buffer.ptr == old(buffer.ptr) || fresh(buffer.ptr)
      ensures buffer.Span() == old(buffer.Span()) +
        if LastByteLost(old(buffer.ptr.Length), old(buffer.len), s) then AllButLast(EncodeText(s)) else EncodeText(s)
    {
      hide EncodeNumber;
      hide GrownTo;
      hide LastByteLost;
      hide EncodeText;
      hide AllButLast;
      hide Power256;
      ghost var before, cap, len := buffer.Span(), buffer.ptr.Length, buffer.len;
      TextRoom(cap, len, s);
      Ensure(8 + |s|);
      WriteTag(TAG_STRING);
      WriteNumber(|s|);
      ghost var head := [TAG_STRING] + EncodeNumber(|s|);
      Assoc(before, [TAG_STRING], EncodeNumber(|s|));
      assert buffer.Span() == before + head;
      ghost var room := buffer.Remaining();
      PutEach(s);
      Tail(before, s, if |s| <= room then |s| else room);
    }

    // -------------------------------------------------------------- nodes

    method WriteNode(n: Node)
      requires Ready() && Writable(n)
      modifies buffer, buffer.ptr
      ensures Ready() && buffer.Span() == old(buffer.Span()) + Encode(n)
      ensures buffer.ptr == old(buffer.ptr) || fresh(buffer.ptr)
      decreases n, 0
    {
      ghost var before := buffer.Span();
      WriteTag(Tag(n.kind));
      for i := 0 to |n.fields|
        invariant Ready() && (buffer.ptr == old(buffer.ptr) || fresh(buffer.ptr))
        invariant buffer.Span() == before + [Tag(n.kind)] + EncodeFields(n.fields[..i])
      {
        WriteField(n.fields[i]);
        OneMoreField(n.fields, i);
        Rejoin(before, [Tag(n.kind)], EncodeFields(n.fields[..i]), EncodeField(n.fields[i]));
      }
      assert n.fields[..|n.fields|] == n.fields;
      Assoc(before, [Tag(n.kind)], EncodeFields(n.fields));
    }

    method WriteField(f: Field)
      requires Ready() && FieldWritable(f)
      modifies buffer, buffer.ptr
      ensures Ready() && buffer.Span() == old(buffer.Span()) + EncodeField(f)
      ensures buffer.ptr == old(buffer.ptr) || fresh(buffer.ptr)
      decreases f, 0
    {
      ghost var before := buffer.Span();
      match f
      case Number(x) => WriteNumber(x);
      case Real(bits) => WriteReal(bits);
      case Flag(b) => WriteFlag(b);
      case Text(s) => WriteText(s);
      case Child(e) => WriteNode(e);
      case Maybe(m) =>
        WriteFlag(m.Some?);
        if m.Some? {
          WriteNode(m.value);
          Assoc(before, EncodeFlag(true), Encode(m.value));
        }
      case Children(es) => WriteChildren(es);
      case Ops(ops) => WriteOps(ops);
    }

    method WriteChildren(es: seq<Node>)
      requires Ready() && FieldWritable(Children(es))
      modifies buffer, buffer.ptr
      ensures Ready() && buffer.Span() == old(buffer.Span()) + EncodeField(Children(es))
      ensures buffer.ptr == old(buffer.ptr) || fresh(buffer.ptr)
      decreases es, 1
    {
      hide EncodeNumber;
      ghost var before := buffer.Span();
      Ensure(9);
      WriteTag(TAG_STL_VECTOR);
      WriteNumber(|es|);
      ghost var head := buffer.Span();
      Assoc(before, [TAG_STL_VECTOR], EncodeNumber(|es|));
      for i := 0 to |es|
        invariant Ready() && (buffer.ptr == old(buffer.ptr) || fresh(buffer.ptr))
        invariant buffer.Span() == head + EncodeAll(es[..i])
      {
        WriteNode(es[i]);
        OneMoreNode(es, i);
        Assoc(head, EncodeAll(es[..i]), Encode(es[i]));
      }
      assert es[..|es|] == es;
      Rejoin(before, [TAG_STL_VECTOR], EncodeNumber(|es|), EncodeAll(es));
      Assoc(before, [TAG_STL_VECTOR], EncodeNumber(|es|) + EncodeAll(es));
    }

    method WriteOps(ops: seq<Op>)
      requires Ready() && FieldWritable(Ops(ops))
      modifies buffer, buffer.ptr
      ensures Ready() && buffer.Span() == old(buffer.Span()) + EncodeField(Ops(ops))
      ensures buffer.ptr == old(buffer.ptr) || fresh(buffer.ptr)
    {
      hide EncodeNumber;
      ghost var before := buffer.Span();
      Ensure(9);
      WriteTag(TAG_STL_VECTOR);
      WriteNumber(|ops|);
      ghost var head := buffer.Span();
      Assoc(before, [TAG_STL_VECTOR], EncodeNumber(|ops|));
      for i := 0 to |ops|
        invariant Ready() && (buffer.ptr == old(buffer.ptr) || fresh(buffer.ptr))
        invariant buffer.Span() == head + EncodeOps(ops[..i])
      {
        WriteOp(ops[i]);
        OneMoreOp(ops, i);
        Assoc(head, EncodeOps(ops[..i]), EncodeOp(ops[i]));
      }
      assert ops[..|ops|] == ops;
      Rejoin(before, [TAG_STL_VECTOR], EncodeNumber(|ops|), EncodeOps(ops));
      Assoc(before, [TAG_STL_VECTOR], EncodeNumber(|ops|) + EncodeOps(ops));
    }

    method WriteOp(o: Op)
      requires Ready() && o.op < Power256(8) && |o.str| < 0x10000
      modifies buffer, buffer.ptr
      ensures Ready() && buffer.Span() == old(buffer.Span()) + EncodeOp(o)
      ensures buffer.ptr == old(buffer.ptr) || fresh(buffer.ptr)
    {
      hide EncodeNumber;
      hide EncodeText;
      ghost var before := buffer.Span();
      CodecRoundTrip.Powers();
      WriteTag(TAG_STL_PAIR);
      WriteNumber(o.op);
      WriteText(o.str);
      Rejoin(before, [TAG_STL_PAIR], EncodeNumber(o.op), EncodeText(o.str));
      Assoc(before, [TAG_STL_PAIR], EncodeNumber(o.op) + EncodeText(o.str));
    }
  }

  /** Numbers and list lengths of 64 bits, and no string of 65536 bytes or more. */
  predicate Writable(n: Node)
    decreases n
  {
    forall f <- n.fields :: FieldWritable(f)
  }

  predicate FieldWritable(f: Field)
    decreases f
  {
    match f
    case Number(n) => n < Power256(8)
    case Real(bits) => bits < Power256(8)
    case Flag(_) => true
    case Text(s) => |s| < 0x10000
    case Child(e) => Writable(e)
    case Maybe(m) => m.Some? ==> Writable(m.value)
    case Children(es) => |es| < Power256(8) && forall e <- es :: Writable(e)
    case Ops(ops) => |ops| < Power256(8) && forall o <- ops :: o.op < Power256(8) && |o.str| < 0x10000
  }

  lemma Rejoin(a: seq<Byte>, b: seq<Byte>, c: seq<Byte>, d: seq<Byte>)
    ensures a + b + c + d == a + b + (c + d)
  {
  }

  lemma {:induction false} OneMoreField(fs: seq<Field>, i: nat)
    requires i < |fs|
    ensures EncodeFields(fs[..i + 1]) == EncodeFields(fs[..i]) + EncodeField(fs[i])
  {
    hide EncodeField;
    var t := fs[..i + 1];
    if i == 0 {
      assert t[1..] == [] && fs[..0] == [];
    } else {
      assert t[1..] == fs[1..][..i] && fs[..i][1..] == fs[1..][..i - 1] && fs[..i][0] == fs[0];
      OneMoreField(fs[1..], i - 1);
    }
  }

  lemma {:induction false} OneMoreNode(es: seq<Node>, i: nat)
    requires i < |es|
    ensures EncodeAll(es[..i + 1]) == EncodeAll(es[..i]) + Encode(es[i])
  {
    hide Encode;
    var t := es[..i + 1];
    if i == 0 {
      assert t[1..] == [] && es[..0] == [];
    } else {
      assert t[1..] == es[1..][..i] && es[..i][1..] == es[1..][..i - 1] && es[..i][0] == es[0];
      OneMoreNode(es[1..], i - 1);
    }
  }

  lemma {:induction false} OneMoreOp(ops: seq<Op>, i: nat)
    requires i < |ops|
    ensures EncodeOps(ops[..i + 1]) == EncodeOps(ops[..i]) + EncodeOp(ops[i])
  {
    hide EncodeOp;
    var t := ops[..i + 1];
    if i == 0 {
      assert t[1..] == [] && ops[..0] == [];
    } else {
      assert t[1..] == ops[1..][..i] && ops[..i][1..] == ops[1..][..i - 1] && ops[..i][0] == ops[0];
      OneMoreOp(ops[1..], i - 1);
    }
  }

  lemma Tail(a: seq<Byte>, s: seq<Byte>, n: nat)
    requires n == |s| || (n == |s| - 1 && s != [])
    ensures a + ([TAG_STRING] + EncodeNumber(|s|)) + s[..n] ==
      a + if n == |s| then EncodeText(s) else AllButLast(EncodeText(s))
  {
    hide EncodeNumber;
    var head := [TAG_STRING] + EncodeNumber(|s|);
    assert EncodeText(s) == head + s;
    if n == |s| {
      assert s[..n] == s;
    } else {
      assert AllButLast(head + s) == head + s[..n];
    }
  }

  /** The room there is for the bytes of a string, when its tag and length have been written. */
  lemma TextRoom(cap: nat, len: nat, s: seq<Byte>)
    requires cap >= 2
    ensures var grown := GrownTo(GrownTo(GrownTo(cap, len + |s| + 9), len + 2), len + 10);
      var room := grown - (len + 1 + |EncodeNumber(|s|)|);
      room >= |s| - 1 && (room < |s| <==> LastByteLost(cap, len, s))
  {
  }

  predicate LastByteLost(cap: nat, len: nat, s: seq<Byte>)
    requires cap >= 2
  {
    |s| >= 0x10000 && GrownTo(cap, len + |s| + 9) == len + |s| + 9
  }

  function AllButLast(s: seq<Byte>): seq<Byte>
    requires s != []
  {
    s[..|s| - 1]
  }

  /** A buffer with exactly the room that is asked for loses the last byte of a long string. */
  lemma RoomForNineTooFew(len: nat, s: seq<Byte>)
    requires |s| >= 0x10000
    ensures LastByteLost(len + |s| + 9, len, s)
  {
  }

  /** A string that lost its last byte cannot be read back, whatever it is. */
  lemma LostByteIsFatal(s: seq<Byte>)
    requires 0 < |s| < Power256(8)
    ensures DecodeText(AllButLast(EncodeText(s))).Fail?
  {
    hide EncodeNumber;
    hide DecodeNumber;
    hide Power256;
    var t := AllButLast(s);
    CodecRoundTrip.NumberReadsBack(|s|, t);
    assert AllButLast(EncodeText(s)) == [TAG_STRING] + (EncodeNumber(|s|) + t);
    assert AllButLast(EncodeText(s))[1..] == EncodeNumber(|s|) + t;
  }

  /** Whatever capacity of at least 2 the buffer starts with, the whole tree is in it and reads back. */
  method Written(role: Role, n: Node, cap: nat) returns (buffer: Buffer)
    requires cap >= 2 && WellFormed(role, n) && Writable(n)
    ensures fresh(buffer) && buffer.Valid()
    ensures Decode(role, buffer.Span()) == Ok(n, [])
  {
    buffer := new Buffer(cap);
    var wr := new Writer(buffer);
    wr.WriteNode(n);
    CodecRoundTrip.ReadsBack(role, n, []);
    assert [] + Encode(n) == Encode(n) && Encode(n) + [] == Encode(n);
  }
}
