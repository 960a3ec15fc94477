/**
  The WebSocket client as it runs: the receive handler with its buffer and offset, and the sender
  that masks its payload in place.
 */
module WebSocket {
  import opened Options
  import opened Bytes
  import opened Frames
  import opened GrowthPolicy

  class WebSocket {
    const buffer: Buffer
    var offset: nat

    ghost predicate Valid()
      reads this, buffer
    {
      buffer.Valid() && offset <= buffer.len && buffer as object != this
    }

    /** The bytes that have come and belong to no frame taken so far. */
    function Kept(): seq<Byte>
      requires Valid()
      reads this, buffer, buffer.ptr
    {
      buffer.Span()[offset..]
    }

    constructor (capacity: nat)
      ensures Valid() && Kept() == [] && fresh(buffer) && fresh(buffer.ptr)
    {
      buffer := new Buffer(capacity);
      offset := 0;
    }

    /** The handler that connect() installs; the frames are those passed to handle_frame, in order. */
    method Receive(data: seq<Byte>) returns (frames: seq<Frame>)
      requires Valid()
      modifies this, buffer, buffer.ptr
      ensures Valid() && (buffer.ptr == old(buffer.ptr) || fresh(buffer.ptr))
      ensures (frames, Kept()) == Drain(old(Kept()) + data)
    {
      hide Drain;
      if buffer.Remaining() < |data| {
        buffer.GrowBy(|data|);
      }
      var _ := buffer.Write(data);
      assert Kept() == old(Kept()) + data;
      frames := TakeFrames();
    }

    /** The loop of the handler. */
    method TakeFrames() returns (frames: seq<Frame>)
      requires Valid()
      modifies this, buffer, buffer.ptr
      ensures Valid() && buffer.ptr == old(buffer.ptr)
      ensures (frames, Kept()) == Drain(old(Kept()))
    {
      hide Drain;
      hide ReadFrame;
      frames := [];
      ghost var all := Drain(Kept());
      var rest := Kept();
      assert [] + all.0 == all.0;
      while |rest| >= 2
        invariant Valid() && buffer.ptr == old(buffer.ptr) && rest == Kept()
        invariant all == (frames + Drain(rest).0, Drain(rest).1)
        decreases |rest|
      {
        var front := ReadFrame(rest);
        if front.Nonsense? {
          DrainNone(frames, rest);
          buffer.Clear();
          offset := 0;
          return;
        }
        if front.NeedMore? {
          DrainNone(frames, rest);
          return;
        }
        DrainOne(frames, rest);
        frames := frames + [front.frame];
        rest := rest[front.total..];
        offset := offset + front.total;
        assert rest == Kept();
      }
      DrainNone(frames, rest);
      buffer.Clear();
      offset := 0;
    }

    /** Deliveries one after the other. */
    method ReceiveAll(chunks: seq<seq<Byte>>) returns (frames: seq<Frame>)
      requires Valid()
      modifies this, buffer, buffer.ptr
      ensures Valid() && (frames, Kept()) == Feed(old(Kept()), chunks)
    {
      hide Drain;
      frames := [];
      var i := 0;
      assert chunks[..0] == [];
      while i < |chunks|
        invariant i <= |chunks| && Valid()
        invariant buffer.ptr == old(buffer.ptr) || fresh(buffer.ptr)
        invariant (frames, Kept()) == Feed(old(Kept()), chunks[..i])
      {
        FeedPush(old(Kept()), chunks[..i], chunks[i]);
        assert chunks[..i + 1] == chunks[..i] + [chunks[i]];
        var more := Receive(chunks[i]);
        frames := frames + more;
        i := i + 1;
      }
      assert chunks[..i] == chunks;
    }
  }

  /** A connection gives the frames of the stream, however it was cut, if no cut is one byte into a frame. */
  method ReceiveStream(wires: seq<seq<Byte>>, ghost frames: seq<Frame>, chunks: seq<seq<Byte>>, capacity: nat)
    returns (received: seq<Frame>, kept: seq<Byte>)
    requires AreWires(wires, frames) && Join(chunks) == Join(wires)
    requires forall i :: 0 <= i <= |chunks| ==> !CutsOneByteIn(wires, chunks, i)
    ensures received == frames && kept == []
  {
    var ws := new WebSocket(capacity);
    received := ws.ReceiveAll(chunks);
    kept := ws.Kept();
    ChunkIndependence(wires, frames, chunks);
  }

  // ---------------------------------------------------------------- sending

  function Masked(payload: seq<Byte>, key: seq<Byte>): (masked: seq<Byte>)
    requires |key| == 4
    ensures |masked| == |payload|
  {
    seq(|payload|, i requires 0 <= i < |payload| => XorByte(payload[i], key[i % 4]))
  }

  /** Section 5.3 of RFC 6455: each bit is flipped where the key, taken round and round, has a one. */
  lemma MaskedBits(payload: seq<Byte>, key: seq<Byte>, i: nat, k: nat)
    requires |key| == 4 && i < |payload|
    ensures Bit(Masked(payload, key)[i], k) <==> Bit(payload[i], k) != Bit(key[i % 4], k)
  {
    BitOfXor(payload[i], key[i % 4], k);
  }

  lemma MaskedTwice(payload: seq<Byte>, key: seq<Byte>)
    requires |key| == 4
    ensures Masked(Masked(payload, key), key) == payload
  {
    forall i | 0 <= i < |payload|
      ensures Masked(Masked(payload, key), key)[i] == payload[i]
    {
      XorTwice(payload[i], key[i % 4]);
    }
  }

  /** The server's side: a masked frame as sections 5.2 and 5.3 of RFC 6455 describe it. */
  function ReadMasked(s: seq<Byte>): Option<Frame> {
    if |s| < 2 || s[1] < 0x80 then None
    else
      var len1 := s[1] % 0x80;
      var n := if len1 == 126 then 4 else if len1 == 127 then 10 else 2;
      if |s| < n + 4 then None
      else
        var size := if n == 2 then len1 else BigEndian(s[2..n]);
        if |s| != n + 4 + size then None
        else Some(Frame(s[0] % 0x10, s[0] >= 0x80, Masked(s[n + 4..], s[n..n + 4])))
  }

  /** The header that send_raw builds in front of the masking key. */
  function Header(opcode: nat, fin: bool, size: nat): (h: seq<Byte>)
    requires opcode < MAX_OPCODE
    ensures |h| in {2, 4, 10}
  {
    var b0 := opcode + if fin then 0x80 else 0;
    if size > 65535 then [b0, 0x80 + 127] + ToBigEndian(size, 8)
    else if size > 125 then [b0, 0x80 + 126] + ToBigEndian(size, 2)
    else [b0, 0x80 + size]
  }

  lemma SizesFit(size: nat)
    requires size < Power256(8)
    ensures size <= 65535 ==> size < Power256(2)
    ensures size > 125 ==> BigEndian(ToBigEndian(size, 8)) == size
    ensures 125 < size <= 65535 ==> BigEndian(ToBigEndian(size, 2)) == size
  {
    assert Power256(2) == 256 * Power256(1) == 65536 by {
      assert Power256(1) == 256 * Power256(0);
    }
    BigEndianReadsBack(size, 8);
    if size <= 65535 {
      BigEndianReadsBack(size, 2);
    }
  }

  /** The shortest form that the length fits into, as section 5.2 of RFC 6455 demands. */
  function ShortestForm(size: nat): (form: LengthForm)
    requires FormFits(SixtyFour, size)
    ensures FormFits(form, size)
    ensures forall other: LengthForm :: FormFits(other, size) ==>
      |LengthField(true, form, size)| <= |LengthField(true, other, size)|
  {
    if FormFits(Seven, size) then Seven else if FormFits(Sixteen, size) then Sixteen else SixtyFour
  }

  /** The bytes of a masked frame, by sections 5.2 and 5.3 of RFC 6455. */
  function MaskedFrameBytes(f: Frame, form: LengthForm, key: seq<Byte>): seq<Byte>
    requires f.opcode < 16 && FormFits(form, |f.payload|) && |key| == 4
  {
    [FirstByte(f.fin, 0, f.opcode)] + (LengthField(true, form, |f.payload|) + (key + Masked(f.payload, key)))
  }

  /** The header is that of the shortest form. */
  lemma HeaderIsShortest(opcode: nat, fin: bool, size: nat)
    requires opcode < MAX_OPCODE && size < Power256(8)
    ensures FormFits(SixtyFour, size)
    ensures Header(opcode, fin, size) == [FirstByte(fin, 0, opcode)] + LengthField(true, ShortestForm(size), size)
  {
    SixtyFourBits();
    hide Power256;
    if size > 65535 {
      BigEndianIsSeq8(size);
    } else if size > 125 {
      BigEndianIsSeq2(size);
    }
    hide ToBigEndian;
  }

  lemma SentFrameBytes(opcode: nat, fin: bool, key: seq<Byte>, payload: seq<Byte>)
    requires opcode < MAX_OPCODE && |key| == 4 && |payload| < Power256(8)
    ensures FormFits(SixtyFour, |payload|)
    ensures Header(opcode, fin, |payload|) + key + Masked(payload, key) ==
      MaskedFrameBytes(Frame(opcode, fin, payload), ShortestForm(|payload|), key)
  {
    HeaderIsShortest(opcode, fin, |payload|);
    hide Header;
    hide LengthField;
    hide Masked;
    hide Power256;
    hide ShortestForm;
    hide FirstByte;
    var first, l := [FirstByte(fin, 0, opcode)], LengthField(true, ShortestForm(|payload|), |payload|);
    assert first + l + key + Masked(payload, key) == first + (l + (key + Masked(payload, key)));
  }

  lemma SixtyFourBits()
    ensures Power256(8) == 0x1_0000_0000_0000_0000
  {
    assert Power256(2) == 0x1_0000;
    assert Power256(4) == 0x1_0000_0000;
    assert Power256(6) == 0x1_0000_0000_0000;
  }

  lemma BigEndianIsSeq2(v: nat)
    requires v <= 0xFFFF
    ensures ToBigEndian(v, 2) == [v / 0x100, v % 0x100]
  {
    assert ToBigEndian(v / 0x100, 1) == ToBigEndian(v / 0x100 / 0x100, 0) + [v / 0x100 % 0x100];
  }

  lemma BigEndianIsSeq8(v: nat)
    requires v <= 0xFFFF_FFFF_FFFF_FFFF
    ensures ToBigEndian(v, 8) == LengthField(false, SixtyFour, v)[1..]
  {
    Quotients(v);
    var q1 := v / 0x100;
    var q2 := q1 / 0x100;
    var q3 := q2 / 0x100;
    var q4 := q3 / 0x100;
    var q5 := q4 / 0x100;
    var q6 := q5 / 0x100;
    var q7 := q6 / 0x100;
    assert ToBigEndian(q7, 1) == [q7 % 0x100] && ToBigEndian(q6, 2) == [q7 % 0x100, q6 % 0x100];
    assert ToBigEndian(q5, 3) == ToBigEndian(q6, 2) + [q5 % 0x100];
    assert ToBigEndian(q4, 4) == ToBigEndian(q5, 3) + [q4 % 0x100];
    assert ToBigEndian(q3, 5) == ToBigEndian(q4, 4) + [q3 % 0x100];
    assert ToBigEndian(q2, 6) == ToBigEndian(q3, 5) + [q2 % 0x100];
    assert ToBigEndian(q1, 7) == ToBigEndian(q2, 6) + [q1 % 0x100];
    assert ToBigEndian(v, 8) == ToBigEndian(q1, 7) + [v % 0x100];
  }

  lemma SentFrameReadsBack(opcode: nat, fin: bool, key: seq<Byte>, payload: seq<Byte>)
    requires opcode < MAX_OPCODE && |key| == 4 && |payload| < Power256(8)
    ensures ReadMasked(Header(opcode, fin, |payload|) + key + Masked(payload, key)) == Some(Frame(opcode, fin, payload))
  {
    hide Power256;
    hide BigEndian;
    hide ToBigEndian;
    hide Masked;
    var h, m := Header(opcode, fin, |payload|), Masked(payload, key);
    var s := h + key + m;
    var n := |h|;
    MaskedTwice(payload, key);
    SizesFit(|payload|);
    assert s[..n] == h && s[n..n + 4] == key && s[n + 4..] == m;
    assert s[0] == h[0] && s[1] == h[1];
    if n > 2 {
      assert s[2..n] == h[2..];
    }
  }

  /** The four bytes of the 32-bit mask value, most significant first. */
  function Key(mask: nat): (key: seq<Byte>)
    ensures |key| == 4
  {
    ToBigEndian(mask, 4)
  }

  /** send_raw: what goes out reads back, on the other side, as the frame that was to be sent. */
  method SendRaw(opcode: nat, fin: bool, payload: array<Byte>, mask: nat) returns (sent: Option<seq<Byte>>)
    requires payload.Length < Power256(8)
    modifies payload
    ensures sent.Some? <==> opcode <= 0x0A
    ensures sent.Some? ==> ReadMasked(sent.value) == Some(Frame(opcode, fin, old(payload[..])))
    ensures FormFits(SixtyFour, payload.Length)
    ensures sent.Some? ==>
      sent.value == MaskedFrameBytes(Frame(opcode, fin, old(payload[..])), ShortestForm(payload.Length), Key(mask))
    ensures sent.None? ==> payload[..] == old(payload[..])
  {
    SixtyFourBits();
    if opcode >= MAX_OPCODE {
      return None;
    }
    ghost var plain := payload[..];
    var header := Header(opcode, fin, payload.Length);
    var key := Key(mask);
    var i := 0;
    while i < payload.Length
      invariant i <= payload.Length
      invariant payload[..i] == Masked(plain, key)[..i] && payload[i..] == plain[i..]
    {
      assert payload[i] == payload[i..][0] == plain[i];
      payload[i] := XorByte(payload[i], key[i % 4]);
      i := i + 1;
    }
    assert payload[..] == Masked(plain, key);
    SentFrameReadsBack(opcode, fin, key, plain);
    SentFrameBytes(opcode, fin, key, plain);
    sent := Some(header + key + payload[..]);
  }
}
