/**
  WebSocket frames as the client receives them, as functions on bytes: reading one frame, draining a
  buffer, and feeding a whole stream in pieces.
 */
module Frames {
  import opened Bytes

  datatype Frame = Frame(opcode: nat, fin: bool, payload: seq<Byte>)

  /** What the front of the buffer holds. */
  datatype Front = NeedMore | Nonsense | Whole(frame: Frame, total: nat)

  const MAX_OPCODE: nat := 0x0B

  /** The two header bytes: fin, three reserved bits, opcode; mask, 7-bit length. */
  function ReadFrame(s: seq<Byte>): Front
    requires |s| >= 2
  {
    var opcode, fin, masked, len1 := s[0] % 0x10, s[0] >= 0x80, s[1] >= 0x80, s[1] % 0x80;
    if masked || opcode >= MAX_OPCODE then Nonsense
    else
      var header := if len1 == 126 then 4 else if len1 == 127 then 10 else 2;
      if |s| < header then NeedMore
      else
        var size := if header == 2 then len1 else BigEndian(s[2..header]);
        if |s| < header + size then NeedMore
        else Whole(Frame(opcode, fin, s[header..header + size]), header + size)
  }

  // ---------------------------------------------------------------- against RFC 6455

  /** The three ways to write a length in section 5.2 of RFC 6455. */
  datatype LengthForm = Seven | Sixteen | SixtyFour

  predicate FormFits(form: LengthForm, size: nat) {
    match form
    case Seven => size <= 125
    case Sixteen => size <= 0xFFFF
    case SixtyFour => size <= 0xFFFF_FFFF_FFFF_FFFF
  }

  /** The mask bit and the length, in network byte order. */
  function LengthField(mask: bool, form: LengthForm, size: nat): seq<Byte>
    requires FormFits(form, size)
  {
    var m := if mask then 0x80 else 0;
    match form
    case Seven => [m + size]
    case Sixteen => [m + 126, size / 0x100, size % 0x100]
    case SixtyFour =>
      [m + 127,
       size / 0x100_0000_0000_0000, size / 0x1_0000_0000_0000 % 0x100, size / 0x100_0000_0000 % 0x100,
       size / 0x1_0000_0000 % 0x100, size / 0x100_0000 % 0x100, size / 0x1_0000 % 0x100,
       size / 0x100 % 0x100, size % 0x100]
  }

  /** The final bit, three reserved bits and the opcode. */
  function FirstByte(fin: bool, reserved: nat, opcode: nat): Byte
    requires reserved < 8 && opcode < 16
  {
    (if fin then 0x80 else 0) + 0x10 * reserved + opcode
  }

  predicate Framable(f: Frame, reserved: nat, form: LengthForm) {
    reserved < 8 && f.opcode <= 0x0A && FormFits(form, |f.payload|)
  }

  /** The bytes of an unmasked frame. */
  function FrameBytes(f: Frame, reserved: nat, form: LengthForm): seq<Byte>
    requires Framable(f, reserved, form)
  {
    [FirstByte(f.fin, reserved, f.opcode)] + (LengthField(false, form, |f.payload|) + f.payload)
  }

  /** The bytes are one frame, whole and without anything after it, in any of its encodings. */
  ghost predicate IsWire(w: seq<Byte>, f: Frame) {
    exists reserved, form :: Framable(f, reserved, form) && w == FrameBytes(f, reserved, form)
  }

  /** Bytes in network order spell the number. */
  lemma NetworkOrder(v: nat)
    ensures v <= 0xFFFF ==> BigEndian([v / 0x100, v % 0x100]) == v
    ensures v <= 0xFFFF_FFFF_FFFF_FFFF ==> BigEndian(LengthField(false, SixtyFour, v)[1..]) == v
  {
    if v <= 0xFFFF {
      BigEndianOfTwo(v / 0x100, v % 0x100);
    }
    if v <= 0xFFFF_FFFF_FFFF_FFFF {
      BigEndianOfEight(LengthField(false, SixtyFour, v)[1..]);
      DigitsOfNumber(v);
    }
  }

  lemma BigEndianOfTwo(a: Byte, b: Byte)
    ensures BigEndian([a, b]) == 0x100 * a + b
  {
    assert [a, b][..1] == [a] && [a][..0] == [];
    assert BigEndian([a]) == a;
  }

  /** Eight digits on base 256. */
  function EightDigits(s: seq<int>): int
    requires |s| == 8
  {
    ((((((s[0] * 0x100 + s[1]) * 0x100 + s[2]) * 0x100 + s[3]) * 0x100 + s[4]) * 0x100 + s[5]) * 0x100 + s[6]) * 0x100 + s[7]
  }

  lemma BigEndianOfEight(s: seq<Byte>)
    requires |s| == 8
    ensures BigEndian(s) == EightDigits(s)
  {
    hide BigEndian;
    BigEndianOfFour(s);
    BigEndianSplits(s, 7);
    BigEndianSplits(s, 6);
    BigEndianSplits(s, 5);
    BigEndianSplits(s, 4);
    assert s[..8] == s;
  }

  lemma BigEndianOfFour(s: seq<Byte>)
    requires |s| >= 4
    ensures BigEndian(s[..4]) == ((s[0] as int * 0x100 + s[1]) * 0x100 + s[2]) * 0x100 + s[3]
  {
    hide BigEndian;
    BigEndianSplits(s, 3);
    BigEndianSplits(s, 2);
    BigEndianSplits(s, 1);
    BigEndianSplits(s, 0);
  }

  lemma BigEndianSplits(s: seq<Byte>, i: nat)
    requires i < |s|
    ensures BigEndian(s[..i + 1]) == 0x100 * BigEndian(s[..i]) + s[i]
    ensures BigEndian(s[..0]) == 0
  {
    assert s[..i + 1][..i] == s[..i];
  }

  /** The digits of a number are its quotients by the powers of 256, down to the last. */
  lemma Quotients(v: nat)
    ensures v / 0x1_0000 == v / 0x100 / 0x100
    ensures v / 0x100_0000 == v / 0x1_0000 / 0x100
    ensures v / 0x1_0000_0000 == v / 0x100_0000 / 0x100
    ensures v / 0x100_0000_0000 == v / 0x1_0000_0000 / 0x100
    ensures v / 0x1_0000_0000_0000 == v / 0x100_0000_0000 / 0x100
    ensures v / 0x100_0000_0000_0000 == v / 0x1_0000_0000_0000 / 0x100
  {
  }

  lemma DigitsOfNumber(v: nat)
    requires v <= 0xFFFF_FFFF_FFFF_FFFF
    ensures EightDigits(LengthField(false, SixtyFour, v)[1..]) == v
  {
    Quotients(v);
  }

  lemma LastDigit(a: nat, b: Byte)
    ensures (a * 0x100 + b) / 0x100 == a && (a * 0x100 + b) % 0x100 == b
  {
  }

  lemma FieldOfQuotients(v: nat, g: nat, f: nat, e: nat, d: nat, c: nat, b: nat, s: seq<Byte>)
    requires |s| == 8 && v <= 0xFFFF_FFFF_FFFF_FFFF
    requires v / 0x100 == g && g / 0x100 == f && f / 0x100 == e && e / 0x100 == d && d / 0x100 == c && c / 0x100 == b
    requires v % 0x100 == s[7] && g % 0x100 == s[6] && f % 0x100 == s[5] && e % 0x100 == s[4]
    requires d % 0x100 == s[3] && c % 0x100 == s[2] && b % 0x100 == s[1] && b / 0x100 == s[0]
    ensures LengthField(false, SixtyFour, v) == [127] + s
  {
    Quotients(v);
  }

  lemma NumberOfDigits(s: seq<Byte>)
    requires |s| == 8
    ensures 0 <= EightDigits(s) <= 0xFFFF_FFFF_FFFF_FFFF
    ensures LengthField(false, SixtyFour, EightDigits(s)) == [127] + s
  {
    hide LengthField;
    var b: nat := s[0] as nat * 0x100 + s[1];
    var c := b * 0x100 + s[2];
    var d := c * 0x100 + s[3];
    var e := d * 0x100 + s[4];
    var f := e * 0x100 + s[5];
    var g := f * 0x100 + s[6];
    LastDigit(s[0], s[1]);
    LastDigit(b, s[2]);
    LastDigit(c, s[3]);
    LastDigit(d, s[4]);
    LastDigit(e, s[5]);
    LastDigit(f, s[6]);
    LastDigit(g, s[7]);
    FieldOfQuotients(EightDigits(s), g, f, e, d, c, b, s);
  }

  /** What the parts of a frame's bytes are. */
  lemma Parts(f: Frame, reserved: nat, form: LengthForm, rest: seq<Byte>)
    requires Framable(f, reserved, form)
    ensures var l := LengthField(false, form, |f.payload|);
      var n := 1 + |l|;
      var s := FrameBytes(f, reserved, form) + rest;
      && |s| == n + |f.payload| + |rest| && |FrameBytes(f, reserved, form)| == n + |f.payload|
      && s[0] == FirstByte(f.fin, reserved, f.opcode) && s[1] == l[0] && s[2..n] == l[1..]
      && s[n..n + |f.payload|] == f.payload
  {
  }

  lemma FirstByteParts(fin: bool, reserved: nat, opcode: nat)
    requires reserved < 8 && opcode < 16
    ensures var b := FirstByte(fin, reserved, opcode); b % 0x10 == opcode && (b >= 0x80 <==> fin)
  {
  }

  lemma LengthFieldRead(form: LengthForm, size: nat)
    requires FormFits(form, size)
    ensures var l := LengthField(false, form, size);
      && l[0] < 0x80 && |l| == (if l[0] == 126 then 3 else if l[0] == 127 then 9 else 1)
      && size == if |l| == 1 then l[0] else BigEndian(l[1..])
  {
    hide BigEndian;
    NetworkOrder(size);
    assert form == Sixteen ==> LengthField(false, form, size)[1..] == [size / 0x100, size % 0x100];
  }

  /** The bytes of a frame are read as that frame, whatever follows. */
  lemma FrameBytesRead(f: Frame, reserved: nat, form: LengthForm, rest: seq<Byte>)
    requires Framable(f, reserved, form)
    ensures var w := FrameBytes(f, reserved, form);
      |w| >= 2 && ReadFrame(w + rest) == Whole(f, |w|)
  {
    Parts(f, reserved, form, rest);
    FirstByteParts(f.fin, reserved, f.opcode);
    LengthFieldRead(form, |f.payload|);
    hide BigEndian;
    hide LengthField;
    hide FirstByte;
    hide FrameBytes;
  }

  /** And what is read as a frame is the bytes of that frame. */
  lemma ReadIsFrame(s: seq<Byte>)
    requires |s| >= 2 && ReadFrame(s).Whole?
    ensures var r := ReadFrame(s); r.total <= |s| && IsWire(s[..r.total], r.frame)
  {
    var r := ReadFrame(s);
    var form := if s[1] == 126 then Sixteen else if s[1] == 127 then SixtyFour else Seven;
    var reserved := s[0] / 0x10 % 8;
    assert FirstByte(r.frame.fin, reserved, r.frame.opcode) == s[0];
    LengthIsField(s);
    hide BigEndian;
    hide LengthField;
    hide FirstByte;
    assert Framable(r.frame, reserved, form);
    var n := r.total - |r.frame.payload|;
    assert s[..r.total] == [s[0]] + (s[1..n] + s[n..r.total]);
    assert s[..r.total] == FrameBytes(r.frame, reserved, form);
  }

  lemma LengthIsField(s: seq<Byte>)
    requires |s| >= 2 && ReadFrame(s).Whole?
    ensures var form := if s[1] == 126 then Sixteen else if s[1] == 127 then SixtyFour else Seven;
      var size := |ReadFrame(s).frame.payload|;
      var n := ReadFrame(s).total - size;
      FormFits(form, size) && 1 < n <= |s| && LengthField(false, form, size) == s[1..n]
  {
    hide BigEndian;
    if s[1] == 126 {
      SixteenIsField(s);
    } else if s[1] == 127 {
      SixtyFourIsField(s);
    }
  }

  lemma SixteenIsField(s: seq<Byte>)
    requires |s| >= 4 && s[1] == 126
    ensures var size := BigEndian(s[2..4]); FormFits(Sixteen, size) && LengthField(false, Sixteen, size) == s[1..4]
  {
    hide BigEndian;
    BigEndianOfTwo(s[2], s[3]);
    LastDigit(s[2], s[3]);
    assert s[2..4] == [s[2], s[3]];
    assert s[1..4] == [s[1], s[2], s[3]];
  }

  lemma SixtyFourIsField(s: seq<Byte>)
    requires |s| >= 10 && s[1] == 127
    ensures var size := BigEndian(s[2..10]); FormFits(SixtyFour, size) && LengthField(false, SixtyFour, size) == s[1..10]
  {
    hide BigEndian;
    hide EightDigits;
    BigEndianOfEight(s[2..10]);
    NumberOfDigits(s[2..10]);
    assert s[1..10] == [s[1]] + s[2..10];
  }

  lemma WireIsRead(w: seq<Byte>, f: Frame)
    requires IsWire(w, f)
    ensures |w| >= 2 && ReadFrame(w) == Whole(f, |w|)
  {
    var reserved, form :| Framable(f, reserved, form) && w == FrameBytes(f, reserved, form);
    FrameBytesRead(f, reserved, form, []);
    assert w + [] == w;
  }

  /** Once a frame is there, more bytes do not change it; before that, any part of it reads as incomplete. */
  lemma WirePrefix(w: seq<Byte>, f: Frame, s: seq<Byte>)
    requires IsWire(w, f) && |s| >= 2 && (s <= w || w <= s)
    ensures ReadFrame(s) == if |s| < |w| then NeedMore else Whole(f, |w|)
  {
    WireIsRead(w, f);
    hide IsWire;
    hide BigEndian;
    assert s[0] == w[0] && s[1] == w[1];
    var len1 := w[1] % 0x80;
    var header := if len1 == 126 then 4 else if len1 == 127 then 10 else 2;
    if |s| >= header {
      assert s[2..header] == w[2..header];
      if |s| >= |w| {
        assert s[header..|w|] == w[header..|w|];
      }
    }
  }

  /** Neither contradicts the other, as far as both go. */
  predicate Compatible(s: seq<Byte>, w: seq<Byte>) {
    s <= w || w <= s
  }

  /** The receiver gives up on bytes exactly if they are not the start of any frame. */
  lemma NonsenseIsNoFrame(s: seq<Byte>)
    requires |s| >= 2
    ensures ReadFrame(s).Nonsense? <==> forall w, f :: IsWire(w, f) ==> !Compatible(s, w)
  {
    hide IsWire;
    hide ReadFrame;
    if ReadFrame(s).Nonsense? {
      forall w, f | IsWire(w, f)
        ensures !Compatible(s, w)
      {
        if Compatible(s, w) {
          WirePrefix(w, f, s);
        }
      }
    } else if ReadFrame(s).Whole? {
      ReadIsFrame(s);
      var r := ReadFrame(s);
      assert Compatible(s, s[..r.total]);
    } else {
      var more := s + seq(0x1_0000_0000_0000_000A, _ => 0);
      EnoughBytes(s, more);
      ReadIsFrame(more);
      var r := ReadFrame(more);
      assert s == more[..|s|] == more[..r.total][..|s|];
      assert Compatible(s, more[..r.total]);
    }
  }

  lemma EnoughBytes(s: seq<Byte>, more: seq<Byte>)
    requires |s| >= 2 && ReadFrame(s).NeedMore? && s <= more && |more| >= 0x1_0000_0000_0000_000A
    ensures ReadFrame(more).Whole? && |s| <= ReadFrame(more).total <= |more|
  {
    hide BigEndian;
    assert s[0] == more[0] && s[1] == more[1];
    BigEndianOfTwo(more[2], more[3]);
    assert more[2..4] == [more[2], more[3]];
    BigEndianOfEight(more[2..10]);
    NumberOfDigits(more[2..10]);
    hide EightDigits;
    var n := if s[1] == 126 then 4 else if s[1] == 127 then 10 else 2;
    if |s| >= n {
      assert s[2..n] == more[2..n];
    }
  }

  /** The receive loop: frames taken, and bytes kept.  A single byte left over is not kept. */
  function Drain(s: seq<Byte>): (seq<Frame>, seq<Byte>)
    decreases |s|
  {
    if |s| < 2 then ([], [])
    else match ReadFrame(s)
      case NeedMore => ([], s)
      case Nonsense => ([], [])
      case Whole(f, total) =>
        var d := Drain(s[total..]);
        ([f] + d.0, d.1)
  }

  lemma TotalFits(s: seq<Byte>)
    requires |s| >= 2 && ReadFrame(s).Whole?
    ensures 2 <= ReadFrame(s).total <= |s|
  {
  }

  lemma DrainOne(taken: seq<Frame>, s: seq<Byte>)
    requires |s| >= 2 && ReadFrame(s).Whole?
    ensures 2 <= ReadFrame(s).total <= |s|
    ensures var front := ReadFrame(s);
      var rest := Drain(s[front.total..]);
      (taken + Drain(s).0, Drain(s).1) == (taken + [front.frame] + rest.0, rest.1)
  {
    hide ReadFrame;
    hide Drain;
    TotalFits(s);
    var front := ReadFrame(s);
    DrainUnfolds(s);
    Associate(taken, front.frame, Drain(s[front.total..]).0);
  }

  lemma DrainUnfolds(s: seq<Byte>)
    requires |s| >= 2 && ReadFrame(s).Whole? && ReadFrame(s).total <= |s|
    ensures Drain(s) ==
      ([ReadFrame(s).frame] + Drain(s[ReadFrame(s).total..]).0, Drain(s[ReadFrame(s).total..]).1)
  {
    hide ReadFrame;
  }

  lemma Associate(taken: seq<Frame>, f: Frame, more: seq<Frame>)
    ensures taken + ([f] + more) == taken + [f] + more
  {
  }

  lemma DrainNone(taken: seq<Frame>, s: seq<Byte>)
    requires |s| < 2 || !ReadFrame(s).Whole?
    ensures (taken + Drain(s).0, Drain(s).1) == (taken, if |s| >= 2 && ReadFrame(s).NeedMore? then s else [])
  {
    assert Drain(s).0 == [] && taken + [] == taken;
  }

  /** Delivery after delivery, from the bytes kept so far. */
  function Feed(kept: seq<Byte>, chunks: seq<seq<Byte>>): (seq<Frame>, seq<Byte>)
    decreases |chunks|
  {
    if chunks == [] then ([], kept)
    else
      var front := Feed(kept, chunks[..|chunks| - 1]);
      var last := Drain(front.1 + chunks[|chunks| - 1]);
      (front.0 + last.0, last.1)
  }

  // ---------------------------------------------------------------- the stream and its cuts

  function Join(pieces: seq<seq<Byte>>): seq<Byte> {
    if pieces == [] then [] else pieces[0] + Join(pieces[1..])
  }

  ghost predicate AreWires(wires: seq<seq<Byte>>, frames: seq<Frame>) {
    |wires| == |frames| && forall i :: 0 <= i < |wires| ==> IsWire(wires[i], frames[i])
  }

  /** How many frames are whole within the first n bytes. */
  function Complete(wires: seq<seq<Byte>>, n: nat): (k: nat)
    ensures k <= |wires|
  {
    if wires == [] || n < |wires[0]| then 0 else 1 + Complete(wires[1..], n - |wires[0]|)
  }

  /** How many bytes of the frame after those have come. */
  function Partial(wires: seq<seq<Byte>>, n: nat): (l: nat)
    ensures l <= n
  {
    if wires == [] || n < |wires[0]| then n else Partial(wires[1..], n - |wires[0]|)
  }

  lemma PrefixOfJoin(w: seq<Byte>, rest: seq<Byte>, s: seq<Byte>)
    requires s <= w + rest
    ensures |s| <= |w| ==> s <= w
    ensures |s| >= |w| ==> w <= s && s[|w|..] <= rest
  {
    if |s| <= |w| {
      assert s == (w + rest)[..|s|] == w[..|s|];
    } else {
      assert s[..|w|] == (w + rest)[..|w|] == w;
      assert s[|w|..] == (w + rest)[|w|..|s|] == rest[..|s| - |w|];
    }
  }

  lemma SuffixOfSuffix(s: seq<Byte>, i: nat, l: nat)
    requires i + l <= |s|
    ensures s[|s| - l..] == s[i..][|s| - i - l..]
  {
  }

  lemma WiresFrom(wires: seq<seq<Byte>>, frames: seq<Frame>, k: nat)
    requires AreWires(wires, frames) && k <= |wires|
    ensures |wires| == |frames| && AreWires(wires[k..], frames[k..])
  {
    forall i | 0 <= i < |wires| - k
      ensures IsWire(wires[k..][i], frames[k..][i])
    {
      assert IsWire(wires[k + i], frames[k + i]);
    }
  }

  lemma DrainFirst(w: seq<Byte>, f: Frame, s: seq<Byte>)
    requires IsWire(w, f) && w <= s
    ensures var rest := Drain(s[|w|..]); Drain(s) == ([f] + rest.0, rest.1)
  {
    WirePrefix(w, f, s);
  }

  lemma DrainPart(w: seq<Byte>, f: Frame, s: seq<Byte>)
    requires IsWire(w, f) && s <= w && |s| < |w|
    ensures Drain(s) == ([], if |s| == 1 then [] else s)
  {
    if |s| >= 2 { WirePrefix(w, f, s); }
  }

  /** Draining the start of a stream takes its whole frames and keeps the rest, unless that is one byte. */
  lemma {:induction false} DrainOfPrefix(wires: seq<seq<Byte>>, frames: seq<Frame>, s: seq<Byte>)
    requires AreWires(wires, frames) && s <= Join(wires)
    ensures var l := Partial(wires, |s|);
      Drain(s) == (frames[..Complete(wires, |s|)], if l == 1 then [] else s[|s| - l..])
    decreases |wires|
  {
    hide Drain;
    hide IsWire;
    hide Join;
    if wires == [] {
      JoinNothing();
      DrainNothing();
    } else {
      var w, rest := wires[0], wires[1..];
      JoinFirst(wires);
      PrefixOfJoin(w, Join(rest), s);
      if |s| < |w| {
        DrainPart(w, frames[0], s);
      } else {
        var t := s[|w|..];
        WiresFrom(wires, frames, 1);
        DrainFirst(w, frames[0], s);
        DrainOfPrefix(rest, frames[1..], t);
        SuffixOfSuffix(s, |w|, Partial(rest, |t|));
        FirstFrames(frames, Complete(rest, |t|));
      }
    }
  }

  lemma JoinNothing()
    ensures Join([]) == []
  {
  }

  lemma DrainNothing()
    ensures Drain([]) == ([], [])
  {
  }

  lemma FirstFrames(frames: seq<Frame>, k: nat)
    requires k < |frames|
    ensures [frames[0]] + frames[1..][..k] == frames[..k + 1]
  {
  }

  /** Where a cut falls can be told from the frame the last cut fell into. */
  lemma {:induction false} FromLastCut(wires: seq<seq<Byte>>, n: nat, m: nat)
    ensures var k, l := Complete(wires, n), Partial(wires, n);
      && Complete(wires, n + m) == k + Complete(wires[k..], l + m)
      && Partial(wires, n + m) == Partial(wires[k..], l + m)
    decreases |wires|
  {
    if wires == [] || n < |wires[0]| {
      assert wires[0..] == wires;
    } else {
      var rest, n' := wires[1..], n - |wires[0]|;
      FromLastCut(rest, n', m);
      assert wires[Complete(rest, n') + 1..] == rest[Complete(rest, n')..];
    }
  }

  /** The stream from the started frame on. */
  lemma {:induction false} StreamFromPartial(wires: seq<seq<Byte>>, n: nat)
    requires n <= |Join(wires)|
    ensures Join(wires)[n - Partial(wires, n)..] == Join(wires[Complete(wires, n)..])
    decreases |wires|
  {
    if wires == [] || n < |wires[0]| {
      assert wires[0..] == wires;
      assert Join(wires)[0..] == Join(wires);
    } else {
      var w, rest, n' := wires[0], wires[1..], n - |wires[0]|;
      JoinFirst(wires);
      hide Join;
      StreamFromPartial(rest, n');
      assert wires[Complete(rest, n') + 1..] == rest[Complete(rest, n')..];
      DropJoined(w, Join(rest), n' - Partial(rest, n'));
    }
  }

  lemma JoinFirst(wires: seq<seq<Byte>>)
    requires wires != []
    ensures Join(wires) == wires[0] + Join(wires[1..])
  {
  }

  lemma DropJoined(w: seq<Byte>, rest: seq<Byte>, i: nat)
    requires i <= |rest|
    ensures (w + rest)[|w| + i..] == rest[i..]
  {
  }

  /** After these deliveries the handler has taken the whole frames and keeps exactly the started one. */
  ghost predicate UpToDate(wires: seq<seq<Byte>>, frames: seq<Frame>, chunks: seq<seq<Byte>>)
    requires AreWires(wires, frames)
  {
    var n := |Join(chunks)|;
    && n <= |Join(wires)|
    && Feed([], chunks) == (frames[..Complete(wires, n)], Join(wires)[n - Partial(wires, n)..n])
  }

  lemma {:induction false} JoinPush(pieces: seq<seq<Byte>>, last: seq<Byte>)
    ensures Join(pieces + [last]) == Join(pieces) + last
  {
    if pieces == [] {
      assert pieces + [last] == [last] && Join([last]) == last + Join([]);
    } else {
      assert (pieces + [last])[1..] == pieces[1..] + [last];
      JoinPush(pieces[1..], last);
    }
  }

  lemma {:induction false} JoinPrefix(pieces: seq<seq<Byte>>, i: nat)
    requires i <= |pieces|
    ensures Join(pieces[..i]) <= Join(pieces)
    decreases |pieces| - i
  {
    if i == |pieces| {
      assert pieces[..i] == pieces;
    } else {
      JoinPrefix(pieces, i + 1);
      assert pieces[..i + 1] == pieces[..i] + [pieces[i]];
      JoinPush(pieces[..i], pieces[i]);
      assert Join(pieces[..i]) == Join(pieces[..i + 1])[..|Join(pieces[..i])|];
    }
  }

  lemma FeedPush(kept: seq<Byte>, chunks: seq<seq<Byte>>, chunk: seq<Byte>)
    ensures var front := Feed(kept, chunks);
      var last := Drain(front.1 + chunk);
      Feed(kept, chunks + [chunk]) == (front.0 + last.0, last.1)
  {
    assert (chunks + [chunk])[..|chunks|] == chunks;
  }

  lemma SliceGrows(stream: seq<Byte>, a: nat, n: nat, chunk: seq<Byte>)
    requires a <= n <= |stream| && stream[..n] + chunk <= stream
    ensures n + |chunk| <= |stream| && stream[a..n] + chunk == stream[a..n + |chunk|]
    ensures stream[a..n] + chunk <= stream[a..]
  {
    var m := n + |chunk|;
    assert stream[..n] + chunk == stream[..m];
    assert chunk == (stream[..n] + chunk)[n..] == stream[n..m];
    assert stream[a..m] == stream[a..][..m - a];
  }

  lemma SliceEnd(stream: seq<Byte>, a: nat, m: nat, l: nat)
    requires a + l <= m <= |stream|
    ensures stream[a..m][m - a - l..] == stream[m - l..m]
  {
  }

  lemma FrameSlices(frames: seq<Frame>, k: nat, k': nat)
    requires k <= k' <= |frames|
    ensures frames[..k] + frames[k..][..k' - k] == frames[..k']
  {
  }

  /** What the handler takes and keeps when a chunk follows the first n bytes. */
  lemma DrainAfter(wires: seq<seq<Byte>>, frames: seq<Frame>, n: nat, chunk: seq<Byte>)
    requires AreWires(wires, frames) && n <= |Join(wires)| && Join(wires)[..n] + chunk <= Join(wires)
    ensures n + |chunk| <= |Join(wires)| && Complete(wires, n) <= Complete(wires, n + |chunk|)
    ensures var stream, m := Join(wires), n + |chunk|;
      Drain(stream[n - Partial(wires, n)..n] + chunk) ==
        (frames[Complete(wires, n)..][..Complete(wires, m) - Complete(wires, n)],
         if Partial(wires, m) == 1 then [] else stream[m - Partial(wires, m)..m])
  {
    hide Drain;
    hide AreWires;
    hide Complete;
    hide Partial;
    hide Join;
    var stream, m := Join(wires), n + |chunk|;
    var k, l := Complete(wires, n), Partial(wires, n);
    FromLastCut(wires, n, |chunk|);
    StreamFromPartial(wires, n);
    SliceGrows(stream, n - l, n, chunk);
    var s := stream[n - l..n] + chunk;
    WiresFrom(wires, frames, k);
    assert |s| == l + |chunk|;
    DrainOfPrefix(wires[k..], frames[k..], s);
    SliceEnd(stream, n - l, m, Partial(wires, m));
  }

  /** One more delivery keeps the handler up to date exactly if it does not end one byte into a frame. */
  lemma OneMoreChunk(wires: seq<seq<Byte>>, frames: seq<Frame>, chunks: seq<seq<Byte>>, chunk: seq<Byte>)
    requires AreWires(wires, frames) && UpToDate(wires, frames, chunks)
    requires Join(chunks) + chunk <= Join(wires)
    ensures |Join(chunks + [chunk])| <= |Join(wires)|
    ensures UpToDate(wires, frames, chunks + [chunk]) <==> Partial(wires, |Join(chunks + [chunk])|) != 1
  {
    hide Drain;
    hide Feed;
    hide Complete;
    hide Partial;
    hide IsWire;
    var stream, n := Join(wires), |Join(chunks)|;
    assert Join(chunks) == stream[..n] by {
      assert Join(chunks) == (Join(chunks) + chunk)[..n];
    }
    JoinPush(chunks, chunk);
    FeedPush([], chunks, chunk);
    DrainAfter(wires, frames, n, chunk);
    FrameSlices(frames, Complete(wires, n), Complete(wires, n + |chunk|));
  }

  /** A delivery ends one byte into a frame. */
  predicate CutsOneByteIn(wires: seq<seq<Byte>>, chunks: seq<seq<Byte>>, i: nat)
    requires i <= |chunks|
  {
    Partial(wires, |Join(chunks[..i])|) == 1
  }

  /**
    However the stream is cut, the handler is up to date after every delivery if and only if no
    delivery ends exactly one byte into a frame.
   */
  lemma UpToDateThroughout(wires: seq<seq<Byte>>, frames: seq<Frame>, chunks: seq<seq<Byte>>)
    requires AreWires(wires, frames) && Join(chunks) <= Join(wires)
    ensures (forall i :: 0 <= i <= |chunks| ==> UpToDate(wires, frames, chunks[..i]))
      <==> (forall i :: 0 <= i <= |chunks| ==> !CutsOneByteIn(wires, chunks, i))
  {
    UpToDateUntil(wires, frames, chunks, |chunks|);
  }

  lemma {:induction false} UpToDateUntil(wires: seq<seq<Byte>>, frames: seq<Frame>, chunks: seq<seq<Byte>>, n: nat)
    requires AreWires(wires, frames) && Join(chunks) <= Join(wires) && n <= |chunks|
    ensures (forall i :: 0 <= i <= n ==> UpToDate(wires, frames, chunks[..i]))
      <==> (forall i :: 0 <= i <= n ==> !CutsOneByteIn(wires, chunks, i))
    decreases n
  {
    hide UpToDate;
    hide CutsOneByteIn;
    hide AreWires;
    hide Join;
    hide Partial;
    if n == 0 {
      StartsUpToDate(wires, frames, chunks);
    } else {
      UpToDateUntil(wires, frames, chunks, n - 1);
      if UpToDate(wires, frames, chunks[..n - 1]) {
        JoinPrefix(chunks, n);
        assert chunks[..n] == chunks[..n - 1] + [chunks[n - 1]];
        JoinPush(chunks[..n - 1], chunks[n - 1]);
        OneMoreChunk(wires, frames, chunks[..n - 1], chunks[n - 1]);
        CutMeaning(wires, chunks, n);
      }
    }
  }

  lemma CutMeaning(wires: seq<seq<Byte>>, chunks: seq<seq<Byte>>, i: nat)
    requires i <= |chunks|
    ensures CutsOneByteIn(wires, chunks, i) <==> Partial(wires, |Join(chunks[..i])|) == 1
  {
  }

  lemma StartsUpToDate(wires: seq<seq<Byte>>, frames: seq<Frame>, chunks: seq<seq<Byte>>)
    requires AreWires(wires, frames)
    ensures UpToDate(wires, frames, chunks[..0]) && !CutsOneByteIn(wires, chunks, 0)
  {
    assert chunks[..0] == [];
    assert Complete(wires, 0) == 0 by {
      if wires != [] { assert IsWire(wires[0], frames[0]); }
    }
  }

  lemma {:induction false} AllComplete(wires: seq<seq<Byte>>)
    ensures Complete(wires, |Join(wires)|) == |wires| && Partial(wires, |Join(wires)|) == 0
  {
    if wires != [] { AllComplete(wires[1..]); }
  }

  /** Cut anywhere but one byte into a frame, the stream gives its frames in order and leaves nothing kept. */
  lemma ChunkIndependence(wires: seq<seq<Byte>>, frames: seq<Frame>, chunks: seq<seq<Byte>>)
    requires AreWires(wires, frames) && Join(chunks) == Join(wires)
    requires forall i :: 0 <= i <= |chunks| ==> !CutsOneByteIn(wires, chunks, i)
    ensures Feed([], chunks) == (frames, [])
  {
    hide Feed;
    hide CutsOneByteIn;
    hide Complete;
    hide Partial;
    hide IsWire;
    UpToDateThroughout(wires, frames, chunks);
    AllComplete(wires);
    assert UpToDate(wires, frames, chunks[..|chunks|]);
    assert chunks[..|chunks|] == chunks && frames[..|frames|] == frames;
    var n := |Join(wires)|;
    assert Complete(wires, n) == |frames| && Partial(wires, n) == 0;
    assert Join(wires)[n - 0..n] == [];
  }

  /** Nonsense costs all that came with it after the frames before it, and nothing of what was taken. */
  lemma {:induction false} NonsenseDropsRest(wires: seq<seq<Byte>>, frames: seq<Frame>, s: seq<Byte>)
    requires AreWires(wires, frames) && |s| >= 2 && ReadFrame(s).Nonsense?
    ensures Drain(Join(wires) + s) == (frames, [])
    decreases |wires|
  {
    hide IsWire;
    hide ReadFrame;
    if wires == [] {
      assert Join(wires) + s == s;
    } else {
      var w, rest := wires[0], wires[1..];
      WiresFrom(wires, frames, 1);
      NonsenseDropsRest(rest, frames[1..], s);
      hide Drain;
      JoinFirst(wires);
      hide Join;
      var all := Join(wires) + s;
      assert all == w + (Join(rest) + s);
      assert all[|w|..] == Join(rest) + s && w == all[..|w|];
      assert IsWire(w, frames[0]);
      DrainFirst(w, frames[0], all);
      assert frames == [frames[0]] + frames[1..];
    }
  }

  /** A frame whose first byte comes alone is lost, whatever its encoding. */
  lemma OneByteCutLosesFrame(w: seq<Byte>, f: Frame)
    requires IsWire(w, f)
    ensures Feed([], [w]) == ([f], [])
    ensures f !in Feed([], [w[..1], w[1..]]).0
  {
    WholeFrameAlone(w, f);
    RestLacksFrame(w, f);
    hide Drain;
    hide ReadFrame;
    var a, b := w[..1], w[1..];
    FeedPush([], [], w);
    FeedPush([], [], a);
    FeedPush([], [a], b);
    LoneByteIsDropped(a);
    assert Feed([], []) == ([], []);
    assert [] + w == w && [] + a == a && [] + b == b;
    assert [] + [f] == [f] && [] + Drain(b).0 == Drain(b).0;
    assert [] + [w] == [w] && [] + [a] == [a] && [a] + [b] == [a, b];
  }

  lemma LoneByteIsDropped(a: seq<Byte>)
    requires |a| == 1
    ensures Drain(a) == ([], [])
  {
  }

  lemma WholeFrameAlone(w: seq<Byte>, f: Frame)
    requires IsWire(w, f)
    ensures Drain(w) == ([f], [])
  {
    WireIsRead(w, f);
    hide IsWire;
    hide ReadFrame;
    assert w[|w|..] == [];
    assert Drain(w[|w|..]) == ([], []);
    assert [f] + [] == [f];
  }

  /** A frame that is taken out fits in what there was. */
  lemma {:induction false} DrainedFits(s: seq<Byte>, f: Frame)
    requires f in Drain(s).0
    ensures |f.payload| + 2 <= |s|
    decreases |s|
  {
    hide ReadFrame;
    if |s| >= 2 && ReadFrame(s).Whole? {
      TotalFits(s);
      var g := ReadFrame(s);
      if f != g.frame {
        DrainedFits(s[g.total..], f);
      } else {
        PayloadFits(s);
      }
    }
  }

  lemma PayloadFits(s: seq<Byte>)
    requires |s| >= 2 && ReadFrame(s).Whole?
    ensures |ReadFrame(s).frame.payload| + 2 <= |s|
  {
  }

  /** Without its first byte a frame is nonsense, or shorter than what it carried. */
  lemma RestLacksFrame(w: seq<Byte>, f: Frame)
    requires IsWire(w, f)
    ensures f !in Drain(w[1..]).0
  {
    var s := w[1..];
    if w[1] >= 126 {
      assert |s| >= 2 ==> s[0] == w[1] && ReadFrame(s) == Nonsense;
    } else {
      assert |f.payload| == |w| - 2;
      hide ReadFrame;
      if f in Drain(s).0 {
        DrainedFits(s, f);
      }
    }
  }
}
