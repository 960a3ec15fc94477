/**
  UTF-8: decoding one code point, encoding one, and encoding a whole buffer of code points into the
  memory the code points are stored in.  Masks and shifts are written as remainders and quotients.
 */
module Utf8 {
  import opened Options

  import opened Bytes

  datatype Decoded = Done(uc: int, size: nat) | Empty | Invalid

  predicate IsCont(b: Byte) {
    0x80 <= b < 0xC0
  }

  /** The payload bits of two, three and four bytes. */
  function Join2(a: int, b: int): int {
    a % 0x20 * 0x40 + b % 0x40
  }

  function Join3(a: int, b: int, c: int): int {
    a % 0x10 * 0x1000 + b % 0x40 * 0x40 + c % 0x40
  }

  function Join4(a: int, b: int, c: int, d: int): int {
    a % 8 * 0x40000 + b % 0x40 * 0x1000 + c % 0x40 * 0x40 + d % 0x40
  }

  /** utf8proc_iterate on the bytes from the current position to the end. */
  function Iterate(s: seq<Byte>): Decoded {
    if s == [] then Empty
    else
      var uc := s[0];
      if uc < 0x80 then Done(uc, 1)
      else if uc < 0xC2 || uc > 0xF4 then Invalid
      else if uc < 0xE0 then
        if |s| < 2 || !IsCont(s[1]) then Invalid
        else Done(Join2(uc, s[1]), 2)
      else if uc < 0xF0 then
        if |s| < 3 || !IsCont(s[1]) || !IsCont(s[2]) then Invalid
        else if uc == 0xED && s[1] > 0x9F then Invalid
        else
          var v := Join3(uc, s[1], s[2]);
          if v < 0x800 then Invalid else Done(v, 3)
      else
        if |s| < 4 || !IsCont(s[1]) || !IsCont(s[2]) || !IsCont(s[3]) then Invalid
        else if uc == 0xF0 && s[1] < 0x90 then Invalid
        else if uc == 0xF4 && s[1] > 0x8F then Invalid
        else Done(Join4(uc, s[1], s[2], s[3]), 4)
  }

  /** utf8proc_encode_char: nothing for what is no code point; surrogates are encoded. */
  function EncodeChar(uc: int): (s: seq<Byte>)
    ensures |s| <= 4
  {
    if uc < 0 then []
    else if uc < 0x80 then [uc]
    else if uc < 0x800 then [0xC0 + uc / 0x40, 0x80 + uc % 0x40]
    else if uc < 0x10000 then [0xE0 + uc / 0x1000, 0x80 + uc / 0x40 % 0x40, 0x80 + uc % 0x40]
    else if uc < 0x110000 then
      [0xF0 + uc / 0x40000, 0x80 + uc / 0x1000 % 0x40, 0x80 + uc / 0x40 % 0x40, 0x80 + uc % 0x40]
    else []
  }

  /** charbound_encode_char: the marker of a grapheme break becomes a byte that UTF-8 never uses. */
  function CharboundEncodeChar(uc: int): (s: seq<Byte>)
    ensures |s| <= 4
  {
    if uc == -1 then [0xFF] else EncodeChar(uc)
  }

  /** utf8proc_codepoint_valid */
  predicate IsScalar(uc: int) {
    0 <= uc < 0x110000 && !(0xD800 <= uc < 0xE000)
  }

  // ---------------------------------------------------------------- against RFC 3629

  /** UTF8-char of section 4 of RFC 3629. */
  predicate IsUtf8Char(s: seq<Byte>) {
    || (|s| == 1 && s[0] <= 0x7F)
    || (|s| == 2 && 0xC2 <= s[0] <= 0xDF && IsTail(s[1]))
    || (|s| == 3 && IsTail(s[2]) &&
        (|| (s[0] == 0xE0 && 0xA0 <= s[1] <= 0xBF)
         || (0xE1 <= s[0] <= 0xEC && IsTail(s[1]))
         || (s[0] == 0xED && 0x80 <= s[1] <= 0x9F)
         || (0xEE <= s[0] <= 0xEF && IsTail(s[1]))))
    || (|s| == 4 && IsTail(s[2]) && IsTail(s[3]) &&
        (|| (s[0] == 0xF0 && 0x90 <= s[1] <= 0xBF)
         || (0xF1 <= s[0] <= 0xF3 && IsTail(s[1]))
         || (s[0] == 0xF4 && 0x80 <= s[1] <= 0x8F)))
  }

  predicate IsTail(b: Byte) {
    0x80 <= b <= 0xBF
  }

  /** A decoded prefix is a character of the grammar, and any character of the grammar is decoded. */
  lemma AcceptsExactlyTheGrammar(s: seq<Byte>, n: nat)
    ensures (Iterate(s).Done? && Iterate(s).size == n) <==> (0 < n <= |s| && IsUtf8Char(s[..n]))
  {
  }

  /** The number that a character of the grammar stands for, by the table in section 3 of RFC 3629. */
  function CharNumber(s: seq<Byte>): int
    requires IsUtf8Char(s)
  {
    if |s| == 1 then s[0]
    else if |s| == 2 then (s[0] - 0xC0) as int * 0x40 + (s[1] - 0x80)
    else if |s| == 3 then (s[0] - 0xE0) as int * 0x1000 + (s[1] - 0x80) as int * 0x40 + (s[2] - 0x80)
    else
      (s[0] - 0xF0) as int * 0x40000 + (s[1] - 0x80) as int * 0x1000 + (s[2] - 0x80) as int * 0x40 + (s[3] - 0x80)
  }

  lemma DecodesByTable(s: seq<Byte>)
    requires Iterate(s).Done?
    ensures var n := Iterate(s).size; 0 < n <= |s| && IsUtf8Char(s[..n]) && Iterate(s).uc == CharNumber(s[..n])
  {
    var n := Iterate(s).size;
    AcceptsExactlyTheGrammar(s, n);
    JoinsBySize(s);
    hide Iterate;
    hide IsUtf8Char;
    hide Join2;
    hide Join3;
    hide Join4;
    var t := s[..n];
    assert forall i :: 0 <= i < n ==> t[i] == s[i];
    if n == 2 {
      JoinedBits(s[0], s[1], 0x80, 0x80);
    } else if n == 3 {
      JoinedBits(s[0], s[1], s[2], 0x80);
    } else if n == 4 {
      JoinedBits(s[0], s[1], s[2], s[3]);
    }
  }

  lemma JoinsBySize(s: seq<Byte>)
    requires Iterate(s).Done?
    ensures match Iterate(s).size
      case 1 => Iterate(s).uc == s[0]
      case 2 => |s| >= 2 && 0xC0 <= s[0] < 0xE0 && IsCont(s[1]) && Iterate(s).uc == Join2(s[0], s[1])
      case 3 => |s| >= 3 && 0xE0 <= s[0] < 0xF0 && IsCont(s[1]) && IsCont(s[2]) && Iterate(s).uc == Join3(s[0], s[1], s[2])
      case n =>
        && n == 4 && |s| >= 4 && 0xF0 <= s[0] < 0xF8 && IsCont(s[1]) && IsCont(s[2]) && IsCont(s[3])
        && Iterate(s).uc == Join4(s[0], s[1], s[2], s[3])
  {
    hide Join2;
    hide Join3;
    hide Join4;
  }

  lemma JoinedBits(a: Byte, b: Byte, c: Byte, d: Byte)
    requires a >= 0xC0 && IsCont(b) && IsCont(c) && IsCont(d)
    ensures a < 0xE0 ==> Join2(a, b) == (a - 0xC0) as int * 0x40 + (b - 0x80)
    ensures 0xE0 <= a < 0xF0 ==> Join3(a, b, c) == (a - 0xE0) as int * 0x1000 + (b - 0x80) as int * 0x40 + (c - 0x80)
    ensures 0xF0 <= a < 0xF8 ==>
      Join4(a, b, c, d) == (a - 0xF0) as int * 0x40000 + (b - 0x80) as int * 0x1000 + (c - 0x80) as int * 0x40 + (d - 0x80)
  {
    assert b % 0x40 == b - 0x80 && c % 0x40 == c - 0x80 && d % 0x40 == d - 0x80;
    assert a < 0xE0 ==> a % 0x20 == a - 0xC0;
    assert 0xE0 <= a < 0xF0 ==> a % 0x10 == a - 0xE0;
    assert 0xF0 <= a < 0xF8 ==> a % 8 == a - 0xF0;
  }

  lemma Split2(a: int, b: int)
    requires 0xC0 <= a < 0xE0 && 0x80 <= b < 0xC0
    ensures var v := Join2(a, b); 0xC0 + v / 0x40 == a && 0x80 + v % 0x40 == b
  {
  }

  lemma Split3(a: int, b: int, c: int)
    requires 0xE0 <= a < 0xF0 && 0x80 <= b < 0xC0 && 0x80 <= c < 0xC0
    ensures var v := Join3(a, b, c); 0xE0 + v / 0x1000 == a && 0x80 + v / 0x40 % 0x40 == b && 0x80 + v % 0x40 == c
  {
    var v := Join3(a, b, c);
    assert v / 0x40 == (a - 0xE0) * 0x40 + (b - 0x80);
  }

  lemma Split4(a: int, b: int, c: int, d: int)
    requires 0xF0 <= a < 0xF8 && 0x80 <= b < 0xC0 && 0x80 <= c < 0xC0 && 0x80 <= d < 0xC0
    ensures var v := Join4(a, b, c, d);
      0xF0 + v / 0x40000 == a && 0x80 + v / 0x1000 % 0x40 == b && 0x80 + v / 0x40 % 0x40 == c && 0x80 + v % 0x40 == d
  {
    var x := a - 0xF0;
    var y := x * 0x40 + (b - 0x80);
    var z := y * 0x40 + (c - 0x80);
    assert Join4(a, b, c, d) == z * 0x40 + (d - 0x80);
    hide Join4;
    SixBits(x, b - 0x80);
    SixBits(y, c - 0x80);
    SixBits(z, d - 0x80);
    Quotients(Join4(a, b, c, d));
  }

  lemma SixBits(q: int, r: int)
    requires 0 <= r < 0x40
    ensures (q * 0x40 + r) / 0x40 == q && (q * 0x40 + r) % 0x40 == r
  {
  }

  lemma Quotients(v: int)
    ensures v / 0x1000 == v / 0x40 / 0x40 && v / 0x40000 == v / 0x1000 / 0x40
  {
  }

  lemma DecodesToScalar(s: seq<Byte>)
    requires Iterate(s).Done?
    ensures IsScalar(Iterate(s).uc) && 0 < Iterate(s).size <= |s|
  {
    DecodesByTable(s);
    JoinsBySize(s);
    hide Join2;
    hide Join3;
    hide Join4;
  }

  /** The shortest form was used. */
  lemma SizeFitsValue(s: seq<Byte>)
    requires Iterate(s).Done?
    ensures match Iterate(s).size
      case 1 => Iterate(s).uc < 0x80
      case 2 => 0x80 <= Iterate(s).uc < 0x800
      case 3 => 0x800 <= Iterate(s).uc < 0x10000
      case _ => 0x10000 <= Iterate(s).uc
  {
  }

  lemma DecodeThenEncode(s: seq<Byte>)
    requires Iterate(s).Done?
    ensures EncodeChar(Iterate(s).uc) == s[..Iterate(s).size]
  {
    hide Join2;
    hide Join3;
    hide Join4;
    DecodesToScalar(s);
    SizeFitsValue(s);
    var a, n := s[0], Iterate(s).size;
    if n == 2 {
      Split2(a, s[1]);
    } else if n == 3 {
      Split3(a, s[1], s[2]);
    } else if n == 4 {
      Split4(a, s[1], s[2], s[3]);
    }
  }

  lemma Rejoin2(uc: int)
    requires 0 <= uc < 0x800
    ensures Join2(0xC0 + uc / 0x40, 0x80 + uc % 0x40) == uc
  {
  }

  lemma Rejoin3(uc: int)
    requires 0 <= uc < 0x10000
    ensures Join3(0xE0 + uc / 0x1000, 0x80 + uc / 0x40 % 0x40, 0x80 + uc % 0x40) == uc
  {
    assert uc / 0x1000 == uc / 0x40 / 0x40;
  }

  lemma Rejoin4(uc: int)
    requires 0 <= uc < 0x110000
    ensures Join4(0xF0 + uc / 0x40000, 0x80 + uc / 0x1000 % 0x40, 0x80 + uc / 0x40 % 0x40, 0x80 + uc % 0x40) == uc
  {
    assert uc / 0x1000 == uc / 0x40 / 0x40;
    assert uc / 0x40000 == uc / 0x1000 / 0x40;
  }

  lemma EncodeThenDecode(uc: int, rest: seq<Byte>)
    requires IsScalar(uc)
    ensures Iterate(EncodeChar(uc) + rest) == Done(uc, |EncodeChar(uc)|)
  {
    hide Join2;
    hide Join3;
    hide Join4;
    if uc < 0x800 {
      Rejoin2(uc);
    } else if uc < 0x10000 {
      Rejoin3(uc);
    } else {
      Rejoin4(uc);
    }
    var e := EncodeChar(uc);
    var s := e + rest;
    assert forall i :: 0 <= i < |e| ==> s[i] == e[i];
  }

  // ---------------------------------------------------------------- a whole buffer

  function Encoded(uc: int, charbound: bool): (s: seq<Byte>)
    ensures |s| <= 4
  {
    if charbound then CharboundEncodeChar(uc) else EncodeChar(uc)
  }

  function EncodeAll(cps: seq<int>, charbound: bool): seq<Byte> {
    if cps == [] then [] else Encoded(cps[0], charbound) + EncodeAll(cps[1..], charbound)
  }

  lemma {:induction false} EncodeAllPush(cps: seq<int>, uc: int, charbound: bool)
    ensures EncodeAll(cps + [uc], charbound) == EncodeAll(cps, charbound) + Encoded(uc, charbound)
  {
    var all := cps + [uc];
    if cps == [] {
      assert all[1..] == [];
    } else {
      assert all[0] == cps[0] && all[1..] == cps[1..] + [uc];
      EncodeAllPush(cps[1..], uc, charbound);
    }
  }

  /** The 32-bit code point stored little-endian in bytes 4i to 4i + 3. */
  function Load(mem: seq<Byte>, i: nat): int
    requires 4 * i + 4 <= |mem|
  {
    Signed32(mem[4 * i], mem[4 * i + 1], mem[4 * i + 2], mem[4 * i + 3])
  }

  function Signed32(a: int, b: int, c: int, d: int): int {
    var v := a + 0x100 * b + 0x10000 * c + 0x1000000 * d;
    if v < 0x80000000 then v else v - 0x100000000
  }

  function LoadAll(mem: seq<Byte>, length: nat): (cps: seq<int>)
    requires 4 * length <= |mem|
    ensures |cps| == length
  {
    seq(length, i requires 0 <= i < length => Load(mem, i))
  }

  method Put(mem: array<Byte>, w: nat, bytes: seq<Byte>)
    requires w + |bytes| <= mem.Length
    modifies mem
    ensures mem[..] == old(mem[..w]) + bytes + old(mem[w + |bytes|..])
  {
    var k := 0;
    while k < |bytes|
      invariant 0 <= k <= |bytes|
      invariant mem[..w] == old(mem[..w]) && mem[w..w + k] == bytes[..k]
      invariant mem[w + k..] == old(mem[w + k..])
    {
      mem[w + k] := bytes[k];
      k := k + 1;
    }
  }

  /**
    utf8proc_reencode without newline conversion and composition: the bytes are written over the code
    points they come from, and no code point is overwritten before it is read.
   */
  method Reencode(mem: array<Byte>, length: nat, charbound: bool) returns (wpos: nat)
    requires 4 * length + 1 <= mem.Length
    modifies mem
    ensures wpos <= 4 * length && mem[wpos] == 0
    ensures mem[..wpos] == EncodeAll(LoadAll(old(mem[..]), length), charbound)
  {
    hide EncodeAll;
    hide Encoded;
    hide Signed32;
    EncodeAllNil(charbound);
    ghost var before := mem[..];
    ghost var cps := LoadAll(before, length);
    wpos := 0;
    var rpos := 0;
    while rpos < length
      invariant rpos <= length && wpos <= 4 * rpos
      invariant mem[..wpos] == EncodeAll(cps[..rpos], charbound)
      invariant mem[4 * rpos..] == before[4 * rpos..]
    {
      ghost var now := mem[..];
      assert now[4 * rpos..][..4] == before[4 * rpos..][..4];
      var uc := Signed32(mem[4 * rpos], mem[4 * rpos + 1], mem[4 * rpos + 2], mem[4 * rpos + 3]);
      SameLoad(now, before, rpos);
      var bytes := Encoded(uc, charbound);
      Put(mem, wpos, bytes);
      EncodeAllPush(cps[..rpos], uc, charbound);
      assert cps[..rpos + 1] == cps[..rpos] + [uc];
      Unread(now, mem[..], before, wpos, bytes, rpos);
      wpos := wpos + |bytes|;
      rpos := rpos + 1;
    }
    mem[wpos] := 0;
    assert cps[..rpos] == cps;
  }

  lemma SameLoad(a: seq<Byte>, b: seq<Byte>, i: nat)
    requires |a| == |b| && 4 * i + 4 <= |a| && a[4 * i..] == b[4 * i..]
    ensures Load(a, i) == Load(b, i)
  {
    forall k | 4 * i <= k < |a|
      ensures a[k] == b[k]
    {
      assert a[4 * i..][k - 4 * i] == b[4 * i..][k - 4 * i];
    }
  }

  lemma Unread(now: seq<Byte>, after: seq<Byte>, before: seq<Byte>, w: nat, bytes: seq<Byte>, r: nat)
    requires |now| == |after| == |before| && 4 * r + 4 <= |now| && w <= 4 * r && |bytes| <= 4
    requires now[4 * r..] == before[4 * r..]
    requires after == now[..w] + bytes + now[w + |bytes|..]
    ensures after[4 * (r + 1)..] == before[4 * (r + 1)..]
    ensures after[..w + |bytes|] == now[..w] + bytes
  {
    forall k | 4 * (r + 1) <= k < |now|
      ensures after[k] == before[k]
    {
      assert now[4 * r..][k - 4 * r] == before[4 * r..][k - 4 * r];
    }
  }

  // ---------------------------------------------------------------- reading it back

  /** The reading loop of utf8proc_decompose_custom; with markers, the byte 0xFF stands for -1. */
  function DecodeAll(s: seq<Byte>, charbound: bool): Option<seq<int>> {
    if s == [] then Some([])
    else if charbound && s[0] == 0xFF then
      var r := DecodeAll(s[1..], charbound);
      if r == None then None else Some([-1] + r.value)
    else if !Iterate(s).Done? then None
    else
      DecodesToScalar(s);
      var d := Iterate(s);
      var r := DecodeAll(s[d.size..], charbound);
      if r == None then None else Some([d.uc] + r.value)
  }

  predicate IsText(cps: seq<int>, charbound: bool) {
    forall i :: 0 <= i < |cps| ==> IsScalar(cps[i]) || (charbound && cps[i] == -1)
  }

  lemma NeverMarker(uc: int)
    requires IsScalar(uc)
    ensures EncodeChar(uc) != [] && EncodeChar(uc)[0] != 0xFF
  {
  }

  /** Text, with or without grapheme markers, survives re-encoding. */
  lemma {:induction false} EncodedTextReadsBack(cps: seq<int>, charbound: bool)
    requires IsText(cps, charbound)
    ensures DecodeAll(EncodeAll(cps, charbound), charbound) == Some(cps)
  {
    hide Iterate;
    hide EncodeChar;
    if cps != [] {
      var e, rest := Encoded(cps[0], charbound), EncodeAll(cps[1..], charbound);
      EncodedTextReadsBack(cps[1..], charbound);
      assert (e + rest)[|e|..] == rest;
      if cps[0] == -1 {
        assert (e + rest)[0] == 0xFF;
      } else {
        EncodeThenDecode(cps[0], rest);
        NeverMarker(cps[0]);
        assert (e + rest)[0] == e[0];
      }
      assert cps == [cps[0]] + cps[1..];
    }
  }

  lemma EncodeAllNil(charbound: bool)
    ensures EncodeAll([], charbound) == []
  {
  }

  lemma EncodeAllCons(uc: int, cps: seq<int>, charbound: bool)
    ensures EncodeAll([uc] + cps, charbound) == Encoded(uc, charbound) + EncodeAll(cps, charbound)
    ensures IsText([uc], charbound) && IsText(cps, charbound) ==> IsText([uc] + cps, charbound)
  {
    assert ([uc] + cps)[1..] == cps;
    assert [uc][0] == uc;
  }

  /** Bytes that read as text are the encoding of that text, and of nothing else. */
  lemma {:induction false} ReadTextEncodesBack(s: seq<Byte>, charbound: bool)
    requires DecodeAll(s, charbound).Some?
    ensures var cps := DecodeAll(s, charbound).value; IsText(cps, charbound) && EncodeAll(cps, charbound) == s
    decreases |s|
  {
    hide EncodeAll;
    hide EncodeChar;
    hide Iterate;
    EncodeAllNil(charbound);
    if s != [] {
      var marker := charbound && s[0] == 0xFF;
      if !marker {
        DecodesToScalar(s);
        DecodeThenEncode(s);
      }
      var n, uc := if marker then 1 else Iterate(s).size, if marker then -1 else Iterate(s).uc;
      ReadTextEncodesBack(s[n..], charbound);
      assert IsText([uc], charbound);
      EncodeAllCons(uc, DecodeAll(s[n..], charbound).value, charbound);
      assert s[..n] + s[n..] == s && Encoded(uc, charbound) == s[..n];
    }
  }
}
