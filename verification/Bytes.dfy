/**
  Bytes, numbers in network byte order, exclusive or, and the program's growable byte buffer.
 */
module Bytes {
  import opened GrowthPolicy

  type Byte = b: int | 0 <= b < 256

  /** The unsigned number that the bytes spell, most significant first. */
  function BigEndian(s: seq<Byte>): nat {
    if s == [] then 0 else 256 * BigEndian(s[..|s| - 1]) + s[|s| - 1]
  }

  /** The n bytes of a number, most significant first. */
  function ToBigEndian(v: nat, n: nat): (s: seq<Byte>)
    ensures |s| == n
  {
    if n == 0 then [] else ToBigEndian(v / 256, n - 1) + [v % 256]
  }

  function Power256(n: nat): (p: nat)
    ensures p > 0
  {
    if n == 0 then 1 else 256 * Power256(n - 1)
  }

  lemma {:induction false} BigEndianReadsBack(v: nat, n: nat)
    requires v < Power256(n)
    ensures BigEndian(ToBigEndian(v, n)) == v
  {
    if n > 0 {
      BigEndianReadsBack(v / 256, n - 1);
      var s := ToBigEndian(v, n);
      assert s[..n - 1] == ToBigEndian(v / 256, n - 1);
    }
  }

  /** Bitwise exclusive or, digit by digit on base 2. */
  function Xor(a: nat, b: nat): nat
    decreases a + b
  {
    if a == 0 then b else if b == 0 then a
    else (a + b) % 2 + 2 * Xor(a / 2, b / 2)
  }

  lemma {:induction false} XorTwice(a: nat, b: nat)
    ensures Xor(Xor(a, b), b) == a
    decreases a + b
  {
    if a == 0 {
      XorSelf(b);
    } else if b != 0 {
      XorTwice(a / 2, b / 2);
      hide Xor;
      var x := Xor(a, b);
      XorSplits(a, b);
      XorSplits(x, b);
      var h := Xor(a / 2, b / 2);
      assert x == (a + b) % 2 + 2 * h;
      assert x / 2 == h;
      SameParity(a, b, x);
    }
  }

  lemma SameParity(a: nat, b: nat, x: nat)
    requires x % 2 == (a + b) % 2
    ensures (x + b) % 2 == a % 2
  {
  }

  lemma {:induction false} XorSelf(a: nat)
    ensures Xor(a, a) == 0
  {
    if a != 0 { XorSelf(a / 2); }
  }

  lemma {:induction false} XorSplits(a: nat, b: nat)
    ensures Xor(a, b) == (a + b) % 2 + 2 * Xor(a / 2, b / 2)
  {
  }

  lemma {:induction false} XorBounded(a: nat, b: nat, k: nat)
    requires a < Pow2(k) && b < Pow2(k)
    ensures Xor(a, b) < Pow2(k)
    decreases k
  {
    if k > 0 && a != 0 && b != 0 {
      XorBounded(a / 2, b / 2, k - 1);
    }
  }

  /** A bit of an exclusive or is set where the two differ. */
  lemma {:induction false} BitOfXor(a: nat, b: nat, k: nat)
    ensures Bit(Xor(a, b), k) <==> Bit(a, k) != Bit(b, k)
    decreases k
  {
    XorSplits(a, b);
    XorHalves(a, b);
    hide Xor;
    if k > 0 {
      BitOfXor(a / 2, b / 2, k - 1);
    }
  }

  lemma XorHalves(a: nat, b: nat)
    ensures Xor(a, b) % 2 == (a + b) % 2 && Xor(a, b) / 2 == Xor(a / 2, b / 2)
  {
    XorSplits(a, b);
    hide Xor;
    Halved(Xor(a, b), a + b, Xor(a / 2, b / 2));
  }

  lemma Halved(x: nat, p: nat, h: nat)
    requires x == p % 2 + 2 * h
    ensures x % 2 == p % 2 && x / 2 == h
  {
  }

  function XorByte(a: Byte, b: Byte): Byte {
    assert Pow2(8) == 256;
    XorBounded(a, b, 8);
    Xor(a, b)
  }

  /** A length, a capacity and an array of bytes; a write that does not fit is cut off. */
  class Buffer {
    var len: nat
    var ptr: array<Byte>

    ghost predicate Valid()
      reads this
    {
      len <= ptr.Length
    }

    /** The bytes that have been written: `span()`. */
    function Span(): (s: seq<Byte>)
      requires Valid()
      reads this, ptr
    {
      ptr[..len]
    }

    function Remaining(): nat
      requires Valid()
      reads this
    {
      ptr.Length - len
    }

    constructor (cap: nat)
      ensures Valid() && fresh(ptr) && Span() == [] && ptr.Length == cap
    {
      len := 0;
      ptr := new Byte[cap](_ => 0);
    }

    method Clear()
      requires Valid()
      modifies this, ptr
      ensures Valid() && Span() == [] && ptr == old(ptr)
      ensures (forall i :: 0 <= i < old(len) ==> ptr[i] == 0) && ptr[old(len)..] == old(ptr[len..])
    {
      var i := 0;
      while i < len
        invariant i <= len <= ptr.Length && ptr == old(ptr)
        invariant (forall k :: 0 <= k < i ==> ptr[k] == 0) && ptr[len..] == old(ptr[len..])
        modifies ptr
      {
        ptr[i] := 0;
        i := i + 1;
      }
      len := 0;
    }

    /** How many bytes were written: all, or as many as there was room for. */
    method Write(data: seq<Byte>) returns (todo: nat)
      requires Valid()
      modifies this`len, ptr
      ensures Valid() && ptr == old(ptr)
      ensures todo == if |data| <= old(Remaining()) then |data| else old(Remaining())
      ensures Span() == old(Span()) + data[..todo]
    {
      todo := if |data| <= ptr.Length - len then |data| else ptr.Length - len;
      var i := 0;
      while i < todo
        invariant 0 <= i <= todo && len + todo <= ptr.Length
        invariant ptr[..len] == old(ptr[..len]) && ptr[len..len + i] == data[..i]
        modifies ptr
      {
        ptr[len + i] := data[i];
        i := i + 1;
      }
      assert ptr[..len + todo] == ptr[..len] + ptr[len..len + todo];
      len := len + todo;
    }

    /** Only ever expands. */
    method Resize(sz: nat)
      requires Valid()
      modifies this
      ensures Valid() && Span() == old(Span())
      ensures ptr.Length == if sz < old(ptr.Length) then old(ptr.Length) else sz
      ensures if sz < old(ptr.Length) then ptr == old(ptr) else fresh(ptr)
    {
      if sz < ptr.Length {
        return;
      }
      var tmp := new Byte[sz](_ => 0);
      var i := 0;
      while i < len
        invariant 0 <= i <= len <= ptr.Length <= sz && tmp[..i] == ptr[..i]
        modifies tmp
      {
        tmp[i] := ptr[i];
        i := i + 1;
      }
      ptr := tmp;
    }

    /** grow(sz): expands by the given number of bytes. */
    method GrowBy(sz: nat)
      requires Valid()
      modifies this
      ensures Valid() && Span() == old(Span())
      ensures ptr.Length == old(ptr.Length) + sz && fresh(ptr)
    {
      Resize(ptr.Length + sz);
    }

    /** grow(): expands to 1.6 times the capacity, rounded down. */
    method Grow()
      requires Valid()
      modifies this
      ensures Valid() && Span() == old(Span())
      ensures ptr.Length == old(ptr.Length) * 8 / 5 && fresh(ptr)
    {
      Resize(ptr.Length * 8 / 5);
    }
  }
}
