/**
  Canonical ordering of combining marks: a loop that walks back and forth over the code points and
  swaps neighbours in place.  The combining class of a code point is an arbitrary function.
 */
module CanonicalOrder {

  /** The two neighbours are out of order: neither is a starter, and the first has the higher class. */
  predicate Swappable(ccc: int -> nat, x: int, y: int) {
    ccc(x) > ccc(y) > 0
  }

  // ---------------------------------------------------------------- reference

  /** x goes behind all marks of lower class at the front of t; starters are never passed. */
  function Insert(ccc: int -> nat, x: int, t: seq<int>): seq<int> {
    if t == [] || !Swappable(ccc, x, t[0]) then [x] + t
    else [t[0]] + Insert(ccc, x, t[1..])
  }

  /** Insertion sort that keeps equals in order and starters in place. */
  function Ordered(ccc: int -> nat, s: seq<int>): seq<int> {
    if s == [] then [] else Insert(ccc, s[0], Ordered(ccc, s[1..]))
  }

  /** Only marks, no starters. */
  predicate IsRun(ccc: int -> nat, s: seq<int>) {
    forall i :: 0 <= i < |s| ==> ccc(s[i]) > 0
  }

  predicate SortedByClass(ccc: int -> nat, s: seq<int>) {
    forall i :: 0 < i < |s| ==> ccc(s[i - 1]) <= ccc(s[i])
  }

  /** The code points of one class, in their order. */
  function OfClass(ccc: int -> nat, s: seq<int>, k: nat): seq<int> {
    if s == [] then [] else (if ccc(s[0]) == k then [s[0]] else []) + OfClass(ccc, s[1..], k)
  }

  /** t is s sorted by class, with code points of equal class in the order they had. */
  ghost predicate IsStableSort(ccc: int -> nat, t: seq<int>, s: seq<int>) {
    SortedByClass(ccc, t) && forall k: nat :: OfClass(ccc, t, k) == OfClass(ccc, s, k)
  }

  // ---------------------------------------------------------------- the reference is the stable sort of each run

  lemma {:induction false} InsertSorted(ccc: int -> nat, x: int, t: seq<int>)
    requires ccc(x) > 0 && IsRun(ccc, t) && SortedByClass(ccc, t)
    ensures IsRun(ccc, Insert(ccc, x, t)) && SortedByClass(ccc, Insert(ccc, x, t))
    ensures Insert(ccc, x, t)[0] == x || (t != [] && Insert(ccc, x, t)[0] == t[0])
  {
    if t != [] && Swappable(ccc, x, t[0]) {
      InsertSorted(ccc, x, t[1..]);
    }
  }

  lemma {:induction false} InsertOfClass(ccc: int -> nat, x: int, t: seq<int>, k: nat)
    ensures OfClass(ccc, Insert(ccc, x, t), k) == OfClass(ccc, [x] + t, k)
  {
    if t != [] && Swappable(ccc, x, t[0]) {
      var r := Insert(ccc, x, t[1..]);
      InsertOfClass(ccc, x, t[1..], k);
      OfClassCons(ccc, t[0], r, k);
      OfClassCons(ccc, x, t[1..], k);
      OfClassCons(ccc, x, t, k);
    }
  }

  lemma OfClassCons(ccc: int -> nat, x: int, t: seq<int>, k: nat)
    ensures OfClass(ccc, [x] + t, k) == (if ccc(x) == k then [x] else []) + OfClass(ccc, t, k)
  {
    assert ([x] + t)[1..] == t;
  }

  lemma {:induction false} RunIsStablySorted(ccc: int -> nat, s: seq<int>)
    requires IsRun(ccc, s)
    ensures IsRun(ccc, Ordered(ccc, s)) && IsStableSort(ccc, Ordered(ccc, s), s)
  {
    if s != [] {
      var r := Ordered(ccc, s[1..]);
      RunIsStablySorted(ccc, s[1..]);
      InsertSorted(ccc, s[0], r);
      forall k: nat
        ensures OfClass(ccc, Ordered(ccc, s), k) == OfClass(ccc, s, k)
      {
        InsertOfClass(ccc, s[0], r, k);
        OfClassCons(ccc, s[0], r, k);
      }
    }
  }

  lemma {:induction false} OfClassOccurs(ccc: int -> nat, s: seq<int>, i: nat)
    requires i < |s|
    ensures OfClass(ccc, s, ccc(s[i])) != []
  {
    if i > 0 { OfClassOccurs(ccc, s[1..], i - 1); }
  }

  lemma {:induction false} OfClassNone(ccc: int -> nat, s: seq<int>, k: nat)
    requires forall i :: 0 <= i < |s| ==> ccc(s[i]) != k
    ensures OfClass(ccc, s, k) == []
  {
    if s != [] { OfClassNone(ccc, s[1..], k); }
  }

  lemma {:induction false} FirstIsLeast(ccc: int -> nat, s: seq<int>, i: nat)
    requires SortedByClass(ccc, s) && i < |s|
    ensures ccc(s[0]) <= ccc(s[i])
  {
    if i > 0 { FirstIsLeast(ccc, s, i - 1); }
  }

  /** If a class occurs in s, the first of s has no higher one. */
  lemma FirstBelow(ccc: int -> nat, s: seq<int>, k: nat)
    requires SortedByClass(ccc, s) && OfClass(ccc, s, k) != []
    ensures s != [] && ccc(s[0]) <= k
  {
    if s != [] && ccc(s[0]) > k {
      forall i | 0 <= i < |s|
        ensures ccc(s[i]) != k
      {
        FirstIsLeast(ccc, s, i);
      }
      OfClassNone(ccc, s, k);
    }
  }

  lemma SameFirst(ccc: int -> nat, t: seq<int>, u: seq<int>, k: nat)
    requires t != [] && u != [] && ccc(t[0]) == ccc(u[0]) == k && OfClass(ccc, t, k) == OfClass(ccc, u, k)
    ensures t[0] == u[0]
  {
    var a, b := OfClass(ccc, t, k), OfClass(ccc, u, k);
    assert a == [t[0]] + OfClass(ccc, t[1..], k) && b == [u[0]] + OfClass(ccc, u[1..], k);
    assert a[0] == t[0] && b[0] == u[0];
  }

  /** There is only one stable sort. */
  lemma {:induction false} StableSortIsUnique(ccc: int -> nat, t: seq<int>, u: seq<int>)
    requires SortedByClass(ccc, t) && SortedByClass(ccc, u)
    requires forall k: nat :: OfClass(ccc, t, k) == OfClass(ccc, u, k)
    ensures t == u
    decreases |t|
  {
    if t != [] {
      OfClassOccurs(ccc, t, 0);
      FirstBelow(ccc, u, ccc(t[0]));
      OfClassOccurs(ccc, u, 0);
      FirstBelow(ccc, t, ccc(u[0]));
      var k := ccc(t[0]);
      SameFirst(ccc, t, u, k);
      forall j: nat
        ensures OfClass(ccc, t[1..], j) == OfClass(ccc, u[1..], j)
      {
        var x := if k == j then [t[0]] else [];
        assert OfClass(ccc, t, j) == x + OfClass(ccc, t[1..], j);
        assert OfClass(ccc, u, j) == x + OfClass(ccc, u[1..], j);
        assert OfClass(ccc, t[1..], j) == (x + OfClass(ccc, t[1..], j))[|x|..];
        assert OfClass(ccc, u[1..], j) == (x + OfClass(ccc, u[1..], j))[|x|..];
      }
      StableSortIsUnique(ccc, t[1..], u[1..]);
    }
  }

  lemma {:induction false} InsertBeforeStarter(ccc: int -> nat, x: int, a: seq<int>, z: int, b: seq<int>)
    requires ccc(z) == 0
    ensures Insert(ccc, x, a + [z] + b) == Insert(ccc, x, a) + [z] + b
  {
    if a == [] {
      assert a + [z] + b == [z] + b;
    } else {
      var s := a + [z] + b;
      assert s[0] == a[0] && s[1..] == a[1..] + [z] + b;
      if Swappable(ccc, x, a[0]) {
        InsertBeforeStarter(ccc, x, a[1..], z, b);
      }
    }
  }

  lemma InsertStarter(ccc: int -> nat, z: int, t: seq<int>)
    requires ccc(z) == 0
    ensures Insert(ccc, z, t) == [z] + t
  {
  }

  /** A starter stays where it is, and what is on its two sides is ordered apart. */
  lemma {:induction false} StarterStays(ccc: int -> nat, a: seq<int>, z: int, b: seq<int>)
    requires ccc(z) == 0
    ensures Ordered(ccc, a + [z] + b) == Ordered(ccc, a) + [z] + Ordered(ccc, b)
    decreases |a|
  {
    var s := a + [z] + b;
    if a == [] {
      assert s[0] == z && s[1..] == b;
      InsertStarter(ccc, z, Ordered(ccc, b));
    } else {
      assert s[0] == a[0] && s[1..] == a[1..] + [z] + b;
      StarterStays(ccc, a[1..], z, b);
      InsertBeforeStarter(ccc, a[0], Ordered(ccc, a[1..]), z, Ordered(ccc, b));
    }
  }

  // ---------------------------------------------------------------- one swap

  lemma {:induction false} InsertsCommute(ccc: int -> nat, x: int, y: int, t: seq<int>)
    requires Swappable(ccc, x, y)
    ensures Insert(ccc, x, Insert(ccc, y, t)) == Insert(ccc, y, Insert(ccc, x, t))
  {
    if t == [] || !Swappable(ccc, y, t[0]) {
      var yt := [y] + t;
      assert yt[1..] == t;
      var xt := Insert(ccc, x, t);
      if t != [] && Swappable(ccc, x, t[0]) {
        assert xt[0] == t[0];
      }
    } else {
      InsertsCommute(ccc, x, y, t[1..]);
      var xt, yt := Insert(ccc, x, t), Insert(ccc, y, t);
      assert xt[0] == t[0] && xt[1..] == Insert(ccc, x, t[1..]);
      assert yt[0] == t[0] && yt[1..] == Insert(ccc, y, t[1..]);
    }
  }

  function Swapped(s: seq<int>, i: nat): (r: seq<int>)
    requires i + 1 < |s|
    ensures |r| == |s|
  {
    s[i := s[i + 1]][i + 1 := s[i]]
  }

  lemma {:induction false} SwapKeepsOrdered(ccc: int -> nat, s: seq<int>, i: nat)
    requires i + 1 < |s| && Swappable(ccc, s[i], s[i + 1])
    ensures Ordered(ccc, Swapped(s, i)) == Ordered(ccc, s)
    decreases i
  {
    var r := Swapped(s, i);
    if i == 0 {
      assert r[1..][1..] == s[1..][1..];
      InsertsCommute(ccc, s[0], s[1], Ordered(ccc, s[1..][1..]));
    } else {
      assert r[1..] == Swapped(s[1..], i - 1);
      SwapKeepsOrdered(ccc, s[1..], i - 1);
    }
  }

  /** How many later code points of t a mark x would have to let pass. */
  function Ahead(ccc: int -> nat, x: int, t: seq<int>): nat {
    if t == [] then 0 else (if Swappable(ccc, x, t[0]) then 1 else 0) + Ahead(ccc, x, t[1..])
  }

  function Inversions(ccc: int -> nat, s: seq<int>): nat {
    if s == [] then 0 else Ahead(ccc, s[0], s[1..]) + Inversions(ccc, s[1..])
  }

  lemma {:induction false} SwapKeepsAhead(ccc: int -> nat, x: int, t: seq<int>, i: nat)
    requires i + 1 < |t|
    ensures Ahead(ccc, x, Swapped(t, i)) == Ahead(ccc, x, t)
    decreases i
  {
    var r := Swapped(t, i);
    if i == 0 {
      assert r[1..][1..] == t[1..][1..];
    } else {
      assert r[1..] == Swapped(t[1..], i - 1);
      SwapKeepsAhead(ccc, x, t[1..], i - 1);
    }
  }

  lemma {:induction false} SwapRemovesInversion(ccc: int -> nat, s: seq<int>, i: nat)
    requires i + 1 < |s| && Swappable(ccc, s[i], s[i + 1])
    ensures Inversions(ccc, Swapped(s, i)) == Inversions(ccc, s) - 1
    decreases i
  {
    var r := Swapped(s, i);
    if i == 0 {
      assert r[1..][1..] == s[1..][1..];
    } else {
      assert r[1..] == Swapped(s[1..], i - 1);
      SwapRemovesInversion(ccc, s[1..], i - 1);
      SwapKeepsAhead(ccc, s[0], s[1..], i - 1);
    }
  }

  /** With no neighbours out of order there is nothing to do. */
  lemma {:induction false} OrderedIsFixed(ccc: int -> nat, s: seq<int>)
    requires forall i :: 0 < i < |s| ==> !Swappable(ccc, s[i - 1], s[i])
    ensures Ordered(ccc, s) == s
  {
    if s != [] {
      forall i | 0 < i < |s[1..]|
        ensures !Swappable(ccc, s[1..][i - 1], s[1..][i])
      {
        assert s[1..][i - 1] == s[i + 1 - 1];
      }
      OrderedIsFixed(ccc, s[1..]);
      assert |s| > 1 ==> !Swappable(ccc, s[0], s[1]);
    }
  }

  // ---------------------------------------------------------------- the loop

  /** The reordering loop of utf8proc_decompose_custom on the first wpos code points of the buffer. */
  method Reorder(buffer: array<int>, wpos: nat, ccc: int -> nat)
    requires wpos <= buffer.Length
    modifies buffer
    ensures buffer[..wpos] == Ordered(ccc, old(buffer[..wpos]))
    ensures buffer[wpos..] == old(buffer[wpos..])
  {
    ghost var start := buffer[..wpos];
    var pos := 0;
    while pos < wpos - 1
      invariant 0 <= pos && (pos < wpos || pos == wpos == 0)
      invariant Ordered(ccc, buffer[..wpos]) == Ordered(ccc, start)
      invariant forall i :: 0 < i <= pos && i < wpos ==> !Swappable(ccc, buffer[i - 1], buffer[i])
      invariant buffer[wpos..] == old(buffer[wpos..])
      decreases Inversions(ccc, buffer[..wpos]), wpos - pos
    {
      var uc1, uc2 := buffer[pos], buffer[pos + 1];
      if ccc(uc1) > ccc(uc2) && ccc(uc2) > 0 {
        ghost var s := buffer[..wpos];
        SwapKeepsOrdered(ccc, s, pos);
        SwapRemovesInversion(ccc, s, pos);
        buffer[pos] := uc2;
        buffer[pos + 1] := uc1;
        assert buffer[..wpos] == Swapped(s, pos);
        if pos > 0 {
          pos := pos - 1;
        } else {
          pos := pos + 1;
        }
      } else {
        pos := pos + 1;
      }
    }
    OrderedIsFixed(ccc, buffer[..wpos]);
  }
}
