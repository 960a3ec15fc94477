/** Facts about sequences and sums over them that several parts use. */
module Sequences {

  lemma Assoc<T>(a: seq<T>, b: seq<T>, c: seq<T>)
    ensures (a + b) + c == a + (b + c)
  {
  }

  /** The sum of the weights of the elements. */
  function Tally<T>(s: seq<T>, w: T -> nat): nat {
    if s == [] then 0 else w(s[0]) + Tally(s[1..], w)
  }

  lemma {:induction false} TallyOfUpdate<T>(s: seq<T>, w: T -> nat, i: nat, x: T)
    requires i < |s|
    ensures Tally(s[i := x], w) == Tally(s, w) - w(s[i]) + w(x)
    ensures Tally(s, w) >= w(s[i])
  {
    if i > 0 {
      TallyOfUpdate(s[1..], w, i - 1, x);
      assert s[i := x][1..] == s[1..][i - 1 := x];
    }
  }

  lemma {:induction false} TallyOfPointwise<T>(a: seq<T>, b: seq<T>, w: T -> nat)
    requires |a| == |b| && forall i :: 0 <= i < |a| ==> w(a[i]) == w(b[i])
    ensures Tally(a, w) == Tally(b, w)
  {
    if a != [] {
      TallyOfPointwise(a[1..], b[1..], w);
    }
  }

  lemma {:induction false} TallyOfConstant<T>(s: seq<T>, w: T -> nat, k: nat)
    requires forall i :: 0 <= i < |s| ==> w(s[i]) == k
    ensures Tally(s, w) == k * |s|
  {
    if s != [] {
      TallyOfConstant(s[1..], w, k);
      assert k * |s| == k + k * (|s| - 1);
    }
  }

  lemma {:induction false} TallyOfConcat<T>(a: seq<T>, b: seq<T>, w: T -> nat)
    ensures Tally(a + b, w) == Tally(a, w) + Tally(b, w)
  {
    if a == [] {
      assert a + b == b;
    } else {
      assert (a + b)[1..] == a[1..] + b;
      TallyOfConcat(a[1..], b, w);
    }
  }
}
