/**
  The power-of-two growth policy: hashes are mapped to buckets with a mask, and a requested
  bucket count is rounded up by smearing its top bit to the right.

  Machine words are natural numbers; `&`, `|` and `>>` are defined digit by digit on base 2, and
  `Bit` is what the three of them mean.
 */
module GrowthPolicy {

  /** The number of bits of std::size_t. */
  const WORD_BITS: nat := 64

  /** The largest power of two that fits a word. */
  const MAX_BUCKET_COUNT: nat := Pow2(63)

  const GROWTH_FACTOR: nat := 2

  function Pow2(k: nat): (p: nat)
    ensures p > 0
  {
    if k == 0 then 1 else 2 * Pow2(k - 1)
  }

  ghost predicate IsPow2(n: nat) {
    exists k: nat :: n == Pow2(k)
  }

  /** The bucket count that the policy makes of a request: nothing of nothing, or the least power of two. */
  ghost predicate RoundsTo(count: nat, n: nat) {
    if count == 0 then n == 0
    else IsPow2(n) && count <= n && forall k: nat :: count <= Pow2(k) ==> n <= Pow2(k)
  }

  predicate Bit(v: nat, k: nat) {
    if k == 0 then v % 2 == 1 else Bit(v / 2, k - 1)
  }

  function And(a: nat, b: nat): nat {
    if a == 0 || b == 0 then 0 else (a % 2) * (b % 2) + 2 * And(a / 2, b / 2)
  }

  function Or(a: nat, b: nat): nat
    decreases a + b
  {
    if a == 0 then b else if b == 0 then a
    else (if a % 2 == 1 || b % 2 == 1 then 1 else 0) + 2 * Or(a / 2, b / 2)
  }

  function ShiftRight(v: nat, i: nat): nat {
    if i == 0 then v else ShiftRight(v / 2, i - 1)
  }

  lemma {:induction false} BitOfZero(k: nat)
    ensures !Bit(0, k)
  {
    if k > 0 { BitOfZero(k - 1); }
  }

  lemma {:induction false} BitOfOr(a: nat, b: nat, k: nat)
    ensures Bit(Or(a, b), k) == (Bit(a, k) || Bit(b, k))
  {
    BitOfZero(k);
    if a != 0 && b != 0 {
      var low := if a % 2 == 1 || b % 2 == 1 then 1 else 0;
      assert Or(a, b) / 2 == Or(a / 2, b / 2) && Or(a, b) % 2 == low;
      if k > 0 { BitOfOr(a / 2, b / 2, k - 1); }
    }
  }

  lemma {:induction false} BitOfShift(v: nat, i: nat, k: nat)
    ensures Bit(ShiftRight(v, i), k) == Bit(v, i + k)
    decreases i
  {
    if i > 0 { BitOfShift(v / 2, i - 1, k); }
  }

  /** Bit k of 2^n - 1 is set exactly when k < n. */
  lemma {:induction false} BitOfOnes(n: nat, k: nat)
    ensures Bit(Pow2(n) - 1, k) == (k < n)
  {
    if n == 0 {
      BitOfZero(k);
    } else {
      assert (Pow2(n) - 1) / 2 == Pow2(n - 1) - 1 && (Pow2(n) - 1) % 2 == 1;
      if k > 0 { BitOfOnes(n - 1, k - 1); }
    }
  }

  lemma {:induction false} BitsDetermine(a: nat, b: nat)
    requires forall k: nat :: Bit(a, k) == Bit(b, k)
    ensures a == b
    decreases a + b
  {
    assert Bit(a, 0) == Bit(b, 0);
    if a + b > 0 {
      forall k: nat
        ensures Bit(a / 2, k) == Bit(b / 2, k)
      {
        assert Bit(a, k + 1) == Bit(b, k + 1);
      }
      BitsDetermine(a / 2, b / 2);
    }
  }

  lemma {:induction false} AndSelf(v: nat)
    ensures And(v, v) == v
  {
    if v > 0 { AndSelf(v / 2); }
  }

  lemma {:induction false} Pow2Monotone(j: nat, k: nat)
    requires j <= k
    ensures Pow2(j) <= Pow2(k)
    decreases k
  {
    if j < k { Pow2Monotone(j, k - 1); }
  }

  lemma {:induction false} Pow2Splits(j: nat, k: nat)
    ensures Pow2(j + k) == Pow2(j) * Pow2(k)
    decreases k
  {
    if k > 0 { Pow2Splits(j, k - 1); }
  }

  /** Twice a power of two needs no rounding. */
  lemma DoubleRounds(m: nat, n: nat)
    requires IsPow2(m) && RoundsTo(2 * m, n)
    ensures n == 2 * m
  {
    var k: nat :| m == Pow2(k);
    assert 2 * m == Pow2(k + 1);
  }

  // ---------------------------------------------------------------- is_power_of_two

  predicate IsPowerOfTwo(value: nat) {
    value != 0 && And(value, value - 1) == 0
  }

  lemma OddIsNoPow2(value: nat, k: nat)
    requires value % 2 == 1 && value == Pow2(k)
    ensures value == 1
  {
  }

  lemma {:induction false} IsPowerOfTwoMeaning(value: nat)
    ensures IsPowerOfTwo(value) <==> IsPow2(value)
  {
    if value == 1 {
      assert value == Pow2(0);
    } else if value % 2 == 1 {
      assert (value - 1) / 2 == value / 2;
      AndSelf(value / 2);
      if k: nat :| value == Pow2(k) {
        OddIsNoPow2(value, k);
      }
    } else if value > 0 {
      var half := value / 2;
      assert (value - 1) / 2 == half - 1;
      IsPowerOfTwoMeaning(half);
      if IsPow2(half) {
        var k: nat :| half == Pow2(k);
        assert value == Pow2(k + 1);
      }
      if IsPow2(value) {
        var k: nat :| value == Pow2(k);
        assert k > 0 && half == Pow2(k - 1);
      }
    }
  }

  // ---------------------------------------------------------------- bucket_for_hash

  lemma ProductAtLeast(m: nat, d: nat)
    requires d >= 1
    ensures m * d >= m
  {
  }

  lemma {:induction false} ModIsUnique(x: nat, m: nat, q: nat, r: nat)
    requires r < m && x == m * q + r
    ensures x % m == r && x / m == q
  {
    var q', r' := x / m, x % m;
    assert x == m * q' + r';
    if q' > q {
      assert m * q' - m * q == m * (q' - q);
      ProductAtLeast(m, q' - q);
    } else if q' < q {
      assert m * q - m * q' == m * (q - q');
      ProductAtLeast(m, q - q');
    }
  }

  /** Dropping the lowest digit commutes with reduction modulo an even number. */
  lemma ModuloDoubled(x: nat, m: nat)
    requires m > 0
    ensures x % (2 * m) == 2 * (x / 2 % m) + x % 2
  {
    var q, r := x / 2 / m, x / 2 % m;
    assert x / 2 == m * q + r;
    assert (2 * m) * q == 2 * (m * q);
    ModIsUnique(x, 2 * m, q, 2 * r + x % 2);
  }

  lemma MaskStep(hash: nat, m: nat)
    requires m > 0
    ensures And(hash, 2 * m - 1) == hash % 2 + 2 * And(hash / 2, m - 1)
  {
    assert (2 * m - 1) / 2 == m - 1 && (2 * m - 1) % 2 == 1;
  }

  /** Masking with 2^k - 1 is reduction modulo 2^k. */
  lemma {:induction false} MaskIsModulo(hash: nat, k: nat)
    ensures And(hash, Pow2(k) - 1) == hash % Pow2(k)
  {
    if k == 0 {
      assert Pow2(0) == 1;
    } else if hash == 0 {
      ModIsUnique(0, Pow2(k), 0, 0);
    } else {
      var m := Pow2(k - 1);
      assert Pow2(k) == 2 * m;
      MaskIsModulo(hash / 2, k - 1);
      var low := hash / 2 % m;
      assert And(hash / 2, m - 1) == low;
      assert And(hash, 2 * m - 1) == hash % 2 + 2 * low by { MaskStep(hash, m); }
      assert hash % (2 * m) == 2 * low + hash % 2 by { ModuloDoubled(hash, m); }
    }
  }

  lemma {:induction false} MaskInRange(hash: nat, buckets: nat)
    requires IsPow2(buckets)
    ensures And(hash, buckets - 1) < buckets
  {
    var k: nat :| buckets == Pow2(k);
    MaskIsModulo(hash, k);
  }

  /** `next_bucket`: stepping and masking wraps around at the end of the bucket array. */
  lemma {:induction false} MaskWraps(index: nat, buckets: nat)
    requires IsPow2(buckets) && index < buckets
    ensures And(index + 1, buckets - 1) == if index + 1 == buckets then 0 else index + 1
  {
    var k: nat :| buckets == Pow2(k);
    MaskIsModulo(index + 1, k);
    if index + 1 == buckets {
      ModIsUnique(index + 1, buckets, 1, 0);
    } else {
      ModIsUnique(index + 1, buckets, 0, index + 1);
    }
  }

  lemma Regroup(a: nat, c: nat, q: nat, d: nat)
    ensures a * c * q + a * d == a * (c * q + d)
  {
    assert a * c * q == a * (c * q);
  }

  lemma {:induction false} ModuloOfMultiple(x: nat, a: nat, c: nat)
    requires a > 0 && c > 0
    ensures a * c > 0 && x % (a * c) % a == x % a
  {
    ProductAtLeast(a, c);
    var n := a * c;
    var h, q := x % n, x / n;
    Regroup(a, c, q, h / a);
    ModIsUnique(x, a, c * q + h / a, h % a);
  }

  /** A hash cut down to 2^t bits selects the same bucket while there are at most 2^t buckets. */
  lemma {:induction false} TruncatedHashAgrees(hash: nat, buckets: nat, t: nat)
    requires IsPow2(buckets) && buckets <= Pow2(t)
    ensures And(hash % Pow2(t), buckets - 1) == And(hash, buckets - 1)
  {
    var k: nat :| buckets == Pow2(k);
    if t < k {
      Pow2Monotone(t + 1, k);
      assert false;
    }
    MaskIsModulo(hash, k);
    MaskIsModulo(hash % Pow2(t), k);
    Pow2Splits(k, t - k);
    ModuloOfMultiple(hash, Pow2(k), Pow2(t - k));
  }

  // ---------------------------------------------------------------- round_up_to_power_of_two

  /** The number of binary digits of v. */
  ghost function Width(v: nat): (w: nat)
    ensures v < Pow2(w) && (v > 0 ==> w > 0 && Pow2(w - 1) <= v)
  {
    if v == 0 then 0 else 1 + Width(v / 2)
  }

  lemma {:induction false} BitsWithinWidth(v: nat, k: nat)
    ensures k >= Width(v) ==> !Bit(v, k)
    ensures Width(v) > 0 && k == Width(v) - 1 ==> Bit(v, k)
  {
    if v == 0 {
      BitOfZero(k);
    } else if k > 0 {
      BitsWithinWidth(v / 2, k - 1);
    }
  }

  /** v has no bit at or above w, and its topmost i of w bits are all ones. */
  ghost predicate Smeared(v: nat, w: nat, i: nat) {
    forall k: nat :: (k >= w ==> !Bit(v, k)) && (w - i <= k < w ==> Bit(v, k))
  }

  lemma {:induction false} SmearDoubles(v: nat, w: nat, i: nat)
    requires Smeared(v, w, i) && i > 0
    ensures Smeared(Or(v, ShiftRight(v, i)), w, 2 * i)
  {
    forall k: nat
      ensures k >= w ==> !Bit(Or(v, ShiftRight(v, i)), k)
      ensures w - 2 * i <= k < w ==> Bit(Or(v, ShiftRight(v, i)), k)
    {
      BitOfOr(v, ShiftRight(v, i), k);
      BitOfShift(v, i, k);
      assert k >= w ==> !Bit(v, k) && !Bit(v, i + k);
      if w - 2 * i <= k < w {
        assert Bit(v, k) || Bit(v, i + k);
      }
    }
  }

  lemma {:induction false} FullySmeared(v: nat, w: nat, i: nat)
    requires Smeared(v, w, i) && i >= w
    ensures v == Pow2(w) - 1
  {
    forall k: nat
      ensures Bit(v, k) == Bit(Pow2(w) - 1, k)
    {
      BitOfOnes(w, k);
    }
    BitsDetermine(v, Pow2(w) - 1);
  }

  lemma {:induction false} WidthBelow(v: nat, k: nat)
    requires v < Pow2(k)
    ensures Width(v) <= k
  {
    var w := Width(v);
    if w > k {
      Pow2Monotone(k, w - 1);
    }
  }

  lemma SmearStart(v: nat)
    ensures Smeared(v, Width(v), 1)
  {
    forall k: nat
      ensures (k >= Width(v) ==> !Bit(v, k)) && (Width(v) - 1 <= k < Width(v) ==> Bit(v, k))
    {
      BitsWithinWidth(v, k);
    }
  }

  /** The bit-smearing loop: the digits of v all become ones. */
  method SmearRight(v0: nat) returns (v: nat)
    requires Width(v0) <= WORD_BITS
    ensures v == Pow2(Width(v0)) - 1
  {
    v := v0;
    ghost var w := Width(v);
    SmearStart(v);
    var i := 1;
    while i < WORD_BITS
      invariant i in {1, 2, 4, 8, 16, 32, 64} && Smeared(v, w, i)
      decreases WORD_BITS - i
    {
      SmearDoubles(v, w, i);
      v := Or(v, ShiftRight(v, i));
      i := i * 2;
    }
    FullySmeared(v, w, i);
  }

  lemma WidthGivesLeast(value: nat, top: nat)
    requires 0 < value <= Pow2(top)
    ensures Width(value - 1) <= top
    ensures value <= Pow2(Width(value - 1)) <= Pow2(top)
    ensures forall k: nat :: value <= Pow2(k) ==> Pow2(Width(value - 1)) <= Pow2(k)
  {
    forall k: nat | value <= Pow2(k)
      ensures Width(value - 1) <= k && Pow2(Width(value - 1)) <= Pow2(k)
    {
      WidthBelow(value - 1, k);
      Pow2Monotone(Width(value - 1), k);
    }
  }

  /** The result is the least power of two that is not below the request. */
  method RoundUpToPowerOfTwo(value: nat) returns (rounded: nat)
    requires value <= MAX_BUCKET_COUNT
    ensures IsPow2(rounded) && value <= rounded <= MAX_BUCKET_COUNT
    ensures forall k: nat :: value <= Pow2(k) ==> rounded <= Pow2(k)
  {
    hide And;
    hide Width;
    IsPowerOfTwoMeaning(value);
    if IsPowerOfTwo(value) {
      return value;
    }
    if value == 0 {
      assert Pow2(0) == 1;
      return 1;
    }
    WidthGivesLeast(value, WORD_BITS - 1);
    rounded := SmearRight(value - 1);
    rounded := rounded + 1;
  }
}
