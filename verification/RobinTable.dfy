/**
  Bucket sequences of the Robin Hood hash table: what one insertion step, one backward shift and
  one probe do to them.  The mutable table itself is in RobinHash.dfy.
 */
module RobinTable {
  import opened GrowthPolicy

  /** A bucket holds nothing, or an entry with its distance from its ideal bucket and the low bits of its hash. */
  datatype Bucket<K, V> = Empty | Full(dist: nat, hash: nat, key: K, value: V)

  const TRUNCATED_HASH_BITS: nat := 32

  const DIST_FROM_IDEAL_BUCKET_LIMIT: nat := 4096

  function TruncateHash(hash: nat): nat {
    hash % Pow2(TRUNCATED_HASH_BITS)
  }

  /** dist_from_ideal_bucket, with the marker of an empty bucket. */
  function Dist<K, V>(b: Bucket<K, V>): int {
    if b.Empty? then -1 else b.dist
  }

  function Next(i: nat, n: nat): (j: nat)
    requires i < n
    ensures j < n
  {
    if i + 1 == n then 0 else i + 1
  }

  function Prev(i: nat, n: nat): (j: nat)
    requires i < n
    ensures j < n && Next(j, n) == i
  {
    if i == 0 then n - 1 else i - 1
  }

  /** The bucket d steps cyclically after bucket i. */
  function At(i: nat, d: nat, n: nat): (j: nat)
    requires i < n && d < n
    ensures j < n
  {
    if i + d < n then i + d else i + d - n
  }

  /** How many steps lead cyclically from bucket i to bucket j. */
  function Steps(i: nat, j: nat, n: nat): (d: nat)
    requires i < n && j < n
    ensures d < n && At(i, d, n) == j
  {
    if i <= j then j - i else j + n - i
  }

  lemma AtHome(i: nat, n: nat)
    requires i < n
    ensures At(i, 0, n) == i
  {
  }

  lemma StepOn(i: nat, e: nat, n: nat)
    requires i < n && e < n && i != e
    ensures Steps(Next(i, n), e, n) == Steps(i, e, n) - 1
  {
  }

  /** The ideal bucket of a key in a table of n buckets. */
  ghost function Home<K(!new)>(hash: K -> nat, key: K, n: nat): (home: nat)
    requires IsPow2(n)
    ensures home < n
  {
    MaskInRange(hash(key), n);
    And(hash(key), n - 1)
  }

  /** The entry sits (or is about to be put) in bucket i, and its distance and hash are the true ones. */
  ghost predicate Placed<K(!new), V>(hash: K -> nat, n: nat, i: nat, c: Bucket<K, V>) {
    && IsPow2(n)
    && c.Full?
    && c.dist < n
    && At(Home(hash, c.key, n), c.dist, n) == i
    && c.hash == TruncateHash(hash(c.key))
  }

  /** From one bucket to the next, cyclically, the distance rises by at most one. */
  ghost predicate Gentle<K, V>(b: seq<Bucket<K, V>>) {
    forall i :: 0 <= i < |b| ==> Dist(b[Next(i, |b|)]) <= Dist(b[i]) + 1
  }

  /** The Robin Hood invariant. */
  ghost predicate Robin<K(!new), V>(hash: K -> nat, b: seq<Bucket<K, V>>) {
    && IsPow2(|b|)
    && (forall i :: 0 <= i < |b| && b[i].Full? ==> Placed(hash, |b|, i, b[i]))
    && Gentle(b)
  }

  /** c is an entry looking for a place, having reached bucket i. */
  ghost predicate Carried<K(!new), V>(hash: K -> nat, b: seq<Bucket<K, V>>, i: nat, c: Bucket<K, V>) {
    && i < |b|
    && Placed(hash, |b|, i, c)
    && c.dist <= Dist(b[Prev(i, |b|)]) + 1
  }

  /** No entry is as far from home as there are buckets. */
  lemma DistsAreSmall<K(!new), V>(hash: K -> nat, b: seq<Bucket<K, V>>)
    requires Robin(hash, b)
    ensures forall j :: 0 <= j < |b| ==> Dist(b[j]) < |b|
  {
    forall j | 0 <= j < |b|
      ensures Dist(b[j]) < |b|
    {
      if b[j].Full? {
        assert Placed(hash, |b|, j, b[j]);
      }
    }
  }

  // ---------------------------------------------------------------- distances

  /** Starting from an empty bucket the distances climb slowly, so none reaches the bucket count less one. */
  lemma {:induction false} DistAfterEmpty<K(!new), V>(b: seq<Bucket<K, V>>, e: nat, t: nat)
    requires e < |b| && b[e].Empty? && Gentle(b) && t < |b|
    ensures Dist(b[At(e, t, |b|)]) <= t - 1
  {
    if t > 0 {
      DistAfterEmpty(b, e, t - 1);
      assert Next(At(e, t - 1, |b|), |b|) == At(e, t, |b|);
    }
  }

  lemma DistBound<K(!new), V>(b: seq<Bucket<K, V>>, e: nat, i: nat)
    requires e < |b| && b[e].Empty? && Gentle(b) && i < |b|
    ensures Dist(b[i]) <= |b| - 2
  {
    DistAfterEmpty(b, e, Steps(e, i, |b|));
  }

  // ---------------------------------------------------------------- insertion

  /** The carried entry may take bucket i when it is farther from home than what bucket i holds. */
  lemma PlaceKeepsRobin<K(!new), V>(hash: K -> nat, b: seq<Bucket<K, V>>, i: nat, c: Bucket<K, V>)
    requires Robin(hash, b) && Carried(hash, b, i, c) && Dist(b[i]) < c.dist
    ensures Robin(hash, b[i := c])
  {
    var b' := b[i := c];
    forall j | 0 <= j < |b|
      ensures Dist(b'[Next(j, |b|)]) <= Dist(b'[j]) + 1
    {
      assert Dist(b[Next(j, |b|)]) <= Dist(b[j]) + 1;
      if Next(j, |b|) == i { assert j == Prev(i, |b|); }
    }
  }

  lemma FreshEntryIsCarried<K(!new), V>(hash: K -> nat, b: seq<Bucket<K, V>>, i: nat, c: Bucket<K, V>)
    requires IsPow2(|b|) && Placed(hash, |b|, i, c) && c.dist == 0
    ensures i < |b| && Carried(hash, b, i, c)
  {
  }

  /** An evicted entry, or one that had to pass bucket i by, goes on to the next bucket. */
  lemma CarryOn<K(!new), V>(hash: K -> nat, b: seq<Bucket<K, V>>, e: nat, i: nat, c: Bucket<K, V>)
    requires Robin(hash, b) && e < |b| && b[e].Empty?
    requires i < |b| && Placed(hash, |b|, i, c) && c.dist <= Dist(b[i])
    ensures Carried(hash, b, Next(i, |b|), c.(dist := c.dist + 1))
  {
    DistBound(b, e, i);
  }

  // ---------------------------------------------------------------- entries pushed far from home

  /** Bucket j gave its entry away for one that is far from home; the bucket of the new entry does not count. */
  ghost predicate FarExchange<K, V>(before: seq<Bucket<K, V>>, after: seq<Bucket<K, V>>, start: nat, j: nat)
    requires j < |before| == |after|
  {
    && j != start
    && before[j].Full?
    && after[j] != before[j]
    && Dist(after[j]) >= DIST_FROM_IDEAL_BUCKET_LIMIT
  }

  ghost predicate SomeFarExchange<K, V>(before: seq<Bucket<K, V>>, after: seq<Bucket<K, V>>, start: nat)
    requires |before| == |after|
  {
    exists j :: 0 <= j < |before| && FarExchange(before, after, start, j)
  }

  /** From bucket i on, up to the empty bucket e, nothing has been changed yet. */
  ghost predicate Ahead<K, V>(before: seq<Bucket<K, V>>, b: seq<Bucket<K, V>>, i: nat, e: nat) {
    && |b| == |before| && i < |b| && e < |b|
    && forall j :: 0 <= j < |b| && Steps(j, e, |b|) <= Steps(i, e, |b|) ==> b[j] == before[j]
  }

  /** The new entry has taken the first bucket. */
  lemma FirstExchange<K, V>(before: seq<Bucket<K, V>>, start: nat, e: nat, c: Bucket<K, V>)
    requires start < |before| && e < |before| && start != e
    ensures Ahead(before, before[start := c], Next(start, |before|), e)
    ensures !SomeFarExchange(before, before[start := c], start)
  {
    StepOn(start, e, |before|);
  }

  /** A carried entry takes bucket i: that counts exactly if the bucket was full and the entry is far from home. */
  lemma NextExchange<K, V>(before: seq<Bucket<K, V>>, b: seq<Bucket<K, V>>, start: nat, i: nat, e: nat, c: Bucket<K, V>)
    requires Ahead(before, b, i, e) && i != start && Dist(b[i]) < Dist(c)
    ensures SomeFarExchange(before, b[i := c], start) <==>
      SomeFarExchange(before, b, start) || (b[i].Full? && Dist(c) >= DIST_FROM_IDEAL_BUCKET_LIMIT)
    ensures i != e ==> Ahead(before, b[i := c], Next(i, |b|), e)
  {
    var b' := b[i := c];
    assert forall j :: 0 <= j < |b| && j != i ==> (FarExchange(before, b', start, j) <==> FarExchange(before, b, start, j));
    assert FarExchange(before, b', start, i) <==> b[i].Full? && Dist(c) >= DIST_FROM_IDEAL_BUCKET_LIMIT;
    if i != e {
      StepOn(i, e, |b|);
    }
  }

  lemma PassBy<K, V>(before: seq<Bucket<K, V>>, b: seq<Bucket<K, V>>, i: nat, e: nat)
    requires Ahead(before, b, i, e) && i != e
    ensures Ahead(before, b, Next(i, |b|), e)
  {
    StepOn(i, e, |b|);
  }

  lemma AssignKeepsRobin<K(!new), V>(hash: K -> nat, b: seq<Bucket<K, V>>, i: nat, v: V)
    requires Robin(hash, b) && i < |b| && b[i].Full?
    ensures Robin(hash, b[i := b[i].(value := v)])
  {
    var b' := b[i := b[i].(value := v)];
    forall j | 0 <= j < |b|
      ensures Dist(b'[Next(j, |b|)]) <= Dist(b'[j]) + 1
    {
      assert Dist(b[Next(j, |b|)]) <= Dist(b[j]) + 1;
    }
  }

  // ---------------------------------------------------------------- probing

  /** What a probe for the key has seen on its first d buckets. */
  ghost predicate Probed<K(!new), V>(b: seq<Bucket<K, V>>, home: nat, key: K, d: nat) {
    home < |b| && d <= |b| &&
    forall t {:trigger At(home, t, |b|)} :: 0 <= t < d ==>
      var c := b[At(home, t, |b|)]; c.Full? && t <= c.dist && c.key != key
  }

  lemma ProbeStep<K(!new), V>(hash: K -> nat, b: seq<Bucket<K, V>>, key: K, d: nat, e: nat)
    requires Robin(hash, b) && Probed(b, Home(hash, key, |b|), key, d)
    requires e < |b| && b[e].Empty? && d < |b|
    requires var c := b[At(Home(hash, key, |b|), d, |b|)]; d <= Dist(c) && c.key != key
    ensures d + 1 < |b| && Probed(b, Home(hash, key, |b|), key, d + 1)
    ensures Next(At(Home(hash, key, |b|), d, |b|), |b|) == At(Home(hash, key, |b|), d + 1, |b|)
  {
    DistBound(b, e, At(Home(hash, key, |b|), d, |b|));
  }

  lemma {:induction false} NotBeyond<K(!new), V>(b: seq<Bucket<K, V>>, home: nat, d: nat, t: nat)
    requires Gentle(b) && home < |b| && d <= t < |b| && Dist(b[At(home, d, |b|)]) < d
    ensures Dist(b[At(home, t, |b|)]) < t
    decreases t
  {
    if d < t {
      NotBeyond(b, home, d, t - 1);
      assert Next(At(home, t - 1, |b|), |b|) == At(home, t, |b|);
    }
  }

  /** A probe that meets a bucket nearer to its home than the probe is may stop: the key is nowhere. */
  lemma ProbeMayStop<K(!new), V>(hash: K -> nat, b: seq<Bucket<K, V>>, key: K, d: nat)
    requires Robin(hash, b) && Probed(b, Home(hash, key, |b|), key, d)
    requires d < |b| && Dist(b[At(Home(hash, key, |b|), d, |b|)]) < d
    ensures forall j :: 0 <= j < |b| && b[j].Full? ==> b[j].key != key
  {
    var home := Home(hash, key, |b|);
    forall j | 0 <= j < |b| && b[j].Full?
      ensures b[j].key != key
    {
      if b[j].key == key {
        assert Placed(hash, |b|, j, b[j]);
        if b[j].dist >= d { NotBeyond(b, home, d, b[j].dist); }
      }
    }
  }

  // ---------------------------------------------------------------- erasure

  /** Everything holds except that bucket i may sit too far above the hole just before it. */
  ghost predicate RobinWithHole<K(!new), V>(hash: K -> nat, b: seq<Bucket<K, V>>, hole: nat) {
    && IsPow2(|b|) && |b| > 1 && hole < |b| && b[hole].Empty?
    && (forall i :: 0 <= i < |b| && b[i].Full? ==> Placed(hash, |b|, i, b[i]))
    && (forall i :: 0 <= i < |b| && i != hole ==> Dist(b[Next(i, |b|)]) <= Dist(b[i]) + 1)
    && Dist(b[Next(hole, |b|)]) <= Dist(b[Prev(hole, |b|)]) + 2
  }

  lemma ClearMakesHole<K(!new), V>(hash: K -> nat, b: seq<Bucket<K, V>>, i: nat)
    requires Robin(hash, b) && |b| > 1 && i < |b|
    ensures RobinWithHole(hash, b[i := Empty], i)
  {
    assert Next(Prev(i, |b|), |b|) == i;
    assert Dist(b[i]) <= Dist(b[Prev(i, |b|)]) + 1 && Dist(b[Next(i, |b|)]) <= Dist(b[i]) + 1;
  }

  lemma OneNearer<K(!new), V>(hash: K -> nat, n: nat, hole: nat, c: Bucket<K, V>)
    requires n > 1 && hole < n && c.Full? && c.dist > 0 && Placed(hash, n, Next(hole, n), c)
    ensures Placed(hash, n, hole, c.(dist := c.dist - 1))
  {
  }

  /** One backward shift moves the hole one bucket on. */
  lemma ShiftMovesHole<K(!new), V>(hash: K -> nat, b: seq<Bucket<K, V>>, hole: nat)
    requires RobinWithHole(hash, b, hole) && Dist(b[Next(hole, |b|)]) > 0
    ensures var i := Next(hole, |b|);
      RobinWithHole(hash, b[hole := b[i].(dist := b[i].dist - 1)][i := Empty], i)
  {
    hide Placed;
    var n := |b|;
    var i := Next(hole, n);
    var c := b[i].(dist := b[i].dist - 1);
    var b' := b[hole := c][i := Empty];
    OneNearer(hash, n, hole, b[i]);
    assert Dist(b[Next(i, n)]) <= Dist(b[i]) + 1;
    forall j | 0 <= j < n && j != i
      ensures Dist(b'[Next(j, n)]) <= Dist(b'[j]) + 1
    {
      if j != hole {
        assert Dist(b[Next(j, n)]) <= Dist(b[j]) + 1;
        if Next(j, n) == hole { assert j == Prev(hole, n); }
      }
    }
  }

  lemma HoleCloses<K(!new), V>(hash: K -> nat, b: seq<Bucket<K, V>>, hole: nat)
    requires RobinWithHole(hash, b, hole) && Dist(b[Next(hole, |b|)]) <= 0
    ensures Robin(hash, b)
  {
  }

  // ---------------------------------------------------------------- contents

  ghost function Entry<K, V>(b: Bucket<K, V>): multiset<(K, V)> {
    if b.Empty? then multiset{} else multiset{(b.key, b.value)}
  }

  /** The entries of a run of buckets, each as often as it occurs. */
  ghost function Entries<K, V>(b: seq<Bucket<K, V>>): multiset<(K, V)> {
    if b == [] then multiset{} else Entries(b[..|b| - 1]) + Entry(b[|b| - 1])
  }

  lemma EntriesOfPush<K, V>(b: seq<Bucket<K, V>>, c: Bucket<K, V>)
    ensures Entries(b + [c]) == Entries(b) + Entry(c)
  {
    assert (b + [c])[..|b|] == b;
  }

  lemma EntriesOfNone<K, V>()
    ensures Entries<K, V>([]) == multiset{}
  {
  }

  lemma EntriesOfOne<K, V>(c: Bucket<K, V>)
    ensures Entries([c]) == Entry(c)
  {
    EntriesOfPush([], c);
    assert [] + [c] == [c];
  }

  lemma ConcatOneMore<K, V>(a: seq<Bucket<K, V>>, b: seq<Bucket<K, V>>, c: Bucket<K, V>)
    requires Entries(a + b) == Entries(a) + Entries(b)
    ensures Entries((a + b) + [c]) == Entries(a) + Entries(b + [c])
  {
    hide Entries;
    hide Entry;
    EntriesOfPush(a + b, c);
    EntriesOfPush(b, c);
  }

  lemma {:induction false} EntriesOfConcat<K, V>(a: seq<Bucket<K, V>>, b: seq<Bucket<K, V>>)
    ensures Entries(a + b) == Entries(a) + Entries(b)
  {
    hide Entries;
    hide Entry;
    if b == [] {
      EntriesOfNone<K, V>();
      assert a + b == a;
    } else {
      var front, last := b[..|b| - 1], b[|b| - 1];
      EntriesOfConcat(a, front);
      ConcatOneMore(a, front, last);
      assert a + b == (a + front) + [last] && b == front + [last];
    }
  }

  lemma EntriesSplit<K, V>(b: seq<Bucket<K, V>>, i: nat)
    requires i < |b|
    ensures Entries(b) == Entries(b[..i]) + Entry(b[i]) + Entries(b[i + 1..])
  {
    hide Entries;
    assert b == b[..i] + [b[i]] + b[i + 1..];
    EntriesOfConcat(b[..i] + [b[i]], b[i + 1..]);
    EntriesOfPush(b[..i], b[i]);
  }

  lemma EntriesPop<K, V>(b: seq<Bucket<K, V>>, j: nat)
    requires j < |b|
    ensures Entries(b[j..]) == Entry(b[j]) + Entries(b[j + 1..])
  {
    hide Entries;
    assert b[j..] == [b[j]] + b[j + 1..];
    EntriesOfConcat([b[j]], b[j + 1..]);
    EntriesOfOne(b[j]);
  }

  lemma EntriesOfUpdate<K, V>(b: seq<Bucket<K, V>>, i: nat, c: Bucket<K, V>)
    requires i < |b|
    ensures Entries(b[i := c]) + Entry(b[i]) == Entries(b) + Entry(c)
    ensures Entry(b[i]) <= Entries(b)
  {
    var b' := b[i := c];
    EntriesSplit(b, i);
    EntriesSplit(b', i);
    assert b'[..i] == b[..i] && b'[i + 1..] == b[i + 1..];
  }

  lemma Difference<E>(x: multiset<E>, y: multiset<E>, z: multiset<E>)
    requires x + y == z
    ensures x == z - y && |x| == |z| - |y|
  {
  }

  lemma EntriesOfClear<K, V>(b: seq<Bucket<K, V>>, i: nat)
    requires i < |b|
    ensures Entries(b[i := Empty]) == Entries(b) - Entry(b[i])
    ensures |Entries(b[i := Empty])| == |Entries(b)| - |Entry(b[i])|
  {
    EntriesOfUpdate(b, i, Empty);
    Difference(Entries(b[i := Empty]), Entry(b[i]), Entries(b));
  }

  lemma EntriesOfAssign<K, V>(b: seq<Bucket<K, V>>, i: nat, v: V)
    requires i < |b| && b[i].Full?
    ensures var c := b[i].(value := v);
      && Entries(b[i := c]) == Entries(b) - Entry(b[i]) + Entry(c)
      && |Entries(b[i := c])| == |Entries(b)|
  {
    var c := b[i].(value := v);
    EntriesOfUpdate(b, i, c);
    Difference(Entries(b[i := c]), Entry(b[i]), Entries(b) + Entry(c));
  }

  lemma EntriesOfMove<K, V>(b: seq<Bucket<K, V>>, i: nat, j: nat, d: nat)
    requires i < |b| && j < |b| && i != j && b[i].Empty? && b[j].Full?
    ensures Entries(b[i := b[j].(dist := d)][j := Empty]) == Entries(b)
  {
    var c := b[j].(dist := d);
    EntriesOfUpdate(b, i, c);
    EntriesOfClear(b[i := c], j);
    assert Entry(c) == Entry(b[j]);
    assert Entries(b[i := c]) == Entries(b) + Entry(c);
  }

  lemma {:induction false} EntriesOccur<K, V>(b: seq<Bucket<K, V>>, k: K, v: V) returns (i: nat)
    requires (k, v) in Entries(b)
    ensures i < |b| && b[i].Full? && b[i].key == k && b[i].value == v
  {
    var last := b[|b| - 1];
    if (k, v) in Entry(last) {
      i := |b| - 1;
    } else {
      i := EntriesOccur(b[..|b| - 1], k, v);
    }
  }

  lemma {:induction false} EntriesCount<K, V>(b: seq<Bucket<K, V>>)
    ensures |Entries(b)| <= |b|
    ensures |Entries(b)| < |b| ==> exists i :: 0 <= i < |b| && b[i].Empty?
  {
    if b != [] {
      var a := b[..|b| - 1];
      EntriesCount(a);
      if |Entries(b)| < |b| && b[|b| - 1].Full? {
        var i :| 0 <= i < |a| && a[i].Empty?;
        assert b[i].Empty?;
      }
    }
  }

  lemma {:induction false} EntriesOfEmpty<K, V>(b: seq<Bucket<K, V>>)
    requires forall i :: 0 <= i < |b| ==> b[i].Empty?
    ensures Entries(b) == multiset{}
  {
    if b != [] { EntriesOfEmpty(b[..|b| - 1]); }
  }

  // ---------------------------------------------------------------- the map of a table

  /** The entries are exactly the pairs of the map, each occurring once. */
  ghost predicate Represents<K, V>(e: multiset<(K, V)>, m: map<K, V>) {
    && (forall x :: x in e ==> e[x] == 1 && x.0 in m && m[x.0] == x.1)
    && (forall k :: k in m ==> (k, m[k]) in e)
  }

  lemma AllEmpty<K(!new), V>(hash: K -> nat, b: seq<Bucket<K, V>>)
    requires IsPow2(|b|) && forall i :: 0 <= i < |b| ==> b[i].Empty?
    ensures Robin(hash, b) && Entries(b) == multiset{} && Represents(Entries(b), map[])
  {
    EntriesOfEmpty(b);
  }

  lemma RepresentsInsert<K, V>(e: multiset<(K, V)>, m: map<K, V>, k: K, v: V)
    requires Represents(e, m) && k !in m
    ensures Represents(e + multiset{(k, v)}, m[k := v])
  {
  }

  lemma RepresentsRemove<K, V>(e: multiset<(K, V)>, m: map<K, V>, k: K)
    requires Represents(e, m) && k in m
    ensures Represents(e - multiset{(k, m[k])}, m - {k})
    ensures |m - {k}| == |m| - 1
  {
    assert (m - {k}).Keys + {k} == m.Keys;
  }

  lemma RepresentsAssign<K, V>(e: multiset<(K, V)>, m: map<K, V>, k: K, v: V)
    requires Represents(e, m) && k in m
    ensures Represents(e - multiset{(k, m[k])} + multiset{(k, v)}, m[k := v])
    ensures |m[k := v]| == |m|
  {
    assert m[k := v].Keys == m.Keys;
  }
}
