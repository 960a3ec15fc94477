/**
  The Robin Hood hash table as the program keeps it: an array of buckets changed in place, with the
  counters and flags that decide when the table is rebuilt.  `contents` is the finite map that the
  table stands for.
 */
module RobinHash {
  import opened GrowthPolicy
  import opened RobinTable

  /** An insertion that needs more buckets than the growth policy allows changes nothing. */
  datatype InsertResult = Inserted(index: nat) | Present(index: nat) | LengthError

  class RobinHash<K(==,!new), V> {
    const hash: K -> nat

    /** With no buckets this is the one shared bucket that always stays empty. */
    var buckets: array<Bucket<K, V>>
    var bucketCount: nat
    var nbElements: nat
    var loadThreshold: nat
    var mask: nat
    var growOnNextInsert: bool
    var tryShrinkOnNextInsert: bool

    ghost var contents: map<K, V>

    /** The bucket array is a Robin Hood table with at least one empty bucket. */
    ghost predicate Shape()
      reads this, buckets
    {
      && buckets.Length == (if bucketCount == 0 then 1 else bucketCount)
      && mask == buckets.Length - 1
      && IsPow2(buckets.Length)
      && bucketCount <= MAX_BUCKET_COUNT
      && loadThreshold == bucketCount / 2
      && Robin(hash, buckets[..])
      && exists e :: 0 <= e < buckets.Length && buckets[e].Empty?
    }

    ghost predicate Valid()
      reads this, buckets
    {
      && Shape()
      && Represents(Entries(buckets[..]), contents)
      && nbElements == |contents| == |Entries(buckets[..])|
      && nbElements <= loadThreshold
    }

    /** The table gets the least power of two of buckets that is not below the request, or none. */
    constructor (count: nat, hash: K -> nat)
      requires count <= MAX_BUCKET_COUNT
      ensures Valid() && fresh(buckets) && contents == map[] && this.hash == hash
      ensures RoundsTo(count, bucketCount)
      ensures !growOnNextInsert && !tryShrinkOnNextInsert
    {
      hide Robin;
      hide Entries;
      hide Represents;
      var n := 0;
      assert Pow2(0) == 1;
      if count > 0 {
        n := RoundUpToPowerOfTwo(count);
      }
      var slots := if n == 0 then 1 else n;
      this.hash := hash;
      buckets := new Bucket<K, V>[slots](_ => Empty);
      bucketCount, nbElements, loadThreshold, mask := n, 0, n / 2, slots - 1;
      growOnNextInsert, tryShrinkOnNextInsert := false, false;
      contents := map[];
      new;
      AllEmpty(hash, buckets[..]);
      assert buckets[0].Empty?;
    }

    lemma Counted()
      requires Valid()
      ensures mask + 1 == (if bucketCount == 0 then 1 else bucketCount) && loadThreshold == bucketCount / 2
      ensures nbElements == |contents| <= loadThreshold && 2 * nbElements <= bucketCount <= MAX_BUCKET_COUNT
    {
    }

    lemma BucketsHoldContents()
      requires Valid()
      ensures buckets.Length == (if bucketCount == 0 then 1 else bucketCount) && Represents(Entries(buckets[..]), contents)
      ensures forall j :: 0 <= j < |buckets[..]| ==> Dist(buckets[..][j]) < |buckets[..]|
    {
      DistsAreSmall(hash, buckets[..]);
    }

    lemma ContentsOfBucket(i: nat)
      requires Valid() && i < buckets.Length && buckets[i].Full?
      ensures i < bucketCount
      ensures buckets[i].key in contents && contents[buckets[i].key] == buckets[i].value
    {
      EntriesOfUpdate(buckets[..], i, Empty);
      assert (buckets[i].key, buckets[i].value) in Entries(buckets[..]);
    }

    lemma BucketOfContents(key: K)
      requires Valid() && key in contents
      ensures exists i :: 0 <= i < buckets.Length && buckets[i].Full? && buckets[i].key == key
    {
      var i := EntriesOccur(buckets[..], key, contents[key]);
    }

    /** The probe loop shared by find_impl and insert_impl. */
    method Probe(key: K) returns (found: bool, i: nat, d: nat)
      requires Valid()
      ensures found ==> i < bucketCount && buckets[i].Full? && buckets[i].key == key
      ensures found ==> key in contents && contents[key] == buckets[i].value
      ensures !found ==> key !in contents
      ensures !found ==> i < buckets.Length && Dist(buckets[i]) < d < buckets.Length
      ensures !found ==> i == At(Home(hash, key, buckets.Length), d, buckets.Length)
      ensures !found ==> d <= Dist(buckets[Prev(i, buckets.Length)]) + 1
    {
      hide Robin;
      hide Entries;
      hide Represents;
      hide At;
      ghost var b, n := buckets[..], buckets.Length;
      ghost var e := HasEmptyBucket();
      ghost var home := Home(hash, key, n);
      i := And(hash(key), mask);
      d := 0;
      AtHome(home, n);
      while d <= Dist(buckets[i])
        invariant d < n && i == At(home, d, n)
        invariant Probed(b, home, key, d)
        invariant d <= Dist(b[Prev(i, n)]) + 1
        decreases n - d
      {
        if buckets[i].key == key {
          ContentsOfBucket(i);
          return true, i, d;
        }
        i, d := ProbeNext(key, i, d, e);
      }
      found := false;
      KeyAbsent(key, d);
    }

    method ProbeNext(key: K, i: nat, d: nat, ghost e: nat) returns (i': nat, d': nat)
      requires Shape() && e < buckets.Length && buckets[e].Empty?
      requires i < buckets.Length && d < buckets.Length && d <= Dist(buckets[i]) && buckets[i].key != key
      requires i == At(Home(hash, key, buckets.Length), d, buckets.Length)
      requires Probed(buckets[..], Home(hash, key, buckets.Length), key, d)
      ensures d' == d + 1 < buckets.Length && i' == At(Home(hash, key, buckets.Length), d', buckets.Length)
      ensures Probed(buckets[..], Home(hash, key, buckets.Length), key, d')
      ensures d' <= Dist(buckets[Prev(i', buckets.Length)]) + 1
    {
      hide Robin;
      hide Home;
      ProbeStep(hash, buckets[..], key, d, e);
      i', d' := NextBucket(i), d + 1;
    }

    lemma KeyAbsent(key: K, d: nat)
      requires Valid() && d < buckets.Length
      requires Probed(buckets[..], Home(hash, key, buckets.Length), key, d)
      requires Dist(buckets[At(Home(hash, key, buckets.Length), d, buckets.Length)]) < d
      ensures key !in contents
    {
      ProbeMayStop(hash, buckets[..], key, d);
      if key in contents {
        BucketOfContents(key);
      }
    }

    /** The end marker is the bucket count. */
    method Find(key: K) returns (index: nat)
      requires Valid()
      ensures if key in contents then PointsAt(index, key) else index == bucketCount
    {
      var found, i, _ := Probe(key);
      index := if found then i else bucketCount;
    }

    function NextBucket(i: nat): (j: nat)
      requires IsPow2(buckets.Length) && mask == buckets.Length - 1 && i < buckets.Length
      reads this
      ensures j == Next(i, buckets.Length)
    {
      MaskWraps(i, buckets.Length);
      And(i + 1, mask)
    }

    /** swap_with_value_in_bucket, or set_value_of_empty_bucket when what comes out is an empty bucket. */
    method Put(i: nat, c: Bucket<K, V>) returns (evicted: Bucket<K, V>)
      requires Robin(hash, buckets[..]) && Carried(hash, buckets[..], i, c) && Dist(buckets[i]) < c.dist
      modifies buckets
      ensures buckets[..] == old(buckets[..])[i := c]
      ensures evicted == old(buckets[i]) && (evicted.Full? ==> Placed(hash, buckets.Length, i, evicted))
      ensures Robin(hash, buckets[..])
      ensures Entries(buckets[..]) + Entry(evicted) == old(Entries(buckets[..])) + Entry(c)
    {
      evicted := buckets[i];
      PlaceKeepsRobin(hash, buckets[..], i, c);
      EntriesOfUpdate(buckets[..], i, c);
      ghost var b := buckets[..][i := c];
      buckets[i] := c;
      assert buckets[..] == b;
    }

    /** Takes the carried entry to the next bucket. */
    method Advance(i: nat, c: Bucket<K, V>, ghost e: nat) returns (i': nat, c': Bucket<K, V>)
      requires Robin(hash, buckets[..]) && IsPow2(buckets.Length) && mask == buckets.Length - 1
      requires e < buckets.Length && buckets[e].Empty?
      requires i < buckets.Length && Placed(hash, buckets.Length, i, c) && c.dist <= Dist(buckets[i])
      ensures i' == Next(i, buckets.Length) && c.Full? && c' == c.(dist := c.dist + 1)
      ensures Placed(hash, buckets.Length, i', c')
      ensures Carried(hash, buckets[..], i', c') && c'.Full?
      ensures i != e && Steps(i', e, buckets.Length) == Steps(i, e, buckets.Length) - 1
    {
      CarryOn(hash, buckets[..], e, i, c);
      i', c' := NextBucket(i), c.(dist := c.dist + 1);
    }

    /** insert_value_on_rehash: a swap chain started at the ideal bucket of a key not in the table. */
    method InsertValueOnRehash(ibucket: nat, entry: Bucket<K, V>, ghost e: nat)
      requires Robin(hash, buckets[..]) && IsPow2(buckets.Length) && mask == buckets.Length - 1
      requires e < buckets.Length && buckets[e].Empty?
      requires entry.Full? && entry.dist == 0 && Placed(hash, buckets.Length, ibucket, entry)
      modifies buckets
      ensures Robin(hash, buckets[..])
      ensures Entries(buckets[..]) == old(Entries(buckets[..])) + Entry(entry)
    {
      hide Robin;
      hide Entries;
      hide Steps;
      hide Home;
      hide At;
      hide Placed;
      hide Carried;
      ghost var n := buckets.Length;
      ghost var total := Entries(buckets[..]) + Entry(entry);
      var carried := entry;
      var i: nat := ibucket;
      FreshEntryIsCarried(hash, buckets[..], i, carried);
      while true
        invariant i < n && Robin(hash, buckets[..]) && buckets[e].Empty?
        invariant carried.Full? && Placed(hash, n, i, carried) && Carried(hash, buckets[..], i, carried)
        invariant Entries(buckets[..]) + Entry(carried) == total
        decreases Steps(i, e, n)
      {
        if carried.dist > Dist(buckets[i]) {
          carried := Put(i, carried);
          if carried.Empty? {
            return;
          }
        }
        i, carried := Advance(i, carried, e);
      }
    }

    /** One turn of the swap chain: bucket i takes the carried entry, or keeps its own. */
    method Visit(i: nat, c: Bucket<K, V>, ghost b0: seq<Bucket<K, V>>, ghost start: nat, ghost e: nat, ghost was: bool)
      returns (c': Bucket<K, V>)
      requires Robin(hash, buckets[..]) && Carried(hash, buckets[..], i, c) && c.Full?
      requires Ahead(b0, buckets[..], i, e) && buckets[e].Empty? && buckets[i].Full? && i != start < buckets.Length
      requires growOnNextInsert <==> was || SomeFarExchange(b0, buckets[..], start)
      modifies buckets, this`growOnNextInsert
      ensures Robin(hash, buckets[..]) && buckets[e].Empty? && buckets[start] == old(buckets[start])
      ensures c'.Full? && Placed(hash, buckets.Length, i, c') && c'.dist <= Dist(buckets[i])
      ensures Entries(buckets[..]) + Entry(c') == old(Entries(buckets[..])) + Entry(c)
      ensures Ahead(b0, buckets[..], Next(i, buckets.Length), e)
      ensures growOnNextInsert <==> was || SomeFarExchange(b0, buckets[..], start)
    {
      hide Robin;
      hide Entries;
      hide Placed;
      hide SomeFarExchange;
      c' := c;
      if c.dist > Dist(buckets[i]) {
        if c.dist >= DIST_FROM_IDEAL_BUCKET_LIMIT {
          growOnNextInsert := true;
        }
        NextExchange(b0, buckets[..], start, i, e, c);
        c' := Put(i, c);
      } else {
        PassBy(b0, buckets[..], i, e);
      }
    }

    /** The swap chain of insert_value_impl; e is a bucket known to be empty. */
    method InsertValue(start: nat, entry: Bucket<K, V>, ghost e: nat)
      requires Robin(hash, buckets[..]) && IsPow2(buckets.Length) && mask == buckets.Length - 1
      requires e < buckets.Length && buckets[e].Empty?
      requires start < buckets.Length && entry.Full? && Carried(hash, buckets[..], start, entry)
      requires buckets[start].Full? && buckets[start].dist < entry.dist
      modifies buckets, this`growOnNextInsert
      ensures Robin(hash, buckets[..])
      ensures Entries(buckets[..]) == old(Entries(buckets[..])) + Entry(entry)
      ensures buckets[start] == entry
      ensures growOnNextInsert <==> old(growOnNextInsert) || SomeFarExchange(old(buckets[..]), buckets[..], start)
    {
      hide Pow2;
      hide IsPow2;
      hide Robin;
      hide Entries;
      hide Steps;
      hide Home;
      hide At;
      hide Placed;
      hide Carried;
      hide Ahead;
      hide SomeFarExchange;
      ghost var n := buckets.Length;
      ghost var b0, total := buckets[..], Entries(buckets[..]) + Entry(entry);

      FirstExchange(b0, start, e, entry);
      var carried := Put(start, entry);
      var i: nat;
      i, carried := Advance(start, carried, e);
      while !buckets[i].Empty?
        invariant i < n && Robin(hash, buckets[..]) && buckets[e].Empty? && buckets[start] == entry
        invariant carried.Full? && Placed(hash, n, i, carried) && Carried(hash, buckets[..], i, carried)
        invariant Entries(buckets[..]) + Entry(carried) == total
        invariant Steps(i, e, n) < Steps(start, e, n)
        invariant Ahead(b0, buckets[..], i, e)
        invariant growOnNextInsert <==> old(growOnNextInsert) || SomeFarExchange(b0, buckets[..], start)
        decreases Steps(i, e, n)
      {
        carried := Visit(i, carried, b0, start, e, old(growOnNextInsert));
        i, carried := Advance(i, carried, e);
      }
      NextExchange(b0, buckets[..], start, i, e, carried);
      carried := Put(i, carried);
    }

    lemma HasEmptyBucket() returns (e: nat)
      requires |Entries(buckets[..])| < buckets.Length
      ensures e < buckets.Length && buckets[e].Empty?
    {
      EntriesCount(buckets[..]);
      var i :| 0 <= i < |buckets[..]| && buckets[..][i].Empty?;
      e := i;
    }

    /** One bucket of the old table enters the new one. */
    method Transfer(bucket: Bucket<K, V>, useStoredHash: bool)
      requires Shape() && |Entries(buckets[..])| + 1 < buckets.Length
      requires bucket.Full? && bucket.hash == TruncateHash(hash(bucket.key))
      requires useStoredHash ==> buckets.Length <= Pow2(TRUNCATED_HASH_BITS)
      modifies buckets
      ensures Shape()
      ensures Entries(buckets[..]) == old(Entries(buckets[..])) + Entry(bucket)
    {
      hide Robin;
      hide Entries;
      ghost var e := HasEmptyBucket();
      var h := if useStoredHash then bucket.hash else hash(bucket.key);
      if useStoredHash {
        TruncatedHashAgrees(hash(bucket.key), buckets.Length, TRUNCATED_HASH_BITS);
      }
      var ibucket := And(h, mask);
      var entry := bucket.(dist := 0);
      assert Placed(hash, buckets.Length, ibucket, entry);
      InsertValueOnRehash(ibucket, entry, e);
      e := HasEmptyBucket();
    }

    /** The loop of rehash_impl: every entry of this table moves to the empty table t. */
    method FillFrom(t: RobinHash<K, V>)
      requires Valid() && t.Valid() && t.contents == map[] && t.hash == hash && t != this && t.buckets != buckets
      requires 2 * nbElements <= t.bucketCount
      modifies t.buckets
      ensures t.Shape() && Entries(t.buckets[..]) == Entries(buckets[..])
    {
      hide Pow2;
      hide IsPow2;
      hide Robin;
      hide Entries;
      hide Represents;
      var useStoredHash := 0 < t.bucketCount <= Pow2(TRUNCATED_HASH_BITS);
      ghost var b := buckets[..];
      assert b[0..] == b;
      var j := 0;
      while j < buckets.Length
        invariant j <= |b| && buckets[..] == b
        invariant t.Shape() && Entries(t.buckets[..]) + Entries(b[j..]) == Entries(b)
      {
        EntriesPop(b, j);
        if !buckets[j].Empty? {
          StoredHash(j);
          t.Transfer(buckets[j], useStoredHash);
        }
        j := j + 1;
      }
      EntriesOfNone<K, V>();
      assert b[j..] == [];
    }

    lemma StoredHash(j: nat)
      requires Shape() && j < buckets.Length && buckets[j].Full?
      ensures buckets[j].hash == TruncateHash(hash(buckets[j].key))
    {
      assert Placed(hash, buckets.Length, j, buckets[..][j]);
    }

    /** rehash_impl: rebuilds the table with at least `count` buckets. */
    method RehashImpl(count: nat) returns (ok: bool)
      requires Valid() && 2 * nbElements <= count
      modifies this
      ensures Valid() && contents == old(contents)
      ensures ok <==> count <= MAX_BUCKET_COUNT
      ensures ok ==> fresh(buckets) && !growOnNextInsert && !tryShrinkOnNextInsert
      ensures ok ==> RoundsTo(count, bucketCount)
      ensures !ok ==> unchanged(this)
    {
      hide Pow2;
      hide Robin;
      hide Entries;
      hide Represents;
      if count > MAX_BUCKET_COUNT {
        return false;
      }
      var t := new RobinHash(count, hash);
      FillFrom(t);
      buckets, bucketCount, loadThreshold, mask := t.buckets, t.bucketCount, t.loadThreshold, t.mask;
      growOnNextInsert, tryShrinkOnNextInsert := false, false;
      ok := true;
    }

    /** rehash(count): never fewer buckets than twice the number of elements. */
    method Rehash(count: nat) returns (ok: bool)
      requires Valid()
      modifies this
      ensures Valid() && contents == old(contents)
      ensures buckets == old(buckets) || fresh(buckets)
      ensures ok <==> count <= MAX_BUCKET_COUNT
      ensures ok ==> RoundsTo(if count < 2 * |contents| then 2 * |contents| else count, bucketCount) && !growOnNextInsert
      ensures !ok ==> unchanged(this)
    {
      ok := RehashImpl(if count < 2 * nbElements then 2 * nbElements else count);
    }

    /** The table can grow once more. */
    predicate CanGrow()
      reads this
    {
      mask + 1 <= MAX_BUCKET_COUNT / GROWTH_FACTOR
    }

    predicate MustGrow()
      reads this
    {
      growOnNextInsert || nbElements >= loadThreshold
    }

    /** With the minimum load factor at its default of zero, the request to shrink is only forgotten. */
    method RehashOnExtremeLoad() returns (rehashed: bool, ok: bool)
      requires Valid()
      modifies this
      ensures Valid() && contents == old(contents)
      ensures if rehashed then fresh(buckets) else buckets == old(buckets) && bucketCount == old(bucketCount)
      ensures ok <==> (old(MustGrow()) ==> old(CanGrow()))
      ensures ok ==> nbElements < loadThreshold
      ensures rehashed <==> ok && old(MustGrow())
      ensures rehashed ==> bucketCount == 2 * old(mask + 1)
      ensures ok ==> !growOnNextInsert && !tryShrinkOnNextInsert
      ensures !ok ==> unchanged(this)
    {
      hide Robin;
      hide Entries;
      hide Represents;
      if MustGrow() {
        if !CanGrow() {
          return false, false;
        }
        ghost var slots := mask + 1;
        ok := RehashImpl((mask + 1) * GROWTH_FACTOR);
        DoubleRounds(slots, bucketCount);
        growOnNextInsert := false;
        return true, true;
      }
      if tryShrinkOnNextInsert {
        tryShrinkOnNextInsert := false;
      }
      rehashed, ok := false, true;
    }

    /** The iterator at this index gives the key and its value. */
    ghost predicate PointsAt(index: nat, key: K)
      reads this, buckets
    {
      && index < bucketCount <= buckets.Length
      && buckets[index].Full?
      && buckets[index].key == key && key in contents && buckets[index].value == contents[key]
    }

    /** Buckets as many as the table has, that hold this map. */
    ghost predicate Preceded(before: seq<Bucket<K, V>>, m: map<K, V>)
      reads this
    {
      |before| == buckets.Length && Robin(hash, before) && Represents(Entries(before), m)
    }

    /**
      insert_impl, reached by insert, emplace and try_emplace: an existing entry is left as it is.  The
      new one goes into the buckets `before`, which are those of the table unless it had to grow.
     */
    method Insert(key: K, value: V) returns (r: InsertResult, ghost before: seq<Bucket<K, V>>)
      requires Valid()
      modifies this, buckets
      ensures Valid() && (buckets == old(buckets) || fresh(buckets))
      ensures r.LengthError? <==> key !in old(contents) && old(MustGrow()) && !old(CanGrow())
      ensures r.LengthError? ==> unchanged(this) && buckets[..] == old(buckets[..])
      ensures r.Present? ==> key in contents && unchanged(this) && buckets[..] == old(buckets[..])
      ensures r.Inserted? ==> key !in old(contents) && contents == old(contents)[key := value]
      ensures r.Inserted? ==> bucketCount == if old(MustGrow()) then 2 * old(mask + 1) else old(bucketCount)
      ensures !r.LengthError? ==> PointsAt(r.index, key)
      ensures r.Inserted? ==> Preceded(before, old(contents)) && (!old(MustGrow()) ==> before == old(buckets[..]))
      ensures r.Inserted? ==> (growOnNextInsert <==> SomeFarExchange(before, buckets[..], r.index)) && !tryShrinkOnNextInsert
    {
      hide Robin;
      hide Entries;
      hide Represents;
      hide Placed;
      hide Carried;
      hide SomeFarExchange;
      before := buckets[..];
      var found, i, d := Probe(key);
      if found {
        return Present(i), before;
      }
      var rehashed, ok := RehashOnExtremeLoad();
      if !ok {
        return LengthError, before;
      }
      if rehashed {
        found, i, d := Probe(key);
      }
      before := buckets[..];
      InsertAt(i, d, key, value);
      r := Inserted(i);
    }

    /** The new entry takes bucket i, which is empty or whose entry moves on. */
    method PlaceEntry(i: nat, entry: Bucket<K, V>)
      requires Shape() && entry.Full? && i < buckets.Length
      requires Carried(hash, buckets[..], i, entry) && Dist(buckets[i]) < entry.dist
      modifies buckets, this`growOnNextInsert
      ensures Robin(hash, buckets[..]) && buckets[i] == entry
      ensures growOnNextInsert <==> old(growOnNextInsert) || SomeFarExchange(old(buckets[..]), buckets[..], i)
      ensures Entries(buckets[..]) == old(Entries(buckets[..])) + Entry(entry)
    {
      ghost var e :| 0 <= e < buckets.Length && buckets[e].Empty?;
      hide Robin;
      hide Placed;
      hide Carried;
      hide Entries;
      if buckets[i].Empty? {
        var _ := Put(i, entry);
      } else {
        InsertValue(i, entry, e);
      }
    }

    /** The end of insert_impl: the entry goes in and is counted. */
    method InsertAt(i: nat, d: nat, key: K, value: V)
      requires Valid() && nbElements < loadThreshold && key !in contents
      requires i < buckets.Length && Dist(buckets[i]) < d < buckets.Length
      requires i == At(Home(hash, key, buckets.Length), d, buckets.Length)
      requires d <= Dist(buckets[Prev(i, buckets.Length)]) + 1
      modifies this, buckets
      ensures Valid() && buckets == old(buckets) && bucketCount == old(bucketCount)
      ensures contents == old(contents)[key := value]
      ensures buckets[i].Full? && buckets[i].key == key && buckets[i].value == value
      ensures tryShrinkOnNextInsert == old(tryShrinkOnNextInsert)
      ensures growOnNextInsert <==> old(growOnNextInsert) || SomeFarExchange(old(buckets[..]), buckets[..], i)
    {
      hide Pow2;
      hide IsPow2;
      hide Robin;
      hide Entries;
      hide Represents;
      hide At;
      hide Home;
      var entry := Full(d, TruncateHash(hash(key)), key, value);
      RepresentsInsert(Entries(buckets[..]), contents, key, value);
      PlaceEntry(i, entry);
      nbElements := nbElements + 1;
      contents := contents[key := value];
      ghost var e := HasEmptyBucket();
    }

    /** insert_or_assign: try_emplace, then assignment through the iterator. */
    method InsertOrAssign(key: K, value: V) returns (r: InsertResult, ghost before: seq<Bucket<K, V>>)
      requires Valid()
      modifies this, buckets
      ensures Valid() && (buckets == old(buckets) || fresh(buckets))
      ensures r.LengthError? <==> key !in old(contents) && old(MustGrow()) && !old(CanGrow())
      ensures r.Present? <==> key in old(contents)
      ensures contents == if r.LengthError? then old(contents) else old(contents)[key := value]
      ensures !r.Inserted? ==> bucketCount == old(bucketCount) && growOnNextInsert == old(growOnNextInsert)
      ensures r.Inserted? ==> bucketCount == if old(MustGrow()) then 2 * old(mask + 1) else old(bucketCount)
      ensures !r.LengthError? ==> PointsAt(r.index, key)
      ensures r.Inserted? ==> Preceded(before, old(contents)) && (!old(MustGrow()) ==> before == old(buckets[..]))
      ensures r.Inserted? ==> (growOnNextInsert <==> SomeFarExchange(before, buckets[..], r.index)) && !tryShrinkOnNextInsert
      ensures r.LengthError? ==> unchanged(this) && buckets[..] == old(buckets[..])
    {
      hide SomeFarExchange;
      hide Represents;
      hide Entries;
      hide Robin;
      r, before := Insert(key, value);
      if r.Present? {
        AssignAt(r.index, key, value);
      }
    }

    method AssignAt(i: nat, key: K, value: V)
      requires Valid() && PointsAt(i, key)
      modifies this`contents, buckets
      ensures Valid() && buckets == old(buckets) && bucketCount == old(bucketCount)
      ensures contents == old(contents)[key := value] && PointsAt(i, key)
    {
      hide Robin;
      hide Entries;
      hide Represents;
      ghost var b := buckets[..];
      EntriesOfAssign(b, i, value);
      RepresentsAssign(Entries(b), contents, key, value);
      AssignKeepsRobin(hash, b, i, value);
      ghost var e := HasEmptyBucket();
      buckets[i] := buckets[i].(value := value);
      assert buckets[..] == b[i := b[i].(value := value)];
      contents := contents[key := value];
      assert buckets[e].Empty?;
    }

    /** erase(key): the number of erased elements. */
    method Erase(key: K) returns (erased: nat)
      requires Valid()
      modifies this`nbElements, this`contents, this`tryShrinkOnNextInsert, buckets
      ensures Valid()
      ensures erased == (if key in old(contents) then 1 else 0)
      ensures contents == old(contents) - {key}
      ensures tryShrinkOnNextInsert <==> old(tryShrinkOnNextInsert) || erased == 1
    {
      hide Robin;
      hide Entries;
      hide Represents;
      var index := Find(key);
      if index != bucketCount {
        EraseFromBucket(index, key);
        tryShrinkOnNextInsert := true;
        erased := 1;
      } else {
        assert contents - {key} == contents;
        erased := 0;
      }
    }

    /** erase_from_bucket: the bucket is cleared and its followers move one bucket back. */
    method EraseFromBucket(pos: nat, ghost key: K)
      requires Valid() && PointsAt(pos, key)
      modifies this`nbElements, this`contents, buckets
      ensures Valid() && contents == old(contents) - {key}
    {
      hide Robin;
      hide Entries;
      hide Represents;
      RepresentsRemove(Entries(buckets[..]), contents, key);
      ghost var e := HasEmptyBucket();
      ShiftBack(pos, e);
      nbElements := nbElements - 1;
      contents := contents - {key};
      e := HasEmptyBucket();
    }

    method ShiftBack(pos: nat, ghost e: nat)
      requires Robin(hash, buckets[..]) && IsPow2(buckets.Length) && mask == buckets.Length - 1
      requires pos < buckets.Length && buckets[pos].Full?
      requires e < buckets.Length && buckets[e].Empty?
      modifies buckets
      ensures Robin(hash, buckets[..])
      ensures Entries(buckets[..]) == old(Entries(buckets[..])) - Entry(old(buckets[pos]))
      ensures |Entries(buckets[..])| == old(|Entries(buckets[..])|) - 1
    {
      hide Robin;
      hide Entries;
      hide RobinWithHole;
      hide Steps;
      hide At;
      hide Next;
      ghost var n := buckets.Length;
      ghost var rest := Entries(buckets[..]) - Entry(buckets[pos]);
      ClearAt(pos);
      var hole: nat, i: nat := pos, NextBucket(pos);
      while Dist(buckets[i]) > 0
        invariant hole < n && i == Next(hole, n) && RobinWithHole(hash, buckets[..], hole)
        invariant buckets[e].Empty? && hole != e
        invariant Entries(buckets[..]) == rest
        decreases Steps(i, e, n)
      {
        StepOn(i, e, n);
        ShiftOne(hole);
        hole, i := i, NextBucket(i);
      }
      HoleCloses(hash, buckets[..], hole);
    }

    method ClearAt(pos: nat)
      requires Robin(hash, buckets[..]) && buckets.Length > 1 && pos < buckets.Length && buckets[pos].Full?
      modifies buckets
      ensures buckets[..] == old(buckets[..])[pos := Empty] && RobinWithHole(hash, buckets[..], pos)
      ensures Entries(buckets[..]) == old(Entries(buckets[..])) - Entry(old(buckets[pos]))
      ensures |Entries(buckets[..])| == old(|Entries(buckets[..])|) - 1
    {
      ClearMakesHole(hash, buckets[..], pos);
      EntriesOfClear(buckets[..], pos);
      hide Robin;
      hide RobinWithHole;
      hide Entries;
      ghost var b := buckets[..][pos := Empty];
      buckets[pos] := Empty;
      assert buckets[..] == b;
    }

    /** The entry after the hole moves into it, and leaves the hole behind. */
    method ShiftOne(hole: nat)
      requires hole < buckets.Length && RobinWithHole(hash, buckets[..], hole)
      requires Dist(buckets[Next(hole, buckets.Length)]) > 0
      modifies buckets
      ensures RobinWithHole(hash, buckets[..], Next(hole, buckets.Length))
      ensures Entries(buckets[..]) == old(Entries(buckets[..]))
      ensures forall j :: 0 <= j < buckets.Length && old(buckets[j]).Empty? && j != hole ==> buckets[j].Empty?
    {
      hide Robin;
      hide Entries;
      var i := Next(hole, buckets.Length);
      ghost var b := buckets[..];
      ShiftMovesHole(hash, b, hole);
      EntriesOfMove(b, hole, i, b[i].dist - 1);
      hide RobinWithHole;
      buckets[hole] := buckets[i].(dist := buckets[i].dist - 1);
      buckets[i] := Empty;
      assert buckets[..] == b[hole := b[i].(dist := b[i].dist - 1)][i := Empty];
    }

    /** clear, with the minimum load factor at its default of zero: the bucket array is kept. */
    method Clear()
      requires Valid()
      modifies this`nbElements, this`contents, this`growOnNextInsert, buckets
      ensures Valid() && contents == map[] && !growOnNextInsert
    {
      hide Robin;
      hide Entries;
      hide Represents;
      ghost var n := buckets.Length;
      var j := 0;
      while j < buckets.Length
        invariant 0 <= j <= buckets.Length
        invariant forall i :: 0 <= i < j ==> buckets[i].Empty?
        modifies buckets
      {
        buckets[j] := Empty;
        j := j + 1;
      }
      nbElements, growOnNextInsert := 0, false;
      contents := map[];
      AllEmpty(hash, buckets[..]);
      assert buckets[0].Empty?;
    }
  }
}
