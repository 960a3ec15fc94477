/**
  Whole runs of the hash table, from an empty one, against the same run of a finite map.
 */
module RobinRuns {
  import opened GrowthPolicy
  import opened RobinHash
  import opened RobinTable

  datatype Op<K, V> =
    | TryEmplace(key: K, value: V)
    | Assign(key: K, value: V)
    | Erase(key: K)
    | Lookup(key: K)
    | Resize(count: nat)
    | ClearAll

  datatype Answer<V> =
    | Done(changed: bool)
    | Found(value: V)
    | NotFound
    | TooManyBuckets

  // ---------------------------------------------------------------- a finite map

  /** What a finite map answers. */
  function Expected<K, V>(m: map<K, V>, op: Op<K, V>): Answer<V> {
    match op
    case TryEmplace(k, _) => Done(k !in m)
    case Assign(k, _) => Done(k !in m)
    case Erase(k) => Done(k in m)
    case Lookup(k) => if k in m then Found(m[k]) else NotFound
    case Resize(_) => Done(true)
    case ClearAll => Done(true)
  }

  function Updated<K, V>(m: map<K, V>, op: Op<K, V>): map<K, V> {
    match op
    case TryEmplace(k, v) => if k in m then m else m[k := v]
    case Assign(k, v) => m[k := v]
    case Erase(k) => m - {k}
    case Lookup(_) => m
    case Resize(_) => m
    case ClearAll => map[]
  }

  /** The answers of a whole run of a finite map, which never refuses anything. */
  function MapAnswers<K, V>(m: map<K, V>, ops: seq<Op<K, V>>): seq<Answer<V>>
    decreases |ops|
  {
    if ops == [] then [] else [Expected(m, ops[0])] + MapAnswers(Updated(m, ops[0]), ops[1..])
  }

  // ---------------------------------------------------------------- a table with its buckets

  /** What a table shows of itself: its map, how many buckets it has, whether it is to grow, and the buckets. */
  datatype Table<K, V> = Table(contents: map<K, V>, bucketCount: nat, growNext: bool, layout: seq<Bucket<K, V>>)

  predicate Inserts<K, V>(m: map<K, V>, op: Op<K, V>) {
    (op.TryEmplace? || op.Assign?) && op.key !in m
  }

  /** With no buckets there is still the one that is shared and stays empty. */
  function Slots(bucketCount: nat): nat {
    if bucketCount == 0 then 1 else bucketCount
  }

  predicate HalfFull<K, V>(s: Table<K, V>) {
    |s.contents| >= s.bucketCount / 2
  }

  predicate MustGrow<K, V>(s: Table<K, V>) {
    s.growNext || HalfFull(s)
  }

  /** An insertion into a table that must grow and cannot, or a request for too many buckets. */
  predicate Refused<K, V>(s: Table<K, V>, op: Op<K, V>) {
    if op.Resize? then op.count > MAX_BUCKET_COUNT
    else Inserts(s.contents, op) && MustGrow(s) && Slots(s.bucketCount) > MAX_BUCKET_COUNT / GROWTH_FACTOR
  }

  /** The buckets hold this map, no entry farther from home than there are buckets. */
  ghost predicate Holds<K, V>(layout: seq<Bucket<K, V>>, m: map<K, V>) {
    Represents(Entries(layout), m) && forall j :: 0 <= j < |layout| ==> Dist(layout[j]) < |layout|
  }

  ghost predicate Laid<K, V>(s: Table<K, V>) {
    |s.layout| == Slots(s.bucketCount) && Holds(s.layout, s.contents)
  }

  /**
    The new entry went into bucket i of these buckets, those of the table or the doubled ones; it asks for
    more at the next insertion exactly if another bucket had to take an entry that far from home.
   */
  ghost predicate WentInto<K, V>(s: Table<K, V>, key: K, before: seq<Bucket<K, V>>, i: nat, s': Table<K, V>) {
    && |before| == |s'.layout| && Holds(before, s.contents) && (!MustGrow(s) ==> before == s.layout)
    && i < |s'.layout| && s'.layout[i].Full? && s'.layout[i].key == key
    && (s'.growNext <==> SomeFarExchange(before, s'.layout, i))
  }

  ghost predicate AfterInsertion<K(!new), V(!new)>(s: Table<K, V>, key: K, s': Table<K, V>) {
    && s'.bucketCount == (if MustGrow(s) then 2 * Slots(s.bucketCount) else s.bucketCount)
    && exists before, i :: WentInto(s, key, before, i, s')
  }

  /** The buckets and the flag after an operation that adds no entry. */
  ghost predicate AfterOther<K, V>(s: Table<K, V>, op: Op<K, V>, s': Table<K, V>) {
    match op
    case Resize(count) =>
      RoundsTo(if count < 2 * |s.contents| then 2 * |s.contents| else count, s'.bucketCount) && !s'.growNext
    case ClearAll => s'.bucketCount == s.bucketCount && !s'.growNext
    case Lookup(_) => s' == s
    case TryEmplace(_, _) => s' == s
    case _ => s'.bucketCount == s.bucketCount && s'.growNext == s.growNext
  }

  /** One operation: refused exactly when it must be, and then nothing changes; or done as a map does it. */
  ghost predicate Step<K(!new), V(!new)>(s: Table<K, V>, op: Op<K, V>, answer: Answer<V>, s': Table<K, V>) {
    if Refused(s, op) then answer == TooManyBuckets && s' == s
    else
      && answer == Expected(s.contents, op)
      && s'.contents == Updated(s.contents, op)
      && Laid(s')
      && if Inserts(s.contents, op) then AfterInsertion(s, op.key, s') else AfterOther(s, op, s')
  }

  /** A run: the answers, and the table after each operation. */
  ghost predicate Conforms<K(!new), V(!new)>(s: Table<K, V>, ops: seq<Op<K, V>>, answers: seq<Answer<V>>,
      states: seq<Table<K, V>>)
    decreases |ops|
  {
    && |answers| == |states| == |ops|
    && (ops != [] ==> Step(s, ops[0], answers[0], states[0]) && Conforms(states[0], ops[1..], answers[1..], states[1..]))
  }

  ghost function Shown<K(!new), V>(t: RobinHash<K, V>): Table<K, V>
    reads t, t.buckets
  {
    Table(t.contents, t.bucketCount, t.growOnNextInsert, t.buckets[..])
  }

  lemma ShownIsLaid<K(!new), V(!new)>(t: RobinHash<K, V>)
    requires t.Valid()
    ensures Laid(Shown(t))
  {
    hide t.Valid;
    hide Represents;
    t.BucketsHoldContents();
  }

  method PerformTryEmplace<K(==,!new), V(!new)>(t: RobinHash<K, V>, op: Op<K, V>) returns (answer: Answer<V>)
    requires t.Valid() && op.TryEmplace?
    modifies t, t.buckets
    ensures t.Valid() && (t.buckets == old(t.buckets) || fresh(t.buckets))
    ensures Step(old(Shown(t)), op, answer, Shown(t))
  {
    hide t.Valid;
    hide MAX_BUCKET_COUNT;
    hide Represents;
    hide SomeFarExchange;
    hide Robin;
    hide Step;
    t.Counted();
    ghost var s := Shown(t);
    var r;
    ghost var before;
    r, before := t.Insert(op.key, op.value);
    answer := if r.LengthError? then TooManyBuckets else Done(r.Inserted?);
    t.Counted();
    ShownIsLaid(t);
    if r.Inserted? {
      DistsAreSmall(t.hash, before);
      StepOfInsertion(s, op, before, r.index, Shown(t));
    } else {
      StepOfNone(s, op, answer, Shown(t));
    }
  }

  method PerformAssign<K(==,!new), V(!new)>(t: RobinHash<K, V>, op: Op<K, V>) returns (answer: Answer<V>)
    requires t.Valid() && op.Assign?
    modifies t, t.buckets
    ensures t.Valid() && (t.buckets == old(t.buckets) || fresh(t.buckets))
    ensures Step(old(Shown(t)), op, answer, Shown(t))
  {
    hide t.Valid;
    hide MAX_BUCKET_COUNT;
    hide Represents;
    hide SomeFarExchange;
    hide Robin;
    hide Step;
    t.Counted();
    ghost var s := Shown(t);
    var r;
    ghost var before;
    r, before := t.InsertOrAssign(op.key, op.value);
    answer := if r.LengthError? then TooManyBuckets else Done(r.Inserted?);
    t.Counted();
    ShownIsLaid(t);
    if r.Inserted? {
      DistsAreSmall(t.hash, before);
      StepOfInsertion(s, op, before, r.index, Shown(t));
    } else {
      StepOfNone(s, op, answer, Shown(t));
    }
  }

  lemma StepOfInsertion<K(!new), V(!new)>(s: Table<K, V>, op: Op<K, V>, before: seq<Bucket<K, V>>, i: nat, s': Table<K, V>)
    requires Inserts(s.contents, op) && !Refused(s, op) && Laid(s')
    requires s'.contents == s.contents[op.key := op.value]
    requires s'.bucketCount == if MustGrow(s) then 2 * Slots(s.bucketCount) else s.bucketCount
    requires WentInto(s, op.key, before, i, s')
    ensures Step(s, op, Done(true), s')
  {
    hide Laid;
    hide WentInto;
    hide Refused;
    hide MustGrow;
  }

  lemma StepOfNone<K(!new), V(!new)>(s: Table<K, V>, op: Op<K, V>, answer: Answer<V>, s': Table<K, V>)
    requires op.TryEmplace? || op.Assign?
    requires if Refused(s, op) then answer == TooManyBuckets && s' == s else
      && op.key in s.contents && answer == Done(false) && Laid(s')
      && s'.bucketCount == s.bucketCount && s'.growNext == s.growNext
      && if op.Assign? then s'.contents == s.contents[op.key := op.value] else s' == s
    ensures Step(s, op, answer, s')
  {
    hide Laid;
  }

  method PerformResize<K(==,!new), V(!new)>(t: RobinHash<K, V>, op: Op<K, V>) returns (answer: Answer<V>)
    requires t.Valid() && op.Resize?
    modifies t
    ensures t.Valid() && (t.buckets == old(t.buckets) || fresh(t.buckets))
    ensures Step(old(Shown(t)), op, answer, Shown(t))
  {
    hide t.Valid;
    hide MAX_BUCKET_COUNT;
    hide RoundsTo;
    hide Laid;
    var ok := t.Rehash(op.count);
    answer := if ok then Done(true) else TooManyBuckets;
    ShownIsLaid(t);
  }

  method PerformOther<K(==,!new), V(!new)>(t: RobinHash<K, V>, op: Op<K, V>) returns (answer: Answer<V>)
    requires t.Valid() && (op.Erase? || op.Lookup? || op.ClearAll?)
    modifies t, t.buckets
    ensures t.Valid() && t.buckets == old(t.buckets)
    ensures Step(old(Shown(t)), op, answer, Shown(t))
  {
    hide t.Valid;
    hide MAX_BUCKET_COUNT;
    hide RoundsTo;
    hide Laid;
    if op.Erase? {
      var n := t.Erase(op.key);
      answer := Done(n == 1);
    } else if op.Lookup? {
      var i := t.Find(op.key);
      answer := if i == t.bucketCount then NotFound else Found(t.buckets[i].value);
    } else {
      t.Clear();
      answer := Done(true);
    }
    ShownIsLaid(t);
  }

  /** One operation of the table: refused exactly under the growth policy's condition. */
  method Perform<K(==,!new), V(!new)>(t: RobinHash<K, V>, op: Op<K, V>) returns (answer: Answer<V>)
    requires t.Valid()
    modifies t, t.buckets
    ensures t.Valid() && (t.buckets == old(t.buckets) || fresh(t.buckets))
    ensures Step(old(Shown(t)), op, answer, Shown(t))
  {
    hide t.Valid;
    hide Step;
    if op.TryEmplace? {
      answer := PerformTryEmplace(t, op);
    } else if op.Assign? {
      answer := PerformAssign(t, op);
    } else if op.Resize? {
      answer := PerformResize(t, op);
    } else {
      answer := PerformOther(t, op);
    }
  }

  method Continue<K(==,!new), V(!new)>(t: RobinHash<K, V>, ops: seq<Op<K, V>>)
    returns (answers: seq<Answer<V>>, ghost states: seq<Table<K, V>>)
    requires t.Valid()
    modifies t, t.buckets
    ensures Conforms(old(Shown(t)), ops, answers, states)
    decreases |ops|
  {
    if ops == [] {
      return [], [];
    }
    var first := Perform(t, ops[0]);
    ghost var state := Shown(t);
    var rest;
    ghost var later;
    rest, later := Continue(t, ops[1..]);
    answers, states := [first] + rest, [state] + later;
  }

  function NewTable<K, V>(): Table<K, V> {
    Table(map[], 0, false, [Empty])
  }

  /**
    Every run of a new table gives the answers of a finite map, whatever the hash function, but for
    the operations that ask for more buckets than there can be.
   */
  method Run<K(==,!new), V(!new)>(hash: K -> nat, ops: seq<Op<K, V>>)
    returns (answers: seq<Answer<V>>, ghost states: seq<Table<K, V>>)
    ensures Conforms(NewTable(), ops, answers, states)
    ensures Modest(ops) ==> answers == MapAnswers(map[], ops)
  {
    hide Conforms;
    hide Represents;
    hide Robin;
    hide MapAnswers;
    var t := new RobinHash<K, V>(0, hash);
    assert Shown(t) == NewTable();
    answers, states := Continue(t, ops);
    if Modest(ops) {
      ModestRunsAgree(NewTable(), ops, answers, states, Insertions(ops));
    }
  }

  // ---------------------------------------------------------------- when nothing is refused

  /** The table before operation i. */
  function Before<K, V>(s: Table<K, V>, states: seq<Table<K, V>>, i: nat): Table<K, V>
    requires i <= |states|
  {
    if i == 0 then s else states[i - 1]
  }

  lemma StepTells<K(!new), V(!new)>(s: Table<K, V>, op: Op<K, V>, answer: Answer<V>, s': Table<K, V>)
    requires Step(s, op, answer, s')
    ensures answer.TooManyBuckets? <==> Refused(s, op)
  {
  }

  /** A refusal comes exactly from a request or a bucket count above the limit. */
  lemma {:induction false} RefusalsExplained<K(!new), V(!new)>(s: Table<K, V>, ops: seq<Op<K, V>>, answers: seq<Answer<V>>,
      states: seq<Table<K, V>>, i: nat)
    requires Conforms(s, ops, answers, states) && i < |ops|
    ensures Step(Before(s, states, i), ops[i], answers[i], states[i])
    ensures answers[i].TooManyBuckets? <==> Refused(Before(s, states, i), ops[i])
    decreases i
  {
    hide Step;
    hide Refused;
    if i == 0 {
      StepTells(s, ops[0], answers[0], states[0]);
    } else {
      RefusalsExplained(states[0], ops[1..], answers[1..], states[1..], i - 1);
      assert Before(s, states, i) == Before(states[0], states[1..], i - 1);
    }
  }

  /** While there are at most half the buckets that can be, a run answers as a finite map throughout. */
  lemma {:induction false} RunsBelowLimitAgree<K(!new), V(!new)>(s: Table<K, V>, ops: seq<Op<K, V>>, answers: seq<Answer<V>>,
      states: seq<Table<K, V>>)
    requires Conforms(s, ops, answers, states)
    requires forall i :: 0 <= i < |ops| && ops[i].Resize? ==> ops[i].count <= MAX_BUCKET_COUNT
    requires forall i :: 0 <= i < |ops| ==> Slots(Before(s, states, i).bucketCount) <= MAX_BUCKET_COUNT / GROWTH_FACTOR
    ensures answers == MapAnswers(s.contents, ops)
    decreases |ops|
  {
    hide Step;
    if ops != [] {
      assert Before(s, states, 0) == s && !Refused(s, ops[0]);
      forall i | 0 <= i < |ops[1..]|
        ensures Slots(Before(states[0], states[1..], i).bucketCount) <= MAX_BUCKET_COUNT / GROWTH_FACTOR
      {
        assert Before(states[0], states[1..], i) == Before(s, states, i + 1);
      }
      TakenTells(s, ops[0], answers[0], states[0]);
      RunsBelowLimitAgree(states[0], ops[1..], answers[1..], states[1..]);
      assert answers == [answers[0]] + answers[1..];
    }
  }

  /** No entry is so far from home that the program would grow the table for it. */
  predicate AllNear<K, V>(s: Table<K, V>) {
    forall j :: 0 <= j < |s.layout| ==> Dist(s.layout[j]) < DIST_FROM_IDEAL_BUCKET_LIMIT
  }

  lemma NearStepKeepsFlag<K(!new), V(!new)>(s: Table<K, V>, op: Op<K, V>, answer: Answer<V>, s': Table<K, V>)
    requires Step(s, op, answer, s') && !s.growNext && AllNear(s')
    ensures !s'.growNext
    ensures Inserts(s.contents, op) && !answer.TooManyBuckets? ==>
      s'.bucketCount == if HalfFull(s) then 2 * Slots(s.bucketCount) else s.bucketCount
  {
    hide Holds;
    hide HalfFull;
    if !Refused(s, op) && Inserts(s.contents, op) {
      var before, i :| WentInto(s, op.key, before, i, s');
      NearIsNoExchange(before, s', i);
    }
  }

  lemma NearIsNoExchange<K(!new), V(!new)>(before: seq<Bucket<K, V>>, s: Table<K, V>, i: nat)
    requires AllNear(s) && |before| == |s.layout|
    ensures !SomeFarExchange(before, s.layout, i)
  {
  }

  /** A run in which no entry ever sits that far from home doubles the buckets exactly when they are half full. */
  lemma {:induction false} NearRunsGrowWhenHalfFull<K(!new), V(!new)>(s: Table<K, V>, ops: seq<Op<K, V>>,
      answers: seq<Answer<V>>, states: seq<Table<K, V>>, i: nat)
    requires Conforms(s, ops, answers, states) && i < |ops| && !s.growNext
    requires forall k :: 0 <= k < |states| ==> AllNear(states[k])
    ensures !Before(s, states, i).growNext
    ensures Inserts(Before(s, states, i).contents, ops[i]) && !answers[i].TooManyBuckets? ==>
      states[i].bucketCount ==
        if HalfFull(Before(s, states, i)) then 2 * Slots(Before(s, states, i).bucketCount)
        else Before(s, states, i).bucketCount
    decreases i
  {
    hide Step;
    hide AllNear;
    hide HalfFull;
    NearStepKeepsFlag(s, ops[0], answers[0], states[0]);
    if i > 0 {
      NearRunsGrowWhenHalfFull(states[0], ops[1..], answers[1..], states[1..], i - 1);
      assert Before(s, states, i) == Before(states[0], states[1..], i - 1);
    }
  }

  function Insertions<K, V>(ops: seq<Op<K, V>>): nat {
    if ops == [] then 0 else (if ops[0].TryEmplace? || ops[0].Assign? then 1 else 0) + Insertions(ops[1..])
  }

  /** A run with few insertions and no request for many buckets. */
  predicate Modest<K, V>(ops: seq<Op<K, V>>) {
    && 4 * Insertions(ops) <= DIST_FROM_IDEAL_BUCKET_LIMIT
    && forall i :: 0 <= i < |ops| && ops[i].Resize? ==> ops[i].count <= DIST_FROM_IDEAL_BUCKET_LIMIT
  }

  lemma LimitIsFar()
    ensures Pow2(12) == DIST_FROM_IDEAL_BUCKET_LIMIT <= MAX_BUCKET_COUNT / GROWTH_FACTOR
  {
    assert Pow2(4) == 16 && Pow2(8) == 256 && Pow2(12) == 4096;
    Pow2Monotone(13, 63);
  }

  /** Such a run is never refused anything, however badly the hash function spreads the keys. */
  lemma {:induction false} ModestRunsAgree<K(!new), V(!new)>(s: Table<K, V>, ops: seq<Op<K, V>>, answers: seq<Answer<V>>,
      states: seq<Table<K, V>>, budget: nat)
    requires Conforms(s, ops, answers, states)
    requires forall i :: 0 <= i < |ops| && ops[i].Resize? ==> ops[i].count <= DIST_FROM_IDEAL_BUCKET_LIMIT
    requires 4 * budget <= DIST_FROM_IDEAL_BUCKET_LIMIT && |s.contents| + Insertions(ops) <= budget
    requires s.bucketCount <= DIST_FROM_IDEAL_BUCKET_LIMIT && !s.growNext
    ensures answers == MapAnswers(s.contents, ops)
    decreases |ops|
  {
    hide Step;
    if ops != [] {
      ModestStep(s, ops[0], answers[0], states[0], budget - Insertions(ops[1..]));
      ModestRunsAgree(states[0], ops[1..], answers[1..], states[1..], budget);
      assert answers == [answers[0]] + answers[1..];
    }
  }

  /** With few entries and buckets nothing is refused, and there are still few afterwards. */
  lemma ModestStep<K(!new), V(!new)>(s: Table<K, V>, op: Op<K, V>, answer: Answer<V>, s': Table<K, V>, room: int)
    requires Step(s, op, answer, s') && (op.Resize? ==> op.count <= DIST_FROM_IDEAL_BUCKET_LIMIT)
    requires 4 * room <= DIST_FROM_IDEAL_BUCKET_LIMIT
    requires |s.contents| + (if op.TryEmplace? || op.Assign? then 1 else 0) <= room
    requires s.bucketCount <= DIST_FROM_IDEAL_BUCKET_LIMIT && !s.growNext
    ensures answer == Expected(s.contents, op) && s'.contents == Updated(s.contents, op) && |s'.contents| <= room
    ensures s'.bucketCount <= DIST_FROM_IDEAL_BUCKET_LIMIT && !s'.growNext
  {
    hide Step;
    hide Refused;
    SizeAfter(s.contents, op);
    ModestIsTaken(s, op);
    TakenTells(s, op, answer, s');
    ModestCount(s, op, answer, s', room);
    SmallIsNear(s');
    if Inserts(s.contents, op) {
      NearStepKeepsFlag(s, op, answer, s');
    }
  }

  lemma ModestIsTaken<K(!new), V(!new)>(s: Table<K, V>, op: Op<K, V>)
    requires op.Resize? ==> op.count <= DIST_FROM_IDEAL_BUCKET_LIMIT
    requires s.bucketCount <= DIST_FROM_IDEAL_BUCKET_LIMIT
    ensures !Refused(s, op)
  {
    hide MAX_BUCKET_COUNT;
    hide MustGrow;
    LimitIsFar();
  }

  lemma ModestCount<K(!new), V(!new)>(s: Table<K, V>, op: Op<K, V>, answer: Answer<V>, s': Table<K, V>, room: int)
    requires Step(s, op, answer, s') && !Refused(s, op) && (op.Resize? ==> op.count <= DIST_FROM_IDEAL_BUCKET_LIMIT)
    requires 4 * room <= DIST_FROM_IDEAL_BUCKET_LIMIT
    requires |s.contents| + (if op.TryEmplace? || op.Assign? then 1 else 0) <= room
    requires s.bucketCount <= DIST_FROM_IDEAL_BUCKET_LIMIT && !s.growNext
    ensures s'.bucketCount <= DIST_FROM_IDEAL_BUCKET_LIMIT
  {
    hide Refused;
    hide Laid;
    hide WentInto;
    LimitIsFar();
    if op.Resize? {
      assert IsPow2(DIST_FROM_IDEAL_BUCKET_LIMIT);
    }
  }

  lemma SmallIsNear<K(!new), V(!new)>(s: Table<K, V>)
    ensures Laid(s) && s.bucketCount <= DIST_FROM_IDEAL_BUCKET_LIMIT ==> AllNear(s)
  {
    hide Represents;
  }

  lemma TakenTells<K(!new), V(!new)>(s: Table<K, V>, op: Op<K, V>, answer: Answer<V>, s': Table<K, V>)
    requires Step(s, op, answer, s') && !Refused(s, op)
    ensures answer == Expected(s.contents, op) && s'.contents == Updated(s.contents, op) && Laid(s')
    ensures !Inserts(s.contents, op) && !s.growNext ==> !s'.growNext
  {
    hide Refused;
    hide Laid;
    hide AfterInsertion;
    hide RoundsTo;
  }

  lemma SizeAfter<K(!new), V(!new)>(m: map<K, V>, op: Op<K, V>)
    ensures |Updated(m, op)| <= |m| + if Inserts(m, op) then 1 else 0
  {
    if op.Erase? {
      assert (m - {op.key}).Keys <= m.Keys;
      SubsetIsNoLarger((m - {op.key}).Keys, m.Keys);
    } else if op.TryEmplace? || op.Assign? {
      assert m[op.key := op.value].Keys == m.Keys + {op.key};
    }
  }

  lemma {:induction false} SubsetIsNoLarger<T>(a: set<T>, b: set<T>)
    requires a <= b
    ensures |a| <= |b|
  {
    assert b == a + (b - a);
  }
}
