/** Whatever the parser accepts is a value the serialiser can write and the parser read again. */
module JsonReparse {
  import opened Bytes
  import opened Json
  import opened Results
  import opened JsonRoundTrip

  lemma {:induction false} LessIsTotal(a: seq<Byte>, b: seq<Byte>)
    ensures Less(a, b) || a == b || Less(b, a)
  {
    if a != [] && b != [] && a[0] == b[0] {
      LessIsTotal(a[1..], b[1..]);
      assert a == [a[0]] + a[1..] && b == [b[0]] + b[1..];
    }
  }

  lemma {:induction false} LessIsTransitive(a: seq<Byte>, b: seq<Byte>, c: seq<Byte>)
    requires Less(a, b) && Less(b, c)
    ensures Less(a, c)
  {
    if a != [] && a[0] == b[0] && b[0] == c[0] {
      LessIsTransitive(a[1..], b[1..], c[1..]);
    }
  }

  /** Every entry's key comes after k. */
  predicate AllAfter(k: seq<Byte>, es: seq<Entry>) {
    forall i :: 0 <= i < |es| ==> Less(k, es[i].key)
  }

  lemma ConsSorted(e: Entry, es: seq<Entry>)
    requires SortedKeys(es) && AllAfter(e.key, es)
    ensures SortedKeys([e] + es)
  {
    hide Less;
    var all := [e] + es;
    forall i, j | 0 <= i < j < |all|
      ensures Less(all[i].key, all[j].key)
    {
      assert all[j] == es[j - 1];
      if i > 0 {
        assert all[i] == es[i - 1];
      }
    }
  }

  lemma TailSorted(es: seq<Entry>)
    requires es != [] && SortedKeys(es)
    ensures SortedKeys(es[1..]) && AllAfter(es[0].key, es[1..])
  {
    hide Less;
    forall i, j | 0 <= i < j < |es[1..]|
      ensures Less(es[1..][i].key, es[1..][j].key)
    {
      assert Less(es[i + 1].key, es[j + 1].key);
    }
    forall i | 0 <= i < |es[1..]|
      ensures Less(es[0].key, es[1..][i].key)
    {
      assert Less(es[0].key, es[i + 1].key);
    }
  }

  lemma AllAfterLess(a: seq<Byte>, b: seq<Byte>, es: seq<Entry>)
    requires Less(a, b) && AllAfter(b, es)
    ensures AllAfter(a, es)
  {
    forall i | 0 <= i < |es|
      ensures Less(a, es[i].key)
    {
      LessIsTransitive(a, b, es[i].key);
    }
  }

  /** The assignment o[key] = value keeps the entries in order, one entry to a key. */
  lemma {:induction false} InsertKeepsSorted(es: seq<Entry>, k: seq<Byte>, v: Value)
    requires SortedKeys(es)
    ensures SortedKeys(Insert(es, k, v))
    ensures forall a :: Less(a, k) && AllAfter(a, es) ==> AllAfter(a, Insert(es, k, v))
  {
    hide Less;
    if es == [] {
    } else {
      TailSorted(es);
      LessIsTotal(k, es[0].key);
      if Less(k, es[0].key) {
        AllAfterLess(k, es[0].key, es[1..]);
        assert es == [es[0]] + es[1..];
        ConsSorted(Entry(k, v), es);
      } else if es[0].key == k {
        ConsSorted(Entry(k, v), es[1..]);
      } else {
        InsertKeepsSorted(es[1..], k, v);
        ConsSorted(es[0], Insert(es[1..], k, v));
        forall a | Less(a, k) && AllAfter(a, es)
          ensures AllAfter(a, Insert(es, k, v))
        {
          AfterCons(a, es);
        }
      }
    }
  }

  lemma AfterCons(a: seq<Byte>, es: seq<Entry>)
    requires es != [] && AllAfter(a, es)
    ensures Less(a, es[0].key) && AllAfter(a, es[1..])
  {
    hide Less;
    forall i | 0 <= i < |es[1..]|
      ensures Less(a, es[1..][i].key)
    {
      assert Less(a, es[i + 1].key);
    }
  }

  /** The last value assigned to a key is the one kept; every other key keeps its own. */
  lemma {:induction false} InsertIsAssignment(es: seq<Entry>, k: seq<Byte>, v: Value, f: Entry)
    requires SortedKeys(es)
    ensures f in Insert(es, k, v) <==> (if f.key == k then f.value == v else f in es)
  {
    hide Less;
    if es != [] {
      TailSorted(es);
      assert es == [es[0]] + es[1..];
      LessIsTotal(k, es[0].key);
      NotInTail(k, es, f);
      if !Less(k, es[0].key) && es[0].key != k {
        InsertIsAssignment(es[1..], k, v, f);
      }
    }
  }

  /** The first key is nowhere else, and a key before the first is nowhere at all. */
  lemma NotInTail(k: seq<Byte>, es: seq<Entry>, f: Entry)
    requires es != [] && SortedKeys(es)
    ensures f in es[1..] ==> f.key != es[0].key
    ensures f in es && Less(k, es[0].key) ==> f.key != k
  {
    hide Less;
    NoLess(es[0].key);
    NoLess(k);
    if Less(k, es[0].key) {
      TailSorted(es);
      AllAfterLess(k, es[0].key, es[1..]);
      assert es == [es[0]] + es[1..];
    }
  }

  lemma NoLess(a: seq<Byte>)
    ensures !Less(a, a)
  {
    if Less(a, a) {
      LessIsAsymmetric(a, a);
    }
  }

  predicate AllWf(es: seq<Entry>) {
    forall e <- es :: Wf(e.value)
  }

  lemma {:induction false} InsertKeepsWf(es: seq<Entry>, k: seq<Byte>, v: Value)
    requires AllWf(es) && Wf(v)
    ensures AllWf(Insert(es, k, v))
  {
    hide Wf;
    hide Less;
    if es != [] && !Less(k, es[0].key) && es[0].key != k {
      InsertKeepsWf(es[1..], k, v);
    }
  }

  lemma {:induction false} ParsedIsWf(s: seq<Byte>)
    requires ParseValue(s).Ok?
    ensures Wf(ParseValue(s).value)
    decreases |s|, 0
  {
    hide ParseElems;
    hide ParseMembers;
    hide ParseStr;
    hide NumberText;
    var t := SkipWs(s);
    if t[0] == OPEN_SQUARE && !Json.Sees(t[1..], CLOSE_SQUARE) {
      ParsedElemsAreWf(t[1..]);
    } else if t[0] == OPEN_CURLY && !Json.Sees(t[1..], CLOSE_CURLY) {
      ParsedMembersAreWf(t[1..], []);
    }
  }

  lemma {:induction false} ParsedElemsAreWf(s: seq<Byte>)
    requires ParseElems(s).Ok?
    ensures forall x <- ParseElems(s).value :: Wf(x)
    decreases |s|, 1
  {
    hide ParseValue;
    hide Wf;
    var t := SkipComments(s).value;
    ParsedIsWf(t);
    var r := ParseValue(t).rest;
    if Json.Sees(r, COMMA) {
      ParsedElemsAreWf(After(r));
    }
  }

  lemma {:induction false} ParsedMembersAreWf(s: seq<Byte>, es: seq<Entry>)
    requires ParseMembers(s, es).Ok? && SortedKeys(es) && AllWf(es)
    ensures SortedKeys(ParseMembers(s, es).value) && AllWf(ParseMembers(s, es).value)
    decreases |s|, 2
  {
    hide ParseValue;
    hide Wf;
    hide Less;
    hide Insert;
    hide ParseMember;
    var m := ParseMember(SkipComments(s).value);
    ParsedMemberIsWf(SkipComments(s).value);
    InsertKeepsSorted(es, m.value.key, m.value.value);
    InsertKeepsWf(es, m.value.key, m.value.value);
    if Json.Sees(m.rest, COMMA) {
      ParsedMembersAreWf(After(m.rest), Insert(es, m.value.key, m.value.value));
    }
  }

  lemma {:induction false} ParsedMemberIsWf(s: seq<Byte>)
    requires ParseMember(s).Ok?
    ensures Wf(ParseMember(s).value.value)
    decreases |s|, 1
  {
    hide ParseValue;
    hide Wf;
    ParsedIsWf(After(ParseStr(After(s)).rest));
  }

  /** Any accepted text, written out again in either style, parses to the same value. */
  lemma ReserialisedReadsBack(s: seq<Byte>, prettify: bool, rest: seq<Byte>)
    requires ParseValue(s).Ok? && (ParseValue(s).value.Int? && !prettify ==> NumberStops(rest))
    ensures var v := ParseValue(s).value;
      ParseValue(Serialise(v, prettify) + rest) == Ok(v, (if prettify then [NEWLINE] else []) + rest)
  {
    ParsedIsWf(s);
    SerialisedReadsBack(ParseValue(s).value, prettify, rest);
  }
}
