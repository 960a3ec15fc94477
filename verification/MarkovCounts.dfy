/** What a corpus teaches, and what the counts recorded for it mean. */
module MarkovCounts {
  import opened Markov

  // ---------------------------------------------------------------- the corpus

  /** One thing learnt: after a prefix with this hash came this word. */
  datatype Lesson = Lesson(hash: nat, next: nat)

  function Lessons(hash: seq<nat> -> nat, ws: seq<Window>): seq<Lesson> {
    seq(|ws|, i requires 0 <= i < |ws| => Lesson(hash(ws[i].prefix), ws[i].next))
  }

  /** All that a corpus teaches, sentence by sentence. */
  function Taught(hash: seq<nat> -> nat, corpus: seq<seq<nat>>): seq<Lesson> {
    if corpus == [] then []
    else Taught(hash, corpus[..|corpus| - 1]) + Lessons(hash, WindowsFrom(corpus[|corpus| - 1], 0))
  }

  /** The table counts exactly these lessons. */
  ghost predicate Records(table: map<nat, WordList>, lessons: seq<Lesson>) {
    && (forall h <- table :: ListOk(table[h]) && table[h].words != [])
    && (forall h, w :: CountIn(table, h, w) == multiset(lessons)[Lesson(h, w)])
  }

  function CountIn(table: map<nat, WordList>, h: nat, w: nat): nat {
    if h in table && (w in table[h].globalIndexMap ==> table[h].globalIndexMap[w] < |table[h].words|)
    then Frequency(table[h], w) else 0
  }

  lemma BumpedIsCounted(wl: WordList, w: nat)
    requires ListOk(wl)
    ensures forall v :: v in wl.globalIndexMap ==> wl.globalIndexMap[v] < |wl.words|
    ensures var b := Bump(wl, w); forall v :: v in b.globalIndexMap ==> b.globalIndexMap[v] < |b.words|
  {
  }

  function ListFor(table: map<nat, WordList>, h: nat): WordList {
    if h in table then table[h] else EMPTY_LIST
  }

  /** One lesson raises one count by one. */
  lemma CountOneMore(table: map<nat, WordList>, l: Lesson, h: nat, w: nat)
    requires ListOk(ListFor(table, l.hash))
    ensures CountIn(table[l.hash := Bump(ListFor(table, l.hash), l.next)], h, w) ==
      CountIn(table, h, w) + if Lesson(h, w) == l then 1 else 0
  {
    hide Bump;
    hide ListOk;
    BumpCounts(ListFor(table, l.hash), l.next);
    BumpedIsCounted(ListFor(table, l.hash), l.next);
  }

  lemma ListForIsOk(table: map<nat, WordList>, lessons: seq<Lesson>, h: nat)
    requires Records(table, lessons)
    ensures var wl := ListFor(table, h);
      ListOk(wl) && forall w :: w in wl.globalIndexMap ==> wl.globalIndexMap[w] < |wl.words|
  {
  }

  lemma RecordOne(table: map<nat, WordList>, lessons: seq<Lesson>, l: Lesson)
    requires Records(table, lessons)
    ensures ListOk(ListFor(table, l.hash)) && Records(table[l.hash := Bump(ListFor(table, l.hash), l.next)], lessons + [l])
  {
    hide Bump;
    hide CountIn;
    hide ListOk;
    hide ListFor;
    ListForIsOk(table, lessons, l.hash);
    BumpCounts(ListFor(table, l.hash), l.next);
    var table' := table[l.hash := Bump(ListFor(table, l.hash), l.next)];
    assert multiset(lessons + [l]) == multiset(lessons) + multiset{l};
    forall h, w
      ensures CountIn(table', h, w) == multiset(lessons + [l])[Lesson(h, w)]
    {
      CountOneMore(table, l, h, w);
    }
  }

  /** A list that exists came from a lesson, and every draw from it gives a word of such a lesson. */
  lemma SelectedWasTaught(table: map<nat, WordList>, lessons: seq<Lesson>, h: nat, draw: nat, slot: nat)
    requires Records(table, lessons) && h in table && Selects(table[h], draw, slot)
    ensures Lesson(h, table[h].words[slot].index) in lessons
  {
    var w := table[h].words[slot].index;
    assert CountIn(table, h, w) == multiset(lessons)[Lesson(h, w)];
    assert Lesson(h, w) in multiset(lessons);
  }

  lemma TotalIsPositive(table: map<nat, WordList>, lessons: seq<Lesson>, h: nat)
    requires Records(table, lessons) && h in table
    ensures table[h].totalFrequency > 0
  {
    assert table[h].words[|table[h].words| - 1].frequency > 0;
  }

  // ---------------------------------------------------------------- the windows of a corpus

  /** How often a run of words occurs in the whole corpus. */
  function TotalOccurrences(corpus: seq<seq<nat>>, run: seq<nat>): nat {
    if corpus == [] then 0
    else TotalOccurrences(corpus[..|corpus| - 1], run) + Occurrences(corpus[|corpus| - 1], run)
  }

  function AllWindows(corpus: seq<seq<nat>>): seq<Window> {
    if corpus == [] then []
    else AllWindows(corpus[..|corpus| - 1]) + WindowsFrom(corpus[|corpus| - 1], 0)
  }

  lemma LessonsSplit(hash: seq<nat> -> nat, a: seq<Window>, b: seq<Window>)
    ensures Lessons(hash, a + b) == Lessons(hash, a) + Lessons(hash, b)
  {
  }

  lemma {:induction false} TaughtByWindows(hash: seq<nat> -> nat, corpus: seq<seq<nat>>)
    ensures Taught(hash, corpus) == Lessons(hash, AllWindows(corpus))
  {
    hide Lessons;
    hide WindowsFrom;
    if corpus == [] {
      NoLessons(hash);
    } else {
      var n := |corpus| - 1;
      TaughtByWindows(hash, corpus[..n]);
      LessonsSplit(hash, AllWindows(corpus[..n]), WindowsFrom(corpus[n], 0));
    }
  }

  lemma NoLessons(hash: seq<nat> -> nat)
    ensures Lessons(hash, []) == []
  {
  }

  /** The windows of a corpus are its runs of two to four words. */
  lemma {:induction false} WindowsAreRuns(corpus: seq<seq<nat>>, w: Window)
    ensures multiset(AllWindows(corpus))[w] ==
      if 1 <= |w.prefix| <= MAX_PREFIX_LENGTH then TotalOccurrences(corpus, w.prefix + [w.next]) else 0
  {
    hide Occurrences;
    hide WindowsFrom;
    if corpus != [] {
      var n := |corpus| - 1;
      var before, last := AllWindows(corpus[..n]), WindowsFrom(corpus[n], 0);
      WindowsAreRuns(corpus[..n], w);
      WindowsCountRuns(corpus[n], 0, w);
      assert corpus[n][0..] == corpus[n];
      assert multiset(before + last) == multiset(before) + multiset(last);
    }
  }

  /** The prefixes that occur in a corpus. */
  ghost function Prefixes(corpus: seq<seq<nat>>): set<seq<nat>> {
    set w <- AllWindows(corpus) :: w.prefix
  }

  /** They are the runs of one to three words that some word follows. */
  lemma PrefixesOccur(corpus: seq<seq<nat>>, p: seq<nat>)
    ensures p in Prefixes(corpus) <==>
      1 <= |p| <= MAX_PREFIX_LENGTH && exists w :: TotalOccurrences(corpus, p + [w]) > 0
  {
    hide TotalOccurrences;
    hide AllWindows;
    if p in Prefixes(corpus) {
      var win :| win in AllWindows(corpus) && win.prefix == p;
      assert multiset(AllWindows(corpus))[win] > 0;
      WindowsAreRuns(corpus, win);
    }
    if 1 <= |p| <= MAX_PREFIX_LENGTH && exists w :: TotalOccurrences(corpus, p + [w]) > 0 {
      var w :| TotalOccurrences(corpus, p + [w]) > 0;
      WindowsAreRuns(corpus, Window(p, w));
      assert Window(p, w) in multiset(AllWindows(corpus));
    }
  }

  // ---------------------------------------------------------------- sums over prefixes

  /** How often, in these windows, w comes after one of the prefixes. */
  ghost function SumOver(ps: set<seq<nat>>, ws: multiset<Window>, w: nat): nat {
    if ps == {} then 0
    else
      var p :| p in ps;
      ws[Window(p, w)] + SumOver(ps - {p}, ws, w)
  }

  /** Any prefix can be taken first. */
  lemma {:induction false} SumTakes(ps: set<seq<nat>>, ws: multiset<Window>, w: nat, q: seq<nat>)
    requires q in ps
    ensures SumOver(ps, ws, w) == ws[Window(q, w)] + SumOver(ps - {q}, ws, w)
  {
    var p :| p in ps && SumOver(ps, ws, w) == ws[Window(p, w)] + SumOver(ps - {p}, ws, w);
    if p != q {
      SumTakes(ps - {p}, ws, w, q);
      SumTakes(ps - {q}, ws, w, p);
      assert ps - {p} - {q} == ps - {q} - {p};
    }
  }

  /** One more window counts once, if its prefix is among them and w comes after it. */
  lemma {:induction false} SumGrows(ps: set<seq<nat>>, ws: multiset<Window>, w: nat, one: Window)
    ensures SumOver(ps, ws + multiset{one}, w) ==
      SumOver(ps, ws, w) + if one.prefix in ps && one.next == w then 1 else 0
  {
    if ps != {} {
      var p :| p in ps;
      SumTakes(ps, ws, w, p);
      SumTakes(ps, ws + multiset{one}, w, p);
      SumGrows(ps - {p}, ws, w, one);
    }
  }

  lemma {:induction false} SumOfNone(ps: set<seq<nat>>, w: nat)
    ensures SumOver(ps, multiset{}, w) == 0
  {
    if ps != {} {
      var p :| p in ps;
      SumTakes(ps, multiset{}, w, p);
      SumOfNone(ps - {p}, w);
    }
  }

  /** The lessons for a hash are the windows whose prefix has that hash. */
  lemma {:induction false} LessonsAreWindows(hash: seq<nat> -> nat, ws: seq<Window>, ps: set<seq<nat>>, h: nat, w: nat)
    requires forall p <- ps :: hash(p) == h
    requires forall win <- ws :: hash(win.prefix) == h ==> win.prefix in ps
    ensures multiset(Lessons(hash, ws))[Lesson(h, w)] == SumOver(ps, multiset(ws), w)
  {
    hide SumOver;
    if ws == [] {
      SumOfNone(ps, w);
    } else {
      var n := |ws| - 1;
      LessonsAreWindows(hash, ws[..n], ps, h, w);
      SumGrows(ps, multiset(ws[..n]), w, ws[n]);
      assert ws == ws[..n] + [ws[n]];
      assert Lessons(hash, ws) == Lessons(hash, ws[..n]) + [Lesson(hash(ws[n].prefix), ws[n].next)];
    }
  }

  // ---------------------------------------------------------------- what the counts mean

  /** The prefixes of the corpus that fall together under a hash. */
  ghost function PrefixesWith(hash: seq<nat> -> nat, corpus: seq<seq<nat>>, h: nat): set<seq<nat>> {
    set p <- Prefixes(corpus) | hash(p) == h
  }

  /** How often w comes after these prefixes in the corpus. */
  ghost function SumOfOccurrences(corpus: seq<seq<nat>>, ps: set<seq<nat>>, w: nat): nat {
    if ps == {} then 0
    else
      var p :| p in ps;
      TotalOccurrences(corpus, p + [w]) + SumOfOccurrences(corpus, ps - {p}, w)
  }

  lemma {:induction false} OccurrencesTake(corpus: seq<seq<nat>>, ps: set<seq<nat>>, w: nat, q: seq<nat>)
    requires q in ps
    ensures SumOfOccurrences(corpus, ps, w) == TotalOccurrences(corpus, q + [w]) + SumOfOccurrences(corpus, ps - {q}, w)
  {
    hide TotalOccurrences;
    var p :| p in ps &&
      SumOfOccurrences(corpus, ps, w) == TotalOccurrences(corpus, p + [w]) + SumOfOccurrences(corpus, ps - {p}, w);
    if p != q {
      OccurrencesTake(corpus, ps - {p}, w, q);
      OccurrencesTake(corpus, ps - {q}, w, p);
      assert ps - {p} - {q} == ps - {q} - {p};
    }
  }

  lemma {:induction false} SumsAgree(corpus: seq<seq<nat>>, ps: set<seq<nat>>, w: nat)
    requires forall p <- ps :: 1 <= |p| <= MAX_PREFIX_LENGTH
    ensures SumOver(ps, multiset(AllWindows(corpus)), w) == SumOfOccurrences(corpus, ps, w)
  {
    hide TotalOccurrences;
    hide AllWindows;
    if ps != {} {
      var p :| p in ps;
      SumTakes(ps, multiset(AllWindows(corpus)), w, p);
      OccurrencesTake(corpus, ps, w, p);
      WindowsAreRuns(corpus, Window(p, w));
      SumsAgree(corpus, ps - {p}, w);
    }
  }

  /**
    Main result on training, for any hash: the frequency stored for a hash and a word is how often the
    word comes after the prefixes of one to three words that have this hash.
   */
  lemma FrequenciesAreCounts(hash: seq<nat> -> nat, table: map<nat, WordList>, corpus: seq<seq<nat>>, h: nat, w: nat)
    requires Records(table, Taught(hash, corpus))
    ensures CountIn(table, h, w) == SumOfOccurrences(corpus, PrefixesWith(hash, corpus, h), w)
  {
    hide Lessons;
    hide AllWindows;
    hide CountIn;
    hide Taught;
    hide TotalOccurrences;
    var ps := PrefixesWith(hash, corpus, h);
    TaughtByWindows(hash, corpus);
    LessonsAreWindows(hash, AllWindows(corpus), ps, h, w);
    forall p | p in ps
      ensures 1 <= |p| <= MAX_PREFIX_LENGTH
    {
      PrefixesOccur(corpus, p);
    }
    SumsAgree(corpus, ps, w);
  }

  /** No other prefix of the corpus has the hash of p. */
  ghost predicate Apart(hash: seq<nat> -> nat, corpus: seq<seq<nat>>, p: seq<nat>) {
    forall q <- Prefixes(corpus) :: hash(q) == hash(p) ==> q == p
  }

  lemma OneOrNone(corpus: seq<seq<nat>>, p: seq<nat>, w: nat)
    requires 1 <= |p| <= MAX_PREFIX_LENGTH
    ensures SumOfOccurrences(corpus, {p}, w) == TotalOccurrences(corpus, p + [w])
    ensures p !in Prefixes(corpus) ==> TotalOccurrences(corpus, p + [w]) == 0
  {
    hide TotalOccurrences;
    OccurrencesTake(corpus, {p}, w, p);
    assert {p} - {p} == {};
    PrefixesOccur(corpus, p);
  }

  /**
    The list stored for a prefix counts what comes after this prefix alone exactly if no other prefix in
    the corpus has the same hash.
   */
  lemma ExactUnlessCorpusCollides(hash: seq<nat> -> nat, table: map<nat, WordList>, corpus: seq<seq<nat>>, p: seq<nat>)
    requires Records(table, Taught(hash, corpus)) && 1 <= |p| <= MAX_PREFIX_LENGTH
    ensures (forall w :: CountIn(table, hash(p), w) == TotalOccurrences(corpus, p + [w])) <==> Apart(hash, corpus, p)
  {
    hide Records;
    hide CountIn;
    hide TotalOccurrences;
    hide Prefixes;
    var ps := PrefixesWith(hash, corpus, hash(p));
    if Apart(hash, corpus, p) {
      assert ps == (if p in Prefixes(corpus) then {p} else {});
      forall w
        ensures CountIn(table, hash(p), w) == TotalOccurrences(corpus, p + [w])
      {
        FrequenciesAreCounts(hash, table, corpus, hash(p), w);
        OneOrNone(corpus, p, w);
      }
    } else {
      var q :| q in Prefixes(corpus) && hash(q) == hash(p) && q != p;
      PrefixesOccur(corpus, q);
      var w :| TotalOccurrences(corpus, q + [w]) > 0;
      FrequenciesAreCounts(hash, table, corpus, hash(p), w);
      OccurrencesTake(corpus, ps, w, q);
      OneOrNone(corpus, p, w);
      if p in ps {
        OccurrencesTake(corpus, ps - {q}, w, p);
      }
      assert CountIn(table, hash(p), w) > TotalOccurrences(corpus, p + [w]);
    }
  }
}
