/**
  The counts of the Markov model: the list kept for one prefix, the windows of a sentence, and what
  drawing from a list gives.
 */
module Markov {

  const MAX_PREFIX_LENGTH: nat := 3
  const IDX_START_MARKER: nat := 0
  const IDX_END_MARKER: nat := 1

  datatype Word = Word(index: nat, frequency: nat)

  /** globalIndexMap leads from a word of the model to its slot in words. */
  datatype WordList = WordList(totalFrequency: nat, words: seq<Word>, globalIndexMap: map<nat, nat>)

  const EMPTY_LIST := WordList(0, [], map[])

  function Sum(words: seq<Word>): nat {
    if words == [] then 0 else Sum(words[..|words| - 1]) + words[|words| - 1].frequency
  }

  /** The total is the sum; every listed word occurs; each has exactly one slot, which the map names. */
  ghost predicate ListOk(wl: WordList) {
    && wl.totalFrequency == Sum(wl.words)
    && (forall i :: 0 <= i < |wl.words| ==>
          wl.words[i].frequency > 0 &&
          wl.words[i].index in wl.globalIndexMap && wl.globalIndexMap[wl.words[i].index] == i)
    && (forall w <- wl.globalIndexMap ::
          wl.globalIndexMap[w] < |wl.words| && wl.words[wl.globalIndexMap[w]].index == w)
  }

  function Frequency(wl: WordList, w: nat): nat
    requires w in wl.globalIndexMap ==> wl.globalIndexMap[w] < |wl.words|
  {
    if w in wl.globalIndexMap then wl.words[wl.globalIndexMap[w]].frequency else 0
  }

  /** One more window seen with this word. */
  function Bump(wl: WordList, w: nat): WordList
    requires w in wl.globalIndexMap ==> wl.globalIndexMap[w] < |wl.words|
  {
    if w in wl.globalIndexMap then
      var slot := wl.globalIndexMap[w];
      wl.(totalFrequency := wl.totalFrequency + 1,
          words := wl.words[slot := wl.words[slot].(frequency := wl.words[slot].frequency + 1)])
    else
      WordList(wl.totalFrequency + 1, wl.words + [Word(w, 1)], wl.globalIndexMap[w := |wl.words|])
  }

  lemma {:induction false} SumOfUpdate(words: seq<Word>, i: nat, f: nat)
    requires i < |words|
    ensures Sum(words[i := words[i].(frequency := f)]) == Sum(words) - words[i].frequency + f
  {
    var n := |words| - 1;
    var changed := words[i := words[i].(frequency := f)];
    if i == n {
      assert changed[..n] == words[..n];
    } else {
      assert changed[..n] == words[..n][i := words[i].(frequency := f)];
      SumOfUpdate(words[..n], i, f);
    }
  }

  /** A bump counts one more of this word and leaves every other count alone. */
  lemma BumpCounts(wl: WordList, w: nat)
    requires ListOk(wl)
    ensures ListOk(Bump(wl, w)) && Bump(wl, w).words != []
    ensures forall v :: Frequency(Bump(wl, w), v) == Frequency(wl, v) + if v == w then 1 else 0
  {
    if w in wl.globalIndexMap {
      var slot := wl.globalIndexMap[w];
      SumOfUpdate(wl.words, slot, wl.words[slot].frequency + 1);
    } else {
      assert (wl.words + [Word(w, 1)])[..|wl.words|] == wl.words;
    }
  }

  // ---------------------------------------------------------------- windows

  /** A prefix of one to three words and the word after it. */
  datatype Window = Window(prefix: seq<nat>, next: nat)

  /** The windows that start at i, from length k on. */
  function WindowsAt(words: seq<nat>, i: nat, k: nat): seq<Window>
    decreases MAX_PREFIX_LENGTH + 1 - k
  {
    if k <= MAX_PREFIX_LENGTH && i + k < |words|
    then [Window(words[i..i + k], words[i + k])] + WindowsAt(words, i, k + 1)
    else []
  }

  /** The windows that start at i or later. */
  function WindowsFrom(words: seq<nat>, i: nat): seq<Window>
    decreases |words| - i
  {
    if i + 1 < |words| then WindowsAt(words, i, 1) + WindowsFrom(words, i + 1) else []
  }

  /** How often a run of words occurs in a sentence. */
  function Occurrences(words: seq<nat>, run: seq<nat>): nat {
    (if run <= words then 1 else 0) + if words == [] then 0 else Occurrences(words[1..], run)
  }

  lemma {:induction false} WindowsAtCount(words: seq<nat>, i: nat, k: nat, w: Window)
    requires i < |words| && 1 <= k
    ensures multiset(WindowsAt(words, i, k))[w] ==
      if k <= |w.prefix| <= MAX_PREFIX_LENGTH && w.prefix + [w.next] <= words[i..] then 1 else 0
    decreases MAX_PREFIX_LENGTH + 1 - k
  {
    if k <= MAX_PREFIX_LENGTH && i + k < |words| {
      var first := Window(words[i..i + k], words[i + k]);
      var rest := WindowsAt(words, i, k + 1);
      WindowsAtCount(words, i, k + 1, w);
      assert multiset([first] + rest) == multiset{first} + multiset(rest);
      RunAt(words, i, k, w);
    }
  }

  lemma RunAt(words: seq<nat>, i: nat, k: nat, w: Window)
    requires i + k < |words|
    ensures |w.prefix| == k && w.prefix + [w.next] <= words[i..] <==> w == Window(words[i..i + k], words[i + k])
  {
    var run := w.prefix + [w.next];
    assert words[i..][..k + 1] == words[i..i + k] + [words[i + k]];
    if |w.prefix| == k && run <= words[i..] {
      assert run == words[i..][..k + 1];
      assert w.prefix == run[..k] && w.next == run[k];
    }
  }

  lemma {:induction false} NoShortRun(words: seq<nat>, run: seq<nat>)
    requires |words| < |run|
    ensures Occurrences(words, run) == 0
  {
    if words != [] {
      NoShortRun(words[1..], run);
    }
  }

  /**
    A window is taken as often as its words occur one after the other in the sentence, provided its
    prefix has one to three words; and never otherwise.
   */
  lemma {:induction false} WindowsCountRuns(words: seq<nat>, i: nat, w: Window)
    requires i <= |words|
    ensures multiset(WindowsFrom(words, i))[w] ==
      if 1 <= |w.prefix| <= MAX_PREFIX_LENGTH then Occurrences(words[i..], w.prefix + [w.next]) else 0
    decreases |words| - i
  {
    var run := w.prefix + [w.next];
    if i + 1 < |words| {
      WindowsAtCount(words, i, 1, w);
      WindowsCountRuns(words, i + 1, w);
      assert words[i..][1..] == words[i + 1..];
      assert multiset(WindowsAt(words, i, 1) + WindowsFrom(words, i + 1))
        == multiset(WindowsAt(words, i, 1)) + multiset(WindowsFrom(words, i + 1));
    } else if 1 <= |w.prefix| <= MAX_PREFIX_LENGTH {
      NoShortRun(words[i..], run);
    }
  }

  // ---------------------------------------------------------------- drawing

  /** What the draws below slot n add up to. */
  function Below(words: seq<Word>, n: nat): nat
    requires n <= |words|
  {
    Sum(words[..n])
  }

  lemma BelowStep(words: seq<Word>, n: nat)
    requires n < |words|
    ensures Below(words, n + 1) == Below(words, n) + words[n].frequency
  {
    assert words[..n + 1][..n] == words[..n];
  }

  lemma {:induction false} BelowMonotone(words: seq<Word>, a: nat, b: nat)
    requires a <= b <= |words|
    ensures Below(words, a) <= Below(words, b)
    decreases b - a
  {
    if a < b {
      BelowStep(words, a);
      BelowMonotone(words, a + 1, b);
    }
  }

  /** The slot that a draw selects. */
  ghost predicate Selects(wl: WordList, draw: nat, slot: nat) {
    slot < |wl.words| && Below(wl.words, slot) <= draw < Below(wl.words, slot + 1)
  }

  /** The word that a draw selects. */
  ghost predicate Draws(wl: WordList, draw: nat, w: nat) {
    exists slot: nat :: Selects(wl, draw, slot) && wl.words[slot].index == w
  }

  lemma SelectsOne(wl: WordList, draw: nat, a: nat, b: nat)
    requires Selects(wl, draw, a) && Selects(wl, draw, b)
    ensures a == b
  {
    if a < b {
      BelowMonotone(wl.words, a + 1, b);
    } else if b < a {
      BelowMonotone(wl.words, b + 1, a);
    }
  }

  lemma {:induction false} SomeSlot(words: seq<Word>, draw: nat, n: nat) returns (slot: nat)
    requires n <= |words| && draw < Below(words, n)
    ensures slot < n && Below(words, slot) <= draw < Below(words, slot + 1)
  {
    BelowStep(words, n - 1);
    if Below(words, n - 1) <= draw {
      slot := n - 1;
    } else {
      slot := SomeSlot(words, draw, n - 1);
    }
  }

  /** A draw below the total selects one word, and only one. */
  lemma OneWordPerDraw(wl: WordList, draw: nat)
    requires ListOk(wl) && draw < wl.totalFrequency
    ensures exists w :: Draws(wl, draw, w) && forall v :: Draws(wl, draw, v) ==> v == w
  {
    assert wl.words[..|wl.words|] == wl.words;
    var slot := SomeSlot(wl.words, draw, |wl.words|);
    assert Selects(wl, draw, slot);
    forall v | Draws(wl, draw, v)
      ensures v == wl.words[slot].index
    {
      var other: nat :| Selects(wl, draw, other) && wl.words[other].index == v;
      SelectsOne(wl, draw, slot, other);
    }
    assert Draws(wl, draw, wl.words[slot].index);
  }

  /** The search of generate_one: every draw below the total stops at a word of the list. */
  method Select(wl: WordList, draw: nat) returns (index: nat, slot: nat)
    requires ListOk(wl) && draw < wl.totalFrequency
    ensures Selects(wl, draw, slot) && index == wl.words[slot].index
    ensures Draws(wl, draw, index)
  {
    assert wl.words[..|wl.words|] == wl.words;
    var selection := draw;
    for i := 0 to |wl.words|
      invariant Below(wl.words, i) <= draw && selection == draw - Below(wl.words, i)
    {
      BelowStep(wl.words, i);
      var word := wl.words[i];
      if word.frequency > selection {
        return word.index, i;
      }
      selection := selection - word.frequency;
    }
    assert false;
  }

  /** The draws that select a word. */
  ghost function DrawsFor(wl: WordList, w: nat): set<nat> {
    set d | 0 <= d < wl.totalFrequency && Draws(wl, d, w)
  }

  ghost function Range(lo: nat, hi: nat): (r: set<nat>)
    requires lo <= hi
    ensures |r| == hi - lo && forall d :: d in r <==> lo <= d < hi
    decreases hi - lo
  {
    if lo == hi then {} else Range(lo, hi - 1) + {hi - 1}
  }

  /** Over all draws below the total, each word is selected exactly as often as its frequency says. */
  lemma FaithfulSampling(wl: WordList, w: nat)
    requires ListOk(wl)
    ensures |DrawsFor(wl, w)| == Frequency(wl, w)
  {
    if w in wl.globalIndexMap {
      var slot := wl.globalIndexMap[w];
      var lo, hi := Below(wl.words, slot), Below(wl.words, slot + 1);
      BelowStep(wl.words, slot);
      BelowMonotone(wl.words, slot + 1, |wl.words|);
      assert wl.words[..|wl.words|] == wl.words;
      forall d: nat
        ensures d in DrawsFor(wl, w) <==> lo <= d < hi
      {
        if d in DrawsFor(wl, w) {
          var other: nat :| Selects(wl, d, other) && wl.words[other].index == w;
          assert other == slot;
        }
        if lo <= d < hi {
          assert Selects(wl, d, slot);
        }
      }
      assert DrawsFor(wl, w) == Range(lo, hi);
    } else {
      assert DrawsFor(wl, w) == {};
    }
  }
}
