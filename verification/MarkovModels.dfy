/** The Markov model as it is trained and as it generates. */
module MarkovModels {
  import opened Markov
  import opened MarkovCounts

  /** What a sentence teaches is about words of the model, and never that a start marker follows. */
  lemma {:induction false} TaughtInBounds(hash: seq<nat> -> nat, corpus: seq<seq<nat>>, bound: nat, l: Lesson)
    requires bound >= 2 && l in Taught(hash, corpus) && forall s <- corpus :: IsSentence(s, bound)
    ensures l.next == IDX_END_MARKER || 2 <= l.next < bound
  {
    hide Lessons;
    hide WindowsFrom;
    var n := |corpus| - 1;
    if l in Taught(hash, corpus[..n]) {
      TaughtInBounds(hash, corpus[..n], bound, l);
    } else {
      LessonNext(hash, corpus[n], l);
      var j :| 0 < j < |corpus[n]| && corpus[n][j] == l.next;
      assert IsSentence(corpus[n], bound);
    }
  }

  lemma LessonNext(hash: seq<nat> -> nat, words: seq<nat>, l: Lesson)
    requires l in Lessons(hash, WindowsFrom(words, 0))
    ensures exists j :: 0 < j < |words| && words[j] == l.next
  {
    hide WindowsFrom;
    var i :| 0 <= i < |WindowsFrom(words, 0)| && l == Lessons(hash, WindowsFrom(words, 0))[i];
    WindowNext(words, 0, WindowsFrom(words, 0)[i]);
  }

  lemma {:induction false} WindowNext(words: seq<nat>, i: nat, w: Window)
    requires w in WindowsFrom(words, i)
    ensures exists j :: i < j < |words| && words[j] == w.next
    decreases |words| - i
  {
    if w in WindowsAt(words, i, 1) {
      WindowAtNext(words, i, 1, w);
    } else {
      WindowNext(words, i + 1, w);
    }
  }

  lemma {:induction false} WindowAtNext(words: seq<nat>, i: nat, k: nat, w: Window)
    requires k >= 1 && w in WindowsAt(words, i, k)
    ensures exists j :: i < j < |words| && words[j] == w.next
    decreases MAX_PREFIX_LENGTH + 1 - k
  {
    if w == Window(words[i..i + k], words[i + k]) {
      assert i < i + k;
    } else {
      WindowAtNext(words, i, k + 1, w);
    }
  }

  // ---------------------------------------------------------------- words

  const WORD_FLAG_EMOTE: nat := 1
  const WORD_FLAG_SENTENCE_START: nat := 2
  const WORD_FLAG_SENTENCE_END: nat := 4

  datatype DBWord = DBWord(word: string, flags: nat)

  /** Emotes go under a key with a leading space. */
  function Key(word: string, emote: bool): string {
    if emote then " " + word else word
  }

  function KeyOf(w: DBWord): string {
    Key(w.word, w.flags == WORD_FLAG_EMOTE)
  }

  /** Keys and indices from 2 on name each other. */
  ghost predicate Indexed(wordIndices: map<string, nat>, wordList: seq<DBWord>) {
    && |wordList| >= 2
    && (forall k <- wordIndices :: 2 <= wordIndices[k] < |wordList| && KeyOf(wordList[wordIndices[k]]) == k)
    && (forall i :: 2 <= i < |wordList| ==> KeyOf(wordList[i]) in wordIndices && wordIndices[KeyOf(wordList[i])] == i)
  }

  /** A word of a message, which is split at spaces, never starts with one. */
  predicate IsWord(w: string) {
    w != "" && w[0] != ' '
  }

  /** A word and an emote of the same name have keys of their own. */
  lemma KeysApart(a: string, aEmote: bool, b: string, bEmote: bool)
    requires IsWord(a) && IsWord(b)
    ensures Key(a, aEmote) == Key(b, bEmote) <==> a == b && aEmote == bEmote
  {
    assert (" " + a)[1..] == a && (" " + b)[1..] == b;
    assert (" " + a)[0] == (" " + b)[0] == ' ';
  }

  /** What is found under a plain word is that word, and no emote. */
  lemma PlainWordsFound(wordIndices: map<string, nat>, wordList: seq<DBWord>, w: string)
    requires Indexed(wordIndices, wordList) && w in wordIndices && IsWord(w)
    ensures wordList[wordIndices[w]].word == w && wordList[wordIndices[w]].flags != WORD_FLAG_EMOTE
  {
    var entry := wordList[wordIndices[w]];
    assert KeyOf(entry) == w;
    assert (" " + entry.word)[0] == ' ';
  }

  /** A sentence as it is trained: a start marker, words, an end marker. */
  predicate IsSentence(words: seq<nat>, bound: nat) {
    && |words| >= 2 && words[0] == IDX_START_MARKER && words[|words| - 1] == IDX_END_MARKER
    && forall i :: 0 < i < |words| - 1 ==> 2 <= words[i] < bound
  }

  const MIN_INPUT_LENGTH: nat := 2
  const GOOD_INPUT_LENGTH: nat := 6
  const DISCARD_CHANCE_PERCENT: nat := 80

  class MarkovModel {
    const hash: seq<nat> -> nat
    var table: map<nat, WordList>
    var wordIndices: map<string, nat>
    var wordList: seq<DBWord>
    // the sentences trained so far
    ghost var corpus: seq<seq<nat>>

    ghost predicate Valid()
      reads this
    {
      && Indexed(wordIndices, wordList)
      && (forall s <- corpus :: IsSentence(s, |wordList|))
      && Records(table, Taught(hash, corpus))
    }

    /** An initialised model: only the two markers. */
    constructor (hash: seq<nat> -> nat)
      ensures Valid() && corpus == [] && this.hash == hash && |wordList| == 2
    {
      this.hash := hash;
      table, wordIndices := map[], map[];
      wordList := [DBWord("", WORD_FLAG_SENTENCE_START), DBWord("", WORD_FLAG_SENTENCE_END)];
      corpus := [];
    }

    /** The index of a word, new or known; words with different keys never share one. */
    method GetWordIndex(sv: string, isEmote: bool) returns (idx: nat)
      requires Valid()
      modifies this`wordIndices, this`wordList
      ensures Valid() && old(wordList) <= wordList
      ensures 2 <= idx < |wordList| && KeyOf(wordList[idx]) == Key(sv, isEmote)
      ensures wordList == old(wordList) || (wordList == old(wordList) + [wordList[idx]] && idx == |old(wordList)|)
      ensures Key(sv, isEmote) in old(wordIndices) ==>
        idx == old(wordIndices)[Key(sv, isEmote)] && wordList == old(wordList)
    {
      hide Records;
      var word := if isEmote then " " + sv else sv;
      if word in wordIndices {
        return wordIndices[word];
      }
      idx := |wordList|;
      wordList := wordList + [DBWord(sv, if isEmote then WORD_FLAG_EMOTE else 0)];
      wordIndices := wordIndices[word := idx];
    }

    /** The locked step of process_one. */
    method Learn(ghost lessons: seq<Lesson>, prefixHash: nat, theWord: nat)
      requires Records(table, lessons)
      modifies this`table
      ensures Records(table, lessons + [Lesson(prefixHash, theWord)])
    {
      hide Records;
      RecordOne(table, lessons, Lesson(prefixHash, theWord));
      var wl := EMPTY_LIST;
      if prefixHash in table {
        wl := table[prefixHash];
      }
      ghost var before := wl;
      var total := wl.totalFrequency + 1;
      if theWord in wl.globalIndexMap {
        var slot := wl.globalIndexMap[theWord];
        wl := wl.(totalFrequency := total,
                  words := wl.words[slot := wl.words[slot].(frequency := wl.words[slot].frequency + 1)]);
      } else {
        var idx := |wl.words|;
        wl := WordList(total, wl.words + [Word(theWord, 1)], wl.globalIndexMap[theWord := idx]);
      }
      assert wl == Bump(before, theWord);
      table := table[prefixHash := wl];
    }

    /** The window loops of process_one. */
    method Train(words: seq<nat>)
      requires Valid() && IsSentence(words, |wordList|)
      modifies this`table, this`corpus
      ensures Valid() && corpus == old(corpus) + [words]
    {
      hide Records;
      hide Indexed;
      hide Lessons;
      hide WindowsAt;
      hide WindowsFrom;
      ghost var known := Taught(hash, corpus);
      ghost var all := Lessons(hash, WindowsFrom(words, 0));
      ghost var done: seq<Lesson> := [];
      assert known + [] == known;
      assert [] + all == all;
      var i := 0;
      while i + 1 < |words|
        invariant i < |words| && Records(table, known + done)
        invariant done + Lessons(hash, WindowsFrom(words, i)) == all
        modifies this`table
      {
        ghost var rest := Lessons(hash, WindowsFrom(words, i + 1));
        StartWindows(hash, words, i, done);
        var k := 1;
        while k <= MAX_PREFIX_LENGTH && i + k < |words|
          invariant 1 <= k && Records(table, known + done)
          invariant done + Lessons(hash, WindowsAt(words, i, k)) + rest == all
          decreases MAX_PREFIX_LENGTH + 1 - k
          modifies this`table
        {
          var theWord := words[i + k];
          var prefix := words[i..][..k];
          assert prefix == words[i..i + k];
          Learn(known + done, hash(prefix), theWord);
          NextWindow(hash, words, i, k, done);
          assert known + done + [Lesson(hash(prefix), theWord)] == known + (done + [Lesson(hash(prefix), theWord)]);
          done := done + [Lesson(hash(prefix), theWord)];
          k := k + 1;
        }
        NoMoreWindows(hash, words, i, k, done);
        i := i + 1;
      }
      NoMoreStarts(hash, words, i, done);
      corpus := corpus + [words];
      assert corpus[..|corpus| - 1] == old(corpus);
    }

    /**
      process_one, once the message is split into words: short messages are dropped, the rather short
      ones unless the draw from 0 to 100 is above 80.
     */
    method ProcessOne(words: seq<(string, bool)>, draw: nat) returns (trained: bool)
      requires Valid()
      modifies this
      ensures Valid() && old(wordList) <= wordList
      ensures trained <==>
        |words| >= GOOD_INPUT_LENGTH || (|words| >= MIN_INPUT_LENGTH && draw > DISCARD_CHANCE_PERCENT)
      ensures !trained ==> corpus == old(corpus) && wordList == old(wordList)
      ensures trained ==> |corpus| == |old(corpus)| + 1 && corpus[..|old(corpus)|] == old(corpus)
      ensures trained ==> Spells(wordList, corpus[|old(corpus)|], words)
    {
      hide Records;
      if |words| < MIN_INPUT_LENGTH {
        return false;
      } else if |words| < GOOD_INPUT_LENGTH {
        if draw <= DISCARD_CHANCE_PERCENT {
          return false;
        }
      }
      hide SpelledSoFar;
      var indices := [IDX_START_MARKER];
      SpellNothing(wordList, words);
      for i := 0 to |words|
        invariant Valid() && old(wordList) <= wordList && corpus == old(corpus)
        invariant SpelledSoFar(wordList, indices, words, i)
      {
        ghost var before := wordList;
        var index := GetWordIndex(words[i].0, words[i].1);
        SpellOneMore(before, wordList, indices, index, words, i);
        indices := indices + [index];
      }
      SpellEnd(wordList, indices, words);
      indices := indices + [IDX_END_MARKER];
      Train(indices);
      trained := true;
    }

    // -------------------------------------------------------------- generation

    /** The longest suffix of at most n words that the table has a list for. */
    function LongestKnown(prefix: seq<nat>, n: nat): (k: nat)
      requires n <= |prefix|
      reads this
      ensures k <= n && (k > 0 ==> hash(LastWords(prefix, k)) in table)
      ensures forall j :: k < j <= n ==> hash(LastWords(prefix, j)) !in table
    {
      if n == 0 || hash(LastWords(prefix, n)) in table then n else LongestKnown(prefix, n - 1)
    }

    /** A word from the list of one prefix. */
    method DrawFrom(prefixHash: nat, pick: nat -> nat) returns (word: nat)
      requires Valid() && prefixHash in table && forall n :: n > 0 ==> pick(n) < n
      ensures Draws(table[prefixHash], pick(table[prefixHash].totalFrequency), word)
    {
      hide Valid;
      hide ListOk;
      hide Selects;
      hide Draws;
      ListReady(prefixHash);
      var wl := table[prefixHash];
      var slot;
      word, slot := Select(wl, pick(wl.totalFrequency));
    }

    /**
      What comes after these words: with the longest suffix of at most the given length that has a list,
      the word that the draw selects from it; without one, the end marker.
     */
    ghost predicate NextWord(output: seq<nat>, length: nat, pick: nat -> nat, word: nat)
      reads this
    {
      var k := LongestKnown(output, if length <= |output| then length else |output|);
      if k == 0 then word == IDX_END_MARKER
      else
        var wl := table[hash(LastWords(output, k))];
        Draws(wl, pick(wl.totalFrequency), word)
    }

    /** generate_one: the length is drawn from one to three, and pick(total) below the total. */
    method GenerateOne(output: seq<nat>, length: nat, pick: nat -> nat) returns (word: nat)
      requires Valid() && 1 <= length <= MAX_PREFIX_LENGTH && forall n :: n > 0 ==> pick(n) < n
      ensures NextWord(output, length, pick, word)
    {
      hide LastWords;
      hide Valid;
      hide Draws;
      if output == [] {
        return IDX_END_MARKER;
      }
      var prefix := if |output| > length then LastWords(output, length) else output;
      AllWords(output);
      ghost var first := |prefix|;
      ghost var n := first;
      while prefix != []
        invariant n <= first <= |output| && |prefix| == n && prefix == LastWords(output, n)
        invariant LongestKnown(output, first) == LongestKnown(output, n)
        decreases n
      {
        var prefixHash := hash(prefix);
        if prefixHash in table {
          word := DrawFrom(prefixHash, pick);
          return;
        }
        DropFirst(output, n);
        prefix := prefix[1..];
        n := n - 1;
      }
      word := IDX_END_MARKER;
    }

    lemma ListReady(h: nat)
      requires Valid() && h in table
      ensures ListOk(table[h]) && table[h].totalFrequency > 0
    {
      TotalIsPositive(table, Taught(hash, corpus), h);
    }

    lemma DrawnWasTaught(h: nat, draw: nat, word: nat)
      requires Valid() && h in table && Draws(table[h], draw, word)
      ensures Lesson(h, word) in Taught(hash, corpus)
    {
      hide Taught;
      var slot: nat :| Selects(table[h], draw, slot) && table[h].words[slot].index == word;
      SelectedWasTaught(table, Taught(hash, corpus), h, draw, slot);
    }

    lemma NextInBounds(l: Lesson)
      requires Valid() && l in Taught(hash, corpus)
      ensures l.next == IDX_END_MARKER || 2 <= l.next < |wordList|
    {
      hide Taught;
      hide Records;
      TaughtInBounds(hash, corpus, |wordList|, l);
    }

    /** This word follows some suffix of at most three words before it in the training data. */
    ghost predicate Follows(output: seq<nat>, j: nat)
      requires j < |output|
      reads this
    {
      exists k :: TaughtAfter(output, j, k)
    }

    ghost predicate TaughtAfter(output: seq<nat>, j: nat, k: nat)
      requires j < |output|
      reads this
    {
      1 <= k <= MAX_PREFIX_LENGTH && k <= j && Lesson(hash(output[j - k..j]), output[j]) in Taught(hash, corpus)
    }

    /** Whatever comes next, if it is not the end, is a real word that was trained after a suffix. */
    lemma NextFollows(output: seq<nat>, j: nat, length: nat, pick: nat -> nat)
      requires Valid() && j < |output| && 1 <= length <= MAX_PREFIX_LENGTH
      requires NextWord(output[..j], length, pick, output[j]) && output[j] != IDX_END_MARKER
      ensures Follows(output, j) && 2 <= output[j] < |wordList|
    {
      hide Valid;
      hide Taught;
      hide Draws;
      var before, word := output[..j], output[j];
      var k := LongestKnown(before, if length <= j then length else j);
      var h := hash(LastWords(before, k));
      DrawnWasTaught(h, pick(table[h].totalFrequency), word);
      NextInBounds(Lesson(h, word));
      assert LastWords(before, k) == output[j - k..j];
      assert TaughtAfter(output, j, k);
    }

    /**
      One try: the known words of the seed, or the start marker; then each next word, up to the end
      marker or fifty words.
     */
    ghost predicate Generated(seed: seq<string>, lengths: nat -> nat, picks: nat -> nat -> nat, output: seq<nat>)
      reads this
    {
      && Start(seed) <= output
      && |output| <= (if |Start(seed)| >= MAX_LENGTH then |Start(seed)| else MAX_LENGTH)
      && (forall j :: |Start(seed)| <= j < |output| ==>
            output[j] != IDX_END_MARKER && NextWord(output[..j], lengths(j), picks(j), output[j]))
      && (|output| < MAX_LENGTH ==> NextWord(output, lengths(|output|), picks(|output|), IDX_END_MARKER))
    }

    method GenerateOnce(seed: seq<string>, lengths: nat -> nat, picks: nat -> nat -> nat) returns (output: seq<nat>)
      requires Valid()
      requires forall i :: 1 <= lengths(i) <= MAX_PREFIX_LENGTH
      requires forall i, n :: n > 0 ==> picks(i)(n) < n
      ensures Generated(seed, lengths, picks, output)
    {
      hide Valid;
      hide NextWord;
      hide Start;
      output := Begin(seed);
      ghost var start := output;
      while |output| < MAX_LENGTH
        invariant start <= output
        invariant |output| <= if |start| >= MAX_LENGTH then |start| else MAX_LENGTH
        invariant forall j :: |start| <= j < |output| ==>
          output[j] != IDX_END_MARKER && NextWord(output[..j], lengths(j), picks(j), output[j])
        decreases MAX_LENGTH - |output|
      {
        ghost var before := output;
        var word := GenerateOne(output, lengths(|output|), picks(|output|));
        if word == IDX_END_MARKER {
          break;
        }
        output := output + [word];
        assert output[..|before|] == before;
        assert forall j :: |start| <= j < |before| ==> output[..j] == before[..j];
      }
    }

    /**
      Main result on generation: every index is in bounds, and every word that is not of the seed nor the
      start marker is a real word trained after some suffix of at most three words before it.
     */
    lemma GeneratedIsFaithful(seed: seq<string>, lengths: nat -> nat, picks: nat -> nat -> nat, output: seq<nat>)
      requires Valid() && Generated(seed, lengths, picks, output)
      requires forall i :: 1 <= lengths(i) <= MAX_PREFIX_LENGTH
      ensures forall j :: 0 <= j < |output| ==> output[j] < |wordList|
      ensures forall j :: |Start(seed)| <= j < |output| ==> Follows(output, j) && output[j] >= 2
    {
      hide Valid;
      hide NextWord;
      hide Follows;
      hide Start;
      StartInBounds(seed);
      forall j | |Start(seed)| <= j < |output|
        ensures Follows(output, j) && 2 <= output[j] < |wordList|
      {
        NextFollows(output, j, lengths(j), picks(j));
      }
      forall j | 0 <= j < |Start(seed)|
        ensures output[j] < |wordList|
      {
        assert output[j] == Start(seed)[j];
      }
    }

    /** The words of the seed that the model knows, or the start marker. */
    method Begin(seed: seq<string>) returns (output: seq<nat>)
      ensures output == Start(seed)
    {
      output := [];
      for i := 0 to |seed|
        invariant output == Known(seed[..i])
      {
        assert seed[..i + 1][..i] == seed[..i];
        if seed[i] in wordIndices {
          output := output + [wordIndices[seed[i]]];
        }
      }
      assert seed[..|seed|] == seed;
      if output == [] {
        output := [IDX_START_MARKER];
      }
    }

    lemma {:induction false} KnownInBounds(seed: seq<string>)
      requires Indexed(wordIndices, wordList)
      ensures forall j :: 0 <= j < |Known(seed)| ==> Known(seed)[j] < |wordList|
    {
      if seed != [] {
        KnownInBounds(seed[..|seed| - 1]);
      }
    }

    lemma StartInBounds(seed: seq<string>)
      requires Valid()
      ensures forall j :: 0 <= j < |Start(seed)| ==> Start(seed)[j] < |wordList|
    {
      hide Records;
      hide Taught;
      KnownInBounds(seed);
    }

    function Known(seed: seq<string>): seq<nat>
      reads this
    {
      if seed == [] then []
      else
        var last := seed[|seed| - 1];
        Known(seed[..|seed| - 1]) + if last in wordIndices then [wordIndices[last]] else []
    }

    function Start(seed: seq<string>): (s: seq<nat>)
      reads this
      ensures |s| >= 1
    {
      if Known(seed) == [] then [IDX_START_MARKER] else Known(seed)
    }

    /** With these draws a try comes out shorter than asked for. */
    ghost predicate TooShort(seed: seq<string>, minLength: nat, lengths: nat -> nat, picks: nat -> nat -> nat)
      reads this
    {
      exists output :: Generated(seed, lengths, picks, output) && |output| < minLength
    }

    /**
      generateMessage, up to the spelling out: tries again while the result is too short.  What is
      returned is one of the tries, long enough or the last.
     */
    method GenerateMessage(seed: seq<string>, minLength: nat, maxRetries: nat,
        lengths: nat -> nat -> nat, picks: nat -> nat -> nat -> nat)
      returns (output: seq<nat>, retries: nat)
      requires Valid()
      requires forall r, i :: 1 <= lengths(r)(i) <= MAX_PREFIX_LENGTH
      requires forall r, i, n :: n > 0 ==> picks(r)(i)(n) < n
      ensures retries <= maxRetries && (|output| >= minLength || retries == 0)
      // each earlier try came out too short
      ensures forall r :: retries < r <= maxRetries ==> TooShort(seed, minLength, lengths(r), picks(r))
      ensures Generated(seed, lengths(retries), picks(retries), output)
      ensures forall j :: 0 <= j < |output| ==> output[j] < |wordList|
      ensures forall j :: |Start(seed)| <= j < |output| ==> Follows(output, j) && output[j] >= 2
    {
      hide Generated;
      hide Valid;
      hide Follows;
      hide Start;
      retries := maxRetries;
      while true
        invariant retries <= maxRetries
        invariant forall r :: retries < r <= maxRetries ==> TooShort(seed, minLength, lengths(r), picks(r))
        decreases retries
      {
        output := GenerateOnce(seed, lengths(retries), picks(retries));
        if |output| >= minLength || retries == 0 {
          break;
        }
        assert TooShort(seed, minLength, lengths(retries), picks(retries));
        retries := retries - 1;
      }
      GeneratedIsFaithful(seed, lengths(retries), picks(retries), output);
    }
  }

  const MAX_LENGTH: nat := 50

  /** The indices between the markers lead to these words. */
  ghost predicate Spells(wordList: seq<DBWord>, indices: seq<nat>, words: seq<(string, bool)>) {
    && |indices| == |words| + 2 && IsSentence(indices, |wordList|)
    && forall j :: 0 <= j < |words| ==>
      indices[j + 1] < |wordList| && KeyOf(wordList[indices[j + 1]]) == Key(words[j].0, words[j].1)
  }

  ghost predicate SpelledSoFar(wordList: seq<DBWord>, indices: seq<nat>, words: seq<(string, bool)>, n: nat) {
    && n <= |words| && |indices| == n + 1 && indices[0] == IDX_START_MARKER
    && forall j :: 0 < j <= n ==>
      2 <= indices[j] < |wordList| && KeyOf(wordList[indices[j]]) == Key(words[j - 1].0, words[j - 1].1)
  }

  lemma SpellNothing(wordList: seq<DBWord>, words: seq<(string, bool)>)
    ensures SpelledSoFar(wordList, [IDX_START_MARKER], words, 0)
  {
  }

  lemma SpellOneMore(before: seq<DBWord>, after: seq<DBWord>, indices: seq<nat>, index: nat,
      words: seq<(string, bool)>, n: nat)
    requires n < |words| && before <= after && SpelledSoFar(before, indices, words, n)
    requires 2 <= index < |after| && KeyOf(after[index]) == Key(words[n].0, words[n].1)
    ensures SpelledSoFar(after, indices + [index], words, n + 1)
  {
    hide KeyOf;
    hide Key;
    var longer := indices + [index];
    forall j | 0 < j <= n + 1
      ensures 2 <= longer[j] < |after| && KeyOf(after[longer[j]]) == Key(words[j - 1].0, words[j - 1].1)
    {
      if j <= n {
        assert longer[j] == indices[j];
        assert after[indices[j]] == before[indices[j]];
      }
    }
  }

  lemma SpellEnd(wordList: seq<DBWord>, indices: seq<nat>, words: seq<(string, bool)>)
    requires SpelledSoFar(wordList, indices, words, |words|)
    ensures IsSentence(indices + [IDX_END_MARKER], |wordList|) && Spells(wordList, indices + [IDX_END_MARKER], words)
  {
    hide KeyOf;
    hide Key;
    var all := indices + [IDX_END_MARKER];
    forall j | 0 < j < |all| - 1
      ensures 2 <= all[j] < |wordList|
    {
      assert all[j] == indices[j];
    }
    forall j | 0 <= j < |words|
      ensures all[j + 1] < |wordList| && KeyOf(wordList[all[j + 1]]) == Key(words[j].0, words[j].1)
    {
      assert all[j + 1] == indices[j + 1];
    }
  }

  /** take_last */
  function LastWords(s: seq<nat>, n: nat): (r: seq<nat>)
    requires n <= |s|
    ensures |r| == n
  {
    s[|s| - n..]
  }

  lemma AllWords(s: seq<nat>)
    ensures LastWords(s, |s|) == s
  {
  }

  lemma DropFirst(s: seq<nat>, n: nat)
    requires 1 <= n <= |s|
    ensures LastWords(s, n)[1..] == LastWords(s, n - 1)
  {
  }

  lemma StartWindows(hash: seq<nat> -> nat, words: seq<nat>, i: nat, done: seq<Lesson>)
    requires i + 1 < |words|
    ensures done + Lessons(hash, WindowsFrom(words, i)) ==
      done + Lessons(hash, WindowsAt(words, i, 1)) + Lessons(hash, WindowsFrom(words, i + 1))
  {
    hide WindowsAt;
    LessonsSplit(hash, WindowsAt(words, i, 1), WindowsFrom(words, i + 1));
    Regroup(done, Lessons(hash, WindowsAt(words, i, 1)), Lessons(hash, WindowsFrom(words, i + 1)));
  }

  lemma NextWindow(hash: seq<nat> -> nat, words: seq<nat>, i: nat, k: nat, done: seq<Lesson>)
    requires k <= MAX_PREFIX_LENGTH && i + k < |words|
    ensures done + Lessons(hash, WindowsAt(words, i, k)) ==
      done + [Lesson(hash(words[i..i + k]), words[i + k])] + Lessons(hash, WindowsAt(words, i, k + 1))
  {
    var w := Window(words[i..i + k], words[i + k]);
    LessonsSplit(hash, [w], WindowsAt(words, i, k + 1));
    assert Lessons(hash, [w]) == [Lesson(hash(w.prefix), w.next)];
    Regroup(done, Lessons(hash, [w]), Lessons(hash, WindowsAt(words, i, k + 1)));
  }

  lemma NoMoreWindows(hash: seq<nat> -> nat, words: seq<nat>, i: nat, k: nat, done: seq<Lesson>)
    requires k > MAX_PREFIX_LENGTH || i + k >= |words|
    ensures done + Lessons(hash, WindowsAt(words, i, k)) == done
  {
    assert Lessons(hash, WindowsAt(words, i, k)) == [];
  }

  lemma NoMoreStarts(hash: seq<nat> -> nat, words: seq<nat>, i: nat, done: seq<Lesson>)
    requires i + 1 >= |words|
    ensures done + Lessons(hash, WindowsFrom(words, i)) == done
  {
    assert Lessons(hash, WindowsFrom(words, i)) == [];
  }

  lemma Regroup(a: seq<Lesson>, b: seq<Lesson>, c: seq<Lesson>)
    ensures a + (b + c) == a + b + c
  {
  }
}
