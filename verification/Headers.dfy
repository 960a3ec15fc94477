/** The header block of an HTTP message: how it is written and how it is parsed from a stream. */
module Headers {
  import opened Options

  datatype Header = Header(key: string, value: string)

  datatype Block = Block(status: string, headers: seq<Header>)

  const CRLF: string := "\r\n"

  function LowerChar(c: char): char {
    if 'A' <= c <= 'Z' then c + 32 as char else c
  }

  function Lower(s: string): (r: string)
    ensures |r| == |s| && forall i :: 0 <= i < |s| ==> r[i] == LowerChar(s[i])
  {
    if s == [] then [] else [LowerChar(s[0])] + Lower(s[1..])
  }

  /** Nothing of the upper case is left, everything else stays, and what differed in case alone is equal. */
  lemma LowerFolds(s: string, t: string)
    ensures forall i :: 0 <= i < |s| ==> !('A' <= Lower(s)[i] <= 'Z')
    ensures forall i :: 0 <= i < |s| && !('A' <= s[i] <= 'Z') ==> Lower(s)[i] == s[i]
    ensures Lower(s) == Lower(t) <==> |s| == |t| && forall i :: 0 <= i < |s| ==> EqualUpToCase(s[i], t[i])
  {
    hide Lower;
    hide LowerChar;
    hide EqualUpToCase;
    forall i | 0 <= i < |s|
      ensures !('A' <= Lower(s)[i] <= 'Z') && (!('A' <= s[i] <= 'Z') ==> Lower(s)[i] == s[i])
    {
      CaseFolds(s[i], s[i]);
    }
    if |s| == |t| {
      forall i | 0 <= i < |s|
        ensures Lower(s)[i] == Lower(t)[i] <==> EqualUpToCase(s[i], t[i])
      {
        CaseFolds(s[i], t[i]);
      }
    }
  }

  /** The same character, or an ASCII letter and its other case. */
  predicate EqualUpToCase(a: char, b: char) {
    || a == b
    || ('A' <= a <= 'Z' && b as int == a as int + 32)
    || ('A' <= b <= 'Z' && a as int == b as int + 32)
  }

  lemma CaseFolds(a: char, b: char)
    ensures LowerChar(a) == LowerChar(b) <==> EqualUpToCase(a, b)
    ensures !('A' <= LowerChar(a) <= 'Z') && (!('A' <= a <= 'Z') ==> LowerChar(a) == a)
  {
  }

  function LowerKey(h: Header): Header {
    Header(Lower(h.key), h.value)
  }

  function LowerKeys(hs: seq<Header>): seq<Header> {
    if hs == [] then [] else [LowerKey(hs[0])] + LowerKeys(hs[1..])
  }

  /** find("\r\n"); -1 for npos. */
  function FindCrlf(s: string): (i: int)
    ensures -1 <= i && i + 2 <= if i == -1 then |s| + 1 else |s|
    ensures i >= 0 ==> s[i] == '\r' && s[i + 1] == '\n'
  {
    if |s| < 2 then -1
    else if s[0] == '\r' && s[1] == '\n' then 0
    else
      var i := FindCrlf(s[1..]);
      if i == -1 then -1 else i + 1
  }

  /** find(':'); -1 for npos. */
  function FindColon(s: string): (i: int)
    ensures -1 <= i < |s|
    ensures i >= 0 ==> s[i] == ':' && ':' !in s[..i]
    ensures i == -1 ==> ':' !in s
  {
    if s == [] then -1
    else if s[0] == ':' then 0
    else
      var i := FindColon(s[1..]);
      assert s == [s[0]] + s[1..];
      if i == -1 then -1
      else
        assert s[..i + 1] == [s[0]] + s[1..][..i];
        i + 1
  }

  function SkipSpaces(s: string): (r: string)
    ensures |r| <= |s|
    ensures r != [] ==> r[0] != ' '
  {
    if s != [] && s[0] == ' ' then SkipSpaces(s[1..]) else s
  }

  // ---------------------------------------------------------------- writing and parsing

  function Line(h: Header): string {
    h.key + (": " + (h.value + CRLF))
  }

  function Lines(hs: seq<Header>): string {
    if hs == [] then [] else Line(hs[0]) + Lines(hs[1..])
  }

  /** bytes() */
  function Emit(b: Block): string {
    b.status + (CRLF + (Lines(b.headers) + CRLF))
  }

  /** The header lines and the empty line that ends them; nothing while they are incomplete. */
  function ParseLines(data: string): Option<seq<Header>>
    decreases |data|
  {
    if FindCrlf(data) == 0 then Some([])
    else
      var ki := FindColon(data);
      if ki == -1 then None
      else
        var rest := SkipSpaces(data[ki + 1..]);
        if rest == [] || FindCrlf(rest) == -1 then None
        else
          var vi := FindCrlf(rest);
          var more := ParseLines(rest[vi + 2..]);
          if more.None? then None else Some([Header(Lower(data[..ki]), rest[..vi])] + more.value)
  }

  /** parse() */
  function Parse(data: string): Option<Block> {
    var x := FindCrlf(data);
    if x == -1 then None
    else
      var hs := ParseLines(data[x + 2..]);
      if hs.None? then None else Some(Block(data[..x], hs.value))
  }

  // ---------------------------------------------------------------- what can be read back

  predicate StartsCrlf(s: string) {
    |s| >= 2 && s[0] == '\r' && s[1] == '\n'
  }

  predicate HeaderOk(h: Header) {
    && ':' !in h.key && !StartsCrlf(h.key)
    && FindCrlf(h.value) == -1 && (h.value != [] ==> h.value[0] != ' ')
  }

  predicate Printable(b: Block) {
    FindCrlf(b.status) == -1 && forall h <- b.headers :: HeaderOk(h)
  }

  lemma {:induction false} FirstCrlf(a: string, b: string)
    requires FindCrlf(a) == -1
    ensures FindCrlf(a + (CRLF + b)) == |a|
  {
    var s := a + (CRLF + b);
    if a == [] {
      assert s == CRLF + b;
    } else {
      assert s[1..] == a[1..] + (CRLF + b);
      assert FindCrlf(a[1..]) == -1;
      FirstCrlf(a[1..], b);
    }
  }

  lemma {:induction false} FirstColon(a: string, b: string)
    requires ':' !in a
    ensures FindColon(a + ([':'] + b)) == |a|
  {
    var s := a + ([':'] + b);
    if a != [] {
      assert s[1..] == a[1..] + ([':'] + b);
      FirstColon(a[1..], b);
    }
  }

  /** A start that ends before the first line break is complete has none. */
  lemma {:induction false} NoCrlfBefore(s: string, n: nat)
    requires n <= |s| && (FindCrlf(s) == -1 || n < FindCrlf(s) + 2)
    ensures FindCrlf(s[..n]) == -1
  {
    if n >= 2 {
      assert s[..n][1..] == s[1..][..n - 1];
      NoCrlfBefore(s[1..], n - 1);
    }
  }

  lemma AfterKey(h: Header, more: string)
    requires ':' !in h.key && !StartsCrlf(h.key)
    ensures FindCrlf(h.key + ([':'] + more)) != 0 && FindColon(h.key + ([':'] + more)) == |h.key|
    ensures (h.key + ([':'] + more))[..|h.key|] == h.key && (h.key + ([':'] + more))[|h.key| + 1..] == more
  {
    FirstColon(h.key, more);
  }

  /** One turn of the loop, in a line with a colon and an end. */
  lemma ParseTurn(data: string)
    requires FindCrlf(data) != 0 && FindColon(data) != -1
    requires FindCrlf(SkipSpaces(data[FindColon(data) + 1..])) != -1
    ensures var ki := FindColon(data);
      var rest := SkipSpaces(data[ki + 1..]);
      var vi := FindCrlf(rest);
      ParseLines(data) == Prepend(Header(Lower(data[..ki]), rest[..vi]), ParseLines(rest[vi + 2..]))
  {
    hide FindColon;
    hide SkipSpaces;
    hide Lower;
  }

  function Prepend(h: Header, p: Option<seq<Header>>): Option<seq<Header>> {
    if p.None? then None else Some([h] + p.value)
  }

  /** One good line is parsed as what was written, key in lower case, and then the rest. */
  lemma LineStep(h: Header, more: string)
    requires HeaderOk(h)
    ensures ParseLines(Line(h) + more) == Prepend(LowerKey(h), ParseLines(more))
  {
    hide ParseLines;
    RawStep(RawLine(h.key, 1, h.value), more);
    assert Line(h) == RawText(RawLine(h.key, 1, h.value));
  }

  lemma LinesApart(a: string, b: string, c: string)
    ensures (a + b) + c == a + (b + c)
  {
  }

  lemma {:induction false} LinesReadBack(hs: seq<Header>, body: string)
    requires forall h <- hs :: HeaderOk(h)
    ensures ParseLines(Lines(hs) + (CRLF + body)) == Some(LowerKeys(hs))
  {
    hide HeaderOk;
    hide LowerKey;
    hide Line;
    hide FindColon;
    hide SkipSpaces;
    if hs == [] {
      assert Lines(hs) + (CRLF + body) == CRLF + body;
      assert StartsCrlf(CRLF + body);
    } else {
      LinesReadBack(hs[1..], body);
      LineStep(hs[0], Lines(hs[1..]) + (CRLF + body));
      LinesApart(Line(hs[0]), Lines(hs[1..]), CRLF + body);
    }
  }

  // ---------------------------------------------------------------- what a parse gives

  lemma {:induction false} NoCrlfUpTo(s: string)
    requires FindCrlf(s) >= 0
    ensures FindCrlf(s[..FindCrlf(s)]) == -1
  {
    NoCrlfBefore(s, FindCrlf(s));
  }

  /** Lower case neither makes nor hides a colon or a line break. */
  lemma LowerIsHarmless(s: string)
    ensures ':' in Lower(s) <==> ':' in s
    ensures StartsCrlf(Lower(s)) <==> StartsCrlf(s)
  {
    if ':' in s {
      var i :| 0 <= i < |s| && s[i] == ':';
      assert Lower(s)[i] == ':';
    }
    if ':' in Lower(s) {
      var i :| 0 <= i < |s| && Lower(s)[i] == ':';
      assert s[i] == ':';
    }
  }

  lemma {:induction false} ParsedLinesAreOk(data: string)
    requires ParseLines(data).Some?
    ensures forall h <- ParseLines(data).value :: HeaderOk(h)
    decreases |data|
  {
    hide Lower;
    if FindCrlf(data) != 0 {
      var ki := FindColon(data);
      var rest := SkipSpaces(data[ki + 1..]);
      var vi := FindCrlf(rest);
      ParsedLinesAreOk(rest[vi + 2..]);
      NoCrlfUpTo(rest);
      LowerIsHarmless(data[..ki]);
      assert StartsCrlf(data[..ki]) ==> StartsCrlf(data);
      assert HeaderOk(Header(Lower(data[..ki]), rest[..vi]));
    }
  }

  lemma ParsedIsPrintable(data: string)
    requires Parse(data).Some?
    ensures Printable(Parse(data).value)
  {
    hide HeaderOk;
    NoCrlfUpTo(data);
    ParsedLinesAreOk(data[FindCrlf(data) + 2..]);
  }

  lemma {:induction false} LoweredIsOk(hs: seq<Header>)
    ensures (forall h <- LowerKeys(hs) :: HeaderOk(h)) <==> (forall h <- hs :: HeaderOk(h))
  {
    hide Lower;
    if hs != [] {
      LoweredIsOk(hs[1..]);
      LowerIsHarmless(hs[0].key);
      assert HeaderOk(LowerKey(hs[0])) <==> HeaderOk(hs[0]);
      assert hs == [hs[0]] + hs[1..];
      assert LowerKeys(hs) == [LowerKey(hs[0])] + LowerKeys(hs[1..]);
    }
  }

  lemma PrintableReadsBack(b: Block, body: string)
    requires Printable(b)
    ensures Parse(Emit(b) + body) == Some(Block(b.status, LowerKeys(b.headers)))
  {
    hide HeaderOk;
    hide ParseLines;
    hide LowerKeys;
    hide FindCrlf;
    var tail := Lines(b.headers) + (CRLF + body);
    var s := b.status + (CRLF + tail);
    assert Emit(b) + body == s;
    FirstCrlf(b.status, tail);
    assert s[|b.status| + 2..] == tail;
    assert s[..|b.status|] == b.status;
    LinesReadBack(b.headers, body);
  }

  /**
    Parsing what was written, whatever body follows, gives the same status and headers with the keys in
    lower case, exactly for the blocks that are printable.
   */
  lemma EmittedReadsBack(b: Block, body: string)
    ensures Parse(Emit(b) + body) == Some(Block(b.status, LowerKeys(b.headers))) <==> Printable(b)
  {
    hide HeaderOk;
    hide Parse;
    hide Emit;
    hide LowerKeys;
    LoweredIsOk(b.headers);
    if Printable(b) {
      PrintableReadsBack(b, body);
    } else if Parse(Emit(b) + body).Some? {
      ParsedIsPrintable(Emit(b) + body);
    }
  }

  // ---------------------------------------------------------------- exactly what is accepted

  /** A header line as others may write it, with any number of spaces before the value. */
  datatype RawLine = RawLine(key: string, spaces: nat, value: string)

  function RawText(l: RawLine): string {
    l.key + ([':'] + (seq(l.spaces, _ => ' ') + (l.value + CRLF)))
  }

  function RawTexts(ls: seq<RawLine>): string {
    if ls == [] then [] else RawText(ls[0]) + RawTexts(ls[1..])
  }

  /** What the line says: the key in lower case, and the value after the spaces. */
  function Meaning(l: RawLine): Header {
    Header(Lower(l.key), l.value)
  }

  function Meanings(ls: seq<RawLine>): seq<Header> {
    if ls == [] then [] else [Meaning(ls[0])] + Meanings(ls[1..])
  }

  predicate RawOk(l: RawLine) {
    HeaderOk(Header(l.key, l.value))
  }

  lemma {:induction false} SpacesSkipped(n: nat, s: string)
    requires s == [] || s[0] != ' '
    ensures SkipSpaces(seq(n, _ => ' ') + s) == s
  {
    var t := seq(n, _ => ' ') + s;
    if n > 0 {
      SpacesSkipped(n - 1, s);
      assert t[1..] == seq(n - 1, _ => ' ') + s;
    } else {
      assert t == s;
    }
  }

  lemma {:induction false} SpacesCounted(s: string) returns (n: nat)
    ensures s == seq(n, _ => ' ') + SkipSpaces(s)
  {
    if s != [] && s[0] == ' ' {
      var m := SpacesCounted(s[1..]);
      n := m + 1;
      assert s == [s[0]] + s[1..];
      assert seq(n, _ => ' ') == [' '] + seq(m, _ => ' ');
    } else {
      n := 0;
    }
  }

  lemma RawStep(l: RawLine, more: string)
    requires RawOk(l)
    ensures ParseLines(RawText(l) + more) == Prepend(Meaning(l), ParseLines(more))
  {
    hide FindCrlf;
    hide FindColon;
    hide SkipSpaces;
    hide Lower;
    hide ParseLines;
    var gap, rest := seq(l.spaces, _ => ' '), l.value + (CRLF + more);
    assert RawText(l) + more == l.key + ([':'] + (gap + rest));
    AfterKey(Header(l.key, l.value), gap + rest);
    SpacesSkipped(l.spaces, rest);
    FirstCrlf(l.value, more);
    assert rest[..|l.value|] == l.value && rest[|l.value| + 2..] == more;
    ParseTurn(l.key + ([':'] + (gap + rest)));
  }

  lemma {:induction false} RawLinesRead(ls: seq<RawLine>, body: string)
    requires forall l <- ls :: RawOk(l)
    ensures ParseLines(RawTexts(ls) + (CRLF + body)) == Some(Meanings(ls))
  {
    hide RawOk;
    hide Meaning;
    hide RawText;
    hide FindColon;
    hide SkipSpaces;
    if ls == [] {
      assert RawTexts(ls) + (CRLF + body) == CRLF + body;
      assert StartsCrlf(CRLF + body);
    } else {
      RawLinesRead(ls[1..], body);
      RawStep(ls[0], RawTexts(ls[1..]) + (CRLF + body));
      LinesApart(RawText(ls[0]), RawTexts(ls[1..]), CRLF + body);
    }
  }

  /** What is accepted has a colon and an end in its first line. */
  lemma AcceptedTurn(data: string)
    requires ParseLines(data).Some? && FindCrlf(data) != 0
    ensures FindColon(data) != -1 && FindCrlf(SkipSpaces(data[FindColon(data) + 1..])) != -1
  {
    hide FindColon;
    hide FindCrlf;
    hide SkipSpaces;
    hide Lower;
  }

  lemma KeyApart(data: string, ki: nat, n: nat, rest: string, vi: nat)
    requires ki < |data| && data[ki] == ':' && data[ki + 1..] == seq(n, _ => ' ') + rest
    requires vi + 2 <= |rest| && rest[vi] == '\r' && rest[vi + 1] == '\n'
    ensures data == RawText(RawLine(data[..ki], n, rest[..vi])) + rest[vi + 2..]
  {
    var gap, more := seq(n, _ => ' '), rest[vi + 2..];
    assert rest == rest[..vi] + (CRLF + more);
    assert data == data[..ki] + ([':'] + (gap + rest));
    assert RawText(RawLine(data[..ki], n, rest[..vi])) + more == data[..ki] + ([':'] + (gap + (rest[..vi] + (CRLF + more))));
  }

  /** The first line of what is accepted. */
  lemma FirstRawLine(data: string) returns (l: RawLine, more: string)
    requires ParseLines(data).Some? && FindCrlf(data) != 0
    ensures RawOk(l) && data == RawText(l) + more && |more| < |data|
    ensures ParseLines(data) == Prepend(Meaning(l), ParseLines(more))
  {
    AcceptedTurn(data);
    ParseTurn(data);
    var ki := FindColon(data);
    var rest := SkipSpaces(data[ki + 1..]);
    var vi := FindCrlf(rest);
    var n := SpacesCounted(data[ki + 1..]);
    l, more := RawLine(data[..ki], n, rest[..vi]), rest[vi + 2..];
    NoCrlfUpTo(rest);
    CrlfFirst(data);
    hide FindCrlf;
    hide FindColon;
    hide SkipSpaces;
    hide Lower;
    hide RawText;
    hide ParseLines;
    KeyApart(data, ki, n, rest, vi);
    assert StartsCrlf(data[..ki]) ==> StartsCrlf(data);
  }

  lemma CrlfFirst(s: string)
    ensures StartsCrlf(s) <==> FindCrlf(s) == 0
  {
  }

  lemma {:induction false} AcceptedLines(data: string) returns (ls: seq<RawLine>, body: string)
    requires ParseLines(data).Some?
    ensures forall l <- ls :: RawOk(l)
    ensures data == RawTexts(ls) + (CRLF + body) && ParseLines(data).value == Meanings(ls)
    decreases |data|
  {
    CrlfFirst(data);
    if FindCrlf(data) == 0 {
      ls, body := [], data[2..];
      assert data == CRLF + body;
      assert RawTexts([]) + (CRLF + body) == CRLF + body;
    } else {
      var l, more := FirstRawLine(data);
      var rest;
      hide ParseLines;
      hide RawText;
      hide Meaning;
      hide RawOk;
      rest, body := AcceptedLines(more);
      ls := [l] + rest;
      assert ls[0] == l && ls[1..] == rest;
      LinesApart(RawText(l), RawTexts(rest), CRLF + body);
    }
  }

  ghost predicate Reads(data: string, status: string, ls: seq<RawLine>, body: string) {
    && data == status + (CRLF + (RawTexts(ls) + (CRLF + body)))
    && FindCrlf(status) == -1 && forall l <- ls :: RawOk(l)
  }

  /**
    Main result: a block is accepted exactly if it is a status line, header lines with any spacing before the
    values, and an empty line; what is given is what these say, and whatever follows is not looked at.
   */
  lemma AcceptsExactly(data: string, b: Block)
    ensures Parse(data) == Some(b) <==>
      exists ls, body :: Reads(data, b.status, ls, body) && b.headers == Meanings(ls)
  {
    if Parse(data) == Some(b) {
      AcceptedReads(data);
    }
    if exists ls, body :: Reads(data, b.status, ls, body) && b.headers == Meanings(ls) {
      var ls, body :| Reads(data, b.status, ls, body) && b.headers == Meanings(ls);
      ReadsAccepted(data, b.status, ls, body);
    }
  }

  lemma AcceptedReads(data: string)
    requires Parse(data).Some?
    ensures var b := Parse(data).value;
      exists ls, body :: Reads(data, b.status, ls, body) && b.headers == Meanings(ls)
  {
    hide RawOk;
    hide ParseLines;
    hide Meanings;
    var x := FindCrlf(data);
    NoCrlfUpTo(data);
    hide FindCrlf;
    var ls, body := AcceptedLines(data[x + 2..]);
    assert data == data[..x] + (CRLF + data[x + 2..]);
    assert Reads(data, data[..x], ls, body);
  }

  lemma ReadsAccepted(data: string, status: string, ls: seq<RawLine>, body: string)
    requires Reads(data, status, ls, body)
    ensures Parse(data) == Some(Block(status, Meanings(ls)))
  {
    hide RawOk;
    hide ParseLines;
    hide Meanings;
    var tail := RawTexts(ls) + (CRLF + body);
    FirstCrlf(status, tail);
    hide FindCrlf;
    RawLinesRead(ls, body);
    assert data[..|status|] == status && data[|status| + 2..] == tail;
  }

  // ---------------------------------------------------------------- incomplete input

  lemma {:induction false} LowerTwice(hs: seq<Header>)
    ensures LowerKeys(LowerKeys(hs)) == LowerKeys(hs)
  {
    if hs != [] {
      LowerTwice(hs[1..]);
      assert LowerKeys(hs)[1..] == LowerKeys(hs[1..]);
      assert Lower(Lower(hs[0].key)) == Lower(hs[0].key);
    }
  }

  /** A line that is cut off is not parsed, nor guessed at. */
  lemma CutLine(h: Header, n: nat)
    requires HeaderOk(h) && n < |Line(h)|
    ensures ParseLines(Line(h)[..n]).None?
  {
    hide SkipSpaces;
    hide Lower;
    var p := Line(h)[..n];
    assert Line(h) == h.key + ([':'] + ([' '] + (h.value + CRLF)));
    if n <= |h.key| {
      assert p == h.key[..n];
      assert !StartsCrlf(p);
    } else if n == |h.key| + 1 {
      assert p == h.key + ([':'] + "");
      AfterKey(h, "");
    } else {
      CutValue(h, n - |h.key| - 2);
      assert p == h.key + ([':'] + ([' '] + (h.value + CRLF)[..n - |h.key| - 2]));
    }
  }

  lemma CutValue(h: Header, n: nat)
    requires HeaderOk(h) && n < |h.value + CRLF|
    ensures ParseLines(h.key + ([':'] + ([' '] + (h.value + CRLF)[..n]))).None?
  {
    hide ParseLines;
    hide FindColon;
    hide FindCrlf;
    var q := (h.value + CRLF)[..n];
    AfterKey(h, [' '] + q);
    FirstCrlf(h.value, "");
    assert h.value + (CRLF + "") == h.value + CRLF;
    NoCrlfBefore(h.value + CRLF, n);
    assert SkipSpaces([' '] + q) == q by {
      if q == [] {
        assert ([' '] + q)[1..] == q;
      } else {
        assert q[0] == (h.value + CRLF)[0];
        SpacesSkipped(1, q);
      }
    }
    ParseStops(h.key + ([':'] + ([' '] + q)));
  }

  lemma {:induction false} CutLines(hs: seq<Header>, n: nat)
    requires forall h <- hs :: HeaderOk(h)
    requires n < |Lines(hs) + CRLF|
    ensures ParseLines((Lines(hs) + CRLF)[..n]).None?
  {
    hide HeaderOk;
    var all := Lines(hs) + CRLF;
    if hs == [] {
      assert all == CRLF;
    } else {
      var line, more := Line(hs[0]), Lines(hs[1..]) + CRLF;
      assert all == line + more;
      if n < |line| {
        assert all[..n] == line[..n];
        CutLine(hs[0], n);
      } else {
        assert all[..n] == line + more[..n - |line|];
        CutLines(hs[1..], n - |line|);
        LineStep(hs[0], more[..n - |line|]);
      }
    }
  }

  /** A strict prefix of what was written is reported as incomplete: no header is lost or cut short. */
  lemma PrefixIsIncomplete(b: Block, n: nat)
    requires Printable(b) && n < |Emit(b)|
    ensures Parse(Emit(b)[..n]).None?
  {
    hide HeaderOk;
    hide ParseLines;
    var tail := Lines(b.headers) + CRLF;
    var s := b.status + (CRLF + tail);
    FirstCrlf(b.status, tail);
    assert Emit(b) == s;
    if n < |b.status| + 2 {
      NoCrlfBefore(s, n);
    } else {
      var cut := tail[..n - |b.status| - 2];
      assert s[..n] == b.status + (CRLF + cut);
      FirstCrlf(b.status, cut);
      assert (b.status + (CRLF + cut))[|b.status| + 2..] == cut;
      CutLines(b.headers, |cut|);
    }
  }

  /** A block that was parsed, written again, parses to the same block. */
  lemma ParsedReadsBack(data: string, body: string)
    requires Parse(data).Some?
    ensures Parse(Emit(Parse(data).value) + body) == Parse(data)
  {
    hide HeaderOk;
    hide ParseLines;
    ParsedIsPrintable(data);
    EmittedReadsBack(Parse(data).value, body);
    ParsedKeysAreLower(data[FindCrlf(data) + 2..]);
  }

  lemma {:induction false} ParsedKeysAreLower(data: string)
    requires ParseLines(data).Some?
    ensures LowerKeys(ParseLines(data).value) == ParseLines(data).value
    decreases |data|
  {
    if FindCrlf(data) != 0 {
      var ki := FindColon(data);
      var rest := SkipSpaces(data[ki + 1..]);
      var vi := FindCrlf(rest);
      ParsedKeysAreLower(rest[vi + 2..]);
      var hs := ParseLines(data).value;
      assert hs[1..] == ParseLines(rest[vi + 2..]).value;
      assert Lower(Lower(data[..ki])) == Lower(data[..ki]);
    }
  }

  // ---------------------------------------------------------------- the class

  class HttpHeaders {
    var expectedLen: nat
    var status: string
    var headers: seq<Header>

    ghost predicate Valid()
      reads this
    {
      |Emit(Contents())| == expectedLen + 2
    }

    function Contents(): Block
      reads this
    {
      Block(status, headers)
    }

    constructor (status: string)
      ensures Valid() && Contents() == Block(status, [])
    {
      expectedLen := |status| + 2;
      this.status := status;
      headers := [];
    }

    method Add(key: string, value: string)
      requires Valid()
      modifies this
      ensures Valid() && Contents() == Block(old(status), old(headers) + [Header(key, value)])
    {
      LinesAppend(headers, Header(key, value));
      expectedLen := expectedLen + 4 + |key| + |value|;
      headers := headers + [Header(key, value)];
    }

    /** The room reserved before writing is exactly what is written. */
    method Bytes() returns (ret: string)
      requires Valid()
      ensures ret == Emit(Contents()) && |ret| == expectedLen + 2
    {
      hide Line;
      ret := status + CRLF;
      for i := 0 to |headers|
        invariant ret == status + CRLF + Lines(headers[..i])
      {
        LinesAppend(headers[..i], headers[i]);
        assert headers[..i + 1] == headers[..i] + [headers[i]];
        LineAppended(ret, headers[i]);
        ret := ret + headers[i].key + ": " + headers[i].value + CRLF;
        LinesApart(status + CRLF, Lines(headers[..i]), Line(headers[i]));
      }
      assert headers[..|headers|] == headers;
      ret := ret + CRLF;
    }
  }

  lemma {:induction false} LinesAppend(hs: seq<Header>, h: Header)
    ensures Lines(hs + [h]) == Lines(hs) + Line(h)
  {
    if hs == [] {
      assert hs + [h] == [h] && Lines([h][1..]) == [];
    } else {
      LinesAppend(hs[1..], h);
      assert (hs + [h])[1..] == hs[1..] + [h];
    }
  }

  lemma LineAppended(s: string, h: Header)
    ensures s + h.key + ": " + h.value + CRLF == s + Line(h)
  {
  }

  /** parse(): consumes its view line by line. */
  method ParseHeaders(data0: string) returns (result: HttpHeaders?)
    ensures result == null <==> Parse(data0).None?
    ensures result != null ==> fresh(result) && result.Valid() && Some(result.Contents()) == Parse(data0)
  {
    hide Lower;
    hide FindCrlf;
    hide FindColon;
    hide SkipSpaces;
    hide ParseLines;
    hide Emit;
    var data := data0;
    var x := FindCrlf(data);
    if x == -1 {
      return null;
    }
    var hdrs := new HttpHeaders(data[..x]);
    data := data[x + 2..];
    ghost var start := data;
    NothingBefore(ParseLines(start));
    while FindCrlf(data) != 0
      invariant fresh(hdrs) && hdrs.Valid() && hdrs.status == data0[..x]
      invariant ParseLines(start) == After(hdrs.headers, ParseLines(data))
      decreases |data|
    {
      ghost var before, done := data, hdrs.headers;
      var ki := FindColon(data);
      if ki == -1 {
        ParseStops(before);
        return null;
      }
      var key := Lower(data[..ki]);
      data := SkipSpaces(data[ki + 1..]);
      if data == [] {
        ParseStops(before);
        return null;
      }
      var vi := FindCrlf(data);
      if vi == -1 {
        ParseStops(before);
        return null;
      }
      var value := data[..vi];
      hdrs.Add(key, value);
      data := data[vi + 2..];
      ParseTurn(before);
      OneBefore(done, Header(key, value), ParseLines(data));
    }
    ParseEnds(data);
    assert hdrs.headers + [] == hdrs.headers;
    result := hdrs;
  }

  /** The headers read so far, then the others. */
  ghost function After(done: seq<Header>, p: Option<seq<Header>>): Option<seq<Header>> {
    if p.None? then None else Some(done + p.value)
  }

  lemma NothingBefore(p: Option<seq<Header>>)
    ensures After([], p) == p
  {
    if p.Some? {
      assert [] + p.value == p.value;
    }
  }

  lemma OneBefore(done: seq<Header>, h: Header, p: Option<seq<Header>>)
    ensures After(done, Prepend(h, p)) == After(done + [h], p)
  {
    if p.Some? {
      assert done + ([h] + p.value) == (done + [h]) + p.value;
    }
  }

  lemma ParseStops(data: string)
    requires FindCrlf(data) != 0
    requires FindColon(data) == -1 || FindCrlf(SkipSpaces(data[FindColon(data) + 1..])) == -1
    ensures ParseLines(data).None?
  {
  }

  lemma ParseEnds(data: string)
    requires FindCrlf(data) == 0
    ensures ParseLines(data) == Some([])
  {
  }
}
