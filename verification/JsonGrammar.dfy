/**
  The texts the parser takes for JSON, as a grammar: section 2 of RFC 8259 with line comments, stray slashes and
  leading zeros allowed, and numbers that are 64-bit integers.  The parser accepts these and no others.
 */
module JsonGrammar {
  import opened Bytes
  import opened Json
  import opened JsonEscapes
  import opened JsonRoundTrip
  import opened Options
  import opened Results
  import opened Sequences

  // ---------------------------------------------------------------- the grammar

  /** Blanks, tabs, line feeds and carriage returns. */
  predicate IsSpace(w: seq<Byte>) {
    forall i :: 0 <= i < |w| ==> w[i] in {0x20, 0x09, 0x0A, 0x0D}
  }

  /** Two slashes, between them white space or none, and the rest of the line. */
  ghost predicate IsComment(w: seq<Byte>) {
    exists a: seq<Byte>, b: seq<Byte>, line: seq<Byte> ::
      IsSpace(a) && IsSpace(b) && 0x0A !in line && w == a + ([0x2F] + (b + ([0x2F] + (line + [0x0A]))))
  }

  ghost predicate AreComments(w: seq<Byte>)
    decreases |w|
  {
    w == [] || exists a: seq<Byte>, b: seq<Byte> :: a != [] && w == a + b && IsComment(a) && AreComments(b)
  }

  /** White space, or white space around one slash. */
  ghost predicate IsGapEnd(w: seq<Byte>) {
    IsSpace(w) || exists a: seq<Byte>, b: seq<Byte> :: IsSpace(a) && IsSpace(b) && w == a + ([0x2F] + b)
  }

  /** What may stand before an element, a member or a closing bracket. */
  ghost predicate IsGap(w: seq<Byte>) {
    exists a: seq<Byte>, b: seq<Byte> :: AreComments(a) && IsGapEnd(b) && w == a + b
  }

  /** Digits on base ten, the first the most significant. */
  function Decimal(d: seq<Byte>): nat
    requires AllDigits(d)
  {
    if d == [] then 0 else (d[0] - 0x30) as int * Pow10(|d| - 1) + Decimal(d[1..])
  }

  function Pow10(n: nat): nat {
    if n == 0 then 1 else 10 * Pow10(n - 1)
  }

  predicate IsIntText(w: seq<Byte>, i: int) {
    && -0x8000_0000_0000_0000 <= i < 0x8000_0000_0000_0000
    && w != []
    && if w[0] == 0x2D then |w| > 1 && AllDigits(w[1..]) && i == -(Decimal(w[1..]) as int)
       else AllDigits(w) && i == Decimal(w)
  }

  /** A value without white space before it. */
  ghost predicate IsCore(w: seq<Byte>, v: Value)
    decreases |w|, 0
  {
    match v
    case Null => w == [0x6E, 0x75, 0x6C, 0x6C]
    case Bool(b) => w == if b then [0x74, 0x72, 0x75, 0x65] else [0x66, 0x61, 0x6C, 0x73, 0x65]
    case Int(i) => IsIntText(w, i)
    case Str(s) => exists t: seq<Byte> :: IsStringText(t, s) && w == [0x22] + (t + [0x22])
    case Arr(xs) =>
      || (xs == [] && exists a: seq<Byte> :: IsSpace(a) && w == [0x5B] + (a + [0x5D]))
      || (xs != [] && exists e: seq<Byte> :: w == [0x5B] + e && AreElems(e, xs))
    case Obj(es) =>
      || (es == [] && exists a: seq<Byte> :: IsSpace(a) && w == [0x7B] + (a + [0x7D]))
      || (exists e: seq<Byte>, ms: seq<Entry> :: ms != [] && es == Assigned([], ms) && w == [0x7B] + e && AreMembers(e, ms))
  }

  /** The members assigned one after the other. */
  function Assigned(es: seq<Entry>, ms: seq<Entry>): seq<Entry>
    decreases |ms|
  {
    if ms == [] then es else Assigned(Insert(es, ms[0].key, ms[0].value), ms[1..])
  }

  /** Elements with commas between them, and the closing bracket. */
  ghost predicate AreElems(w: seq<Byte>, xs: seq<Value>)
    requires xs != []
    decreases |w|, 1
  {
    exists g: seq<Byte>, c: seq<Byte>, t: seq<Byte> ::
      w == g + (c + t) && IsGap(g) && IsCore(c, xs[0]) && IsElemsEnd(t, xs[1..])
  }

  ghost predicate IsElemsEnd(w: seq<Byte>, xs: seq<Value>)
    decreases |w|, 0
  {
    if xs == [] then exists g: seq<Byte> :: w == g + [0x5D] && IsGap(g)
    else exists a: seq<Byte>, e: seq<Byte> :: w == a + ([0x2C] + e) && IsSpace(a) && AreElems(e, xs)
  }

  /** A key, a colon and a value. */
  ghost predicate IsMember(w: seq<Byte>, m: Entry)
    decreases |w|, 1
  {
    exists k: seq<Byte>, a: seq<Byte>, b: seq<Byte>, c: seq<Byte> ::
      w == [0x22] + (k + ([0x22] + (a + ([0x3A] + (b + c))))) &&
      IsStringText(k, m.key) && IsSpace(a) && IsSpace(b) && IsCore(c, m.value)
  }

  ghost predicate AreMembers(w: seq<Byte>, ms: seq<Entry>)
    requires ms != []
    decreases |w|, 2
  {
    exists g: seq<Byte>, m: seq<Byte>, t: seq<Byte> ::
      w == g + (m + t) && IsGap(g) && IsMember(m, ms[0]) && IsMembersEnd(t, ms[1..])
  }

  ghost predicate IsMembersEnd(w: seq<Byte>, ms: seq<Entry>)
    decreases |w|, 0
  {
    if ms == [] then exists g: seq<Byte> :: w == g + [0x7D] && IsGap(g)
    else exists a: seq<Byte>, e: seq<Byte> :: w == a + ([0x2C] + e) && IsSpace(a) && AreMembers(e, ms)
  }

  /** A value with white space before it. */
  ghost predicate IsText(w: seq<Byte>, v: Value) {
    exists a: seq<Byte>, c: seq<Byte> :: w == a + c && IsSpace(a) && IsCore(c, v)
  }

  // ---------------------------------------------------------------- white space, comments, brackets

  /** Nothing here that the skipping loops would take. */
  predicate Solid(s: seq<Byte>) {
    s == [] || (!IsWs(s[0]) && s[0] != SLASH)
  }

  lemma {:induction false} SpaceSkipped(w: seq<Byte>, s: seq<Byte>)
    requires IsSpace(w)
    ensures SkipWs(w + s) == SkipWs(s)
  {
    if w == [] {
      assert w + s == s;
    } else {
      assert (w + s)[0] == w[0] && (w + s)[1..] == w[1..] + s;
      SpaceSkipped(w[1..], s);
    }
  }

  lemma {:induction false} SpaceTaken(s: seq<Byte>) returns (w: seq<Byte>)
    ensures IsSpace(w) && s == w + SkipWs(s)
  {
    if s != [] && IsWs(s[0]) {
      var w' := SpaceTaken(s[1..]);
      w := [s[0]] + w';
      assert s == [s[0]] + s[1..];
    } else {
      w := [];
    }
  }

  /** White space and then this byte: it is seen, and the rest comes after it. */
  lemma SeenAfterSpace(w: seq<Byte>, c: Byte, s: seq<Byte>)
    requires IsSpace(w) && !IsWs(c)
    ensures SkipWs(w + ([c] + s)) == [c] + s
    ensures Json.Sees(w + ([c] + s), c) && After(w + ([c] + s)) == s
    ensures forall d: Byte :: d != c ==> !Json.Sees(w + ([c] + s), d)
  {
    SpaceSkipped(w, [c] + s);
    assert ([c] + s)[1..] == s;
  }

  lemma SeenMeansThere(s: seq<Byte>, c: Byte) returns (w: seq<Byte>)
    requires Json.Sees(s, c)
    ensures IsSpace(w) && s == w + ([c] + After(s))
  {
    w := SpaceTaken(s);
    assert SkipWs(s) == [c] + After(s);
  }

  lemma {:induction false} LineSkipped(line: seq<Byte>, s: seq<Byte>)
    requires 0x0A !in line
    ensures AfterLine(line + ([0x0A] + s)) == Some(s)
  {
    var t := line + ([0x0A] + s);
    if line == [] {
      assert t == [0x0A] + s && t[1..] == s;
    } else {
      assert t[0] == line[0] && t[0] in line && t[1..] == line[1..] + ([0x0A] + s);
      LineSkipped(line[1..], s);
    }
  }

  lemma {:induction false} LineTaken(s: seq<Byte>) returns (line: seq<Byte>)
    requires AfterLine(s).Some?
    ensures 0x0A !in line && s == line + ([0x0A] + AfterLine(s).value)
  {
    if s[0] == NEWLINE {
      line := [];
      assert s == [0x0A] + s[1..];
    } else {
      var l := LineTaken(s[1..]);
      line := [s[0]] + l;
      assert s == [s[0]] + s[1..];
    }
  }

  lemma CommentSkipped(w: seq<Byte>, s: seq<Byte>)
    requires IsComment(w)
    ensures SkipComments(w + s) == SkipComments(s)
  {
    hide AfterLine;
    var a: seq<Byte>, b: seq<Byte>, line: seq<Byte> :|
      IsSpace(a) && IsSpace(b) && 0x0A !in line && w == a + ([0x2F] + (b + ([0x2F] + (line + [0x0A]))));
    hide Json.Sees;
    hide After;
    hide SkipWs;
    hide IsSpace;
    var t3 := line + ([0x0A] + s);
    var t2 := b + ([0x2F] + t3);
    CommentApart(a, b, line, s);
    SeenAfterSpace(a, SLASH, t2);
    SeenAfterSpace(b, SLASH, t3);
    LineSkipped(line, s);
  }

  lemma CommentApart(a: seq<Byte>, b: seq<Byte>, line: seq<Byte>, s: seq<Byte>)
    ensures a + ([0x2F] + (b + ([0x2F] + (line + [0x0A])))) + s == a + ([0x2F] + (b + ([0x2F] + (line + ([0x0A] + s)))))
  {
    Assoc(a, [0x2F] + (b + ([0x2F] + (line + [0x0A]))), s);
    Assoc([0x2F], b + ([0x2F] + (line + [0x0A])), s);
    Assoc(b, [0x2F] + (line + [0x0A]), s);
    Assoc([0x2F], line + [0x0A], s);
    Assoc(line, [0x0A], s);
  }

  lemma {:induction false} CommentsSkipped(w: seq<Byte>, s: seq<Byte>)
    requires AreComments(w)
    ensures SkipComments(w + s) == SkipComments(s)
    decreases |w|
  {
    hide IsComment;
    hide SkipComments;
    if w == [] {
      assert w + s == s;
    } else {
      var a: seq<Byte>, b: seq<Byte> :| a != [] && w == a + b && IsComment(a) && AreComments(b);
      CommentSkipped(a, b + s);
      CommentsSkipped(b, s);
      Assoc(a, b, s);
    }
  }

  lemma SolidStays(s: seq<Byte>)
    requires Solid(s)
    ensures SkipWs(s) == s && !Json.Sees(s, SLASH)
  {
  }

  lemma GapEndSkipped(w: seq<Byte>, s: seq<Byte>)
    requires IsGapEnd(w) && Solid(s)
    ensures SkipComments(w + s) == Some(s)
  {
    hide SkipComments;
    SolidStays(s);
    if IsSpace(w) {
      SpaceAloneSkipped(w, s);
    } else {
      var a: seq<Byte>, b: seq<Byte> :| IsSpace(a) && IsSpace(b) && w == a + ([0x2F] + b);
      Assoc(a, [0x2F] + b, s);
      Assoc([0x2F], b, s);
      LoneSlashSkipped(a, b, s);
    }
  }

  lemma SpaceAloneSkipped(a: seq<Byte>, s: seq<Byte>)
    requires IsSpace(a) && SkipWs(s) == s && !Json.Sees(s, SLASH)
    ensures SkipComments(a + s) == Some(s)
  {
    SpaceSkipped(a, s);
    hide SkipWs;
    hide IsSpace;
    hide After;
  }

  lemma LoneSlashSkipped(a: seq<Byte>, b: seq<Byte>, s: seq<Byte>)
    requires IsSpace(a) && IsSpace(b) && SkipWs(s) == s && !Json.Sees(s, SLASH)
    ensures SkipComments(a + ([0x2F] + (b + s))) == Some(s)
  {
    SeenAfterSpace(a, SLASH, b + s);
    SpaceSkipped(b, s);
    hide SkipWs;
    hide After;
    hide IsSpace;
  }

  lemma GapSkipped(w: seq<Byte>, s: seq<Byte>)
    requires IsGap(w) && Solid(s)
    ensures SkipComments(w + s) == Some(s)
  {
    hide SkipComments;
    hide AreComments;
    hide IsGapEnd;
    var a: seq<Byte>, b: seq<Byte> :| AreComments(a) && IsGapEnd(b) && w == a + b;
    CommentsSkipped(a, b + s);
    GapEndSkipped(b, s);
    Assoc(a, b, s);
  }

  lemma {:induction false} GapTaken(s: seq<Byte>) returns (w: seq<Byte>)
    requires SkipComments(s).Some?
    ensures IsGap(w) && s == w + SkipComments(s).value
    decreases |s|, 1
  {
    if !Json.Sees(s, SLASH) {
      w := SpaceTaken(s);
      EndIsGap(w);
    } else if !Json.Sees(After(s), SLASH) {
      w := LoneSlashTaken(s);
    } else {
      var a := SeenMeansThere(s, SLASH);
      w := CommentTaken(s, a);
    }
  }

  lemma EndIsGap(w: seq<Byte>)
    requires IsGapEnd(w)
    ensures IsGap(w)
  {
    assert AreComments([]) && [] + w == w;
  }

  lemma LoneSlashTaken(s: seq<Byte>) returns (w: seq<Byte>)
    requires Json.Sees(s, SLASH) && !Json.Sees(After(s), SLASH)
    ensures SkipComments(s).Some? && IsGap(w) && s == w + SkipComments(s).value
  {
    var a := SeenMeansThere(s, SLASH);
    var b := SpaceTaken(After(s));
    hide Json.Sees;
    hide After;
    hide SkipWs;
    w := a + ([0x2F] + b);
    EndIsGap(w);
    Assoc(a, [0x2F] + b, SkipWs(After(s)));
    Assoc([0x2F], b, SkipWs(After(s)));
  }

  lemma {:induction false} CommentTaken(s: seq<Byte>, a: seq<Byte>) returns (w: seq<Byte>)
    requires SkipComments(s).Some? && Json.Sees(s, SLASH) && Json.Sees(After(s), SLASH)
    requires IsSpace(a) && s == a + ([0x2F] + After(s))
    ensures IsGap(w) && s == w + SkipComments(s).value
    decreases |s|, 0
  {
    hide SkipWs;
    hide AfterLine;
    var t := After(s);
    var b := SeenMeansThere(t, SLASH);
    var line := LineTaken(After(t));
    var rest := AfterLine(After(t)).value;
    assert SkipComments(s) == SkipComments(rest);
    var c := a + ([0x2F] + (b + ([0x2F] + (line + [0x0A]))));
    assert IsComment(c);
    CommentApart(a, b, line, rest);
    var w' := GapTaken(rest);
    w := c + w';
    GapGrows(c, w');
    Assoc(c, w', SkipComments(s).value);
  }

  lemma GapGrows(c: seq<Byte>, w: seq<Byte>)
    requires IsComment(c) && IsGap(w)
    ensures IsGap(c + w)
  {
    hide IsGapEnd;
    var a: seq<Byte>, b: seq<Byte> :| AreComments(a) && IsGapEnd(b) && w == a + b;
    assert c != [] && AreComments(c + a);
    Assoc(c, a, b);
  }

  lemma CloseAccepted(g: seq<Byte>, close: Byte, rest: seq<Byte>)
    requires IsGap(g) && close in {0x5D, 0x7D}
    ensures Closed(g + ([close] + rest), close) == Some(rest)
  {
    hide IsGap;
    hide SkipComments;
    GapSkipped(g, [close] + rest);
    assert [] + ([close] + rest) == [close] + rest;
    SeenAfterSpace([], close, rest);
  }

  lemma CloseTaken(s: seq<Byte>, close: Byte) returns (g: seq<Byte>)
    requires Closed(s, close).Some?
    ensures IsGap(g) && s == g + ([close] + Closed(s, close).value)
  {
    hide IsGap;
    hide SkipComments;
    hide SkipWs;
    g := GapTaken(s);
    var t := SkipComments(s).value;
    assert SkipWs(t) == t;
    assert t == [close] + After(t);
  }

  // ---------------------------------------------------------------- numbers

  lemma {:induction false} DecimalPush(d: seq<Byte>)
    requires AllDigits(d) && d != []
    ensures AllDigits(d[..|d| - 1]) && Decimal(d) == 10 * Decimal(d[..|d| - 1]) + (d[|d| - 1] - 0x30)
  {
    var n := |d| - 1;
    if n > 0 {
      DecimalPush(d[1..]);
      assert d[1..][..n - 1] == d[..n][1..];
      assert Pow10(n) == 10 * Pow10(n - 1);
      TenTimes((d[0] - 0x30) as int, Pow10(n - 1));
    } else {
      assert d[..0] == [] && d[1..] == [];
    }
  }

  lemma TenTimes(a: int, p: int)
    ensures a * (10 * p) == 10 * (a * p)
  {
  }

  lemma {:induction false} DigitsAreDecimal(d: seq<Byte>)
    requires AllDigits(d)
    ensures DigitsValue(d) == Decimal(d)
  {
    hide Pow10;
    if d != [] {
      DecimalPush(d);
      DigitsAreDecimal(d[..|d| - 1]);
      hide Decimal;
    }
  }

  /** An integer text is what the integer parser takes. */
  lemma IntTextParsed(w: seq<Byte>, i: int)
    ensures ParseInt(w) == Ok(i, []) <==> IsIntText(w, i)
  {
    hide Decimal;
    hide DigitsValue;
    if w != [] {
      var d := if w[0] == MINUS then w[1..] else w;
      if AllDigits(d) {
        DigitsAreDecimal(d);
      }
    }
  }

  lemma {:induction false} RunStops(s: seq<Byte>)
    ensures NumberStops(s[|NumberText(s)|..])
  {
    if s != [] && IsNumeric(s[0]) {
      RunStops(s[1..]);
      assert s[1..][|NumberText(s[1..])|..] == s[|NumberText(s)|..];
    }
  }

  lemma IntTextIsNumeric(w: seq<Byte>, i: int)
    requires IsIntText(w, i)
    ensures w != [] && (48 <= w[0] <= 57 || w[0] == MINUS) && forall k :: 0 <= k < |w| ==> IsNumeric(w[k])
  {
    if w[0] == 0x2D {
      assert forall k :: 0 < k < |w| ==> w[k] == w[1..][k - 1];
    }
  }

  // ---------------------------------------------------------------- all of the grammar is accepted

  /** A value at the front of a text is followed by this rest. */
  predicate Follows(v: Value, rest: seq<Byte>) {
    v.Int? ==> NumberStops(rest)
  }

  lemma CoreIsSolid(w: seq<Byte>, v: Value)
    requires IsCore(w, v)
    ensures w != [] && Solid(w)
  {
    if v.Int? {
      IntTextIsNumeric(w, v.i);
    }
  }

  lemma SolidPrefix(w: seq<Byte>, s: seq<Byte>)
    requires w != [] && Solid(w)
    ensures Solid(w + s) && SkipWs(w + s) == w + s && w + s != []
  {
    SolidStays(w + s);
  }

  lemma SpaceBeforeValue(a: seq<Byte>, s: seq<Byte>)
    requires IsSpace(a)
    ensures ParseValue(a + s) == ParseValue(s)
  {
    SpaceSkipped(a, s);
  }

  lemma IntAccepted(w: seq<Byte>, i: int, rest: seq<Byte>)
    requires IsIntText(w, i) && NumberStops(rest)
    ensures ParseValue(w + rest) == Ok(Int(i), rest)
  {
    hide NumberText;
    hide IsIntText;
    hide ParseInt;
    IntTextParsed(w, i);
    IntTextIsNumeric(w, i);
    NumberTextReadsBack(w, rest);
    SolidPrefix(w, rest);
    assert (w + rest)[0] == w[0] && (w + rest)[|w|..] == rest;
  }

  lemma StrAccepted(t: seq<Byte>, s: seq<Byte>, rest: seq<Byte>)
    requires IsStringText(t, s)
    ensures ParseValue([0x22] + (t + [0x22]) + rest) == Ok(Str(s), rest)
  {
    hide ParseStr;
    hide IsStringText;
    var x := [0x22] + (t + [0x22]) + rest;
    StringAccepted(t, s, rest);
    assert x[1..] == t + ([QUOTE] + rest);
  }

  lemma WordAccepted(w: seq<Byte>, v: Value, rest: seq<Byte>)
    requires IsCore(w, v) && (v.Null? || v.Bool?)
    ensures ParseValue(w + rest) == Ok(v, rest)
  {
    var x := w + rest;
    assert x[0] == w[0] && w <= x && x[|w|..] == rest;
    SolidPrefix(w, rest);
  }

  lemma {:induction false} CoreAccepted(w: seq<Byte>, v: Value, rest: seq<Byte>)
    requires IsCore(w, v) && Follows(v, rest)
    ensures ParseValue(w + rest) == Ok(v, rest)
    decreases |w|, 0
  {
    hide ParseValue;
    hide IsIntText;
    hide IsStringText;
    hide AreElems;
    hide AreMembers;
    match v
    case Null => WordAccepted(w, v, rest);
    case Bool(_) => WordAccepted(w, v, rest);
    case Int(i) => IntAccepted(w, i, rest);
    case Str(s) =>
      var t: seq<Byte> :| IsStringText(t, s) && w == [0x22] + (t + [0x22]);
      StrAccepted(t, s, rest);
    case Arr(xs) =>
      if e: seq<Byte> :| xs != [] && w == [0x5B] + e && AreElems(e, xs) {
        ElemsAccepted(e, xs, rest);
        ArrayOpened(e, xs, rest);
      } else {
        var a: seq<Byte> :| IsSpace(a) && w == [0x5B] + (a + [0x5D]);
        EmptyArrayAccepted(a, rest);
      }
    case Obj(es) =>
      if e: seq<Byte>, ms: seq<Entry> :| ms != [] && es == Assigned([], ms) && w == [0x7B] + e && AreMembers(e, ms) {
        MembersAccepted(e, [], ms, rest);
        ObjectOpened(e, ms, rest);
      } else {
        var a: seq<Byte> :| IsSpace(a) && w == [0x7B] + (a + [0x7D]);
        EmptyObjectAccepted(a, rest);
      }
  }

  lemma EmptyArrayAccepted(a: seq<Byte>, rest: seq<Byte>)
    requires IsSpace(a)
    ensures ParseValue([0x5B] + (a + [0x5D]) + rest) == Ok(Arr([]), rest)
  {
    var x := [0x5B] + (a + [0x5D]) + rest;
    assert x[1..] == a + ([0x5D] + rest);
    SeenAfterSpace(a, CLOSE_SQUARE, rest);
  }

  lemma EmptyObjectAccepted(a: seq<Byte>, rest: seq<Byte>)
    requires IsSpace(a)
    ensures ParseValue([0x7B] + (a + [0x7D]) + rest) == Ok(Obj([]), rest)
  {
    var x := [0x7B] + (a + [0x7D]) + rest;
    assert x[1..] == a + ([0x7D] + rest);
    SeenAfterSpace(a, CLOSE_CURLY, rest);
  }

  /** A list that is not empty does not begin with its closing bracket. */
  lemma ArrayOpened(e: seq<Byte>, xs: seq<Value>, rest: seq<Byte>)
    requires ParseElems(e + rest) == Ok(xs, rest)
    ensures ParseValue([0x5B] + e + rest) == Ok(Arr(xs), rest)
  {
    hide ParseValue;
    hide ParseElems;
    hide Json.Sees;
    Assoc([0x5B], e, rest);
    if Json.Sees(e + rest, CLOSE_SQUARE) {
      NoElemsAtClose(e + rest);
    }
    OpeningBracket(e + rest);
  }

  lemma OpeningBracket(s: seq<Byte>)
    requires !Json.Sees(s, CLOSE_SQUARE) && ParseElems(s).Ok?
    ensures ParseValue([0x5B] + s) == Ok(Arr(ParseElems(s).value), ParseElems(s).rest)
  {
    hide ParseElems;
    hide ParseMembers;
    hide ParseStr;
    hide NumberText;
    hide ParseInt;
    hide Json.Sees;
    hide After;
    var x := [0x5B] + s;
    assert x[1..] == s && SkipWs(x) == x;
    hide SkipWs;
  }

  lemma OpeningBrace(s: seq<Byte>)
    requires !Json.Sees(s, CLOSE_CURLY) && ParseMembers(s, []).Ok?
    ensures ParseValue([0x7B] + s) == Ok(Obj(ParseMembers(s, []).value), ParseMembers(s, []).rest)
  {
    hide ParseElems;
    hide ParseMembers;
    hide ParseStr;
    hide NumberText;
    hide ParseInt;
    hide Json.Sees;
    hide After;
    var x := [0x7B] + s;
    assert x[1..] == s && SkipWs(x) == x;
    hide SkipWs;
  }

  lemma NoElemsAtClose(s: seq<Byte>)
    requires Json.Sees(s, CLOSE_SQUARE)
    ensures ParseElems(s).Fail?
  {
    assert SkipComments(s) == Some(SkipWs(s));
    SkipWsTwice(s);
    assert ParseValue(SkipWs(s)).Fail?;
  }

  lemma ObjectOpened(e: seq<Byte>, ms: seq<Entry>, rest: seq<Byte>)
    requires ParseMembers(e + rest, []) == Ok(Assigned([], ms), rest)
    ensures ParseValue([0x7B] + e + rest) == Ok(Obj(Assigned([], ms)), rest)
  {
    hide ParseValue;
    hide ParseMembers;
    hide Json.Sees;
    hide Assigned;
    Assoc([0x7B], e, rest);
    if Json.Sees(e + rest, CLOSE_CURLY) {
      NoMembersAtClose(e + rest);
    }
    OpeningBrace(e + rest);
  }

  lemma NoMembersAtClose(s: seq<Byte>)
    requires Json.Sees(s, CLOSE_CURLY)
    ensures ParseMembers(s, []).Fail?
  {
    assert SkipComments(s) == Some(SkipWs(s));
    SkipWsTwice(s);
    assert ParseMember(SkipWs(s)).Fail?;
  }

  lemma {:induction false} CommentsStart(w: seq<Byte>)
    requires AreComments(w) && w != []
    ensures w[0] == SLASH || IsWs(w[0])
  {
    var a: seq<Byte>, b: seq<Byte> :| a != [] && w == a + b && IsComment(a) && AreComments(b);
    assert w[0] == a[0];
    var s: seq<Byte>, t: seq<Byte>, line: seq<Byte> :|
      IsSpace(s) && IsSpace(t) && 0x0A !in line && a == s + ([0x2F] + (t + ([0x2F] + (line + [0x0A]))));
    assert s != [] ==> a[0] == s[0];
  }

  lemma GapStart(g: seq<Byte>)
    requires IsGap(g) && g != []
    ensures g[0] == SLASH || IsWs(g[0])
  {
    var a: seq<Byte>, b: seq<Byte> :| AreComments(a) && IsGapEnd(b) && g == a + b;
    if a != [] {
      CommentsStart(a);
      assert g[0] == a[0];
    } else if !IsSpace(b) {
      var s: seq<Byte>, t: seq<Byte> :| IsSpace(s) && IsSpace(t) && b == s + ([0x2F] + t);
      assert g[0] == (if s == [] then 0x2F else s[0]);
    }
  }

  lemma GapThenByte(g: seq<Byte>, c: Byte, rest: seq<Byte>)
    requires IsGap(g) && !IsNumeric(c)
    ensures NumberStops(g + ([c] + rest))
  {
    if g != [] {
      GapStart(g);
    }
  }

  lemma SpaceThenByte(a: seq<Byte>, c: Byte, rest: seq<Byte>)
    requires IsSpace(a) && !IsNumeric(c)
    ensures NumberStops(a + ([c] + rest))
  {
  }

  lemma {:induction false} ElemsAccepted(w: seq<Byte>, xs: seq<Value>, rest: seq<Byte>)
    requires xs != [] && AreElems(w, xs)
    ensures ParseElems(w + rest) == Ok(xs, rest)
    decreases |w|, 1
  {
    hide ParseValue;
    hide IsCore;
    hide IsElemsEnd;
    hide IsGap;
    hide SkipComments;
    var g: seq<Byte>, c: seq<Byte>, t: seq<Byte> :|
      w == g + (c + t) && IsGap(g) && IsCore(c, xs[0]) && IsElemsEnd(t, xs[1..]);
    Assoc(g, c + t, rest);
    Assoc(c, t, rest);
    CoreIsSolid(c, xs[0]);
    SolidPrefix(c, t + rest);
    GapSkipped(g, c + (t + rest));
    ElemsEndAccepted(t, xs[1..], rest);
    CoreAccepted(c, xs[0], t + rest);
    ElemsTurn(c + (t + rest), w + rest, xs[0], t + rest);
    assert xs == [xs[0]] + xs[1..];
  }

  /** What the element loop makes of the text after an element. */
  function AfterElem(r: seq<Byte>): Parsed<seq<Value>> {
    if Json.Sees(r, COMMA) then ParseElems(After(r))
    else match Closed(r, CLOSE_SQUARE) case None => Fail case Some(end) => Ok([], end)
  }

  lemma ElemsTurn(t: seq<Byte>, s: seq<Byte>, v: Value, r: seq<Byte>)
    requires SkipComments(s) == Some(t) && ParseValue(t) == Ok(v, r)
    ensures ParseElems(s) == if AfterElem(r).Fail? then Fail else Ok([v] + AfterElem(r).value, AfterElem(r).rest)
  {
    hide ParseValue;
    hide SkipComments;
    hide Closed;
    hide Json.Sees;
    hide After;
    assert [v] + [] == [v];
  }

  lemma {:induction false} ElemsEndAccepted(w: seq<Byte>, xs: seq<Value>, rest: seq<Byte>)
    requires IsElemsEnd(w, xs)
    ensures AfterElem(w + rest) == Ok(xs, rest) && NumberStops(w + rest)
    decreases |w|, 0
  {
    hide IsGap;
    hide Closed;
    hide ParseElems;
    hide AreElems;
    if xs == [] {
      var g: seq<Byte> :| w == g + [0x5D] && IsGap(g);
      Assoc(g, [0x5D], rest);
      CloseAccepted(g, 0x5D, rest);
      GapThenByte(g, 0x5D, rest);
      GapHidesComma(g, 0x5D, rest);
    } else {
      var a: seq<Byte>, e: seq<Byte> :| w == a + ([0x2C] + e) && IsSpace(a) && AreElems(e, xs);
      assert w + rest == a + ([0x2C] + (e + rest));
      SeenAfterSpace(a, COMMA, e + rest);
      SpaceThenByte(a, COMMA, e + rest);
      ElemsAccepted(e, xs, rest);
    }
  }

  /** Before a closing bracket no comma is seen. */
  lemma GapHidesComma(g: seq<Byte>, close: Byte, rest: seq<Byte>)
    requires IsGap(g) && close in {0x5D, 0x7D}
    ensures !Json.Sees(g + ([close] + rest), COMMA)
  {
    hide IsGap;
    hide SkipComments;
    GapSkipped(g, [close] + rest);
    if Json.Sees(g + ([close] + rest), COMMA) {
      CommaIsNoGap(g + ([close] + rest));
    }
  }

  lemma CommaIsNoGap(s: seq<Byte>)
    requires Json.Sees(s, COMMA)
    ensures SkipComments(s) == Some(SkipWs(s))
  {
  }


  lemma {:induction false} MemberAccepted(w: seq<Byte>, m: Entry, rest: seq<Byte>)
    requires IsMember(w, m) && Follows(m.value, rest)
    ensures ParseMember(w + rest) == Ok(m, rest) && Solid(w + rest)
    decreases |w|, 1
  {
    hide ParseValue;
    hide ParseStr;
    hide IsCore;
    hide IsStringText;
    var k: seq<Byte>, a: seq<Byte>, b: seq<Byte>, c: seq<Byte> :|
      w == [0x22] + (k + ([0x22] + (a + ([0x3A] + (b + c))))) &&
      IsStringText(k, m.key) && IsSpace(a) && IsSpace(b) && IsCore(c, m.value);
    var t1 := b + (c + rest);
    var t2 := a + ([0x3A] + t1);
    MemberApart(k, a, b, c, rest);
    SeenAfterSpace([], QUOTE, k + ([0x22] + t2));
    assert [] + ([0x22] + (k + ([0x22] + t2))) == [0x22] + (k + ([0x22] + t2));
    StringAccepted(k, m.key, t2);
    SeenAfterSpace(a, COLON, t1);
    SpaceBeforeValue(b, c + rest);
    CoreAccepted(c, m.value, rest);
    hide Json.Sees;
    hide After;
    hide IsSpace;
  }

  lemma MemberApart(k: seq<Byte>, a: seq<Byte>, b: seq<Byte>, c: seq<Byte>, rest: seq<Byte>)
    ensures [0x22] + (k + ([0x22] + (a + ([0x3A] + (b + c))))) + rest
      == [0x22] + (k + ([0x22] + (a + ([0x3A] + (b + (c + rest))))))
  {
    Assoc([0x22], k + ([0x22] + (a + ([0x3A] + (b + c)))), rest);
    Assoc(k, [0x22] + (a + ([0x3A] + (b + c))), rest);
    Assoc([0x22], a + ([0x3A] + (b + c)), rest);
    Assoc(a, [0x3A] + (b + c), rest);
    Assoc([0x3A], b + c, rest);
    Assoc(b, c, rest);
  }

  /** What the member loop makes of the text after a member, with these entries so far. */
  function AfterMember(r: seq<Byte>, es: seq<Entry>): Parsed<seq<Entry>> {
    if Json.Sees(r, COMMA) then ParseMembers(After(r), es)
    else match Closed(r, CLOSE_CURLY) case None => Fail case Some(end) => Ok(es, end)
  }

  lemma MembersTurn(t: seq<Byte>, s: seq<Byte>, es: seq<Entry>, m: Entry, r: seq<Byte>)
    requires SkipComments(s) == Some(t) && ParseMember(t) == Ok(m, r)
    ensures ParseMembers(s, es) == AfterMember(r, Insert(es, m.key, m.value))
  {
    hide ParseMember;
    hide SkipComments;
    hide Closed;
    hide Json.Sees;
    hide After;
    hide Insert;
  }

  lemma {:induction false} MembersAccepted(w: seq<Byte>, es: seq<Entry>, ms: seq<Entry>, rest: seq<Byte>)
    requires ms != [] && AreMembers(w, ms)
    ensures ParseMembers(w + rest, es) == Ok(Assigned(es, ms), rest)
    decreases |w|, 2
  {
    hide IsMember;
    hide IsMembersEnd;
    hide IsGap;
    hide SkipComments;
    hide ParseMember;
    hide ParseMembers;
    hide Insert;
    var g: seq<Byte>, m: seq<Byte>, t: seq<Byte> :|
      w == g + (m + t) && IsGap(g) && IsMember(m, ms[0]) && IsMembersEnd(t, ms[1..]);
    Assoc(g, m + t, rest);
    Assoc(m, t, rest);
    var es' := Insert(es, ms[0].key, ms[0].value);
    MembersEndAccepted(t, es', ms[1..], rest);
    MemberAccepted(m, ms[0], t + rest);
    GapSkipped(g, m + (t + rest));
    MembersTurn(m + (t + rest), w + rest, es, ms[0], t + rest);
  }

  lemma {:induction false} MembersEndAccepted(w: seq<Byte>, es: seq<Entry>, ms: seq<Entry>, rest: seq<Byte>)
    requires IsMembersEnd(w, ms)
    ensures AfterMember(w + rest, es) == Ok(Assigned(es, ms), rest) && NumberStops(w + rest)
    decreases |w|, 0
  {
    hide IsGap;
    hide Closed;
    hide ParseMembers;
    hide AreMembers;
    if ms == [] {
      var g: seq<Byte> :| w == g + [0x7D] && IsGap(g);
      Assoc(g, [0x7D], rest);
      CloseAccepted(g, 0x7D, rest);
      GapThenByte(g, 0x7D, rest);
      GapHidesComma(g, 0x7D, rest);
    } else {
      var a: seq<Byte>, e: seq<Byte> :| w == a + ([0x2C] + e) && IsSpace(a) && AreMembers(e, ms);
      assert w + rest == a + ([0x2C] + (e + rest));
      SeenAfterSpace(a, COMMA, e + rest);
      SpaceThenByte(a, COMMA, e + rest);
      MembersAccepted(e, es, ms, rest);
    }
  }

  // ---------------------------------------------------------------- and nothing else is

  /** The parts of what is read as a value. */
  lemma {:induction false} ValueRead(s: seq<Byte>) returns (a: seq<Byte>, c: seq<Byte>)
    requires ParseValue(s).Ok?
    ensures var p := ParseValue(s); s == a + (c + p.rest) && IsSpace(a) && IsCore(c, p.value) && Follows(p.value, p.rest)
    decreases |s|, 2
  {
    a := SpaceTaken(s);
    var t := SkipWs(s);
    SkipWsTwice(s);
    assert ParseValue(t) == ParseValue(s);
    hide SkipWs;
    c := CoreRead(t);
  }

  lemma {:induction false} CoreRead(t: seq<Byte>) returns (c: seq<Byte>)
    requires SkipWs(t) == t && ParseValue(t).Ok?
    ensures var p := ParseValue(t); t == c + p.rest && IsCore(c, p.value) && Follows(p.value, p.rest)
    decreases |t|, 1
  {
    hide ParseStr;
    hide ParseElems;
    hide ParseMembers;
    hide SkipWs;
    hide NumberText;
    hide ParseInt;
    hide AreElems;
    hide AreMembers;
    hide IsStringText;
    hide IsIntText;
    var p := ParseValue(t);
    if t[0] == NULL_TEXT[0] || t[0] == TRUE_TEXT[0] || t[0] == FALSE_TEXT[0] {
      c := WordRead(t);
    } else if t[0] == QUOTE {
      var x := AcceptedString(t[1..]);
      c := [0x22] + (x + [0x22]);
      assert t == [0x22] + t[1..];
    } else if t[0] == OPEN_SQUARE {
      c := ArrayRead(t);
    } else if t[0] == OPEN_CURLY {
      c := ObjectRead(t);
    } else {
      c := IntRead(t);
    }
  }

  lemma WordRead(t: seq<Byte>) returns (c: seq<Byte>)
    requires SkipWs(t) == t && ParseValue(t).Ok? && t[0] in {0x6E, 0x74, 0x66}
    ensures var p := ParseValue(t); t == c + p.rest && IsCore(c, p.value) && !p.value.Int?
  {
    var p := ParseValue(t);
    c := t[..|t| - |p.rest|];
  }

  lemma IntRead(t: seq<Byte>) returns (c: seq<Byte>)
    requires SkipWs(t) == t && ParseValue(t).Ok? && (48 <= t[0] <= 57 || t[0] == MINUS)
    ensures var p := ParseValue(t); t == c + p.rest && IsCore(c, p.value) && Follows(p.value, p.rest)
  {
    c := NumberText(t);
    RunStops(t);
    hide NumberText;
    ParsedIntRest(c);
    IntTextParsed(c, ParseInt(c).value);
    hide ParseInt;
    hide IsIntText;
  }

  lemma ParsedIntRest(c: seq<Byte>)
    ensures ParseInt(c).Ok? ==> ParseInt(c).rest == []
  {
  }

  lemma {:induction false} ArrayRead(t: seq<Byte>) returns (c: seq<Byte>)
    requires SkipWs(t) == t && ParseValue(t).Ok? && t[0] == OPEN_SQUARE
    ensures var p := ParseValue(t); t == c + p.rest && p.value.Arr? && IsCore(c, p.value)
    decreases |t|, 0
  {
    hide ParseElems;
    hide AreElems;
    hide SkipWs;
    assert t == [0x5B] + t[1..];
    if Json.Sees(t[1..], CLOSE_SQUARE) {
      var a := SeenMeansThere(t[1..], CLOSE_SQUARE);
      c := [0x5B] + (a + [0x5D]);
    } else {
      var e := ElemsRead(t[1..]);
      c := [0x5B] + e;
    }
  }

  lemma {:induction false} ObjectRead(t: seq<Byte>) returns (c: seq<Byte>)
    requires SkipWs(t) == t && ParseValue(t).Ok? && t[0] == OPEN_CURLY
    ensures var p := ParseValue(t); t == c + p.rest && p.value.Obj? && IsCore(c, p.value)
    decreases |t|, 0
  {
    hide ParseMembers;
    hide AreMembers;
    hide SkipWs;
    assert t == [0x7B] + t[1..];
    if Json.Sees(t[1..], CLOSE_CURLY) {
      var a := SeenMeansThere(t[1..], CLOSE_CURLY);
      c := [0x7B] + (a + [0x7D]);
    } else {
      var e, ms := MembersRead(t[1..], []);
      c := [0x7B] + e;
    }
  }

  lemma {:induction false} ElemsRead(s: seq<Byte>) returns (w: seq<Byte>)
    requires ParseElems(s).Ok?
    ensures var p := ParseElems(s); p.value != [] && s == w + p.rest && AreElems(w, p.value)
    decreases |s|, 2
  {
    hide ParseValue;
    hide SkipComments;
    hide IsCore;
    hide IsGap;
    hide IsElemsEnd;
    var t := SkipComments(s).value;
    var v, r := ParseValue(t).value, ParseValue(t).rest;
    ElemsTurn(t, s, v, r);
    hide ParseElems;
    var g := GapTaken(s);
    var c := CoreRead(t);
    var e := ElemsEndRead(r);
    w := g + (c + e);
    Assoc(g, c + e, ParseElems(s).rest);
    Assoc(c, e, ParseElems(s).rest);
    assert ParseElems(s).value[1..] == AfterElem(r).value;
  }

  lemma {:induction false} ElemsEndRead(r: seq<Byte>) returns (w: seq<Byte>)
    requires AfterElem(r).Ok?
    ensures r == w + AfterElem(r).rest && IsElemsEnd(w, AfterElem(r).value)
    decreases |r|, 3
  {
    hide ParseElems;
    hide AreElems;
    hide IsGap;
    hide Closed;
    if Json.Sees(r, COMMA) {
      var a := SeenMeansThere(r, COMMA);
      var e := ElemsRead(After(r));
      w := a + ([0x2C] + e);
    } else {
      var g := CloseTaken(r, CLOSE_SQUARE);
      w := g + [0x5D];
      Assoc(g, [0x5D], AfterElem(r).rest);
    }
  }

  lemma {:induction false} MemberRead(s: seq<Byte>) returns (w: seq<Byte>)
    requires SkipWs(s) == s && ParseMember(s).Ok?
    ensures var p := ParseMember(s); s == w + p.rest && IsMember(w, p.value) && Follows(p.value.value, p.rest)
    decreases |s|, 3
  {
    hide ParseValue;
    hide ParseStr;
    hide IsCore;
    hide IsStringText;
    var p := ParseMember(s);
    assert s == [0x22] + After(s);
    var key, r := ParseStr(After(s)).value, ParseStr(After(s)).rest;
    var k := AcceptedString(After(s));
    var a := SeenMeansThere(r, COLON);
    var b, c := ValueRead(After(r));
    w := [0x22] + (k + ([0x22] + (a + ([0x3A] + (b + c)))));
    hide Json.Sees;
    hide After;
    hide SkipWs;
    MemberApart(k, a, b, c, p.rest);
  }

  lemma {:induction false} MembersRead(s: seq<Byte>, es: seq<Entry>) returns (w: seq<Byte>, ms: seq<Entry>)
    requires ParseMembers(s, es).Ok?
    ensures var p := ParseMembers(s, es);
      ms != [] && p.value == Assigned(es, ms) && s == w + p.rest && AreMembers(w, ms)
    decreases |s|, 4
  {
    hide ParseMember;
    hide SkipComments;
    hide IsMember;
    hide IsGap;
    hide IsMembersEnd;
    hide Insert;
    var t := SkipComments(s).value;
    var m, r := ParseMember(t).value, ParseMember(t).rest;
    MembersTurn(t, s, es, m, r);
    hide ParseMembers;
    var g := GapTaken(s);
    var x := MemberRead(t);
    var e, rest := MembersEndRead(r, Insert(es, m.key, m.value));
    w, ms := g + (x + e), [m] + rest;
    Assoc(g, x + e, ParseMembers(s, es).rest);
    Assoc(x, e, ParseMembers(s, es).rest);
    assert ms[0] == m && ms[1..] == rest;
  }

  lemma {:induction false} MembersEndRead(r: seq<Byte>, es: seq<Entry>) returns (w: seq<Byte>, ms: seq<Entry>)
    requires AfterMember(r, es).Ok?
    ensures AfterMember(r, es).value == Assigned(es, ms) && r == w + AfterMember(r, es).rest && IsMembersEnd(w, ms)
    decreases |r|, 5
  {
    hide ParseMembers;
    hide AreMembers;
    hide IsGap;
    hide Closed;
    if Json.Sees(r, COMMA) {
      var a := SeenMeansThere(r, COMMA);
      var e;
      e, ms := MembersRead(After(r), es);
      w := a + ([0x2C] + e);
    } else {
      var g := CloseTaken(r, CLOSE_CURLY);
      w, ms := g + [0x7D], [];
      Assoc(g, [0x7D], AfterMember(r, es).rest);
    }
  }

  /**
    Main result: a value is parsed off the front of a text exactly if the text begins with one of the grammar for
    it, and a number is not cut short.
   */
  lemma AcceptsExactlyTheGrammar(s: seq<Byte>, v: Value, rest: seq<Byte>)
    ensures ParseValue(s) == Ok(v, rest) <==>
      Follows(v, rest) && exists w: seq<Byte> :: IsText(w, v) && s == w + rest
  {
    hide ParseValue;
    hide IsCore;
    hide Follows;
    if ParseValue(s) == Ok(v, rest) {
      var a, c := ValueRead(s);
      assert IsText(a + c, v);
      Assoc(a, c, rest);
    }
    if Follows(v, rest) {
      if w: seq<Byte> :| IsText(w, v) && s == w + rest {
        var a: seq<Byte>, c: seq<Byte> :| w == a + c && IsSpace(a) && IsCore(c, v);
        Assoc(a, c, rest);
        SpaceBeforeValue(a, c + rest);
        CoreAccepted(c, v, rest);
      }
    }
  }
}
