/** What the serialiser writes, the parser reads back. */
module JsonRoundTrip {
  import opened Bytes
  import opened Json
  import opened Results
  import opened Sequences

  // ---------------------------------------------------------------- strings

  lemma EscapedCharReadsBack(c: Byte, more: seq<Byte>)
    ensures ParseStr(EscapeChar(c) + more) == Prepend([c], ParseStr(more))
  {
    var s := EscapeChar(c) + more;
    if c == QUOTE || c == BACKSLASH || c == SLASH || c == 8 || c == 12 || c == 10 || c == 13 || c == 9 {
      assert s[2..] == more;
    } else if c < 0x20 || c == 0x7F {
      var h := s[2..];
      assert h == [48, 48, HexDigit(c / 16), HexDigit(c % 16)] + more && h[4..] == more;
      assert ParseCodepoint(h) == Ok([c], more);
    } else {
      assert s[1..] == more;
    }
  }

  lemma {:induction false} StrReadsBack(s: seq<Byte>, rest: seq<Byte>)
    ensures ParseStr(Escape(s) + ([QUOTE] + rest)) == Ok(s, rest)
  {
    hide EscapeChar;
    if s == [] {
      assert Escape(s) + ([QUOTE] + rest) == [QUOTE] + rest;
      assert ([QUOTE] + rest)[1..] == rest;
    } else {
      var more := Escape(s[1..]) + ([QUOTE] + rest);
      StrReadsBack(s[1..], rest);
      Assoc(EscapeChar(s[0]), Escape(s[1..]), [QUOTE] + rest);
      EscapedCharReadsBack(s[0], more);
      assert [s[0]] + s[1..] == s;
    }
  }

  // ---------------------------------------------------------------- numbers

  predicate NumberStops(s: seq<Byte>) {
    s == [] || !IsNumeric(s[0])
  }

  lemma {:induction false} DigitsReadBack(n: nat)
    ensures Digits(n) != [] && AllDigits(Digits(n)) && DigitsValue(Digits(n)) == n
  {
    if n < 10 {
      assert Digits(n)[..0] == [];
    } else {
      DigitsReadBack(n / 10);
      assert Digits(n)[..|Digits(n)| - 1] == Digits(n / 10);
    }
  }

  lemma {:induction false} NumberTextReadsBack(t: seq<Byte>, rest: seq<Byte>)
    requires NumberStops(rest) && forall i :: 0 <= i < |t| ==> IsNumeric(t[i])
    ensures NumberText(t + rest) == t
  {
    if t == [] {
      assert t + rest == rest;
    } else {
      assert (t + rest)[1..] == t[1..] + rest;
      NumberTextReadsBack(t[1..], rest);
    }
  }

  lemma IntReadsBack(i: int, rest: seq<Byte>)
    requires IsInt64(i) && NumberStops(rest)
    ensures NumberText(PrintInt(i) + rest) == PrintInt(i) && ParseInt(PrintInt(i)) == Ok(i, [])
  {
    hide NumberText;
    hide DigitsValue;
    hide Digits;
    var d := Digits(if i < 0 then -i else i);
    DigitsReadBack(if i < 0 then -i else i);
    assert i < 0 ==> PrintInt(i)[1..] == d;
    NumberTextReadsBack(PrintInt(i), rest);
  }

  // ---------------------------------------------------------------- white space

  lemma {:induction false} SpacesSkipped(n: nat, s: seq<Byte>)
    ensures SkipWs(seq(n, _ => SPACE) + s) == SkipWs(s)
  {
    var sp := seq(n, _ => SPACE);
    if n == 0 {
      assert sp + s == s;
    } else {
      assert (sp + s)[1..] == seq(n - 1, _ => SPACE) + s;
      SpacesSkipped(n - 1, s);
    }
  }

  lemma IndentSkipped(indent: int, s: seq<Byte>)
    ensures SkipWs(Indent(indent) + s) == SkipWs(s)
  {
    if indent < 0 {
      assert Indent(indent) + s == s;
    } else {
      var sp := seq(indent * INDENT_WIDTH, _ => SPACE);
      assert (Indent(indent) + s)[1..] == sp + s;
      SpacesSkipped(indent * INDENT_WIDTH, s);
    }
  }

  /** The parser starts by skipping white space. */
  lemma LeadingSpace(a: seq<Byte>, b: seq<Byte>)
    requires SkipWs(a) == SkipWs(b)
    ensures ParseValue(a) == ParseValue(b)
  {
  }

  lemma SeesAfterSpace(s: seq<Byte>, c: Byte)
    ensures Json.Sees(SkipWs(s), c) == Json.Sees(s, c)
    ensures Json.Sees(s, c) ==> After(SkipWs(s)) == After(s)
  {
    SkipWsTwice(s);
  }

  /** One element, where there is no slash before or after it. */
  lemma PlainElement(s: seq<Byte>, v: Value, r: seq<Byte>)
    requires ParseValue(s) == Ok(v, r) && !Json.Sees(s, SLASH) && !Json.Sees(r, SLASH)
    ensures ParseElems(s) ==
      if Json.Sees(r, COMMA) then Prefixed([v], ParseElems(After(r)))
      else if Json.Sees(r, CLOSE_SQUARE) then Ok([v], After(r))
      else Fail
  {
    hide SkipWs;
    SkipWsTwice(s);
    LeadingSpace(SkipWs(s), s);
    SeesAfterSpace(r, CLOSE_SQUARE);
    hide ParseValue;
  }

  lemma HeadSeen(c: Byte, s: seq<Byte>)
    requires !IsWs(c)
    ensures SkipWs([c] + s) == [c] + s && ([c] + s)[1..] == s
    ensures Json.Sees([c] + s, c) && After([c] + s) == s
    ensures forall d :: d != c ==> !Json.Sees([c] + s, d)
  {
  }

  /** White space, then c. */
  lemma HeadSeenAfterIndent(indent: int, c: Byte, s: seq<Byte>)
    requires !IsWs(c)
    ensures Json.Sees(Indent(indent) + ([c] + s), c) && After(Indent(indent) + ([c] + s)) == s
    ensures forall d :: d != c ==> !Json.Sees(Indent(indent) + ([c] + s), d)
  {
    IndentSkipped(indent, [c] + s);
    HeadSeen(c, s);
  }

  // ---------------------------------------------------------------- values

  /** The first byte of a value's text. */
  predicate StartsValue(c: Byte) {
    !IsWs(c) && c != CLOSE_SQUARE && c != CLOSE_CURLY && c != SLASH
  }

  lemma PrintStarts(v: Value, indent: int)
    ensures Print(v, indent) != [] && StartsValue(Print(v, indent)[0])
  {
    if v.Int? {
      DigitsReadBack(if v.i < 0 then -v.i else v.i);
    }
  }

  lemma {:induction false} ValueReadsBack(v: Value, indent: int, rest: seq<Byte>)
    requires Wf(v) && (v.Int? ==> NumberStops(rest))
    ensures ParseValue(Print(v, indent) + rest) == Ok(v, rest)
    decreases v, 3
  {
    match v
    case Null => LiteralReadsBack(NULL_TEXT, rest);
    case Bool(b) => LiteralReadsBack(if b then TRUE_TEXT else FALSE_TEXT, rest);
    case Int(i) => IntValueReadsBack(i, rest);
    case Str(s) => StrValueReadsBack(s, rest);
    case Arr(xs) => ArrReadsBack(xs, indent, rest);
    case Obj(es) => ObjReadsBack(es, indent, rest);
  }

  lemma LiteralReadsBack(text: seq<Byte>, rest: seq<Byte>)
    requires text in {NULL_TEXT, TRUE_TEXT, FALSE_TEXT}
    ensures ParseValue(text + rest) ==
      Ok(if text == NULL_TEXT then Null else Bool(text == TRUE_TEXT), rest)
  {
    var s := text + rest;
    assert s[0] == text[0] && SkipWs(s) == s && text <= s && s[|text|..] == rest;
  }

  lemma StrValueReadsBack(s: seq<Byte>, rest: seq<Byte>)
    ensures ParseValue(PrintStr(s) + rest) == Ok(Str(s), rest)
  {
    var more := Escape(s) + ([QUOTE] + rest);
    assert PrintStr(s) + rest == [QUOTE] + more by {
      Assoc([QUOTE], Escape(s) + [QUOTE], rest);
      Assoc(Escape(s), [QUOTE], rest);
    }
    HeadSeen(QUOTE, more);
    StrReadsBack(s, rest);
  }

  lemma IntValueReadsBack(i: int, rest: seq<Byte>)
    requires IsInt64(i) && NumberStops(rest)
    ensures ParseValue(PrintInt(i) + rest) == Ok(Int(i), rest)
  {
    hide NumberText;
    hide ParseInt;
    hide ParseElems;
    hide ParseMembers;
    hide ParseStr;
    hide DigitsValue;
    var t := PrintInt(i);
    IntReadsBack(i, rest);
    DigitsReadBack(if i < 0 then -i else i);
    var s := t + rest;
    assert s[0] == t[0] && SkipWs(s) == s && s[|t|..] == rest;
  }

  lemma {:induction false} ArrReadsBack(xs: seq<Value>, indent: int, rest: seq<Byte>)
    requires forall x <- xs :: Wf(x)
    ensures ParseValue(Print(Arr(xs), indent) + rest) == Ok(Arr(xs), rest)
    decreases xs, 2
  {
    hide ParseElems;
    hide PrintElems;
    var close := Closing(xs == [], indent, CLOSE_SQUARE);
    var body := PrintElems(xs, true, Deeper(indent)) + close;
    var more := body + rest;
    Assoc([OPEN_SQUARE], body, rest);
    HeadSeen(OPEN_SQUARE, more);
    if xs == [] {
      NoElems(Deeper(indent));
      assert more == [CLOSE_SQUARE] + rest;
      HeadSeen(CLOSE_SQUARE, rest);
    } else {
      Assoc(PrintElems(xs, true, Deeper(indent)), close, rest);
      Assoc(Indent(indent), [CLOSE_SQUARE], rest);
      ElemsStart(xs, Deeper(indent), close + rest);
      ElemsReadBack(xs, Deeper(indent), indent, rest);
    }
  }

  lemma NoElems(indent: int)
    ensures PrintElems([], true, indent) == [] && PrintMembers([], true, indent) == []
  {
  }

  /** An element list does not look like the end of the array. */
  lemma ElemsStart(xs: seq<Value>, indent: int, rest: seq<Byte>)
    requires xs != []
    ensures !Json.Sees(PrintElems(xs, true, indent) + rest, CLOSE_SQUARE)
    ensures !Json.Sees(PrintElems(xs, true, indent) + rest, SLASH)
  {
    hide Print;
    hide PrintElems;
    hide Indent;
    hide SkipWs;
    var t := Print(xs[0], indent);
    var more := PrintElems(xs[1..], false, indent) + rest;
    PrintStarts(xs[0], indent);
    ElemsUnfold(xs, true, indent, rest);
    assert [] + (Indent(indent) + (t + more)) == Indent(indent) + (t + more);
    IndentSkipped(indent, t + more);
    assert t + more == [t[0]] + (t[1..] + more);
    HeadSeen(t[0], t[1..] + more);
  }

  lemma ElemsUnfold(xs: seq<Value>, first: bool, indent: int, rest: seq<Byte>)
    requires xs != []
    ensures PrintElems(xs, first, indent) + rest ==
      (if first then [] else [COMMA]) +
        (Indent(indent) + (Print(xs[0], indent) + (PrintElems(xs[1..], false, indent) + rest)))
  {
    hide Print;
    hide Indent;
    var c: seq<Byte>, i, p, m := if first then [] else [COMMA], Indent(indent), Print(xs[0], indent),
      PrintElems(xs[1..], false, indent);
    Assoc(c + i, p + m, rest);
    Assoc(p, m, rest);
    Assoc(c, i, p + (m + rest));
  }

  lemma {:induction false} ElemsReadBack(xs: seq<Value>, indent: int, outer: int, rest: seq<Byte>)
    requires xs != [] && forall x <- xs :: Wf(x)
    ensures ParseElems(PrintElems(xs, true, indent) + (Indent(outer) + ([CLOSE_SQUARE] + rest))) == Ok(xs, rest)
    decreases xs, 1
  {
    hide Print;
    hide Indent;
    hide Wf;
    hide ParseValue;
    hide PrintElems;
    var close := Indent(outer) + ([CLOSE_SQUARE] + rest);
    var ys := xs[1..];
    var more := PrintElems(ys, false, indent) + close;
    var s := Print(xs[0], indent) + more;
    ElemsUnfold(xs, true, indent, close);
    assert PrintElems(xs, true, indent) + close == Indent(indent) + s;
    hide ParseElems;
    ElemsStart(xs, indent, close);
    IndentSkipped(indent, s);
    LeadingSpace(Indent(indent) + s, s);
    MoreStops(ys, indent, outer, rest);
    ValueReadsBack(xs[0], indent, more);
    FollowsElement(ys, indent, outer, rest);
    PlainElement(Indent(indent) + s, xs[0], more);
    if ys == [] {
      assert more == close by { NoMoreElems(indent); }
      HeadSeenAfterIndent(outer, CLOSE_SQUARE, rest);
      assert [xs[0]] == xs;
    } else {
      CommaThenElems(ys, indent, close);
      HeadSeen(COMMA, PrintElems(ys, true, indent) + close);
      ElemsReadBack(ys, indent, outer, rest);
      assert [xs[0]] + ys == xs;
    }
  }

  /** After an element comes a comma or the closing bracket, and no slash. */
  lemma FollowsElement(xs: seq<Value>, indent: int, outer: int, rest: seq<Byte>)
    ensures !Json.Sees(PrintElems(xs, false, indent) + (Indent(outer) + ([CLOSE_SQUARE] + rest)), SLASH)
  {
    var close := Indent(outer) + ([CLOSE_SQUARE] + rest);
    if xs == [] {
      NoMoreElems(indent);
      assert PrintElems(xs, false, indent) + close == close;
      HeadSeenAfterIndent(outer, CLOSE_SQUARE, rest);
    } else {
      CommaThenElems(xs, indent, close);
      HeadSeen(COMMA, PrintElems(xs, true, indent) + close);
    }
  }

  lemma NoMoreElems(indent: int)
    ensures PrintElems([], false, indent) == []
  {
  }

  lemma CommaThenElems(xs: seq<Value>, indent: int, rest: seq<Byte>)
    requires xs != []
    ensures PrintElems(xs, false, indent) + rest == [COMMA] + (PrintElems(xs, true, indent) + rest)
  {
    hide Print;
    hide PrintElems;
    hide Indent;
    var s := Indent(indent) + (Print(xs[0], indent) + (PrintElems(xs[1..], false, indent) + rest));
    assert [] + s == s;
    ElemsUnfold(xs, false, indent, rest);
    ElemsUnfold(xs, true, indent, rest);
  }

  /** Nothing that follows an element could go on with a number. */
  lemma MoreStops(xs: seq<Value>, indent: int, outer: int, rest: seq<Byte>)
    ensures NumberStops(PrintElems(xs, false, indent) + (Indent(outer) + ([CLOSE_SQUARE] + rest)))
  {
    if xs != [] {
      CommaThenElems(xs, indent, Indent(outer) + ([CLOSE_SQUARE] + rest));
    }
  }

  // ---------------------------------------------------------------- objects

  lemma {:induction false} ObjReadsBack(es: seq<Entry>, indent: int, rest: seq<Byte>)
    requires SortedKeys(es) && forall e <- es :: Wf(e.value)
    ensures ParseValue(Print(Obj(es), indent) + rest) == Ok(Obj(es), rest)
    decreases es, 2
  {
    hide ParseMembers;
    hide PrintMembers;
    var close := Closing(es == [], indent, CLOSE_CURLY);
    var body := PrintMembers(es, true, Deeper(indent)) + close;
    var more := body + rest;
    Assoc([OPEN_CURLY], body, rest);
    HeadSeen(OPEN_CURLY, more);
    if es == [] {
      NoElems(Deeper(indent));
      assert more == [CLOSE_CURLY] + rest;
      HeadSeen(CLOSE_CURLY, rest);
    } else {
      Assoc(PrintMembers(es, true, Deeper(indent)), close, rest);
      Assoc(Indent(indent), [CLOSE_CURLY], rest);
      MembersStart(es, Deeper(indent), close + rest);
      assert [] + es == es;
      MembersReadBack([], es, Deeper(indent), indent, rest);
    }
  }

  lemma MembersUnfold(es: seq<Entry>, first: bool, indent: int, rest: seq<Byte>)
    requires es != []
    ensures PrintMembers(es, first, indent) + rest ==
      (if first then [] else [COMMA]) +
        (Indent(indent) + (PrintMember(es[0], indent) + (PrintMembers(es[1..], false, indent) + rest)))
  {
    hide PrintMember;
    hide Indent;
    var c: seq<Byte>, i, p, m := if first then [] else [COMMA], Indent(indent), PrintMember(es[0], indent),
      PrintMembers(es[1..], false, indent);
    Assoc(c + i, p + m, rest);
    Assoc(p, m, rest);
    Assoc(c, i, p + (m + rest));
  }

  /** The bytes of one member: quote, key, quote, colon, value. */
  lemma MemberUnfold(e: Entry, indent: int, rest: seq<Byte>)
    ensures PrintMember(e, indent) + rest ==
      [QUOTE] + (Escape(e.key) + ([QUOTE] + ([COLON] +
        ((if indent < 0 then [] else [SPACE]) + (Print(e.value, indent) + rest)))))
  {
    hide Print;
    hide Escape;
    var k, sp, p := Escape(e.key), if indent < 0 then [] else [SPACE], Print(e.value, indent);
    var colon := if indent < 0 then [COLON] else [COLON, SPACE];
    assert colon == [COLON] + sp;
    Assoc(PrintStr(e.key), colon + p, rest);
    Assoc(colon, p, rest);
    Assoc([COLON], sp, p + rest);
    Assoc([QUOTE], k + [QUOTE], [COLON] + (sp + (p + rest)));
    Assoc(k, [QUOTE], [COLON] + (sp + (p + rest)));
  }

  lemma MembersStart(es: seq<Entry>, indent: int, rest: seq<Byte>)
    requires es != []
    ensures !Json.Sees(PrintMembers(es, true, indent) + rest, CLOSE_CURLY)
  {
    hide Print;
    hide PrintMembers;
    hide PrintMember;
    hide Indent;
    hide SkipWs;
    var more := PrintMembers(es[1..], false, indent) + rest;
    MembersUnfold(es, true, indent, rest);
    MemberUnfold(es[0], indent, more);
    var tail := (PrintMember(es[0], indent) + more)[1..];
    assert PrintMember(es[0], indent) + more == [QUOTE] + tail;
    assert [] + (Indent(indent) + ([QUOTE] + tail)) == Indent(indent) + ([QUOTE] + tail);
    HeadSeenAfterIndent(indent, QUOTE, tail);
  }

  lemma {:induction false} InsertAtEnd(es: seq<Entry>, e: Entry)
    requires SortedKeys(es + [e])
    ensures Insert(es, e.key, e.value) == es + [e]
  {
    if es != [] {
      var all := es + [e];
      assert Less(all[0].key, all[|es|].key);
      LessIsAsymmetric(es[0].key, e.key);
      forall i, j | 0 <= i < j < |es[1..] + [e]|
        ensures Less((es[1..] + [e])[i].key, (es[1..] + [e])[j].key)
      {
        assert Less(all[i + 1].key, all[j + 1].key);
      }
      InsertAtEnd(es[1..], e);
      assert [es[0]] + (es[1..] + [e]) == es + [e];
    }
  }

  lemma {:induction false} LessIsAsymmetric(a: seq<Byte>, b: seq<Byte>)
    requires Less(a, b)
    ensures a != b && !Less(b, a)
  {
    if a != [] && a[0] == b[0] {
      LessIsAsymmetric(a[1..], b[1..]);
    }
  }

  lemma {:induction false} MembersReadBack(done: seq<Entry>, es: seq<Entry>, indent: int, outer: int, rest: seq<Byte>)
    requires es != [] && SortedKeys(done + es) && forall e <- es :: Wf(e.value)
    ensures ParseMembers(PrintMembers(es, true, indent) + (Indent(outer) + ([CLOSE_CURLY] + rest)), done)
      == Ok(done + es, rest)
    decreases es, 1
  {
    hide Print;
    hide PrintMembers;
    hide Indent;
    hide Wf;
    hide ParseValue;
    hide ParseStr;
    hide Escape;
    hide Insert;
    hide Less;
    hide PrintMember;
    hide ParseMembers;
    var close := Indent(outer) + ([CLOSE_CURLY] + rest);
    var fs, e := es[1..], es[0];
    var more := PrintMembers(fs, false, indent) + close;
    var s := Indent(indent) + (PrintMember(e, indent) + more);
    MembersUnfold(es, true, indent, close);
    assert [] + s == s;
    MoreMembersStop(fs, indent, outer, rest);
    ValueReadsBack(e.value, indent, more);
    FollowsMember(fs, indent, outer, rest);
    MemberStep(done, e, indent, more);
    assert done + es == done + [e] + fs;
    SortedPrefix(done + [e], fs);
    InsertAtEnd(done, e);
    if fs == [] {
      NoMoreMembers(indent);
      assert more == close;
      HeadSeenAfterIndent(outer, CLOSE_CURLY, rest);
      assert done + [e] == done + es;
    } else {
      CommaThenMembers(fs, indent, close);
      HeadSeen(COMMA, PrintMembers(fs, true, indent) + close);
      MembersReadBack(done + [e], fs, indent, outer, rest);
    }
  }

  lemma FollowsMember(es: seq<Entry>, indent: int, outer: int, rest: seq<Byte>)
    ensures !Json.Sees(PrintMembers(es, false, indent) + (Indent(outer) + ([CLOSE_CURLY] + rest)), SLASH)
  {
    hide PrintMember;
    var close := Indent(outer) + ([CLOSE_CURLY] + rest);
    if es == [] {
      NoMoreMembers(indent);
      assert PrintMembers(es, false, indent) + close == close;
      HeadSeenAfterIndent(outer, CLOSE_CURLY, rest);
    } else {
      CommaThenMembers(es, indent, close);
      HeadSeen(COMMA, PrintMembers(es, true, indent) + close);
    }
  }

  /** One member, where there is no slash before or after it. */
  lemma PlainMember(s: seq<Byte>, es: seq<Entry>, key: seq<Byte>, r: seq<Byte>, v: Value, end: seq<Byte>)
    requires Json.Sees(s, QUOTE) && !Json.Sees(s, SLASH) && ParseStr(After(s)) == Ok(key, r)
    requires Json.Sees(r, COLON) && ParseValue(After(r)) == Ok(v, end) && !Json.Sees(end, SLASH)
    ensures ParseMembers(s, es) ==
      if Json.Sees(end, COMMA) then ParseMembers(After(end), Insert(es, key, v))
      else if Json.Sees(end, CLOSE_CURLY) then Ok(Insert(es, key, v), After(end))
      else Fail
  {
    hide SkipWs;
    hide ParseStr;
    hide ParseValue;
    hide Insert;
    SeesAfterSpace(s, QUOTE);
    SeesAfterSpace(end, CLOSE_CURLY);
  }

  lemma SortedPrefix(a: seq<Entry>, b: seq<Entry>)
    requires SortedKeys(a + b)
    ensures SortedKeys(a)
  {
    forall i, j | 0 <= i < j < |a|
      ensures Less(a[i].key, a[j].key)
    {
      assert Less((a + b)[i].key, (a + b)[j].key);
    }
  }

  /** One turn of the member loop, up to what follows the value. */
  lemma MemberStep(done: seq<Entry>, e: Entry, indent: int, more: seq<Byte>)
    requires ParseValue(Print(e.value, indent) + more) == Ok(e.value, more) && !Json.Sees(more, SLASH)
    ensures var p := ParseMembers(Indent(indent) + (PrintMember(e, indent) + more), done);
      var es := Insert(done, e.key, e.value);
      p == if Json.Sees(more, COMMA) then ParseMembers(After(more), es)
           else if Json.Sees(more, CLOSE_CURLY) then Ok(es, After(more))
           else Fail
  {
    hide Print;
    hide Insert;
    hide Escape;
    hide PrintMember;
    hide ParseStr;
    hide ParseValue;
    hide ParseMembers;
    var sp: seq<Byte> := if indent < 0 then [] else [SPACE];
    var val := sp + (Print(e.value, indent) + more);
    var key := Escape(e.key) + ([QUOTE] + ([COLON] + val));
    MemberUnfold(e, indent, more);
    HeadSeenAfterIndent(indent, QUOTE, key);
    StrReadsBack(e.key, [COLON] + val);
    HeadSeen(COLON, val);
    SpaceSkipped(sp, Print(e.value, indent) + more);
    LeadingSpace(val, Print(e.value, indent) + more);
    PlainMember(Indent(indent) + ([QUOTE] + key), done, e.key, [COLON] + val, e.value, more);
  }

  lemma SpaceSkipped(sp: seq<Byte>, s: seq<Byte>)
    requires sp == [] || sp == [SPACE]
    ensures SkipWs(sp + s) == SkipWs(s)
  {
    if sp == [] {
      assert sp + s == s;
    } else {
      assert (sp + s)[1..] == s;
    }
  }

  lemma NoMoreMembers(indent: int)
    ensures PrintMembers([], false, indent) == []
  {
  }

  lemma CommaThenMembers(es: seq<Entry>, indent: int, rest: seq<Byte>)
    requires es != []
    ensures PrintMembers(es, false, indent) + rest == [COMMA] + (PrintMembers(es, true, indent) + rest)
  {
    hide PrintMember;
    hide PrintMembers;
    hide Indent;
    var s := Indent(indent) + (PrintMember(es[0], indent) + (PrintMembers(es[1..], false, indent) + rest));
    assert [] + s == s;
    MembersUnfold(es, false, indent, rest);
    MembersUnfold(es, true, indent, rest);
  }

  lemma MoreMembersStop(es: seq<Entry>, indent: int, outer: int, rest: seq<Byte>)
    ensures NumberStops(PrintMembers(es, false, indent) + (Indent(outer) + ([CLOSE_CURLY] + rest)))
  {
    if es != [] {
      CommaThenMembers(es, indent, Indent(outer) + ([CLOSE_CURLY] + rest));
    }
  }

  // ---------------------------------------------------------------- the text as a whole

  /**
    Parsing compact or pretty output gives the value back, and leaves the text after it alone; pretty
    output leaves its own last newline.  Only a number could be continued by what follows it.
   */
  lemma SerialisedReadsBack(v: Value, prettify: bool, rest: seq<Byte>)
    requires Wf(v) && (v.Int? && !prettify ==> NumberStops(rest))
    ensures ParseValue(Serialise(v, prettify) + rest) == Ok(v, (if prettify then [NEWLINE] else []) + rest)
  {
    if prettify {
      Assoc(Print(v, 0), [NEWLINE], rest);
      ValueReadsBack(v, 0, [NEWLINE] + rest);
    } else {
      assert [] + rest == rest;
      ValueReadsBack(v, -1, rest);
    }
  }
}
