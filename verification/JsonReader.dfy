/**
  The JSON parser as it runs: an input with one byte of push-back, and parse routines that move it
  and build their results in loops.  Each is proved to do what the functions of Json say.
 */
module JsonReader {
  import opened Bytes
  import opened Json
  import opened JsonRoundTrip
  import opened Options
  import opened Results

  class Input {
    const text: seq<Byte>
    var cur: nat
    // the byte at cur has been handed out; pushing it back only clears this flag
    var consumed: bool

    ghost predicate Valid()
      reads this
    {
      cur <= |text| && (consumed ==> cur < |text|)
    }

    /** The text not handed out yet. */
    ghost function Rest(): seq<Byte>
      requires Valid()
      reads this
    {
      text[if consumed then cur + 1 else cur..]
    }

    constructor (text: seq<Byte>)
      ensures Valid() && Rest() == text
    {
      this.text := text;
      cur, consumed := 0, false;
    }

    /** The next byte, or -1 at the end. */
    method GetC() returns (ch: int)
      requires Valid()
      modifies this
      ensures Valid()
      ensures old(Rest()) == [] ==> ch == -1 && Rest() == [] && !consumed
      ensures old(Rest()) != [] ==>
        ch == old(Rest())[0] && consumed && Rest() == old(Rest())[1..] && text[cur..] == old(Rest())
    {
      if consumed {
        cur := cur + 1;
      }
      if cur == |text| {
        consumed := false;
        return -1;
      }
      consumed := true;
      ch := text[cur];
    }

    /** Takes back the byte just read; harmless at the end. */
    method UngetC()
      requires Valid()
      modifies this
      ensures Valid() && !consumed
      ensures Rest() == old(text[cur..])
    {
      consumed := false;
    }

    method SkipWhiteSpace()
      requires Valid()
      modifies this
      ensures Valid() && !consumed && Rest() == SkipWs(old(Rest()))
    {
      while true
        invariant Valid() && SkipWs(Rest()) == SkipWs(old(Rest()))
        decreases |Rest()|
      {
        var ch := GetC();
        if !(ch == SPACE || ch == 9 || ch == NEWLINE || ch == 13) {
          UngetC();
          break;
        }
      }
    }

    method Expect(expected: Byte) returns (ok: bool)
      requires Valid()
      modifies this
      ensures Valid() && ok == Json.Sees(old(Rest()), expected)
      ensures Rest() == if ok then After(old(Rest())) else SkipWs(old(Rest()))
      ensures ok ==> consumed && text[cur] == expected
    {
      SkipWhiteSpace();
      var ch := GetC();
      ok := ch == expected;
      if !ok {
        UngetC();
      }
    }

    /** Moves to the end of the line, which the next read will step over. */
    method SkipLine() returns (ok: bool)
      requires Valid() && consumed && text[cur] != NEWLINE
      modifies this
      ensures Valid()
      ensures ok == AfterLine(old(Rest())).Some?
      ensures ok ==> Some(Rest()) == AfterLine(old(Rest()))
    {
      ghost var s := Rest();
      assert AfterLine(text[cur..]) == AfterLine(s) by {
        assert text[cur..][1..] == s;
      }
      while cur < |text| && text[cur] != NEWLINE
        invariant cur <= |text| && consumed && AfterLine(text[cur..]) == AfterLine(s)
      {
        assert text[cur..][1..] == text[cur + 1..];
        cur := cur + 1;
      }
      ok := cur < |text|;
      if ok {
        assert text[cur..][1..] == text[cur + 1..];
      } else {
        consumed := false;
      }
    }

    method Match(pattern: seq<Byte>) returns (ok: bool)
      requires Valid()
      modifies this
      ensures Valid() && ok == (pattern <= old(Rest()))
      ensures ok ==> Rest() == old(Rest())[|pattern|..]
    {
      for i := 0 to |pattern|
        invariant Valid() && pattern[..i] <= old(Rest()) && Rest() == old(Rest())[i..]
      {
        var ch := GetC();
        if ch != pattern[i] {
          UngetC();
          return false;
        }
      }
      ok := true;
    }
  }

  /** The comment loop of arrays and objects; it fails where the original would read past the end. */
  method ReadComments(input: Input) returns (ok: bool)
    requires input.Valid()
    modifies input
    ensures input.Valid()
    ensures ok == SkipComments(old(input.Rest())).Some?
    ensures ok ==> Some(input.Rest()) == SkipComments(old(input.Rest()))
  {
    hide SkipWs;
    while true
      invariant input.Valid() && SkipComments(input.Rest()) == SkipComments(old(input.Rest()))
      decreases |input.Rest()|
    {
      var slash := input.Expect(SLASH);
      if !slash {
        break;
      }
      slash := input.Expect(SLASH);
      if !slash {
        break;
      }
      ok := input.SkipLine();
      if !ok {
        return;
      }
    }
    ok := true;
  }

  /** Comments, then the closing bracket. */
  method ReadClose(input: Input, close: Byte) returns (ok: bool)
    requires input.Valid()
    modifies input
    ensures input.Valid()
    ensures ok == Closed(old(input.Rest()), close).Some?
    ensures ok ==> Some(input.Rest()) == Closed(old(input.Rest()), close)
  {
    hide SkipComments;
    ok := ReadComments(input);
    if ok {
      ok := input.Expect(close);
    }
  }

  // ---------------------------------------------------------------- strings and numbers

  /** One digit of a quad, or -1; a byte that is none is put back. */
  method ReadHexDigit(input: Input) returns (hex: int)
    requires input.Valid()
    modifies input
    ensures input.Valid()
    ensures old(input.Rest()) == [] ==> hex == -1
    ensures old(input.Rest()) != [] ==> hex == HexValue(old(input.Rest())[0])
    ensures hex >= 0 ==> input.Rest() == old(input.Rest())[1..]
  {
    hex := input.GetC();
    if hex == -1 {
      return;
    }
    if 48 <= hex <= 57 {
      hex := hex - 48;
    } else if 65 <= hex <= 70 {
      hex := hex - 55;
    } else if 97 <= hex <= 102 {
      hex := hex - 87;
    } else {
      input.UngetC();
      hex := -1;
    }
  }

  method ReadQuadHex(input: Input) returns (value: int)
    requires input.Valid()
    modifies input
    ensures input.Valid()
    ensures value == -1 <==> ParseQuadHex(old(input.Rest())).Fail?
    ensures value != -1 ==> Ok(value, input.Rest()) == ParseQuadHex(old(input.Rest()))
  {
    hide ParseQuadHex;
    hide HexValue;
    ghost var s := input.Rest();
    value := 0;
    for i := 0 to 4
      invariant input.Valid() && i <= |s| && input.Rest() == s[i..]
      invariant forall k :: 0 <= k < i ==> HexValue(s[k]) >= 0
      invariant value == HexPrefix(s, i) >= 0
    {
      var hex := ReadHexDigit(input);
      if hex == -1 {
        BadDigit(s, i);
        return -1;
      }
      value := value * 16 + hex;
    }
    FourDigits(s);
  }

  lemma BadDigit(s: seq<Byte>, i: nat)
    requires i < 4 && (|s| <= i || HexValue(s[i]) < 0)
    ensures ParseQuadHex(s).Fail?
  {
  }

  lemma FourDigits(s: seq<Byte>)
    requires |s| >= 4 && forall k :: 0 <= k < 4 ==> HexValue(s[k]) >= 0
    ensures ParseQuadHex(s) == Ok(HexPrefix(s, 4), s[4..])
  {
    hide HexValue;
    assert HexPrefix(s, 1) == HexValue(s[0]);
    assert HexPrefix(s, 2) == HexPrefix(s, 1) * 16 + HexValue(s[1]);
    assert HexPrefix(s, 3) == HexPrefix(s, 2) * 16 + HexValue(s[2]);
  }

  /** The number the first n hexadecimal digits spell. */
  ghost function HexPrefix(s: seq<Byte>, n: nat): int
    requires n <= |s|
  {
    if n == 0 then 0 else HexPrefix(s, n - 1) * 16 + HexValue(s[n - 1])
  }

  method ReadCodepoint(out0: seq<Byte>, input: Input) returns (ok: bool, out: seq<Byte>)
    requires input.Valid()
    modifies input
    ensures input.Valid()
    ensures ok == ParseCodepoint(old(input.Rest())).Ok?
    ensures ok ==> var p := ParseCodepoint(old(input.Rest())); out == out0 + p.value && input.Rest() == p.rest
  {
    hide Utf8.EncodeChar;
    hide ParseQuadHex;
    out := out0;
    var u := ReadQuadHex(input);
    if u == -1 {
      return false, out;
    }
    if 0xD800 <= u <= 0xDFFF {
      if 0xDC00 <= u {
        return false, out;
      }
      var slash := input.GetC();
      if slash != BACKSLASH {
        input.UngetC();
        return false, out;
      }
      var letter := input.GetC();
      if letter != 117 {
        input.UngetC();
        return false, out;
      }
      var second := ReadQuadHex(input);
      if !(0xDC00 <= second <= 0xDFFF) {
        return false, out;
      }
      u := (u - 0xD800) * 0x400 + (second - 0xDC00) + 0x10000;
    }
    ok, out := true, out + Utf8.EncodeChar(u);
  }

  method ReadString(input: Input) returns (ok: bool, out: seq<Byte>)
    requires input.Valid()
    modifies input
    ensures input.Valid()
    ensures ok == ParseStr(old(input.Rest())).Ok?
    ensures ok ==> Ok(out, input.Rest()) == ParseStr(old(input.Rest()))
  {
    hide ParseCodepoint;
    out := [];
    ghost var s := input.Rest();
    PrependNothing(ParseStr(s));
    while true
      invariant input.Valid() && ParseStr(s) == Prepend(out, ParseStr(input.Rest()))
      decreases |input.Rest()|
    {
      ghost var before, done := input.Rest(), out;
      var ch := input.GetC();
      if ch < SPACE {
        input.UngetC();
        return false, out;
      } else if ch == QUOTE {
        assert out + [] == out;
        return true, out;
      } else if ch == BACKSLASH {
        ch := input.GetC();
        if ch == -1 {
          return false, out;
        }
        if ch == 117 {
          var read;
          read, out := ReadCodepoint(out, input);
          if !read {
            return false, out;
          }
          PrependTwice(done, ParseCodepoint(before[2..]).value, ParseStr(input.Rest()));
        } else if Unescape(ch) == [] {
          return false, out;
        } else {
          out := out + Unescape(ch);
          PrependTwice(done, Unescape(ch), ParseStr(input.Rest()));
        }
      } else {
        out := out + [ch];
        PrependTwice(done, [ch], ParseStr(input.Rest()));
      }
    }
    assert false;
  }

  method ReadNumber(input: Input) returns (text: seq<Byte>)
    requires input.Valid()
    modifies input
    ensures input.Valid() && text == NumberText(old(input.Rest()))
    ensures input.Rest() == old(input.Rest())[|text|..]
  {
    hide NumberText;
    ghost var s := input.Rest();
    text := [];
    while true
      invariant input.Valid() && s == text + input.Rest()
      invariant forall i :: 0 <= i < |text| ==> IsNumeric(text[i])
      decreases |input.Rest()|
    {
      ghost var before := input.Rest();
      var ch := input.GetC();
      if 48 <= ch <= 57 || ch == 43 || ch == MINUS || ch == 101 || ch == 69 || ch == 46 {
        OneByteOn(text, before);
        text := text + [ch];
      } else {
        input.UngetC();
        NumberTextReadsBack(text, input.Rest());
        break;
      }
    }
  }

  lemma OneByteOn(done: seq<Byte>, s: seq<Byte>)
    requires s != []
    ensures done + s == (done + [s[0]]) + s[1..]
  {
  }

  // ---------------------------------------------------------------- values

  /** _parse: reads exactly what ParseValue reads. */
  method Read(input: Input) returns (ok: bool, v: Value)
    requires input.Valid()
    modifies input
    ensures input.Valid()
    ensures ok == ParseValue(old(input.Rest())).Ok?
    ensures ok ==> Ok(v, input.Rest()) == ParseValue(old(input.Rest()))
    decreases |input.Rest()|, 0
  {
    hide ParseStr;
    hide ParseElems;
    hide ParseMembers;
    hide ParseInt;
    v := Null;
    input.SkipWhiteSpace();
    ghost var t := input.Rest();
    var ch := input.GetC();
    if ch == 110 {
      TailMatches(NULL_TEXT, t);
      ok := input.Match(NULL_TEXT[1..]);
    } else if ch == 102 {
      TailMatches(FALSE_TEXT, t);
      ok := input.Match(FALSE_TEXT[1..]);
      v := Bool(false);
    } else if ch == 116 {
      TailMatches(TRUE_TEXT, t);
      ok := input.Match(TRUE_TEXT[1..]);
      v := Bool(true);
    } else if ch == QUOTE {
      var s;
      ok, s := ReadString(input);
      v := Str(s);
    } else if ch == OPEN_SQUARE {
      ok, v := ReadArray(input);
    } else if ch == OPEN_CURLY {
      ok, v := ReadObject(input);
    } else if 48 <= ch <= 57 || ch == MINUS {
      input.UngetC();
      var text := ReadNumber(input);
      var p := ParseInt(text);
      ok := p.Ok?;
      if ok {
        v := Int(p.value);
      }
    } else {
      input.UngetC();
      ok := false;
    }
  }

  lemma TailMatches(text: seq<Byte>, t: seq<Byte>)
    requires text != [] && t != [] && text[0] == t[0]
    ensures text <= t <==> text[1..] <= t[1..]
    ensures text <= t ==> t[|text|..] == t[1..][|text[1..]|..]
  {
    if text[1..] <= t[1..] {
      assert text == [t[0]] + text[1..] && t == [t[0]] + t[1..];
    }
  }

  /** _parse_array, after the opening bracket. */
  method ReadArray(input: Input) returns (ok: bool, v: Value)
    requires input.Valid()
    modifies input
    ensures input.Valid()
    ensures ok == ArrayAfterBracket(old(input.Rest())).Ok?
    ensures ok ==> Ok(v, input.Rest()) == ArrayAfterBracket(old(input.Rest()))
    decreases |input.Rest()|, 2
  {
    hide ParseValue;
    hide ParseElems;
    hide SkipComments;
    hide Closed;
    v := Null;
    ghost var start := input.Rest();
    var empty := input.Expect(CLOSE_SQUARE);
    if empty {
      return true, Arr([]);
    }
    var xs: seq<Value> := [];
    ghost var s := input.Rest();
    LeadingSpaceOfElems(start);
    PrefixNothing(ParseElems(s));
    while true
      invariant input.Valid() && |input.Rest()| <= |s|
      invariant ParseElems(s) == Prefixed(xs, ParseElems(input.Rest()))
      decreases |input.Rest()|
    {
      ElementTurn(input.Rest());
      ghost var done := xs;
      var uncommented := ReadComments(input);
      if !uncommented {
        return false, v;
      }
      var read, x := Read(input);
      if !read {
        return false, v;
      }
      xs := xs + [x];
      ghost var r := input.Rest();
      var more := input.Expect(COMMA);
      if !more {
        ClosedAfterSpace(r, CLOSE_SQUARE);
        ok := ReadClose(input, CLOSE_SQUARE);
        return ok, Arr(xs);
      }
      PrefixOne(done, x, ParseElems(input.Rest()));
    }
    assert false;
  }

  /** What one turn of the element loop makes of the text. */
  lemma ElementTurn(s: seq<Byte>)
    ensures ParseElems(s) ==
      if SkipComments(s).None? || ParseValue(SkipComments(s).value).Fail? then Fail
      else
        var p := ParseValue(SkipComments(s).value);
        if Json.Sees(p.rest, COMMA) then Prefixed([p.value], ParseElems(After(p.rest)))
        else if Closed(p.rest, CLOSE_SQUARE).None? then Fail
        else Ok([p.value], Closed(p.rest, CLOSE_SQUARE).value)
  {
    hide ParseValue;
    hide SkipComments;
    hide Closed;
    hide SkipWs;
  }

  /** What one turn of the member loop makes of the text. */
  lemma MemberTurn(s: seq<Byte>, es: seq<Entry>)
    ensures ParseMembers(s, es) ==
      if SkipComments(s).None? || ParseMember(SkipComments(s).value).Fail? then Fail
      else
        var p := ParseMember(SkipComments(s).value);
        var es' := Insert(es, p.value.key, p.value.value);
        if Json.Sees(p.rest, COMMA) then ParseMembers(After(p.rest), es')
        else if Closed(p.rest, CLOSE_CURLY).None? then Fail
        else Ok(es', Closed(p.rest, CLOSE_CURLY).value)
  {
    hide ParseMember;
    hide SkipComments;
    hide Closed;
    hide SkipWs;
    hide Insert;
  }

  ghost function ArrayAfterBracket(s: seq<Byte>): Parsed<Value> {
    if Json.Sees(s, CLOSE_SQUARE) then Ok(Arr([]), After(s))
    else match ParseElems(s)
      case Fail => Fail
      case Ok(xs, r) => Ok(Arr(xs), r)
  }

  lemma CommentsAfterSpace(s: seq<Byte>)
    ensures SkipComments(SkipWs(s)) == SkipComments(s)
  {
    SkipWsTwice(s);
  }

  lemma ClosedAfterSpace(s: seq<Byte>, close: Byte)
    ensures Closed(SkipWs(s), close) == Closed(s, close)
  {
    CommentsAfterSpace(s);
  }

  lemma LeadingSpaceOfElems(s: seq<Byte>)
    ensures ParseElems(SkipWs(s)) == ParseElems(s)
    ensures forall es :: ParseMembers(SkipWs(s), es) == ParseMembers(s, es)
  {
    CommentsAfterSpace(s);
  }

  /** The part of _parse_object that reads one member. */
  method ReadMember(input: Input) returns (ok: bool, e: Entry)
    requires input.Valid()
    modifies input
    ensures input.Valid()
    ensures ok == ParseMember(old(input.Rest())).Ok?
    ensures ok ==> Ok(e, input.Rest()) == ParseMember(old(input.Rest()))
    decreases |input.Rest()|, 1
  {
    hide ParseValue;
    hide ParseStr;
    e := Entry([], Null);
    var quoted := input.Expect(QUOTE);
    if !quoted {
      return false, e;
    }
    var named, key := ReadString(input);
    if !named {
      return false, e;
    }
    var colon := input.Expect(COLON);
    if !colon {
      return false, e;
    }
    var read, x := Read(input);
    ok, e := read, Entry(key, x);
  }

  /** _parse_object, after the opening bracket. */
  method ReadObject(input: Input) returns (ok: bool, v: Value)
    requires input.Valid()
    modifies input
    ensures input.Valid()
    ensures ok == ObjectAfterBracket(old(input.Rest())).Ok?
    ensures ok ==> Ok(v, input.Rest()) == ObjectAfterBracket(old(input.Rest()))
    decreases |input.Rest()|, 2
  {
    hide ParseMember;
    hide SkipComments;
    hide Insert;
    hide ParseMembers;
    hide Closed;
    v := Null;
    ghost var start := input.Rest();
    var empty := input.Expect(CLOSE_CURLY);
    if empty {
      return true, Obj([]);
    }
    var es: seq<Entry> := [];
    ghost var s := input.Rest();
    LeadingSpaceOfElems(start);
    while true
      invariant input.Valid() && |input.Rest()| <= |s|
      invariant ParseMembers(s, []) == ParseMembers(input.Rest(), es)
      decreases |input.Rest()|
    {
      MemberTurn(input.Rest(), es);
      var uncommented := ReadComments(input);
      if !uncommented {
        return false, v;
      }
      var read, e := ReadMember(input);
      if !read {
        return false, v;
      }
      es := Insert(es, e.key, e.value);
      ghost var r := input.Rest();
      var more := input.Expect(COMMA);
      if !more {
        ClosedAfterSpace(r, CLOSE_CURLY);
        ok := ReadClose(input, CLOSE_CURLY);
        return ok, Obj(es);
      }
    }
    assert false;
  }

  ghost function ObjectAfterBracket(s: seq<Byte>): Parsed<Value> {
    if Json.Sees(s, CLOSE_CURLY) then Ok(Obj([]), After(s))
    else match ParseMembers(s, [])
      case Fail => Fail
      case Ok(es, r) => Ok(Obj(es), r)
  }
}
