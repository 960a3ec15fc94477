/** The JSON serialiser as it runs: it appends to its output byte by byte, in loops and recursion. */
module JsonWriter {
  import opened Bytes
  import opened Json
  import opened Results
  import JsonRoundTrip

  class Output {
    var bytes: seq<Byte>

    constructor ()
      ensures bytes == []
    {
      bytes := [];
    }

    method Put(c: Byte)
      modifies this
      ensures bytes == old(bytes) + [c]
    {
      bytes := bytes + [c];
    }

    method Copy(text: seq<Byte>)
      modifies this
      ensures bytes == old(bytes) + text
    {
      bytes := bytes + text;
    }

    method WriteStr(s: seq<Byte>)
      modifies this
      ensures bytes == old(bytes) + PrintStr(s)
    {
      hide Escape;
      hide EscapeChar;
      Put(QUOTE);
      ghost var start := bytes;
      NothingEscaped(s);
      for i := 0 to |s|
        invariant bytes == start + Escape(s[..i])
      {
        EscapeOneMore(s, i);
        Copy(EscapeChar(s[i]));
      }
      Put(QUOTE);
      assert s[..|s|] == s;
    }

    method WriteIndent(indent: nat)
      modifies this
      ensures bytes == old(bytes) + Indent(indent)
    {
      Put(NEWLINE);
      for i := 0 to indent * INDENT_WIDTH
        invariant bytes == old(bytes) + [NEWLINE] + seq(i, _ => SPACE)
      {
        Put(SPACE);
      }
    }

    method WriteSeparator(first: bool, indent: int)
      requires indent >= -1
      modifies this
      ensures bytes == old(bytes) + Separator(first, indent)
    {
      if !first {
        Put(COMMA);
      }
      if indent != -1 {
        WriteIndent(indent);
      }
    }

    method WriteClosing(empty: bool, indent: int, close: Byte)
      requires indent >= -1
      modifies this
      ensures bytes == old(bytes) + Closing(empty, indent, close)
    {
      if indent != -1 && !empty {
        WriteIndent(indent);
      }
      Put(close);
    }

    /** _serialise: -1 for compact output, or the depth of this value in pretty output. */
    method Write(v: Value, indent: int)
      requires indent >= -1
      modifies this
      ensures bytes == old(bytes) + Print(v, indent) + (if indent == 0 then [NEWLINE] else [])
      decreases v, 2
    {
      if v.Str? {
        WriteStr(v.s);
      } else if v.Arr? {
        WriteArray(v.elems, indent);
      } else if v.Obj? {
        WriteObject(v.entries, indent);
      } else {
        Copy(Print(v, indent));
      }
      ghost var before := bytes;
      if indent == 0 {
        Put(NEWLINE);
      }
      assert before + [] == before;
    }

    /** The case of _serialise for an array. */
    method WriteArray(xs: seq<Value>, indent: int)
      requires indent >= -1
      modifies this
      ensures bytes == old(bytes) + Print(Arr(xs), indent)
      decreases xs, 1
    {
      hide PrintElems;
      hide Separator;
      hide Closing;
      Put(OPEN_SQUARE);
      var inner := Deeper(indent);
      ghost var start := bytes;
      ElemsSoFarEmpty(inner);
      for i := 0 to |xs|
        invariant bytes == start + PrintElems(xs[..i], true, inner)
      {
        WriteSeparator(i == 0, inner);
        Write(xs[i], inner);
        OneMoreElem(xs, i, true, inner);
        Appended(start, PrintElems(xs[..i], true, inner), Separator(i == 0, inner), Print(xs[i], inner));
      }
      assert xs[..|xs|] == xs;
      WriteClosing(xs == [], indent, CLOSE_SQUARE);
      Appended(old(bytes), [OPEN_SQUARE], PrintElems(xs, true, inner), Closing(xs == [], indent, CLOSE_SQUARE));
    }

    /** The case of _serialise for an object. */
    method WriteObject(es: seq<Entry>, indent: int)
      requires indent >= -1
      modifies this
      ensures bytes == old(bytes) + Print(Obj(es), indent)
      decreases es, 1
    {
      hide PrintMembers;
      hide PrintMember;
      hide Separator;
      hide Closing;
      Put(OPEN_CURLY);
      var inner := Deeper(indent);
      ghost var start := bytes;
      ElemsSoFarEmpty(inner);
      for i := 0 to |es|
        invariant bytes == start + PrintMembers(es[..i], true, inner)
      {
        WriteSeparator(i == 0, inner);
        WriteMember(es[i], inner);
        OneMoreMember(es, i, true, inner);
        Appended(start, PrintMembers(es[..i], true, inner), Separator(i == 0, inner), PrintMember(es[i], inner));
      }
      assert es[..|es|] == es;
      WriteClosing(es == [], indent, CLOSE_CURLY);
      Appended(old(bytes), [OPEN_CURLY], PrintMembers(es, true, inner), Closing(es == [], indent, CLOSE_CURLY));
    }

    method WriteMember(e: Entry, indent: int)
      requires indent >= -1 && indent != 0
      modifies this
      ensures bytes == old(bytes) + PrintMember(e, indent)
      decreases e, 3
    {
      hide PrintStr;
      hide Print;
      WriteStr(e.key);
      Put(COLON);
      if indent != -1 {
        Put(SPACE);
      }
      Write(e.value, indent);
    }
  }

  lemma Appended(a: seq<Byte>, b: seq<Byte>, c: seq<Byte>, d: seq<Byte>)
    ensures a + b + c + d + [] == a + (b + (c + d)) == a + b + c + d
  {
  }

  lemma NothingEscaped(s: seq<Byte>)
    ensures Escape(s[..0]) == []
  {
  }

  lemma {:induction false} EscapeOneMore(s: seq<Byte>, i: nat)
    requires i < |s|
    ensures Escape(s[..i + 1]) == Escape(s[..i]) + EscapeChar(s[i])
  {
    var t := s[..i + 1];
    if i == 0 {
      assert t[1..] == [] && s[..0] == [];
    } else {
      assert t[1..] == s[1..][..i] && s[..i][1..] == s[1..][..i - 1] && s[..i][0] == s[0];
      EscapeOneMore(s[1..], i - 1);
    }
  }

  lemma ElemsSoFarEmpty(indent: int)
    ensures PrintElems([], true, indent) == [] && PrintMembers([], true, indent) == []
  {
  }

  /** One turn of the element loop. */
  lemma {:induction false} OneMoreElem(xs: seq<Value>, i: nat, first: bool, indent: int)
    requires i < |xs|
    ensures PrintElems(xs[..i + 1], first, indent) ==
      PrintElems(xs[..i], first, indent) + (Separator(first && i == 0, indent) + Print(xs[i], indent))
  {
    hide Print;
    hide Separator;
    var t := xs[..i + 1];
    if i == 0 {
      assert t[1..] == [] && xs[..0] == [];
    } else {
      assert t[1..] == xs[1..][..i] && xs[..i][1..] == xs[1..][..i - 1] && xs[..i][0] == xs[0];
      OneMoreElem(xs[1..], i - 1, false, indent);
    }
  }

  lemma {:induction false} OneMoreMember(es: seq<Entry>, i: nat, first: bool, indent: int)
    requires i < |es|
    ensures PrintMembers(es[..i + 1], first, indent) ==
      PrintMembers(es[..i], first, indent) + (Separator(first && i == 0, indent) + PrintMember(es[i], indent))
  {
    hide PrintMember;
    hide Separator;
    var t := es[..i + 1];
    if i == 0 {
      assert t[1..] == [] && es[..0] == [];
    } else {
      assert t[1..] == es[1..][..i] && es[..i][1..] == es[1..][..i - 1] && es[..i][0] == es[0];
      OneMoreMember(es[1..], i - 1, false, indent);
    }
  }

  /** serialise(prettify) */
  method Serialised(v: Value, prettify: bool) returns (text: seq<Byte>)
    requires Wf(v)
    ensures text == Serialise(v, prettify)
    ensures ParseValue(text) == Ok(v, if prettify then [NEWLINE] else [])
  {
    var out := new Output();
    out.Write(v, if prettify then 0 else -1);
    text := out.bytes;
    JsonRoundTrip.SerialisedReadsBack(v, prettify, []);
    assert text + [] == text && [NEWLINE] + [] == [NEWLINE];
  }
}
