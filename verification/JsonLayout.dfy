/**
  The two layouts of serialised JSON, as two ways to write down one sequence of tokens.
 */
module JsonLayout {
  import opened Bytes
  import opened Json
  import opened Sequences

  /** A bracket around something, a comma, a colon, or anything that is written in one piece. */
  datatype Token = Open(bracket: Byte) | Close(bracket: Byte) | Comma | Colon | Piece(text: seq<Byte>)

  /** The tokens of a value; empty arrays and objects are one piece. */
  function Tokens(v: Value): seq<Token>
    decreases v, 1
  {
    match v
    case Null => [Piece([0x6E, 0x75, 0x6C, 0x6C])]
    case Bool(b) => [Piece(if b then [0x74, 0x72, 0x75, 0x65] else [0x66, 0x61, 0x6C, 0x73, 0x65])]
    case Int(i) => [Piece(PrintInt(i))]
    case Str(s) => [Piece(PrintStr(s))]
    case Arr(xs) =>
      if xs == [] then [Piece([0x5B, 0x5D])] else [Open(0x5B)] + (ElemTokens(xs) + [Close(0x5D)])
    case Obj(es) =>
      if es == [] then [Piece([0x7B, 0x7D])] else [Open(0x7B)] + (MemberTokens(es) + [Close(0x7D)])
  }

  function ElemTokens(xs: seq<Value>): seq<Token>
    decreases xs, 0
  {
    if xs == [] then []
    else if |xs| == 1 then Tokens(xs[0])
    else Tokens(xs[0]) + ([Comma] + ElemTokens(xs[1..]))
  }

  function MemberTokens(es: seq<Entry>): seq<Token>
    decreases es, 0
  {
    if es == [] then []
    else if |es| == 1 then OneMember(es[0])
    else OneMember(es[0]) + ([Comma] + MemberTokens(es[1..]))
  }

  function OneMember(e: Entry): seq<Token>
    decreases e, 0
  {
    [Piece(PrintStr(e.key)), Colon] + Tokens(e.value)
  }

  // ---------------------------------------------------------------- the two layouts

  /** What a token is in compact output. */
  function Bare(t: Token): seq<Byte> {
    match t
    case Open(c) => [c]
    case Close(c) => [c]
    case Comma => [0x2C]
    case Colon => [0x3A]
    case Piece(text) => text
  }

  /** The tokens one after the other, without any white space between them. */
  function Flat(ts: seq<Token>): seq<Byte> {
    if ts == [] then [] else Bare(ts[0]) + Flat(ts[1..])
  }

  /** A new line at this depth: two blanks for each. */
  function NewLine(depth: int): seq<Byte> {
    [0x0A] + if depth <= 0 then [] else seq(2 * depth, _ => 0x20)
  }

  /** How much deeper one is after a token. */
  function Turn(t: Token): int {
    if t.Open? then 1 else if t.Close? then -1 else 0
  }

  /** In pretty output brackets and commas begin a line for what follows, closing brackets one for themselves. */
  function Spaced(t: Token, depth: int): seq<Byte> {
    match t
    case Open(c) => [c] + NewLine(depth + 1)
    case Close(c) => NewLine(depth - 1) + [c]
    case Comma => [0x2C] + NewLine(depth)
    case Colon => [0x3A, 0x20]
    case Piece(text) => text
  }

  function Laid(ts: seq<Token>, depth: int): seq<Byte> {
    if ts == [] then [] else Spaced(ts[0], depth) + Laid(ts[1..], depth + Turn(ts[0]))
  }

  function Depth(ts: seq<Token>): int {
    if ts == [] then 0 else Turn(ts[0]) + Depth(ts[1..])
  }

  lemma {:induction false} FlatSplits(a: seq<Token>, b: seq<Token>)
    ensures Flat(a + b) == Flat(a) + Flat(b)
  {
    hide Bare;
    if a == [] {
      assert a + b == b;
    } else {
      FlatSplits(a[1..], b);
      assert (a + b)[1..] == a[1..] + b && (a + b)[0] == a[0];
      Assoc(Bare(a[0]), Flat(a[1..]), Flat(b));
    }
  }

  lemma {:induction false} DepthSplits(a: seq<Token>, b: seq<Token>)
    ensures Depth(a + b) == Depth(a) + Depth(b)
  {
    hide Turn;
    if a == [] {
      assert a + b == b;
    } else {
      DepthSplits(a[1..], b);
      assert (a + b)[1..] == a[1..] + b && (a + b)[0] == a[0];
    }
  }

  lemma {:induction false} LaidSplits(a: seq<Token>, b: seq<Token>, depth: int)
    ensures Laid(a + b, depth) == Laid(a, depth) + Laid(b, depth + Depth(a))
  {
    hide Spaced;
    hide Turn;
    if a == [] {
      assert a + b == b;
    } else {
      var d := depth + Turn(a[0]);
      LaidSplits(a[1..], b, d);
      assert (a + b)[1..] == a[1..] + b && (a + b)[0] == a[0];
      Assoc(Spaced(a[0], depth), Laid(a[1..], d), Laid(b, d + Depth(a[1..])));
    }
  }

  /** The two ways to write tokens, told apart by the serialiser's indent: -1 for compact output. */
  function Written(ts: seq<Token>, indent: int): seq<Byte> {
    if indent < 0 then Flat(ts) else Laid(ts, indent)
  }

  lemma WrittenSplits(a: seq<Token>, b: seq<Token>, indent: int)
    requires Depth(a) == 0
    ensures Written(a + b, indent) == Written(a, indent) + Written(b, indent)
  {
    hide Flat;
    hide Laid;
    FlatSplits(a, b);
    LaidSplits(a, b, indent);
  }

  lemma OneWritten(t: Token)
    ensures Flat([t]) == Bare(t) && forall depth :: Laid([t], depth) == Spaced(t, depth)
    ensures Depth([t]) == Turn(t)
  {
    hide Bare;
    hide Spaced;
    assert [t][1..] == [];
    assert Bare(t) + [] == Bare(t);
    forall depth
      ensures Laid([t], depth) == Spaced(t, depth)
    {
      assert Spaced(t, depth) + [] == Spaced(t, depth);
    }
  }

  lemma PieceWritten(t: seq<Byte>, indent: int)
    ensures Written([Piece(t)], indent) == t
  {
    hide Flat;
    hide Laid;
    OneWritten(Piece(t));
  }

  lemma IndentIsNewLine(indent: int)
    ensures Indent(indent) == if indent < 0 then [] else NewLine(indent)
  {
    if indent == 0 {
      assert seq(0, _ => SPACE) == [];
    }
  }

  lemma CommaWritten(ts: seq<Token>, indent: int)
    ensures Written([Comma] + ts, indent) == [0x2C] + (Indent(indent) + Written(ts, indent))
  {
    hide Flat;
    hide Laid;
    hide NewLine;
    hide Indent;
    OneWritten(Comma);
    IndentIsNewLine(indent);
    WrittenSplits([Comma], ts, indent);
    if indent < 0 {
      assert [0x2C] + ([] + Written(ts, indent)) == [0x2C] + Written(ts, indent);
    } else {
      Assoc([0x2C], NewLine(indent), Written(ts, indent));
    }
  }

  lemma BracketsWritten(open: Byte, ts: seq<Token>, close: Byte, indent: int)
    requires Depth(ts) == 0
    ensures Written([Open(open)] + (ts + [Close(close)]), indent) ==
      [open] + (Indent(Deeper(indent)) + (Written(ts, Deeper(indent)) + (Indent(indent) + [close])))
  {
    hide Flat;
    hide Laid;
    hide Depth;
    hide NewLine;
    hide Indent;
    OneWritten(Open(open));
    OneWritten(Close(close));
    IndentIsNewLine(indent);
    IndentIsNewLine(Deeper(indent));
    if indent < 0 {
      FlatSplits([Open(open)], ts + [Close(close)]);
      FlatSplits(ts, [Close(close)]);
      assert [open] + (Flat(ts) + [close]) == [open] + ([] + (Flat(ts) + ([] + [close])));
    } else {
      LaidSplits([Open(open)], ts + [Close(close)], indent);
      LaidSplits(ts, [Close(close)], indent + 1);
      Assoc([open], NewLine(indent + 1), Laid(ts, indent + 1) + (NewLine(indent) + [close]));
    }
  }

  lemma {:induction false} Balanced(v: Value)
    ensures Depth(Tokens(v)) == 0
    decreases v, 1
  {
    match v
    case Arr(xs) =>
      if xs != [] {
        ElemsBalanced(xs);
        BracketsBalance(0x5B, ElemTokens(xs), 0x5D);
      }
    case Obj(es) =>
      if es != [] {
        MembersBalanced(es);
        BracketsBalance(0x7B, MemberTokens(es), 0x7D);
      }
    case _ =>
  }

  lemma BracketsBalance(open: Byte, ts: seq<Token>, close: Byte)
    ensures Depth([Open(open)] + (ts + [Close(close)])) == Depth(ts)
  {
    assert ([Open(open)] + (ts + [Close(close)]))[1..] == ts + [Close(close)];
    DepthSplits(ts, [Close(close)]);
  }

  lemma {:induction false} ElemsBalanced(xs: seq<Value>)
    ensures Depth(ElemTokens(xs)) == 0
    decreases xs, 0
  {
    if xs != [] {
      Balanced(xs[0]);
      ElemsBalanced(xs[1..]);
      DepthSplits(Tokens(xs[0]), [Comma] + ElemTokens(xs[1..]));
      DepthSplits([Comma], ElemTokens(xs[1..]));
    }
  }

  lemma {:induction false} MembersBalanced(es: seq<Entry>)
    ensures Depth(MemberTokens(es)) == 0
    decreases es, 0
  {
    if es != [] {
      MemberBalanced(es[0]);
      MembersBalanced(es[1..]);
      DepthSplits(OneMember(es[0]), [Comma] + MemberTokens(es[1..]));
      DepthSplits([Comma], MemberTokens(es[1..]));
    }
  }

  lemma {:induction false} MemberBalanced(e: Entry)
    ensures Depth(OneMember(e)) == 0
    decreases e, 0
  {
    Balanced(e.value);
    DepthSplits([Piece(PrintStr(e.key)), Colon], Tokens(e.value));
  }

  /** Main result: what the serialiser writes is the tokens of the value, in one of the two layouts. */
  lemma {:induction false} PrintsTokens(v: Value, indent: int)
    ensures Print(v, indent) == Written(Tokens(v), indent)
    decreases v, 1
  {
    hide Written;
    match v
    case Null => PieceWritten(NULL_TEXT, indent);
    case Bool(b) => PieceWritten(if b then TRUE_TEXT else FALSE_TEXT, indent);
    case Int(i) => PieceWritten(PrintInt(i), indent);
    case Str(s) => PieceWritten(PrintStr(s), indent);
    case Arr(xs) =>
      if xs == [] {
        PieceWritten([0x5B, 0x5D], indent);
      } else {
        ElemsPrint(xs, true, Deeper(indent));
        ElemsBalanced(xs);
        BracketsWritten(0x5B, ElemTokens(xs), 0x5D, indent);
      }
    case Obj(es) =>
      if es == [] {
        PieceWritten([0x7B, 0x7D], indent);
      } else {
        MembersPrint(es, true, Deeper(indent));
        MembersBalanced(es);
        BracketsWritten(0x7B, MemberTokens(es), 0x7D, indent);
      }
  }

  lemma {:induction false} ElemsPrint(xs: seq<Value>, first: bool, indent: int)
    requires xs != []
    ensures PrintElems(xs, first, indent) == Separator(first, indent) + Written(ElemTokens(xs), indent)
    decreases xs, 0
  {
    hide Written;
    hide Print;
    hide Separator;
    PrintsTokens(xs[0], indent);
    if |xs| == 1 {
      assert PrintElems(xs[1..], false, indent) == [];
      assert Print(xs[0], indent) + [] == Print(xs[0], indent);
    } else {
      ElemsPrint(xs[1..], false, indent);
      Balanced(xs[0]);
      WrittenSplits(Tokens(xs[0]), [Comma] + ElemTokens(xs[1..]), indent);
      CommaWritten(ElemTokens(xs[1..]), indent);
      LaterSeparator(indent, Written(ElemTokens(xs[1..]), indent));
    }
  }

  lemma LaterSeparator(indent: int, s: seq<Byte>)
    ensures Separator(false, indent) + s == [0x2C] + (Indent(indent) + s)
  {
  }

  lemma {:induction false} MembersPrint(es: seq<Entry>, first: bool, indent: int)
    requires es != []
    ensures PrintMembers(es, first, indent) == Separator(first, indent) + Written(MemberTokens(es), indent)
    decreases es, 0
  {
    hide Written;
    hide PrintMember;
    hide Separator;
    MemberPrints(es[0], indent);
    if |es| == 1 {
      assert PrintMembers(es[1..], false, indent) == [];
      assert PrintMember(es[0], indent) + [] == PrintMember(es[0], indent);
    } else {
      MembersPrint(es[1..], false, indent);
      MemberBalanced(es[0]);
      WrittenSplits(OneMember(es[0]), [Comma] + MemberTokens(es[1..]), indent);
      CommaWritten(MemberTokens(es[1..]), indent);
      LaterSeparator(indent, Written(MemberTokens(es[1..]), indent));
    }
  }

  lemma {:induction false} MemberPrints(e: Entry, indent: int)
    ensures PrintMember(e, indent) == Written(OneMember(e), indent)
    decreases e, 0
  {
    hide PrintStr;
    hide Print;
    hide Flat;
    hide Laid;
    hide Depth;
    PrintsTokens(e.value, indent);
    var key := Piece(PrintStr(e.key));
    OneWritten(key);
    OneWritten(Colon);
    assert OneMember(e) == [key] + ([Colon] + Tokens(e.value));
    WrittenSplits([key], [Colon] + Tokens(e.value), indent);
    WrittenSplits([Colon], Tokens(e.value), indent);
  }

  /** Pretty output ends in a line feed; compact output is only the tokens. */
  lemma SerialisesTokens(v: Value, prettify: bool)
    ensures Serialise(v, prettify) == if prettify then Laid(Tokens(v), 0) + [0x0A] else Flat(Tokens(v))
  {
    PrintsTokens(v, if prettify then 0 else -1);
  }

  // ---------------------------------------------------------------- the pieces

  /** Quotes, backslashes, slashes, controls and delete are escaped, no other byte is, and by two characters if they do. */
  lemma EscapesExactly(c: Byte)
    ensures EscapeChar(c) == [c] <==> 0x20 <= c && c !in {0x22, 0x2F, 0x5C, 0x7F}
    ensures |EscapeChar(c)| == 2 <==> c in {0x22, 0x2F, 0x5C, 0x08, 0x09, 0x0A, 0x0C, 0x0D}
    ensures forall i :: 0 <= i < |EscapeChar(c)| ==> EscapeChar(c)[i] >= 0x20 && EscapeChar(c)[i] != 0x7F
  {
  }

  /** Numbers have no leading zeros. */
  lemma {:induction false} NoLeadingZero(n: nat)
    ensures Digits(n)[0] == 0x30 <==> n == 0
    ensures |Digits(n)| == 1 <==> n < 10
  {
    if n >= 10 {
      NoLeadingZero(n / 10);
    }
  }
}
