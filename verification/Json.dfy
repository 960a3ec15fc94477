/**
  JSON values, the text the serialiser writes for them, and the parser, as functions on bytes.
 */
module Json {
  import opened Bytes
  import opened Options
  import opened Results
  import Utf8

  /** An object is a std::map: its entries are kept in the order of their keys. */
  datatype Value =
    | Null
    | Bool(b: bool)
    | Int(i: int)
    | Str(s: seq<Byte>)
    | Arr(elems: seq<Value>)
    | Obj(entries: seq<Entry>)

  datatype Entry = Entry(key: seq<Byte>, value: Value)

  const QUOTE: Byte := 34
  const COMMA: Byte := 44
  const MINUS: Byte := 45
  const SLASH: Byte := 47
  const COLON: Byte := 58
  const OPEN_SQUARE: Byte := 91
  const BACKSLASH: Byte := 92
  const CLOSE_SQUARE: Byte := 93
  const OPEN_CURLY: Byte := 123
  const CLOSE_CURLY: Byte := 125
  const SPACE: Byte := 32
  const NEWLINE: Byte := 10

  const INDENT_WIDTH: nat := 2

  // ---------------------------------------------------------------- keys in order

  /** operator< of std::string */
  predicate Less(a: seq<Byte>, b: seq<Byte>) {
    b != [] && (a == [] || a[0] < b[0] || (a[0] == b[0] && Less(a[1..], b[1..])))
  }

  predicate SortedKeys(es: seq<Entry>) {
    forall i, j :: 0 <= i < j < |es| ==> Less(es[i].key, es[j].key)
  }

  /** o[key] = value */
  function Insert(es: seq<Entry>, k: seq<Byte>, v: Value): seq<Entry> {
    if es == [] || Less(k, es[0].key) then [Entry(k, v)] + es
    else if es[0].key == k then [Entry(k, v)] + es[1..]
    else [es[0]] + Insert(es[1..], k, v)
  }

  predicate IsInt64(i: int) {
    -0x8000_0000_0000_0000 <= i < 0x8000_0000_0000_0000
  }

  predicate Wf(v: Value) {
    match v
    case Int(i) => IsInt64(i)
    case Arr(xs) => forall x <- xs :: Wf(x)
    case Obj(es) => SortedKeys(es) && forall e <- es :: Wf(e.value)
    case _ => true
  }

  // ---------------------------------------------------------------- the serialiser

  function HexDigit(d: nat): Byte
    requires d < 16
  {
    if d < 10 then 48 + d else 87 + d
  }

  /** serialise_str_char */
  function EscapeChar(c: Byte): seq<Byte> {
    if c == QUOTE || c == BACKSLASH || c == SLASH then [BACKSLASH, c]
    else if c == 8 then [BACKSLASH, 98]
    else if c == 12 then [BACKSLASH, 102]
    else if c == 10 then [BACKSLASH, 110]
    else if c == 13 then [BACKSLASH, 114]
    else if c == 9 then [BACKSLASH, 116]
    else if c < 0x20 || c == 0x7F then [BACKSLASH, 117, 48, 48, HexDigit(c / 16), HexDigit(c % 16)]
    else [c]
  }

  function Escape(s: seq<Byte>): seq<Byte> {
    if s == [] then [] else EscapeChar(s[0]) + Escape(s[1..])
  }

  /** serialise_str */
  function PrintStr(s: seq<Byte>): seq<Byte> {
    [QUOTE] + (Escape(s) + [QUOTE])
  }

  function Digits(n: nat): seq<Byte> {
    if n < 10 then [48 + n] else Digits(n / 10) + [48 + n % 10]
  }

  function PrintInt(i: int): seq<Byte> {
    if i < 0 then [MINUS] + Digits(-i) else Digits(i)
  }

  const NULL_TEXT: seq<Byte> := [110, 117, 108, 108]
  const TRUE_TEXT: seq<Byte> := [116, 114, 117, 101]
  const FALSE_TEXT: seq<Byte> := [102, 97, 108, 115, 101]

  /** _indent; nothing in compact output, which has no indent. */
  function Indent(indent: int): seq<Byte> {
    if indent < 0 then [] else [NEWLINE] + seq(indent * INDENT_WIDTH, _ => SPACE)
  }

  function Deeper(indent: int): int {
    if indent < 0 then indent else indent + 1
  }

  /** _serialise, without the newline that ends pretty output: indent -1 is compact. */
  function Print(v: Value, indent: int): seq<Byte>
    decreases v, 1
  {
    match v
    case Null => NULL_TEXT
    case Bool(b) => if b then TRUE_TEXT else FALSE_TEXT
    case Int(i) => PrintInt(i)
    case Str(s) => PrintStr(s)
    case Arr(xs) =>
      [OPEN_SQUARE] + (PrintElems(xs, true, Deeper(indent)) + Closing(xs == [], indent, CLOSE_SQUARE))
    case Obj(es) =>
      [OPEN_CURLY] + (PrintMembers(es, true, Deeper(indent)) + Closing(es == [], indent, CLOSE_CURLY))
  }

  function Separator(first: bool, indent: int): seq<Byte> {
    (if first then [] else [COMMA]) + Indent(indent)
  }

  function Closing(empty: bool, indent: int, close: Byte): seq<Byte> {
    (if empty then [] else Indent(indent)) + [close]
  }

  function PrintElems(xs: seq<Value>, first: bool, indent: int): seq<Byte>
    decreases xs, 0
  {
    if xs == [] then []
    else Separator(first, indent) + (Print(xs[0], indent) + PrintElems(xs[1..], false, indent))
  }

  function PrintMembers(es: seq<Entry>, first: bool, indent: int): seq<Byte>
    decreases es, 0
  {
    if es == [] then []
    else Separator(first, indent) + (PrintMember(es[0], indent) + PrintMembers(es[1..], false, indent))
  }

  function PrintMember(e: Entry, indent: int): seq<Byte>
    decreases e, 0
  {
    PrintStr(e.key) + ((if indent < 0 then [COLON] else [COLON, SPACE]) + Print(e.value, indent))
  }

  /** serialise(prettify) */
  function Serialise(v: Value, prettify: bool): seq<Byte> {
    if prettify then Print(v, 0) + [NEWLINE] else Print(v, -1)
  }

  // ---------------------------------------------------------------- the parser

  predicate IsWs(c: Byte) {
    c == SPACE || c == 9 || c == NEWLINE || c == 13
  }

  function SkipWs(s: seq<Byte>): (r: seq<Byte>)
    ensures |r| <= |s|
    ensures r != [] ==> !IsWs(r[0])
  {
    if s != [] && IsWs(s[0]) then SkipWs(s[1..]) else s
  }

  lemma {:induction false} SkipWsTwice(s: seq<Byte>)
    ensures SkipWs(SkipWs(s)) == SkipWs(s)
  {
    if s != [] && IsWs(s[0]) {
      SkipWsTwice(s[1..]);
    }
  }

  /** expect(c): whether the next byte after white space is c. */
  predicate Sees(s: seq<Byte>, c: Byte) {
    var r := SkipWs(s); r != [] && r[0] == c
  }

  function After(s: seq<Byte>): (r: seq<Byte>)
    requires SkipWs(s) != []
    ensures |r| < |s|
  {
    SkipWs(s)[1..]
  }

  /** The value of a hexadecimal digit, or -1. */
  function HexValue(c: Byte): (d: int)
    ensures -1 <= d < 16
  {
    if 48 <= c <= 57 then c - 48
    else if 65 <= c <= 70 then c - 55
    else if 97 <= c <= 102 then c - 87
    else -1
  }

  /** _parse_quadhex */
  function ParseQuadHex(s: seq<Byte>): (p: Parsed<nat>)
    ensures p.Ok? ==> |p.rest| < |s| && p.value < 0x10000
  {
    if |s| < 4 || HexValue(s[0]) < 0 || HexValue(s[1]) < 0 || HexValue(s[2]) < 0 || HexValue(s[3]) < 0 then Fail
    else Ok(((HexValue(s[0]) * 16 + HexValue(s[1])) * 16 + HexValue(s[2])) * 16 + HexValue(s[3]), s[4..])
  }

  /** _parse_codepoint: what follows \u, surrogate pairs included. */
  function ParseCodepoint(s: seq<Byte>): (p: Parsed<seq<Byte>>)
    ensures p.Ok? ==> |p.rest| < |s|
  {
    match ParseQuadHex(s)
    case Fail => Fail
    case Ok(u, r) =>
      if 0xDC00 <= u <= 0xDFFF then Fail
      else if 0xD800 <= u < 0xDC00 then
        if |r| < 2 || r[0] != BACKSLASH || r[1] != 117 then Fail
        else match ParseQuadHex(r[2..])
          case Fail => Fail
          case Ok(second, r') =>
            if 0xDC00 <= second <= 0xDFFF
            then Ok(Utf8.EncodeChar((u - 0xD800) * 0x400 + (second - 0xDC00) + 0x10000), r')
            else Fail
      else Ok(Utf8.EncodeChar(u), r)
  }

  /** What a backslash and this byte stand for, \u aside. */
  function Unescape(c: Byte): seq<Byte> {
    if c == QUOTE || c == BACKSLASH || c == SLASH then [c]
    else if c == 98 then [8]
    else if c == 102 then [12]
    else if c == 110 then [10]
    else if c == 114 then [13]
    else if c == 116 then [9]
    else []
  }

  /** _parse_string, after the opening quote. */
  function ParseStr(s: seq<Byte>): (p: Parsed<seq<Byte>>)
    ensures p.Ok? ==> |p.rest| < |s|
    decreases |s|
  {
    if s == [] || s[0] < SPACE then Fail
    else if s[0] == QUOTE then Ok([], s[1..])
    else if s[0] != BACKSLASH then Prepend([s[0]], ParseStr(s[1..]))
    else if |s| < 2 then Fail
    else if s[1] == 117 then
      match ParseCodepoint(s[2..])
      case Fail => Fail
      case Ok(bytes, r) => Prepend(bytes, ParseStr(r))
    else if Unescape(s[1]) == [] then Fail
    else Prepend(Unescape(s[1]), ParseStr(s[2..]))
  }

  function Prepend(bytes: seq<Byte>, p: Parsed<seq<Byte>>): Parsed<seq<Byte>> {
    if p.Fail? then Fail else Ok(bytes + p.value, p.rest)
  }

  lemma PrependNothing(p: Parsed<seq<Byte>>)
    ensures Prepend([], p) == p
  {
    if p.Ok? {
      assert [] + p.value == p.value;
    }
  }

  lemma PrependTwice(a: seq<Byte>, b: seq<Byte>, p: Parsed<seq<Byte>>)
    ensures Prepend(a, Prepend(b, p)) == Prepend(a + b, p)
  {
    if p.Ok? {
      assert a + (b + p.value) == (a + b) + p.value;
    }
  }

  predicate IsNumeric(c: Byte) {
    48 <= c <= 57 || c == 43 || c == MINUS || c == 101 || c == 69 || c == 46
  }

  /** _parse_number: the longest run of bytes that can occur in a number. */
  function NumberText(s: seq<Byte>): (t: seq<Byte>)
    ensures |t| <= |s| && t == s[..|t|]
    ensures s != [] && IsNumeric(s[0]) ==> t != []
  {
    if s == [] || !IsNumeric(s[0]) then [] else [s[0]] + NumberText(s[1..])
  }

  predicate AllDigits(t: seq<Byte>) {
    forall i :: 0 <= i < |t| ==> 48 <= t[i] <= 57
  }

  function DigitsValue(t: seq<Byte>): nat
    requires AllDigits(t)
  {
    if t == [] then 0 else 10 * DigitsValue(t[..|t| - 1]) + (t[|t| - 1] - 48)
  }

  /** strtoimax on the whole text; what is no 64-bit integer would be a double, and is not modelled. */
  function ParseInt(t: seq<Byte>): Parsed<int> {
    var d := if t != [] && t[0] == MINUS then t[1..] else t;
    if d == [] || !AllDigits(d) then Fail
    else
      var i: int := if t[0] == MINUS then -(DigitsValue(d) as int) else DigitsValue(d);
      if IsInt64(i) then Ok(i, []) else Fail
  }

  function Literal(s: seq<Byte>, text: seq<Byte>, v: Value): (p: Parsed<Value>)
    requires text != []
    ensures p.Ok? ==> |p.rest| < |s|
  {
    if text <= s then Ok(v, s[|text|..]) else Fail
  }

  /** What follows the next newline. */
  function AfterLine(s: seq<Byte>): (r: Option<seq<Byte>>)
    ensures r.Some? ==> |r.value| < |s|
  {
    if s == [] then None else if s[0] == NEWLINE then Some(s[1..]) else AfterLine(s[1..])
  }

  /**
    The comment loop before elements, members and closing brackets: two slashes, with white space between
    them or not, and the rest of the line.  A slash alone is swallowed.  A comment that runs to the end of
    the text is a failure; there the original reads on past the end.
   */
  function SkipComments(s: seq<Byte>): (r: Option<seq<Byte>>)
    ensures r.Some? ==> |r.value| <= |s| && SkipWs(r.value) == r.value
    decreases |s|
  {
    if !Sees(s, SLASH) then
      SkipWsTwice(s);
      Some(SkipWs(s))
    else if !Sees(After(s), SLASH) then
      SkipWsTwice(After(s));
      Some(SkipWs(After(s)))
    else
      match AfterLine(After(After(s)))
      case None => None
      case Some(r) => SkipComments(r)
  }

  /** What follows the closing bracket that ends a list, comments before it aside. */
  function Closed(s: seq<Byte>, close: Byte): (r: Option<seq<Byte>>)
    ensures r.Some? ==> |r.value| < |s|
  {
    match SkipComments(s)
    case None => None
    case Some(t) => if Sees(t, close) then Some(After(t)) else None
  }

  /** _parse.  A comment in place of a value never ends well: the slash is looked at again and again. */
  function ParseValue(s: seq<Byte>): (p: Parsed<Value>)
    ensures p.Ok? ==> |p.rest| < |s|
    decreases |s|, 0
  {
    var t := SkipWs(s);
    if t == [] then Fail
    else if t[0] == NULL_TEXT[0] then Literal(t, NULL_TEXT, Null)
    else if t[0] == FALSE_TEXT[0] then Literal(t, FALSE_TEXT, Bool(false))
    else if t[0] == TRUE_TEXT[0] then Literal(t, TRUE_TEXT, Bool(true))
    else if t[0] == QUOTE then
      match ParseStr(t[1..])
      case Fail => Fail
      case Ok(str, r) => Ok(Str(str), r)
    else if t[0] == OPEN_SQUARE then
      if Sees(t[1..], CLOSE_SQUARE) then Ok(Arr([]), After(t[1..]))
      else match ParseElems(t[1..])
        case Fail => Fail
        case Ok(xs, r) => Ok(Arr(xs), r)
    else if t[0] == OPEN_CURLY then
      if Sees(t[1..], CLOSE_CURLY) then Ok(Obj([]), After(t[1..]))
      else match ParseMembers(t[1..], [])
        case Fail => Fail
        case Ok(es, r) => Ok(Obj(es), r)
    else if 48 <= t[0] <= 57 || t[0] == MINUS then
      var text := NumberText(t);
      match ParseInt(text)
      case Fail => Fail
      case Ok(i, _) => Ok(Int(i), t[|text|..])
    else Fail
  }

  /** The loop of _parse_array, up to and with the closing bracket. */
  function ParseElems(s: seq<Byte>): (p: Parsed<seq<Value>>)
    ensures p.Ok? ==> |p.rest| < |s|
    decreases |s|, 1
  {
    match SkipComments(s)
    case None => Fail
    case Some(t) =>
      match ParseValue(t)
      case Fail => Fail
      case Ok(v, r) =>
        if Sees(r, COMMA) then
          match ParseElems(After(r))
          case Fail => Fail
          case Ok(vs, r') => Ok([v] + vs, r')
        else
          match Closed(r, CLOSE_SQUARE)
          case None => Fail
          case Some(end) => Ok([v], end)
  }

  /** A key, a colon and a value. */
  function ParseMember(s: seq<Byte>): (p: Parsed<Entry>)
    ensures p.Ok? ==> |p.rest| < |s|
    decreases |s|, 1
  {
    if !Sees(s, QUOTE) then Fail
    else match ParseStr(After(s))
      case Fail => Fail
      case Ok(key, r) =>
        if !Sees(r, COLON) then Fail
        else match ParseValue(After(r))
          case Fail => Fail
          case Ok(v, r') => Ok(Entry(key, v), r')
  }

  /** The loop of _parse_object; each member goes into the entries read before it. */
  function ParseMembers(s: seq<Byte>, es: seq<Entry>): (p: Parsed<seq<Entry>>)
    ensures p.Ok? ==> |p.rest| < |s|
    decreases |s|, 2
  {
    match SkipComments(s)
    case None => Fail
    case Some(t) =>
      match ParseMember(t)
      case Fail => Fail
      case Ok(e, r) =>
        if Sees(r, COMMA) then ParseMembers(After(r), Insert(es, e.key, e.value))
        else
          match Closed(r, CLOSE_CURLY)
          case None => Fail
          case Some(end) => Ok(Insert(es, e.key, e.value), end)
  }
}
