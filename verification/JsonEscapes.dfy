/**
  Strings as section 7 of RFC 8259 allows them to be written, escapes and surrogate pairs included, against the parser.
 */
module JsonEscapes {
  import opened Bytes
  import opened Json
  import opened Options
  import opened Results
  import opened Sequences

  // ---------------------------------------------------------------- how a character may be written

  const HIGH_SURROGATES: nat := 0xD800
  const LOW_SURROGATES: nat := 0xDC00

  /** The UTF-16 code units of a scalar value: itself, or a high and a low surrogate. */
  function Units(u: nat): (units: seq<nat>)
    requires Utf8.IsScalar(u)
  {
    if u < 0x10000 then [u]
    else [HIGH_SURROGATES + (u - 0x10000) / 0x400, LOW_SURROGATES + (u - 0x10000) % 0x400]
  }

  /** A hexadecimal digit of this value, in either case. */
  predicate IsDigitFor(c: Byte, d: int) {
    || (0 <= d < 10 && c == '0' as int + d)
    || (10 <= d < 16 && (c == 'A' as int + (d - 10) || c == 'a' as int + (d - 10)))
  }

  predicate IsQuadHex(h: seq<Byte>, unit: nat) {
    && |h| == 4
    && IsDigitFor(h[0], unit / 0x1000) && IsDigitFor(h[1], unit / 0x100 % 0x10)
    && IsDigitFor(h[2], unit / 0x10 % 0x10) && IsDigitFor(h[3], unit % 0x10)
  }

  /** A backslash, a u and four digits. */
  predicate IsUnitEscape(e: seq<Byte>, unit: nat) {
    |e| == 6 && e[0] == '\\' as int && e[1] == 'u' as int && IsQuadHex(e[2..], unit)
  }

  predicate IsLongEscape(e: seq<Byte>, u: nat)
    requires Utf8.IsScalar(u)
  {
    var units := Units(u);
    if |units| == 1 then IsUnitEscape(e, units[0])
    else |e| == 12 && IsUnitEscape(e[..6], units[0]) && IsUnitEscape(e[6..], units[1])
  }

  /** The escapes of two characters. */
  predicate IsShortEscape(e: seq<Byte>, u: nat) {
    |e| == 2 && e[0] == '\\' as int &&
    match u
    case 0x22 => e[1] == '\"' as int
    case 0x5C => e[1] == '\\' as int
    case 0x2F => e[1] == '/' as int
    case 0x08 => e[1] == 'b' as int
    case 0x0C => e[1] == 'f' as int
    case 0x0A => e[1] == 'n' as int
    case 0x0D => e[1] == 'r' as int
    case 0x09 => e[1] == 't' as int
    case _ => false
  }

  /** Characters that may stand for themselves, in UTF-8. */
  predicate IsUnescaped(e: seq<Byte>, u: nat) {
    u >= 0x20 && u != 0x22 && u != 0x5C && e == Utf8.EncodeChar(u)
  }

  predicate Writes(e: seq<Byte>, u: int) {
    Utf8.IsScalar(u) && (IsUnescaped(e, u) || IsShortEscape(e, u) || IsLongEscape(e, u))
  }

  // ---------------------------------------------------------------- what the parser makes of it

  lemma DigitRead(c: Byte, d: int)
    ensures IsDigitFor(c, d) <==> HexValue(c) == d >= 0
  {
  }

  lemma FourDigits(unit: nat)
    requires unit < 0x10000
    ensures ((unit / 0x1000 * 16 + unit / 0x100 % 0x10) * 16 + unit / 0x10 % 0x10) * 16 + unit % 0x10 == unit
  {
    assert unit / 0x100 == unit / 0x10 / 0x10 && unit / 0x1000 == unit / 0x100 / 0x10;
  }

  lemma QuadHexRead(h: seq<Byte>, unit: nat, more: seq<Byte>)
    requires unit < 0x10000 && IsQuadHex(h, unit)
    ensures ParseQuadHex(h + more) == Ok(unit, more)
  {
    var s := h + more;
    assert s[0] == h[0] && s[1] == h[1] && s[2] == h[2] && s[3] == h[3] && s[4..] == more;
    DigitRead(h[0], unit / 0x1000);
    DigitRead(h[1], unit / 0x100 % 0x10);
    DigitRead(h[2], unit / 0x10 % 0x10);
    DigitRead(h[3], unit % 0x10);
    FourDigits(unit);
    hide HexValue;
    hide IsDigitFor;
  }

  /** Four digits are read only if they are there. */
  lemma QuadHexIsThere(s: seq<Byte>)
    requires ParseQuadHex(s).Ok?
    ensures |s| >= 4 && IsQuadHex(s[..4], ParseQuadHex(s).value)
  {
    var a, b, c, d := HexValue(s[0]), HexValue(s[1]), HexValue(s[2]), HexValue(s[3]);
    DigitRead(s[0], a);
    DigitRead(s[1], b);
    DigitRead(s[2], c);
    DigitRead(s[3], d);
    DigitsOfFour(a, b, c, d);
    hide HexValue;
    hide IsDigitFor;
  }

  lemma DigitsOfFour(a: nat, b: nat, c: nat, d: nat)
    requires a < 16 && b < 16 && c < 16 && d < 16
    ensures var v := ((a * 16 + b) * 16 + c) * 16 + d;
      v / 0x1000 == a && v / 0x100 % 0x10 == b && v / 0x10 % 0x10 == c && v % 0x10 == d
  {
    var v := ((a * 16 + b) * 16 + c) * 16 + d;
    assert v / 0x10 == (a * 16 + b) * 16 + c;
    assert v / 0x100 == a * 16 + b;
  }

  lemma PairOfUnits(u: nat)
    requires 0x10000 <= u < 0x110000
    ensures var units := Units(u);
      && HIGH_SURROGATES <= units[0] < LOW_SURROGATES <= units[1] < 0xE000
      && (units[0] - 0xD800) * 0x400 + (units[1] - 0xDC00) + 0x10000 == u
  {
  }

  /** One escape, or two that make a pair, give the UTF-8 of the character. */
  lemma LongEscapeRead(e: seq<Byte>, u: nat, more: seq<Byte>)
    requires Utf8.IsScalar(u) && IsLongEscape(e, u)
    ensures ParseStr(e + more) == Prepend(Utf8.EncodeChar(u), ParseStr(more))
  {
    hide Utf8.EncodeChar;
    hide ParseQuadHex;
    hide IsQuadHex;
    var s := e + more;
    if u < 0x10000 {
      QuadHexRead(e[2..], u, more);
      assert s[2..] == e[2..] + more;
    } else {
      PairOfUnits(u);
      var units := Units(u);
      var low := e[6..];
      QuadHexRead(e[2..6], units[0], low + more);
      QuadHexRead(low[2..], units[1], more);
      assert e[..6][2..] == e[2..6];
      assert s[2..] == e[2..6] + (low + more);
      assert (low + more)[2..] == low[2..] + more;
    }
  }

  lemma ShortEscapeRead(e: seq<Byte>, u: nat, more: seq<Byte>)
    requires Utf8.IsScalar(u) && IsShortEscape(e, u)
    ensures ParseStr(e + more) == Prepend(Utf8.EncodeChar(u), ParseStr(more))
  {
    var s := e + more;
    assert s[0] == e[0] && s[1] == e[1] && s[2..] == more;
  }

  lemma PlainByteRead(b: Byte, more: seq<Byte>)
    requires b >= SPACE && b != QUOTE && b != BACKSLASH
    ensures ParseStr([b] + more) == Prepend([b], ParseStr(more))
  {
    assert ([b] + more)[1..] == more;
  }

  /** Bytes that are neither quotes nor backslashes nor controls stand for themselves. */
  lemma {:induction false} PlainBytesRead(e: seq<Byte>, more: seq<Byte>)
    requires forall i :: 0 <= i < |e| ==> e[i] >= SPACE && e[i] != QUOTE && e[i] != BACKSLASH
    ensures ParseStr(e + more) == Prepend(e, ParseStr(more))
  {
    hide ParseStr;
    hide Prepend;
    if e == [] {
      assert e + more == more;
      PrependNothing(ParseStr(more));
    } else {
      PlainBytesRead(e[1..], more);
      PlainByteRead(e[0], e[1..] + more);
      assert e == [e[0]] + e[1..];
      Assoc([e[0]], e[1..], more);
      PrependTwice([e[0]], e[1..], ParseStr(more));
    }
  }

  lemma UnescapedRead(e: seq<Byte>, u: nat, more: seq<Byte>)
    requires Utf8.IsScalar(u) && IsUnescaped(e, u)
    ensures ParseStr(e + more) == Prepend(Utf8.EncodeChar(u), ParseStr(more))
  {
    PlainBytesRead(e, more);
  }

  lemma CharacterRead(e: seq<Byte>, u: int, more: seq<Byte>)
    requires Writes(e, u)
    ensures ParseStr(e + more) == Prepend(Utf8.EncodeChar(u), ParseStr(more))
  {
    hide ParseStr;
    hide Utf8.EncodeChar;
    hide IsLongEscape;
    hide IsShortEscape;
    if IsUnescaped(e, u) {
      UnescapedRead(e, u, more);
    } else if IsShortEscape(e, u) {
      ShortEscapeRead(e, u, more);
    } else {
      LongEscapeRead(e, u, more);
    }
  }

  function Written(es: seq<seq<Byte>>): seq<Byte> {
    if es == [] then [] else es[0] + Written(es[1..])
  }

  /**
    Main result on strings: however its characters are written, a text up to its closing quote is read as the
    UTF-8 of these characters, and what follows is left.
   */
  lemma {:induction false} TextRead(es: seq<seq<Byte>>, text: seq<int>, rest: seq<Byte>)
    requires |es| == |text| && forall i :: 0 <= i < |es| ==> Writes(es[i], text[i])
    ensures ParseStr(Written(es) + ([QUOTE] + rest)) == Ok(Utf8.EncodeAll(text, false), rest)
    ensures Utf8.DecodeAll(Utf8.EncodeAll(text, false), false) == Some(text)
    decreases |es|
  {
    hide Writes;
    hide Utf8.DecodeAll;
    hide Utf8.EncodeChar;
    assert Utf8.IsText(text, false) by {
      forall i | 0 <= i < |text|
        ensures Utf8.IsScalar(text[i])
      {
        WritesScalar(es[i], text[i]);
      }
    }
    Utf8.EncodedTextReadsBack(text, false);
    if es == [] {
      assert Written(es) + ([QUOTE] + rest) == [QUOTE] + rest;
      assert ([QUOTE] + rest)[1..] == rest;
    } else {
      hide ParseStr;
      TextRead(es[1..], text[1..], rest);
      CharacterRead(es[0], text[0], Written(es[1..]) + ([QUOTE] + rest));
      Assoc(es[0], Written(es[1..]), [QUOTE] + rest);
    }
  }

  lemma WritesScalar(e: seq<Byte>, u: int)
    requires Writes(e, u)
    ensures Utf8.IsScalar(u)
  {
  }

  // ---------------------------------------------------------------- surrogates that make no pair

  /** A low surrogate is the escape that comes next. */
  ghost predicate LowSurrogateFollows(s: seq<Byte>) {
    |s| >= 6 && exists low :: LOW_SURROGATES <= low < 0xE000 && IsUnitEscape(s[..6], low)
  }

  /** A surrogate is read only as the first half of a pair: alone, reversed or doubled it fails. */
  lemma SurrogatesMustPair(e: seq<Byte>, unit: nat, more: seq<Byte>)
    requires IsUnitEscape(e, unit) && HIGH_SURROGATES <= unit < 0xE000
    ensures ParseCodepoint(e[2..] + more).Ok? <==> unit < LOW_SURROGATES && LowSurrogateFollows(more)
    ensures ParseCodepoint(e[2..] + more).Fail? ==> ParseStr(e + more).Fail?
  {
    hide Utf8.EncodeChar;
    QuadHexRead(e[2..], unit, more);
    hide IsQuadHex;
    hide ParseQuadHex;
    assert (e + more)[2..] == e[2..] + more && (e + more)[0] == e[0] && (e + more)[1] == e[1];
    if unit < LOW_SURROGATES {
      if LowSurrogateFollows(more) {
        var low :| LOW_SURROGATES <= low < 0xE000 && IsUnitEscape(more[..6], low);
        QuadHexRead(more[..6][2..], low, more[6..]);
        assert more[2..] == more[..6][2..] + more[6..];
      }
      if ParseCodepoint(e[2..] + more).Ok? {
        QuadHexIsThere(more[2..]);
        assert more[..6][2..] == more[2..][..4];
        assert IsUnitEscape(more[..6], ParseQuadHex(more[2..]).value);
      }
    }
  }

  // ---------------------------------------------------------------- exactly what is accepted

  /** A byte that stands for itself, or an escape with the UTF-8 of its character; bytes need not be UTF-8. */
  ghost predicate IsPiece(e: seq<Byte>, v: seq<Byte>) {
    || (|e| == 1 && e[0] >= 0x20 && e[0] != 0x22 && e[0] != 0x5C && v == e)
    || (exists u: nat :: Escapes(e, u) && v == Utf8.EncodeChar(u))
  }

  predicate Escapes(e: seq<Byte>, u: nat) {
    Utf8.IsScalar(u) && (IsShortEscape(e, u) || IsLongEscape(e, u))
  }

  ghost predicate IsStringText(t: seq<Byte>, s: seq<Byte>)
    decreases |t|
  {
    if t == [] then s == []
    else exists e: seq<Byte>, v: seq<Byte>, t': seq<Byte>, s': seq<Byte> ::
      t == e + t' && e != [] && s == v + s' && IsPiece(e, v) && IsStringText(t', s')
  }

  lemma PieceRead(e: seq<Byte>, v: seq<Byte>, more: seq<Byte>)
    requires IsPiece(e, v)
    ensures ParseStr(e + more) == Prepend(v, ParseStr(more))
  {
    hide ParseStr;
    hide Utf8.EncodeChar;
    hide IsLongEscape;
    hide IsShortEscape;
    if |e| == 1 && e[0] >= 0x20 && e[0] != 0x22 && e[0] != 0x5C && v == e {
      PlainBytesRead(e, more);
    } else {
      var u: nat :| Escapes(e, u) && v == Utf8.EncodeChar(u);
      CharacterRead(e, u, more);
    }
  }

  lemma {:induction false} StringAccepted(t: seq<Byte>, s: seq<Byte>, rest: seq<Byte>)
    requires IsStringText(t, s)
    ensures ParseStr(t + ([QUOTE] + rest)) == Ok(s, rest)
    decreases |t|
  {
    hide IsPiece;
    if t == [] {
      assert t + ([QUOTE] + rest) == [QUOTE] + rest;
      assert ([QUOTE] + rest)[1..] == rest;
    } else {
      hide ParseStr;
      var e: seq<Byte>, v: seq<Byte>, t': seq<Byte>, s': seq<Byte> :|
        t == e + t' && e != [] && s == v + s' && IsPiece(e, v) && IsStringText(t', s');
      StringAccepted(t', s', rest);
      PieceRead(e, v, t' + ([QUOTE] + rest));
      Assoc(e, t', [QUOTE] + rest);
    }
  }

  /** The first escape or byte of a string that is accepted. */
  lemma FirstPiece(x: seq<Byte>) returns (e: seq<Byte>, v: seq<Byte>, more: seq<Byte>)
    requires ParseStr(x).Ok? && x[0] != QUOTE
    ensures e != [] && x == e + more && IsPiece(e, v) && ParseStr(x) == Prepend(v, ParseStr(more))
  {
    hide Utf8.EncodeChar;
    hide ParseCodepoint;
    if x[0] != BACKSLASH {
      e, v, more := x[..1], [x[0]], x[1..];
      assert e == [x[0]];
    } else if x[1] == 117 {
      var u, n := FirstLongEscape(x);
      e, v, more := x[..n], Utf8.EncodeChar(u), x[n..];
      assert Escapes(e, u);
    } else {
      var u := ShortEscapeOf(x[1]);
      e, v, more := x[..2], Unescape(x[1]), x[2..];
      assert IsShortEscape(e, u);
      assert Escapes(e, u);
    }
  }

  lemma ShortEscapeOf(c: Byte) returns (u: nat)
    requires Unescape(c) != []
    ensures Utf8.IsScalar(u) && IsShortEscape([BACKSLASH, c], u) && Utf8.EncodeChar(u) == Unescape(c)
    ensures forall e: seq<Byte> :: |e| == 2 && e[0] == BACKSLASH && e[1] == c ==> IsShortEscape(e, u)
  {
    u := Unescape(c)[0];
  }

  lemma FirstLongEscape(x: seq<Byte>) returns (u: nat, n: nat)
    requires |x| >= 2 && x[0] == BACKSLASH && x[1] == 117 && ParseCodepoint(x[2..]).Ok?
    ensures n <= |x| && Utf8.IsScalar(u) && IsLongEscape(x[..n], u)
    ensures ParseCodepoint(x[2..]) == Ok(Utf8.EncodeChar(u), x[n..])
  {
    hide Utf8.EncodeChar;
    hide IsQuadHex;
    hide ParseQuadHex;
    var s := x[2..];
    QuadHexIsThere(s);
    var first := ParseQuadHex(s).value;
    QuadHexRest(s);
    if first < 0xD800 || first >= 0xE000 {
      u, n := first, 6;
      assert x[..6][2..] == s[..4];
    } else {
      var low := s[4..][2..];
      QuadHexIsThere(low);
      QuadHexRest(low);
      var second := ParseQuadHex(low).value;
      u, n := (first - 0xD800) * 0x400 + (second - 0xDC00) + 0x10000, 12;
      UnitsOfPair(first, second);
      assert x[..12][..6][2..] == s[..4] && x[..12][6..][2..] == low[..4];
      assert x[..12][6..][0] == s[4..][0] && x[..12][6..][1] == s[4..][1];
    }
  }

  lemma QuadHexRest(s: seq<Byte>)
    requires ParseQuadHex(s).Ok?
    ensures |s| >= 4 && ParseQuadHex(s).rest == s[4..]
  {
  }

  lemma UnitsOfPair(high: nat, low: nat)
    requires 0xD800 <= high < 0xDC00 <= low < 0xE000
    ensures var u := (high - 0xD800) * 0x400 + (low - 0xDC00) + 0x10000;
      0x10000 <= u < 0x110000 && Units(u) == [high, low]
  {
  }

  lemma {:induction false} AcceptedString(x: seq<Byte>) returns (t: seq<Byte>)
    requires ParseStr(x).Ok?
    ensures IsStringText(t, ParseStr(x).value) && x == t + ([QUOTE] + ParseStr(x).rest)
    decreases |x|
  {
    hide IsPiece;
    hide Unescape;
    hide ParseCodepoint;
    if x[0] == QUOTE {
      t := [];
      assert x == [] + ([QUOTE] + x[1..]);
    } else {
      var e, v, more := FirstPiece(x);
      var t' := AcceptedString(more);
      t := e + t';
      Assoc(e, t', [QUOTE] + ParseStr(x).rest);
    }
  }

  /** Main result: a string is accepted exactly if it is made of such pieces up to a quote, and is what they stand for. */
  lemma AcceptsExactlyStrings(x: seq<Byte>, s: seq<Byte>, rest: seq<Byte>)
    ensures ParseStr(x) == Ok(s, rest) <==> exists t: seq<Byte> :: IsStringText(t, s) && x == t + ([QUOTE] + rest)
  {
    hide ParseStr;
    hide IsStringText;
    if ParseStr(x) == Ok(s, rest) {
      var t := AcceptedString(x);
    }
    if t: seq<Byte> :| IsStringText(t, s) && x == t + ([QUOTE] + rest) {
      StringAccepted(t, s, rest);
    }
  }
}
