/**
  Grapheme cluster boundaries: the one-variable state machine, and the look-back rules of UAX #29
  that it must reproduce.
 */
module Grapheme {

  /** The boundary classes, in the order of their numbers. */
  datatype BoundClass =
    | Start | Other | CR | LF | Control | Extend | L | V | T | LV | LVT | RegionalIndicator
    | SpacingMark | Prepend | ZWJ | EBase | EModifier | GlueAfterZwj | EBaseGaz
    | ExtendedPictographic | EZwg

  /** Start and E_ZWG are states of the machine, not classes of code points. */
  predicate IsCodePointClass(c: BoundClass) {
    c != Start && c != EZwg
  }

  predicate IsControl(c: BoundClass) {
    c in {CR, LF, Control}
  }

  /** grapheme_break_simple */
  predicate BreakSimple(lbc: BoundClass, tbc: BoundClass) {
    if lbc == Start then true                                                       // GB1
    else if lbc == CR && tbc == LF then false                                       // GB3
    else if IsControl(lbc) then true                                                // GB4
    else if IsControl(tbc) then true                                                // GB5
    else if lbc == L && tbc in {L, V, LV, LVT} then false                           // GB6
    else if lbc in {LV, V} && tbc in {V, T} then false                              // GB7
    else if lbc in {LVT, T} && tbc == T then false                                  // GB8
    else if tbc in {Extend, ZWJ, SpacingMark} || lbc == Prepend then false          // GB9, GB9a, GB9b
    else if lbc == EZwg && tbc == ExtendedPictographic then false                   // GB11
    else if lbc == RegionalIndicator && tbc == RegionalIndicator then false         // GB12, GB13
    else true                                                                       // GB999
  }

  /** grapheme_break_extended, with the state that the decomposition loop hands on from class to class. */
  function NextState(state: BoundClass, tbc: BoundClass): BoundClass {
    if state == tbc && tbc == RegionalIndicator then Other
    else if state == ExtendedPictographic then
      if tbc == Extend then ExtendedPictographic
      else if tbc == ZWJ then EZwg
      else tbc
    else tbc
  }

  // ---------------------------------------------------------------- the rules, by looking back

  /** The text ends in an emoji and any number of extending code points. */
  predicate EndsInEmojiExtend(c: seq<BoundClass>) {
    c != [] && var last := c[|c| - 1];
    last == ExtendedPictographic || (last == Extend && EndsInEmojiExtend(c[..|c| - 1]))
  }

  /** How many regional indicators the text ends in. */
  function TrailingIndicators(c: seq<BoundClass>): nat {
    if c == [] || c[|c| - 1] != RegionalIndicator then 0 else 1 + TrailingIndicators(c[..|c| - 1])
  }

  /** UAX #29: whether there is a boundary between the text before and the class after it. */
  predicate Boundary(before: seq<BoundClass>, r: BoundClass) {
    if before == [] then true                                                             // GB1
    else
      var l := before[|before| - 1];
      if l == CR && r == LF then false                                                    // GB3
      else if IsControl(l) || IsControl(r) then true                                      // GB4, GB5
      else if l == L && (r == L || r == V || r == LV || r == LVT) then false              // GB6
      else if (l == LV || l == V) && (r == V || r == T) then false                        // GB7
      else if (l == LVT || l == T) && r == T then false                                   // GB8
      else if r == Extend || r == ZWJ then false                                          // GB9
      else if r == SpacingMark then false                                                 // GB9a
      else if l == Prepend then false                                                     // GB9b
      else if r == ExtendedPictographic && l == ZWJ && EndsInEmojiExtend(before[..|before| - 1]) then false // GB11
      else if r == RegionalIndicator && TrailingIndicators(before) % 2 == 1 then false    // GB12, GB13
      else true                                                                           // GB999
  }

  // ---------------------------------------------------------------- the machine knows enough

  /** What the one variable remembers of the text so far. */
  function Remembered(c: seq<BoundClass>): BoundClass {
    if c == [] then Start
    else
      var last, front := c[|c| - 1], c[..|c| - 1];
      if last == RegionalIndicator then (if TrailingIndicators(c) % 2 == 1 then RegionalIndicator else Other)
      else if last == Extend && EndsInEmojiExtend(c) then ExtendedPictographic
      else if last == ZWJ && EndsInEmojiExtend(front) then EZwg
      else last
  }

  lemma StepRemembers(c: seq<BoundClass>, tbc: BoundClass)
    requires IsCodePointClass(tbc)
    requires forall i :: 0 <= i < |c| ==> IsCodePointClass(c[i])
    ensures NextState(Remembered(c), tbc) == Remembered(c + [tbc])
  {
    var d := c + [tbc];
    assert d[..|c|] == c && d[|c|] == tbc;
    assert c != [] ==> IsCodePointClass(c[|c| - 1]);
    assert Remembered(c) == ExtendedPictographic <==> EndsInEmojiExtend(c);
    assert Remembered(c) == RegionalIndicator <==> TrailingIndicators(c) % 2 == 1;
    if tbc == RegionalIndicator {
      assert TrailingIndicators(d) == 1 + TrailingIndicators(c);
    } else if tbc == Extend {
      assert EndsInEmojiExtend(d) == EndsInEmojiExtend(c);
    }
  }

  lemma StateDecides(c: seq<BoundClass>, tbc: BoundClass)
    requires IsCodePointClass(tbc)
    requires forall i :: 0 <= i < |c| ==> IsCodePointClass(c[i])
    ensures BreakSimple(Remembered(c), tbc) == Boundary(c, tbc)
  {
    if c == [] {
      assert Remembered(c) == Start;
      assert BreakSimple(Start, tbc);
      assert Boundary(c, tbc);
    } else {
      var l, front := c[|c| - 1], c[..|c| - 1];
      assert IsCodePointClass(l);
      if l == RegionalIndicator {
        assert TrailingIndicators(c) >= 1;
      } else if l == Extend && EndsInEmojiExtend(c) {
        assert Remembered(c) == ExtendedPictographic;
      } else if l == ZWJ && EndsInEmojiExtend(front) {
        assert Remembered(c) == EZwg;
      } else {
        assert Remembered(c) == l;
      }
    }
  }

  lemma NothingRemembered(classes: seq<BoundClass>)
    ensures Remembered(classes[..0]) == Start
  {
  }

  /**
    The machine run over the classes of a text, from the start state, breaks before a code point
    exactly where the rules say.
   */
  method Breaks(classes: seq<BoundClass>) returns (breaks: seq<bool>)
    requires forall i :: 0 <= i < |classes| ==> IsCodePointClass(classes[i])
    ensures |breaks| == |classes|
    ensures forall i :: 0 <= i < |classes| ==> breaks[i] == Boundary(classes[..i], classes[i])
  {
    hide Boundary;
    hide BreakSimple;
    hide NextState;
    hide Remembered;
    NothingRemembered(classes);
    breaks := [];
    var state := Start;
    for i := 0 to |classes|
      invariant |breaks| == i
      invariant forall j :: 0 <= j < i ==> breaks[j] == Boundary(classes[..j], classes[j])
      invariant state == Remembered(classes[..i])
    {
      var tbc := classes[i];
      StateDecides(classes[..i], tbc);
      StepRemembers(classes[..i], tbc);
      assert classes[..i] + [tbc] == classes[..i + 1];
      breaks := breaks + [BreakSimple(state, tbc)];
      state := NextState(state, tbc);
    }
  }

  // ---------------------------------------------------------------- what that means for long texts

  lemma {:induction false} IndicatorsInRun(n: nat)
    ensures TrailingIndicators(seq(n, _ => RegionalIndicator)) == n
  {
    if n > 0 {
      assert seq(n, _ => RegionalIndicator)[..n - 1] == seq(n - 1, _ => RegionalIndicator);
      IndicatorsInRun(n - 1);
    }
  }

  /** In a run of regional indicators of any length there is a break before every second one. */
  lemma FlagsPairUp(n: nat)
    ensures Boundary(seq(n, _ => RegionalIndicator), RegionalIndicator) <==> n % 2 == 0
  {
    IndicatorsInRun(n);
  }

  /** However many extending code points stand between an emoji and a joiner, the next emoji stays with it. */
  lemma {:induction false} JoinedEmoji(front: seq<BoundClass>, n: nat)
    ensures !Boundary(front + [ExtendedPictographic] + seq(n, _ => Extend) + [ZWJ], ExtendedPictographic)
  {
    var emoji := front + [ExtendedPictographic] + seq(n, _ => Extend);
    EmojiExtends(front, n);
    assert (emoji + [ZWJ])[..|emoji|] == emoji;
  }

  lemma {:induction false} EmojiExtends(front: seq<BoundClass>, n: nat)
    ensures EndsInEmojiExtend(front + [ExtendedPictographic] + seq(n, _ => Extend))
  {
    var s := front + [ExtendedPictographic] + seq(n, _ => Extend);
    if n > 0 {
      EmojiExtends(front, n - 1);
      assert s[..|s| - 1] == front + [ExtendedPictographic] + seq(n - 1, _ => Extend);
    }
  }
}
