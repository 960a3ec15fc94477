/** Calls: what the arguments become, what an overload costs, and which overload is run. */
module Coercion {
  import opened Options
  import opened Types

  predicate IsVariadic(target: seq<Type>) {
    target != [] && target[|target| - 1].VarList?
  }

  /** The parameters before the variadic one. */
  function Fixed(target: seq<Type>): (n: nat)
    ensures n <= |target|
  {
    if IsVariadic(target) then |target| - 1 else |target|
  }

  /** The arguments that go to fixed parameters. */
  function Matched(target: seq<Type>, given: nat): (n: nat)
    ensures n <= given && n <= Fixed(target)
  {
    if Fixed(target) <= given then Fixed(target) else given
  }

  predicate CountFits(target: seq<Type>, given: nat) {
    IsVariadic(target) || |target| == given
  }

  /** Argument i's parameter type: the element type for all that the variadic parameter collects. */
  function ParameterOf(target: seq<Type>, i: nat): Type
    requires i < Fixed(target) || IsVariadic(target)
  {
    if i < Fixed(target) then target[i] else target[|target| - 1].elm
  }

  // ---------------------------------------------------------------- the distance of an overload

  const VARIADIC_COST: nat := 10

  /** Whether every argument can be cast to its parameter. */
  predicate Accepts(target: seq<Type>, given: seq<Type>) {
    && CountFits(target, |given|)
    && forall i :: 0 <= i < |given| ==> Castable(given[i], ParameterOf(target, i))
  }

  /** What the first n casts cost together. */
  function Cost(target: seq<Type>, given: seq<Type>, n: nat): int
    requires CountFits(target, |given|) && n <= |given|
  {
    if n == 0 then 0 else Cost(target, given, n - 1) + CastDist(given[n - 1], ParameterOf(target, n - 1))
  }

  function Distance(target: seq<Type>, given: seq<Type>): int {
    if !Accepts(target, given) then -1
    else Cost(target, given, |given|) + if IsVariadic(target) then VARIADIC_COST else 0
  }

  lemma {:induction false} CostIsNatural(target: seq<Type>, given: seq<Type>, n: nat)
    requires Accepts(target, given) && n <= |given|
    ensures Cost(target, given, n) >= 0
  {
    if n > 0 {
      CostIsNatural(target, given, n - 1);
      assert Castable(given[n - 1], ParameterOf(target, n - 1));
    }
  }

  /** An overload whose parameters are the very types given costs nothing. */
  lemma ExactIsFree(target: seq<Type>)
    requires !IsVariadic(target)
    ensures Distance(target, target) == 0
  {
    hide CastDist;
    forall i | 0 <= i < |target|
      ensures Castable(target[i], ParameterOf(target, i))
    {
      SameCostsNothing(target[i]);
    }
    ExactCost(target, |target|);
  }

  lemma SameCostsNothing(t: Type)
    ensures CastDist(t, t) == 0
  {
    SameReflexive(t);
  }

  lemma {:induction false} ExactCost(target: seq<Type>, n: nat)
    requires !IsVariadic(target) && n <= |target|
    ensures Cost(target, target, n) == 0
  {
    hide CastDist;
    if n > 0 {
      ExactCost(target, n - 1);
      SameCostsNothing(target[n - 1]);
    }
  }

  /** A variadic overload never beats an exact one. */
  lemma ExactBeatsVariadic(exact: seq<Type>, variadic: seq<Type>)
    requires !IsVariadic(exact) && IsVariadic(variadic) && Accepts(variadic, exact)
    ensures Distance(exact, exact) < Distance(variadic, exact)
  {
    ExactIsFree(exact);
    CostIsNatural(variadic, exact, |exact|);
  }

  /** getFunctionOverloadDistance */
  method GetFunctionOverloadDistance(target: seq<Type>, given: seq<Type>) returns (cost: int)
    ensures cost == Distance(target, given)
    ensures cost == -1 <==> !Accepts(target, given)
  {
    hide CastDist;
    cost := 0;
    var targetSize := |target|;
    if target != [] && target[|target| - 1].VarList? {
      targetSize := targetSize - 1;
    }
    var cnt := if targetSize <= |given| then targetSize else |given|;
    if target == [] || !target[|target| - 1].VarList? {
      if |target| != |given| {
        return -1;
      }
    }
    for i := 0 to cnt
      invariant cost == Cost(target, given, i)
      invariant forall j :: 0 <= j < i ==> Castable(given[j], ParameterOf(target, j))
    {
      assert target[i] == ParameterOf(target, i);
      var k := CastDist(given[i], target[i]);
      if k == -1 {
        assert !Castable(given[i], ParameterOf(target, i));
        return -1;
      }
      cost := cost + k;
    }
    if targetSize != |target| {
      var elm := target[|target| - 1].elm;
      cost := cost + VARIADIC_COST;
      for i := cnt to |given|
        invariant cost == Cost(target, given, i) + VARIADIC_COST
        invariant forall j :: 0 <= j < i ==> Castable(given[j], ParameterOf(target, j))
      {
        assert elm == ParameterOf(target, i);
        var k := CastDist(given[i], elm);
        if k == -1 {
          assert !Castable(given[i], ParameterOf(target, i));
          return -1;
        }
        cost := cost + k;
      }
    }
    CostIsNatural(target, given, |given|);
  }

  // ---------------------------------------------------------------- coercion

  function CastAll(vs: seq<Value>, to: seq<Type>): (r: Option<seq<Value>>)
    requires |vs| == |to|
    ensures r.Some? ==> |r.value| == |vs|
  {
    if vs == [] then Some([])
    else
      var front := CastAll(vs[..|vs| - 1], to[..|to| - 1]);
      var last := CastTo(vs[|vs| - 1], to[|to| - 1]);
      if front.None? || last.None? then None else Some(front.value + [last.value])
  }

  function Same(t: Type, n: nat): seq<Type> {
    seq(n, _ => t)
  }

  /** Whether the one argument after the fixed ones is itself a list of the variadic type. */
  predicate Forwards(target: seq<Type>, given: seq<Value>) {
    IsVariadic(target) && |given| == |target| && IsSame(given[|given| - 1].ty, target[|target| - 1])
  }

  /** What the variadic parameter collects. */
  function Packed(target: seq<Type>, given: seq<Value>): seq<Value>
    requires IsVariadic(target)
  {
    if Forwards(target, given) then GetList(given[|given| - 1]) else given[Matched(target, |given|)..]
  }

  function Pack(elm: Type, xs: seq<Value>): Value {
    Plain(VarList(elm), 0, OfList(xs))
  }

  function Coerce(target: seq<Type>, given: seq<Value>): Option<seq<Value>> {
    if !CountFits(target, |given|) then None
    else
      var n := Matched(target, |given|);
      var front := CastAll(given[..n], target[..n]);
      if !IsVariadic(target) || front.None? then front
      else
        var elm := target[|target| - 1].elm;
        var items := Packed(target, given);
        var pack := CastAll(items, Same(elm, |items|));
        if pack.None? then None else Some(front.value + [Pack(elm, pack.value)])
  }

  lemma CastOneMore(vs: seq<Value>, to: seq<Type>, n: nat)
    requires n < |vs| && n < |to|
    ensures CastAll(vs[..n + 1], to[..n + 1]) ==
      var front := CastAll(vs[..n], to[..n]);
      var last := CastTo(vs[n], to[n]);
      if front.None? || last.None? then None else Some(front.value + [last.value])
  {
    assert vs[..n + 1][..n] == vs[..n] && to[..n + 1][..n] == to[..n];
  }

  /** One cast that fails is enough. */
  lemma {:induction false} OneFails(vs: seq<Value>, to: seq<Type>, i: nat)
    requires |vs| == |to| && i < |vs| && CastTo(vs[i], to[i]).None?
    ensures CastAll(vs, to).None?
  {
    hide CastTo;
    if i < |vs| - 1 {
      OneFails(vs[..|vs| - 1], to[..|to| - 1], i);
    }
  }

  /** coerceTypesForFunctionCall */
  method CoerceTypesForFunctionCall(target: seq<Type>, given: seq<Value>) returns (result: Option<seq<Value>>)
    ensures result == Coerce(target, given)
  {
    hide CastTo;
    hide CastAll;
    hide GetList;
    hide IsSame;
    var targetSize := |target|;
    if target != [] && target[|target| - 1].VarList? {
      targetSize := targetSize - 1;
    }
    var cnt := if targetSize <= |given| then targetSize else |given|;
    if (target == [] || !target[|target| - 1].VarList?) && |target| != |given| {
      return None;
    }
    var front := CastEach(given[..cnt], target[..cnt]);
    if front.None? {
      return None;
    }
    var finalArgs := front.value;
    if targetSize != |target| {
      var elm := target[|target| - 1].elm;
      var items := given[cnt..];
      if cnt + 1 == |given| && IsSame(given[|given| - 1].ty, target[|target| - 1]) {
        items := GetList(given[|given| - 1]);
      }
      assert items == Packed(target, given);
      var vla := CastEach(items, Same(elm, |items|));
      if vla.None? {
        return None;
      }
      finalArgs := finalArgs + [Pack(elm, vla.value)];
    }
    result := Some(finalArgs);
  }

  /** The cast loops of the coercion. */
  method CastEach(vs: seq<Value>, to: seq<Type>) returns (result: Option<seq<Value>>)
    requires |vs| == |to|
    ensures result == CastAll(vs, to)
  {
    hide CastTo;
    var out: seq<Value> := [];
    for i := 0 to |vs|
      invariant CastAll(vs[..i], to[..i]) == Some(out)
    {
      CastOneMore(vs, to, i);
      var tmp := CastTo(vs[i], to[i]);
      if tmp.None? {
        OneFails(vs, to, i);
        return None;
      }
      out := out + [tmp.value];
    }
    assert vs[..|vs|] == vs && to[..|to|] == to;
    result := Some(out);
  }

  lemma {:induction false} CastOneByOne(vs: seq<Value>, to: seq<Type>, i: nat)
    requires |vs| == |to| && i < |vs| && CastAll(vs, to).Some?
    ensures CastTo(vs[i], to[i]) == Some(CastAll(vs, to).value[i])
  {
    hide CastTo;
    var n := |vs| - 1;
    if i < n {
      CastOneByOne(vs[..n], to[..n], i);
    }
  }

  /**
    What the function gets: each fixed argument in its place, cast to its parameter; then, if the function is
    variadic, one pack of what is left or was forwarded, each cast to the element type.
   */
  lemma CoercedArguments(target: seq<Type>, given: seq<Value>)
    requires Coerce(target, given).Some?
    ensures var out, n := Coerce(target, given).value, Matched(target, |given|);
      && |out| == (if IsVariadic(target) then n + 1 else |given|)
      && (forall i :: 0 <= i < n ==> Some(out[i]) == CastTo(given[i], target[i]))
      && (IsVariadic(target) ==>
        var elm, items := target[|target| - 1].elm, Packed(target, given);
        && out[n].ty == VarList(elm) && |GetList(out[n])| == |items|
        && forall i :: 0 <= i < |items| ==> Some(GetList(out[n])[i]) == CastTo(items[i], elm))
  {
    hide CastTo;
    hide CastAll;
    hide Forwards;
    var n := Matched(target, |given|);
    forall i | 0 <= i < n
      ensures Some(Coerce(target, given).value[i]) == CastTo(given[i], target[i])
    {
      CastOneByOne(given[..n], target[..n], i);
    }
    if IsVariadic(target) {
      var elm, items := target[|target| - 1].elm, Packed(target, given);
      forall i | 0 <= i < |items|
        ensures Some(GetList(Coerce(target, given).value[n])[i]) == CastTo(items[i], elm)
      {
        CastOneByOne(items, Same(elm, |items|), i);
      }
    }
  }

  // ---------------------------------------------------------------- twice is once

  lemma {:induction false} CastAllIsIdempotent(vs: seq<Value>, to: seq<Type>)
    requires |vs| == |to| && CastAll(vs, to).Some?
    ensures CastAll(CastAll(vs, to).value, to) == CastAll(vs, to)
  {
    hide CastTo;
    if vs != [] {
      var n := |vs| - 1;
      CastAllIsIdempotent(vs[..n], to[..n]);
      CastIsIdempotent(vs[n], to[n]);
      var out := CastAll(vs, to).value;
      assert out[..n] == CastAll(vs[..n], to[..n]).value;
    }
  }

  /**
    A call site coerces the arguments and so does the function it calls.  The second time changes nothing
    exactly if the function is not variadic or got an argument for each fixed parameter.
   */
  lemma CoerceIsIdempotent(target: seq<Type>, given: seq<Value>)
    requires Coerce(target, given).Some?
    ensures Coerce(target, Coerce(target, given).value) == Coerce(target, given)
      <==> !IsVariadic(target) || |given| >= Fixed(target)
  {
    hide CastTo;
    hide CastAll;
    hide IsSame;
    var n := Matched(target, |given|);
    var once := Coerce(target, given).value;
    CastAllIsIdempotent(given[..n], target[..n]);
    if !IsVariadic(target) {
      assert once[..n] == once;
    } else {
      var elm := target[|target| - 1].elm;
      var items := Packed(target, given);
      CastAllIsIdempotent(items, Same(elm, |items|));
      if |given| >= Fixed(target) {
        SameReflexive(target[|target| - 1]);
        assert once[..n] == CastAll(given[..n], target[..n]).value;
        PackIsForwarded(target, once);
      } else {
        assert |once| == |given| + 1;
      }
    }
  }

  /** A pack made by a coercion is forwarded as it is by the next one. */
  lemma PackIsForwarded(target: seq<Type>, once: seq<Value>)
    requires IsVariadic(target) && |once| == |target|
    requires once[|once| - 1].ty == target[|target| - 1]
    ensures Forwards(target, once) && Packed(target, once) == GetList(once[|once| - 1])
  {
    SameReflexive(target[|target| - 1]);
  }

  /** Too few arguments for a variadic function: a second coercion takes the empty pack for an argument. */
  lemma TooFewArguments(a: Type, elm: Type)
    ensures Coerce([a, VarList(elm)], []) == Some([Pack(elm, [])])
    ensures Coerce([a, VarList(elm)], [Pack(elm, [])]) != Some([Pack(elm, [])])
  {
    var target := [a, VarList(elm)];
    assert Coerce(target, []).value == [Pack(elm, [])] by {
      assert CastAll([], target[..0]) == Some([]);
    }
    CoerceIsIdempotent(target, []);
  }

  // ---------------------------------------------------------------- overloads agree with coercion

  function TypesOf(vs: seq<Value>): seq<Type> {
    seq(|vs|, i requires 0 <= i < |vs| => vs[i].ty)
  }

  lemma {:induction false} AllCast(vs: seq<Value>, to: seq<Type>)
    requires |vs| == |to|
    ensures CastAll(vs, to).Some? <==> forall i :: 0 <= i < |vs| ==> Castable(vs[i].ty, to[i])
  {
    hide Castable;
    hide CastTo;
    if vs != [] {
      var n := |vs| - 1;
      AllCast(vs[..n], to[..n]);
      CastIsTotal(vs[n], to[n]);
      assert forall i :: 0 <= i < n ==> vs[..n][i] == vs[i] && to[..n][i] == to[i];
    }
  }

  /** Unless a pack is forwarded, an overload has a distance exactly if its own coercion succeeds. */
  lemma AcceptedIsCoerced(target: seq<Type>, given: seq<Value>)
    requires !Forwards(target, given)
    ensures Distance(target, TypesOf(given)) != -1 <==> Coerce(target, given).Some?
  {
    hide Castable;
    hide CastAll;
    hide Distance;
    hide Forwards;
    var types := TypesOf(given);
    DistanceTells(target, types);
    if CountFits(target, |given|) {
      var n := Matched(target, |given|);
      AllCast(given[..n], target[..n]);
      assert forall i :: 0 <= i < n ==> given[..n][i].ty == types[i] && target[..n][i] == ParameterOf(target, i);
      if IsVariadic(target) {
        var elm, items := target[|target| - 1].elm, given[n..];
        AllCast(items, Same(elm, |items|));
        assert forall i :: 0 <= i < |items| ==> items[i].ty == types[n..][i];
        Halves(target, types, n);
      }
    }
  }

  lemma Halves(target: seq<Type>, types: seq<Type>, n: nat)
    requires IsVariadic(target) && n == Matched(target, |types|)
    ensures Accepts(target, types) <==>
      (forall i :: 0 <= i < n ==> Castable(types[i], target[i])) &&
      (forall i :: 0 <= i < |types| - n ==> Castable(types[n..][i], target[|target| - 1].elm))
  {
    hide Castable;
    if Accepts(target, types) {
      assert forall i :: 0 <= i < n ==> Castable(types[i], ParameterOf(target, i));
      forall i | 0 <= i < |types| - n
        ensures Castable(types[n..][i], target[|target| - 1].elm)
      {
        assert Castable(types[n + i], ParameterOf(target, n + i));
      }
    }
    if (forall i :: 0 <= i < n ==> Castable(types[i], target[i])) &&
      (forall i :: 0 <= i < |types| - n ==> Castable(types[n..][i], target[|target| - 1].elm))
    {
      forall i | 0 <= i < |types|
        ensures Castable(types[i], ParameterOf(target, i))
      {
        if i >= n {
          assert types[i] == types[n..][i - n];
        }
      }
    }
  }

  // ---------------------------------------------------------------- forwarded packs

  /** No list is the same as its own element type. */
  lemma {:induction false} NotItsOwnElement(t: Type)
    requires IsList(t)
    ensures !IsSame(t, t.elm)
  {
    if IsList(t.elm) {
      NotItsOwnElement(t.elm);
    }
  }

  /** Which element types take a whole list for one element. */
  predicate TakesList(elm: Type) {
    elm.Generic? || (IsList(elm) && (elm.elm.Void? || elm.elm.Generic?))
  }

  /** A list of the elements can be cast to one of them only where any list can. */
  lemma PackAsElement(pack: Type, elm: Type)
    requires IsSame(pack, VarList(elm))
    ensures Castable(pack, elm) <==> TakesList(elm)
  {
    assert IsList(pack) && IsSame(pack.elm, elm);
    if IsList(elm) {
      NotItsOwnElement(elm);
      if IsSame(pack, elm) {
        SameSymmetric(pack.elm, elm);
        SameTransitive(elm, pack.elm, elm.elm);
      }
    }
  }

  predicate FixedAccepted(target: seq<Type>, given: seq<Type>)
    requires IsVariadic(target) && |given| == |target|
  {
    forall i :: 0 <= i < Fixed(target) ==> Castable(given[i], target[i])
  }

  /** A forwarded pack has a distance exactly if the fixed arguments fit and an element could be a list. */
  lemma ForwardedDistance(target: seq<Type>, given: seq<Value>)
    requires Forwards(target, given)
    ensures Distance(target, TypesOf(given)) != -1 <==>
      FixedAccepted(target, TypesOf(given)) && ListAccepted(target, given)
  {
    hide Castable;
    hide Distance;
    hide IsSame;
    hide TakesList;
    var types, n := TypesOf(given), Fixed(target);
    DistanceTells(target, types);
    Halves(target, types, n);
    PackAsElement(types[n], target[n].elm);
    assert types[n..][0] == types[n];
    if Castable(types[n], target[n].elm) {
      assert forall i :: 0 <= i < |types| - n ==> types[n..][i] == types[n];
    }
  }

  /** If a pack is forwarded, each of its elements fits. */
  predicate ElementsAccepted(target: seq<Type>, given: seq<Value>) {
    Forwards(target, given) ==> forall x <- GetList(given[|given| - 1]) :: Castable(x.ty, target[|target| - 1].elm)
  }

  /** If a pack is forwarded, a whole list would fit for one of its elements. */
  predicate ListAccepted(target: seq<Type>, given: seq<Value>) {
    Forwards(target, given) ==> TakesList(target[|target| - 1].elm)
  }

  /** A forwarded pack is coerced exactly if the fixed arguments and each of its elements fit. */
  lemma ForwardedCoercion(target: seq<Type>, given: seq<Value>)
    requires Forwards(target, given)
    ensures Coerce(target, given).Some? <==>
      FixedAccepted(target, TypesOf(given)) && ElementsAccepted(target, given)
  {
    hide Castable;
    hide CastAll;
    hide IsSame;
    hide GetList;
    var n, elm, items := Fixed(target), target[|target| - 1].elm, Packed(target, given);
    assert n == Matched(target, |given|);
    AllCast(given[..n], target[..n]);
    assert forall i :: 0 <= i < n ==> given[..n][i].ty == TypesOf(given)[i] && target[..n][i] == target[i];
    AllCast(items, Same(elm, |items|));
    assert forall i :: 0 <= i < |items| ==> Same(elm, |items|)[i] == elm;
  }

  /**
    For every call: the distance of an overload and its own coercion tell the same story, unless a pack is
    forwarded whose elements fit though no list would, or do not fit though a list would.
   */
  lemma DistanceAgreesWithCoercion(target: seq<Type>, given: seq<Value>)
    ensures (Distance(target, TypesOf(given)) != -1 <==> Coerce(target, given).Some?) <==>
      !Forwards(target, given) || !FixedAccepted(target, TypesOf(given)) ||
        (ListAccepted(target, given) <==> ElementsAccepted(target, given))
  {
    hide Distance;
    hide Coerce;
    hide ListAccepted;
    hide ElementsAccepted;
    hide FixedAccepted;
    if Forwards(target, given) {
      ForwardedDistance(target, given);
      ForwardedCoercion(target, given);
    } else {
      AcceptedIsCoerced(target, given);
    }
  }

  /** A pack of numbers forwarded to a function of any numbers is one such call. */
  lemma ForwardedPackRejected(xs: seq<Value>)
    requires forall x <- xs :: x.ty == Number
    ensures Coerce([VarList(Number)], [Pack(Number, xs)]) == Some([Pack(Number, xs)])
    ensures Distance([VarList(Number)], [VarList(Number)]) == -1
  {
    var target, given := [VarList(Number)], [Pack(Number, xs)];
    NumbersCast(xs);
    assert CastAll(given[..0], target[..0]) == Some([]);
    assert [] + [Pack(Number, xs)] == given;
    assert !Castable(VarList(Number), ParameterOf(target, 0));
  }

  lemma CastToSame(v: Value, to: Type)
    requires IsSame(v.ty, to)
    ensures CastTo(v, to) == Some(v)
  {
  }

  lemma {:induction false} NumbersCast(xs: seq<Value>)
    requires forall x <- xs :: x.ty == Number
    ensures CastAll(xs, Same(Number, |xs|)) == Some(xs)
  {
    hide CastTo;
    if xs != [] {
      var n := |xs| - 1;
      NumbersCast(xs[..n]);
      CastToSame(xs[n], Number);
      assert Same(Number, |xs|)[..n] == Same(Number, n);
      assert xs == xs[..n] + [xs[n]];
    }
  }

  // ---------------------------------------------------------------- the overload set

  const INT_MAX: int := 0x7FFF_FFFF

  /** Whether an overload is in question: it accepts the arguments, at a cost below INT_MAX. */
  predicate Candidate(target: seq<Type>, given: seq<Type>) {
    Accepts(target, given) && Distance(target, given) < INT_MAX
  }

  /** The choice of FunctionOverloadSet::run, as an index: the cheapest, and the first of these. */
  method ChooseOverload(functions: seq<seq<Type>>, given: seq<Type>) returns (best: Option<nat>)
    ensures best.None? <==> forall f <- functions :: !Candidate(f, given)
    ensures best.Some? ==> best.value < |functions| && Candidate(functions[best.value], given)
    ensures best.Some? ==> forall i :: 0 <= i < |functions| && Candidate(functions[i], given) ==>
      Distance(functions[best.value], given) <= Distance(functions[i], given)
    ensures best.Some? ==> forall i :: 0 <= i < best.value && Candidate(functions[i], given) ==>
      Distance(functions[best.value], given) < Distance(functions[i], given)
  {
    hide Distance;
    hide Accepts;
    var score := INT_MAX;
    best := None;
    for n := 0 to |functions|
      invariant best.None? ==> score == INT_MAX && forall i :: 0 <= i < n ==> !Candidate(functions[i], given)
      invariant best.Some? ==> best.value < n && Candidate(functions[best.value], given)
      invariant best.Some? ==> score == Distance(functions[best.value], given)
      invariant best.Some? ==> forall i :: 0 <= i < n && Candidate(functions[i], given) ==>
        score <= Distance(functions[i], given)
      invariant best.Some? ==> forall i :: 0 <= i < best.value && Candidate(functions[i], given) ==>
        score < Distance(functions[i], given)
    {
      var cost := GetFunctionOverloadDistance(functions[n], given);
      if cost != -1 {
        if cost < score {
          score, best := cost, Some(n);
        }
      }
    }
  }

  /** FunctionOverloadSet::run: choosing by type, then the chosen function's own coercion of the values. */
  method RunOverloadSet(functions: seq<seq<Type>>, given: seq<Value>)
    returns (best: Option<nat>, arguments: Option<seq<Value>>)
    ensures best.None? ==> arguments.None?
    ensures best.Some? ==> best.value < |functions| && arguments == Coerce(functions[best.value], given)
    // the chosen function takes its arguments, but for a forwarded pack with an element that does not fit
    ensures best.Some? ==> (arguments.Some? <==> ElementsAccepted(functions[best.value], given))
    ensures best.Some? && !IsVariadic(functions[best.value]) ==>
      arguments.Some? && Coerce(functions[best.value], arguments.value) == arguments
    // what could have been called is turned down only for its cost, or for forwarding where no list fits
    ensures best.None? ==> forall f <- functions :: Coerce(f, given).Some? ==>
      Distance(f, TypesOf(given)) >= INT_MAX || !ListAccepted(f, given)
  {
    hide Coerce;
    hide Distance;
    hide Accepts;
    hide FixedAccepted;
    hide ElementsAccepted;
    hide ListAccepted;
    hide Forwards;
    best := ChooseOverload(functions, TypesOf(given));
    if best.None? {
      forall f | f in functions && Coerce(f, given).Some?
        ensures Distance(f, TypesOf(given)) >= INT_MAX || !ListAccepted(f, given)
      {
        Outcome(f, given);
      }
      return best, None;
    }
    var target := functions[best.value];
    arguments := CoerceTypesForFunctionCall(target, given);
    Outcome(target, given);
    if !IsVariadic(target) {
      NotForwarded(target, given);
      CoerceIsIdempotent(target, given);
    }
  }

  lemma NotForwarded(target: seq<Type>, given: seq<Value>)
    requires !IsVariadic(target)
    ensures ElementsAccepted(target, given)
  {
  }

  /** Acceptance by type and coercion of the values, for a forwarded pack and otherwise. */
  lemma Outcome(target: seq<Type>, given: seq<Value>)
    ensures Accepts(target, TypesOf(given)) <==> Distance(target, TypesOf(given)) != -1
    ensures Accepts(target, TypesOf(given)) ==> (Coerce(target, given).Some? <==> ElementsAccepted(target, given))
    ensures Coerce(target, given).Some? ==> (Accepts(target, TypesOf(given)) <==> ListAccepted(target, given))
  {
    hide Coerce;
    hide Distance;
    hide Accepts;
    DistanceTells(target, TypesOf(given));
    if Forwards(target, given) {
      ForwardedDistance(target, given);
      ForwardedCoercion(target, given);
    } else {
      AcceptedIsCoerced(target, given);
    }
  }

  lemma DistanceTells(target: seq<Type>, given: seq<Type>)
    ensures Accepts(target, given) <==> Distance(target, given) != -1
  {
    if Accepts(target, given) {
      CostIsNatural(target, given, |given|);
    }
  }
}
