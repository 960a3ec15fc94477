/** The types and values of the interpreter: sameness, the cost of a cast, and casting. */
module Types {
  import opened Options

  datatype Type =
    | Void | Bool | Char | Number
    | List(elm: Type)
    | VarList(elm: Type)
    | Map(key: Type, elm: Type)
    | Function(ret: Type, args: seq<Type>)
    | Generic(name: string, group: nat)

  predicate IsList(t: Type) {
    t.List? || t.VarList?
  }

  predicate HasGenerics(t: Type) {
    match t
    case Generic(_, _) => true
    case List(e) => e.Generic?
    case VarList(e) => e.Generic?
    case Map(k, e) => k.Generic? || e.Generic?
    case Function(r, args) => r.Generic? || exists a <- args :: a.Generic?
    case _ => false
  }

  /** A list and a variadic list of the same elements count as the same type. */
  predicate IsSame(a: Type, b: Type) {
    if IsList(a) && IsList(b) then IsSame(a.elm, b.elm)
    else if a.Map? && b.Map? then IsSame(a.elm, b.elm) && IsSame(a.key, b.key)
    else if a.Function? && b.Function? then IsSame(a.ret, b.ret) && AllSame(a.args, b.args)
    else if a.Generic? && b.Generic? then a == b
    else TypeId(a) == TypeId(b)
  }

  predicate AllSame(xs: seq<Type>, ys: seq<Type>) {
    |xs| == |ys| && forall i :: 0 <= i < |xs| ==> IsSame(xs[i], ys[i])
  }

  function TypeId(t: Type): nat {
    match t
    case Void => 0
    case Bool => 3
    case List(_) => 4
    case Map(_, _) => 5
    case Char => 6
    case Function(_, _) => 7
    case Number => 8
    case VarList(_) => 9
    case Generic(_, _) => 10
  }

  /** The cost of casting from one type to another, or -1. */
  function CastDist(from: Type, to: Type): (d: int)
    ensures d >= -1
    decreases from, 0
  {
    if IsSame(from, to) then 0
    else if IsList(from) && IsList(to) then
      if from.elm.Void? || to.elm.Void? then 2 else if to.elm.Generic? then 10 else -1
    else if from.Map? && to.Map? then
      if IsSame(from.key, to.key) && to.elm.Void? then 2
      else if IsSame(from.elm, to.elm) && to.key.Void? then 2
      else if to.key.Void? && to.elm.Void? then 3
      else if to.key.Generic? && to.elm.Generic? then 20
      else if to.key.Generic? then 10
      else if to.elm.Generic? then 10
      else -1
    else if from.Function? && to.Function? then
      if |from.args| == |to.args| then SumDist(from.args, to.args) else -1
    else if to.Generic? then 10
    else -1
  }

  /** The cost of casting one by one, or -1 if some cast is not possible. */
  function SumDist(from: seq<Type>, to: seq<Type>): (d: int)
    requires |from| == |to|
    ensures d >= -1
    decreases from, 1
  {
    if from == [] then 0
    else
      var k := CastDist(from[0], to[0]);
      if k == -1 then -1
      else
        var rest := SumDist(from[1..], to[1..]);
        if rest == -1 then -1 else k + rest
  }

  predicate Castable(from: Type, to: Type) {
    CastDist(from, to) != -1
  }

  // ---------------------------------------------------------------- values

  datatype Data =
    | NoData
    | OfBool(b: bool)
    | OfChar(c: nat)
    | OfNumber(re: real, im: real)
    | OfFunction(id: nat)
    | OfList(xs: seq<Value>)
    | OfMap(entries: seq<Entry>)

  datatype Entry = Entry(key: Value, value: Value)

  /** An lvalue has a type and a target of its own, and no data. */
  datatype Value =
    | Plain(ty: Type, flags: nat, data: Data)
    | LValue(ty: Type, flags: nat, target: Value)

  /** v_list: an lvalue's own list is empty. */
  function OwnList(v: Value): seq<Value> {
    if v.Plain? && v.data.OfList? then v.data.xs else []
  }

  function OwnMap(v: Value): seq<Entry> {
    if v.Plain? && v.data.OfMap? then v.data.entries else []
  }

  /** get_list: looks through lvalues. */
  function GetList(v: Value): seq<Value> {
    if v.LValue? then GetList(v.target) else OwnList(v)
  }

  function GetMap(v: Value): seq<Entry> {
    if v.LValue? then GetMap(v.target) else OwnMap(v)
  }

  function OfListOf(elm: Type, xs: seq<Value>): Value {
    Plain(List(elm), 0, OfList(xs))
  }

  function OfMapOf(key: Type, elm: Type, entries: seq<Entry>): Value {
    Plain(Map(key, elm), 0, OfMap(entries))
  }

  /** decay: the value without its lvalues; lists and maps are built anew. */
  function Decay(v: Value): Value
    decreases v, 0
  {
    if v.LValue? then Decay(v.target)
    else if IsList(v.ty) then OfListOf(v.ty.elm, if v.data.OfList? then DecayAll(v.data.xs) else [])
    else if v.ty.Map? then OfMapOf(v.ty.key, v.ty.elm, if v.data.OfMap? then DecayEntries(v.data.entries) else [])
    else v
  }

  function DecayAll(xs: seq<Value>): (r: seq<Value>)
    ensures |r| == |xs|
    decreases xs, 1
  {
    if xs == [] then [] else [Decay(xs[0])] + DecayAll(xs[1..])
  }

  function DecayEntries(es: seq<Entry>): (r: seq<Entry>)
    ensures |r| == |es|
    decreases es, 1
  {
    if es == [] then [] else [DecayEntry(es[0])] + DecayEntries(es[1..])
  }

  function DecayEntry(e: Entry): Entry
    decreases e, 0
  {
    Entry(Decay(e.key), Decay(e.value))
  }

  /** What is decayed has no lvalue left for a second decay to look through. */
  lemma {:induction false} DecayIsIdempotent(v: Value)
    ensures Decay(Decay(v)) == Decay(v)
    decreases v, 0
  {
    if v.LValue? {
      DecayIsIdempotent(v.target);
    } else if IsList(v.ty) && v.data.OfList? {
      DecayAllIsIdempotent(v.data.xs);
    } else if v.ty.Map? && v.data.OfMap? {
      DecayEntriesIsIdempotent(v.data.entries);
    }
  }

  lemma {:induction false} DecayAllIsIdempotent(xs: seq<Value>)
    ensures DecayAll(DecayAll(xs)) == DecayAll(xs)
    decreases xs, 1
  {
    hide Decay;
    if xs != [] {
      DecayIsIdempotent(xs[0]);
      DecayAllIsIdempotent(xs[1..]);
      assert DecayAll(xs)[1..] == DecayAll(xs[1..]);
    }
  }

  lemma {:induction false} DecayEntriesIsIdempotent(es: seq<Entry>)
    ensures DecayEntries(DecayEntries(es)) == DecayEntries(es)
    decreases es, 1
  {
    hide Decay;
    if es != [] {
      DecayEntryIsIdempotent(es[0]);
      DecayEntriesIsIdempotent(es[1..]);
      assert DecayEntries(es)[1..] == DecayEntries(es[1..]);
    }
  }

  lemma {:induction false} DecayEntryIsIdempotent(e: Entry)
    ensures DecayEntry(DecayEntry(e)) == DecayEntry(e)
    decreases e, 0
  {
    DecayIsIdempotent(e.key);
    DecayIsIdempotent(e.value);
  }

  /** No lvalue is left, in the value or in what it holds. */
  ghost predicate Settled(v: Value)
    decreases v
  {
    && v.Plain?
    && (IsList(v.ty) && v.data.OfList? ==> forall x <- v.data.xs :: Settled(x))
    && (v.ty.Map? && v.data.OfMap? ==> forall e <- v.data.entries :: Settled(e.key) && Settled(e.value))
  }

  /** The value behind all lvalues. */
  function Behind(v: Value): (r: Value)
    ensures r.Plain?
  {
    if v.LValue? then Behind(v.target) else v
  }

  /** Decaying leaves no lvalue, and the type, elements and entries of what stood behind them. */
  lemma {:induction false} DecaySettles(v: Value)
    ensures Settled(Decay(v))
    ensures Decay(v).ty == if Behind(v).ty.VarList? then List(Behind(v).ty.elm) else Behind(v).ty
    ensures if IsList(Behind(v).ty) then OwnList(Decay(v)) == DecayAll(GetList(v))
      else if Behind(v).ty.Map? then OwnMap(Decay(v)) == DecayEntries(GetMap(v))
      else Decay(v) == Behind(v)
    ensures IsList(Behind(v).ty) || Behind(v).ty.Map? ==> Decay(v).flags == 0
    decreases v, 0
  {
    if v.LValue? {
      DecaySettles(v.target);
    } else if IsList(v.ty) && v.data.OfList? {
      AllSettle(v.data.xs);
    } else if v.ty.Map? && v.data.OfMap? {
      EntriesSettle(v.data.entries);
    }
  }

  lemma {:induction false} AllSettle(xs: seq<Value>)
    ensures forall i :: 0 <= i < |xs| ==> DecayAll(xs)[i] == Decay(xs[i])
    ensures forall x <- DecayAll(xs) :: Settled(x)
    decreases xs, 1
  {
    hide Decay;
    hide Settled;
    if xs != [] {
      DecaySettles(xs[0]);
      AllSettle(xs[1..]);
    }
  }

  lemma {:induction false} EntriesSettle(es: seq<Entry>)
    ensures forall i :: 0 <= i < |es| ==> DecayEntries(es)[i] == Entry(Decay(es[i].key), Decay(es[i].value))
    ensures forall e <- DecayEntries(es) :: Settled(e.key) && Settled(e.value)
    decreases es, 1
  {
    hide Decay;
    hide Settled;
    if es != [] {
      EntrySettles(es[0]);
      EntriesSettle(es[1..]);
    }
  }

  lemma {:induction false} EntrySettles(e: Entry)
    ensures Settled(Decay(e.key)) && Settled(Decay(e.value))
    decreases e, 0
  {
    DecaySettles(e.key);
    DecaySettles(e.value);
  }

  /** cast_to */
  function CastTo(v: Value, to: Type): Option<Value> {
    if !Castable(v.ty, to) then None
    else if IsSame(v.ty, to) || HasGenerics(to) then Some(v)
    else if IsList(v.ty) && IsList(to) then Some(OfListOf(to.elm, OwnList(v)))
    else if v.ty.Map? && to.Map? then Some(OfMapOf(to.key, to.elm, DecayEntries(OwnMap(v))))
    else if v.ty.Function? && to.Function? then Some(v)
    else None
  }

  // ---------------------------------------------------------------- sameness is an equivalence

  lemma {:induction false} SameReflexive(a: Type)
    ensures IsSame(a, a)
  {
    if IsList(a) {
      SameReflexive(a.elm);
    } else if a.Map? {
      SameReflexive(a.elm);
      SameReflexive(a.key);
    } else if a.Function? {
      SameReflexive(a.ret);
      forall i | 0 <= i < |a.args|
        ensures IsSame(a.args[i], a.args[i])
      {
        SameReflexive(a.args[i]);
      }
    }
  }

  lemma {:induction false} SameSymmetric(a: Type, b: Type)
    requires IsSame(a, b)
    ensures IsSame(b, a)
    decreases a
  {
    if IsList(a) && IsList(b) {
      SameSymmetric(a.elm, b.elm);
    } else if a.Map? && b.Map? {
      SameSymmetric(a.elm, b.elm);
      SameSymmetric(a.key, b.key);
    } else if a.Function? && b.Function? {
      SameSymmetric(a.ret, b.ret);
      forall i | 0 <= i < |a.args|
        ensures IsSame(b.args[i], a.args[i])
      {
        SameSymmetric(a.args[i], b.args[i]);
      }
    }
  }

  lemma {:induction false} SameTransitive(a: Type, b: Type, c: Type)
    requires IsSame(a, b) && IsSame(b, c)
    ensures IsSame(a, c)
    decreases a
  {
    if IsList(a) && IsList(b) {
      SameTransitive(a.elm, b.elm, c.elm);
    } else if a.Map? && b.Map? {
      SameTransitive(a.elm, b.elm, c.elm);
      SameTransitive(a.key, b.key, c.key);
    } else if a.Function? && b.Function? {
      SameTransitive(a.ret, b.ret, c.ret);
      forall i | 0 <= i < |a.args|
        ensures IsSame(a.args[i], c.args[i])
      {
        assert IsSame(b.args[i], c.args[i]);
        SameTransitive(a.args[i], b.args[i], c.args[i]);
      }
    }
  }

  /** The type with every variadic list made a list, at any depth. */
  function AsLists(t: Type): Type {
    match t
    case List(e) => List(AsLists(e))
    case VarList(e) => List(AsLists(e))
    case Map(k, e) => Map(AsLists(k), AsLists(e))
    case Function(r, args) => Function(AsLists(r), seq(|args|, i requires 0 <= i < |args| => AsLists(args[i])))
    case _ => t
  }

  /** Two types are the same exactly if nothing but variadic lists tells them apart. */
  lemma {:induction false} SameButForVariadic(a: Type, b: Type)
    ensures IsSame(a, b) <==> AsLists(a) == AsLists(b)
    decreases a
  {
    if IsList(a) && IsList(b) {
      SameButForVariadic(a.elm, b.elm);
    } else if a.Map? && b.Map? {
      SameButForVariadic(a.elm, b.elm);
      SameButForVariadic(a.key, b.key);
    } else if a.Function? && b.Function? {
      SameButForVariadic(a.ret, b.ret);
      ArgumentsSame(a, b);
    }
  }

  lemma {:induction false} ArgumentsSame(a: Type, b: Type)
    requires a.Function? && b.Function?
    ensures AllSame(a.args, b.args) <==> AsLists(a).args == AsLists(b).args
    decreases a, 0
  {
    if |a.args| == |b.args| {
      forall i | 0 <= i < |a.args|
        ensures IsSame(a.args[i], b.args[i]) <==> AsLists(a).args[i] == AsLists(b).args[i]
      {
        SameButForVariadic(a.args[i], b.args[i]);
      }
    }
  }

  predicate IsAtomic(t: Type) {
    !IsList(t) && !t.Map? && !t.Function?
  }

  /** So types without parts are the same only if they are equal, and never the same as one with parts. */
  lemma AtomicSameIsEqual(a: Type, b: Type)
    requires IsAtomic(a)
    ensures IsSame(a, b) <==> a == b
  {
    SameButForVariadic(a, b);
  }

  // ---------------------------------------------------------------- casts

  /** A list is closest to its own type, then to a list of anything, then to generic ones. */
  lemma ListCastsRanked(elm: Type, g: Type)
    requires g.Generic? && !elm.Void? && !elm.Generic?
    ensures 0 == CastDist(List(elm), List(elm)) < CastDist(List(elm), List(Void)) == 2
    ensures CastDist(List(elm), List(Void)) < CastDist(List(elm), List(g)) == CastDist(List(elm), g) == 10
  {
    SameReflexive(elm);
    assert !IsSame(elm, Void) && !IsSame(elm, g);
  }

  /** So is a map, and the fewer of its parts are left open the closer. */
  lemma MapCastsRanked(k: Type, v: Type, g: Type, other: Type)
    requires g.Generic? && !k.Void? && !k.Generic? && !v.Void? && !v.Generic? && !other.Void? && !other.Generic?
    ensures 0 == CastDist(Map(k, v), Map(k, v)) < CastDist(Map(k, v), Map(k, Void)) == CastDist(Map(k, v), Map(Void, v)) == 2
    ensures CastDist(Map(k, v), Map(k, Void)) < CastDist(Map(k, v), Map(Void, Void)) == 3
    ensures CastDist(Map(k, v), Map(Void, Void)) < CastDist(Map(k, v), Map(g, other)) == CastDist(Map(k, v), Map(other, g))
    ensures CastDist(Map(k, v), Map(g, other)) == CastDist(Map(k, v), g) == 10 < CastDist(Map(k, v), Map(g, g)) == 20
  {
    OpenPartsDiffer(k, g);
    OpenPartsDiffer(v, g);
    MapDist(k, v, k, v);
    MapDist(k, v, k, Void);
    MapDist(k, v, Void, v);
    MapDist(k, v, Void, Void);
    MapDist(k, v, g, other);
    MapDist(k, v, other, g);
    MapDist(k, v, g, g);
    assert CastDist(Map(k, v), g) == 10;
    hide CastDist;
    hide IsSame;
  }

  lemma OpenPartsDiffer(t: Type, g: Type)
    requires g.Generic? && !t.Void? && !t.Generic?
    ensures !IsSame(t, Void) && !IsSame(t, g) && IsSame(t, t)
  {
    SameReflexive(t);
  }

  lemma MapDist(k: Type, v: Type, k': Type, v': Type)
    ensures CastDist(Map(k, v), Map(k', v')) ==
      if IsSame(v, v') && IsSame(k, k') then 0
      else if (IsSame(k, k') && v'.Void?) || (IsSame(v, v') && k'.Void?) then 2
      else if k'.Void? && v'.Void? then 3
      else if k'.Generic? && v'.Generic? then 20
      else if k'.Generic? || v'.Generic? then 10
      else -1
  {
  }

  /** What can be cast at all: a list. */
  lemma CastableList(elm: Type, to: Type)
    ensures Castable(List(elm), to) <==>
      || AsLists(List(elm)) == AsLists(to)
      || (IsList(to) && (elm.Void? || to.elm.Void? || to.elm.Generic?))
      || to.Generic?
  {
    SameButForVariadic(List(elm), to);
  }

  /** A map: the parts that stay must be the same, but beside a generic part anything may stand. */
  lemma CastableMap(k: Type, v: Type, to: Type)
    ensures Castable(Map(k, v), to) <==>
      || AsLists(Map(k, v)) == AsLists(to)
      || (to.Map? && to.elm.Void? && (to.key.Void? || AsLists(k) == AsLists(to.key)))
      || (to.Map? && to.key.Void? && AsLists(v) == AsLists(to.elm))
      || (to.Map? && (to.key.Generic? || to.elm.Generic?))
      || to.Generic?
  {
    SameButForVariadic(Map(k, v), to);
    if to.Map? {
      SameButForVariadic(k, to.key);
      SameButForVariadic(v, to.elm);
    }
  }

  /** A function: argument by argument, the result aside. */
  lemma CastableFunction(r: Type, args: seq<Type>, to: Type)
    ensures Castable(Function(r, args), to) <==>
      || to.Generic?
      || (to.Function? && |args| == |to.args| && forall i :: 0 <= i < |args| ==> Castable(args[i], to.args[i]))
  {
    if to.Function? && |args| == |to.args| {
      SumTells(args, to.args);
      SameArguments(Function(r, args), to);
    } else if to.Function? {
      assert !AllSame(args, to.args);
    }
  }

  lemma SameArguments(from: Type, to: Type)
    requires from.Function? && to.Function? && |from.args| == |to.args|
    ensures IsSame(from, to) ==> forall i :: 0 <= i < |from.args| ==> Castable(from.args[i], to.args[i])
  {
    hide CastDist;
    if IsSame(from, to) {
      assert AllSame(from.args, to.args);
      forall i | 0 <= i < |from.args|
        ensures Castable(from.args[i], to.args[i])
      {
        SameIsCastable(from.args[i], to.args[i]);
      }
    }
  }

  lemma {:induction false} SumTells(from: seq<Type>, to: seq<Type>)
    requires |from| == |to|
    ensures SumDist(from, to) != -1 <==> forall i :: 0 <= i < |from| ==> Castable(from[i], to[i])
  {
    hide CastDist;
    if from != [] {
      SumTells(from[1..], to[1..]);
      if SumDist(from, to) != -1 {
        forall i | 0 <= i < |from|
          ensures Castable(from[i], to[i])
        {
          assert i > 0 ==> from[i] == from[1..][i - 1] && to[i] == to[1..][i - 1];
        }
      }
      if forall i :: 0 <= i < |from| ==> Castable(from[i], to[i]) {
        forall i | 0 <= i < |from[1..]|
          ensures Castable(from[1..][i], to[1..][i])
        {
          assert Castable(from[i + 1], to[i + 1]);
        }
        assert Castable(from[0], to[0]);
      }
    }
  }

  /** Anything else: to itself or a generic type only. */
  lemma CastableAtom(from: Type, to: Type)
    requires IsAtomic(from)
    ensures Castable(from, to) <==> from == to || to.Generic?
  {
    AtomicSameIsEqual(from, to);
  }

  /** A cast succeeds exactly when the distance is not -1: no case is forgotten. */
  lemma CastIsTotal(v: Value, to: Type)
    ensures CastTo(v, to).Some? <==> Castable(v.ty, to)
  {
  }

  /** Casting a value that was already cast changes nothing. */
  lemma CastIsIdempotent(v: Value, to: Type)
    requires CastTo(v, to).Some?
    ensures CastTo(CastTo(v, to).value, to) == CastTo(v, to)
  {
    hide CastDist;
    hide IsSame;
    hide HasGenerics;
    if !IsSame(v.ty, to) && !HasGenerics(to) {
      if IsList(v.ty) && IsList(to) {
        SameReflexive(to.elm);
        ListSame(to);
      } else if v.ty.Map? && to.Map? {
        SameReflexive(to);
      }
      SameIsCastable(CastTo(v, to).value.ty, to);
    }
  }

  /** A cast arrives at the type asked for, except that functions and generic targets keep what they got. */
  lemma CastArrives(v: Value, to: Type)
    requires CastTo(v, to).Some?
    ensures var r := CastTo(v, to).value;
      if HasGenerics(to) || (v.ty.Function? && to.Function?) then r == v else IsSame(r.ty, to)
  {
    hide CastDist;
    if IsList(v.ty) && IsList(to) {
      ListSame(to);
    } else if v.ty.Map? && to.Map? {
      SameReflexive(to);
    }
  }

  /** Nothing is done for a target that is generic, in itself or in its elements, nor for a function. */
  predicate IsOpen(to: Type) {
    to.Generic? || to.Function? || (IsList(to) && to.elm.Generic?) || (to.Map? && (to.key.Generic? || to.elm.Generic?))
  }

  /** Otherwise the value gets the very type of the target, a list never being variadic, unless it had the same already. */
  lemma CastOutcome(v: Value, to: Type)
    requires CastTo(v, to).Some?
    ensures CastTo(v, to) ==
      if IsOpen(to) || AsLists(v.ty) == AsLists(to) then Some(v)
      else if IsList(to) then Some(Plain(List(to.elm), 0, OfList(if v.Plain? then GetList(v) else [])))
      else Some(Plain(to, 0, OfMap(if v.Plain? then DecayEntries(GetMap(v)) else [])))
  {
    SameButForVariadic(v.ty, to);
  }

  /** The entries of a map that is no lvalue survive, decayed; those of an lvalue do not. */
  lemma CastKeepsEntries(v: Value, to: Type)
    requires v.ty.Map? && to.Map? && Castable(v.ty, to)
    ensures GetMap(CastTo(v, to).value) ==
      if IsSame(v.ty, to) || HasGenerics(to) then GetMap(v) else if v.Plain? then DecayEntries(GetMap(v)) else []
  {
  }

  /** Only a cast to the same type is free, functions aside. */
  lemma FreeCastIsSame(from: Type, to: Type)
    requires !(from.Function? && to.Function?)
    ensures CastDist(from, to) == 0 <==> IsSame(from, to)
  {
  }

  lemma ListSame(to: Type)
    requires IsList(to)
    ensures IsSame(List(to.elm), to)
  {
    SameReflexive(to.elm);
  }

  lemma SameIsCastable(a: Type, b: Type)
    ensures IsSame(a, b) ==> Castable(a, b)
  {
  }

  /**
    The elements survive a cast to another list type exactly if the value is no lvalue, or had none:
    the cast copies the value's own list, which an lvalue leaves empty.
   */
  lemma CastKeepsElements(v: Value, to: Type)
    requires IsList(v.ty) && IsList(to) && Castable(v.ty, to)
    ensures GetList(CastTo(v, to).value) == GetList(v) <==>
      IsSame(v.ty, to) || HasGenerics(to) || v.Plain? || GetList(v) == []
  {
  }

  /** A variable that holds [1], passed where a list of anything is wanted, arrives empty. */
  lemma VariableLosesElements()
    ensures var one := OfListOf(Number, [Plain(Number, 0, OfNumber(1.0, 0.0))]);
      CastTo(LValue(one.ty, 0, one), List(Void)) == Some(OfListOf(Void, []))
  {
    assert !IsSame(Number, Void);
  }

  /** Functions that differ only in what they return cost nothing to cast, though they are not the same. */
  lemma ReturnTypeIgnored(a: Type, b: Type, args: seq<Type>)
    requires !IsSame(a, b)
    ensures !IsSame(Function(a, args), Function(b, args))
    ensures CastDist(Function(a, args), Function(b, args)) == 0
  {
    SumOfSame(args);
  }

  lemma {:induction false} SumOfSame(args: seq<Type>)
    ensures SumDist(args, args) == 0
  {
    if args != [] {
      SameReflexive(args[0]);
      SumOfSame(args[1..]);
    }
  }
}
