/** Overload dispatch: exact, then coerced, then generic, on values and on unresolved placeholders. */
module Dispatch {
  import opened Wrappers
  import opened ExprTypes
  import opened UnionLaws
  import opened Satisfaction
  import opened ExprValues
  import opened Unification

  /** A registered overload: its parameters and return type. */
  datatype Entry = Entry(params: seq<ExprType>, ret: ExprType)

  predicate IsGeneric(e: Entry) {
    IsSymbolic(e.ret) || exists i :: 0 <= i < |e.params| && IsSymbolic(e.params[i])
  }

  // ---- Argument types ----

  function ArgType(a: Value): ExprType {
    var t := TypeOf(a);
    if t.Unresolved? then t.constraint else t
  }

  function ArgTypes(args: seq<Value>): (ts: seq<ExprType>)
    ensures |ts| == |args|
  {
    seq(|args|, i requires 0 <= i < |args| => ArgType(args[i]))
  }

  predicate AnyUnresolved(args: seq<Value>) {
    exists i :: 0 <= i < |args| && args[i].UnresolvedValue?
  }

  // ---- Implicit coercion of arguments ----

  predicate CanCoerce(from: ExprType, to: ExprType) {
    (from.Int? && to.Float?) || (from.Path? && to.String?)
  }

  /** One argument type against its parameter. */
  function CoerceOneType(at: ExprType, pt: ExprType, skip: bool): Option<ExprType> {
    if at == pt || pt.Any? then Some(at)
    else if CanCoerce(at, pt) && !skip then Some(pt)
    else if IsSymbolic(pt) then Some(at)
    else None
  }

  predicate TypesCoerce(ts: seq<ExprType>, ps: seq<ExprType>, skip: bool) {
    |ts| == |ps| && forall i :: 0 <= i < |ts| ==> CoerceOneType(ts[i], ps[i], skip && i == 0).Some?
  }

  function CoercedTypes(ts: seq<ExprType>, ps: seq<ExprType>, skip: bool): (r: seq<ExprType>)
    requires TypesCoerce(ts, ps, skip)
    ensures |r| == |ts|
  {
    seq(|ts|, i requires 0 <= i < |ts| => CoerceOneType(ts[i], ps[i], skip && i == 0).value)
  }

  /** `try_coerce_types`. */
  method TryCoerceTypes(ts: seq<ExprType>, ps: seq<ExprType>, skip: bool) returns (r: Option<seq<ExprType>>)
    ensures r == if TypesCoerce(ts, ps, skip) then Some(CoercedTypes(ts, ps, skip)) else None
  {
    if |ts| != |ps| { return None; }
    var coerced: seq<ExprType> := [];
    for i := 0 to |ts|
      invariant |coerced| == i
      invariant forall k :: 0 <= k < i ==> CoerceOneType(ts[k], ps[k], skip && k == 0) == Some(coerced[k])
    {
      var at, pt := ts[i], ps[i];
      if at == pt || pt.Any? {
        coerced := coerced + [at];
      } else if CanCoerce(at, pt) && !(skip && i == 0) {
        coerced := coerced + [pt];
      } else if IsSymbolic(pt) {
        coerced := coerced + [at];
      } else {
        assert CoerceOneType(ts[i], ps[i], skip && i == 0).None?;
        return None;
      }
    }
    assert TypesCoerce(ts, ps, skip) ==> coerced == CoercedTypes(ts, ps, skip);
    return Some(coerced);
  }

  /** The value an argument is turned into when its type is to change. */
  function Converted(h: Host, a: Value, pt: ExprType): Option<Value> {
    if a.IntValue? && pt.Float? then Some(FloatValue(h.intToFloat(a.i)))
    else if a.PathValue? && pt.String? then Some(StringValue(a.path))
    else None
  }

  function CoerceOneArg(h: Host, a: Value, at: ExprType, pt: ExprType, skip: bool): Option<Value> {
    if at == pt then Some(a)
    else if CanCoerce(at, pt) && !skip then Converted(h, a, pt)
    else None
  }

  predicate ArgsCoerce(h: Host, args: seq<Value>, ts: seq<ExprType>, ps: seq<ExprType>, skip: bool)
    requires |ts| == |args|
  {
    && |args| == |ps|
    && (forall i :: 0 <= i < |args| ==> CoerceOneArg(h, args[i], ts[i], ps[i], skip && i == 0).Some?)
    && exists i :: 0 <= i < |args| && ts[i] != ps[i]
  }

  function CoercedArgs(h: Host, args: seq<Value>, ts: seq<ExprType>, ps: seq<ExprType>, skip: bool): (r: seq<Value>)
    requires |ts| == |args| && ArgsCoerce(h, args, ts, ps, skip)
    ensures |r| == |args|
  {
    seq(|args|, i requires 0 <= i < |args| => CoerceOneArg(h, args[i], ts[i], ps[i], skip && i == 0).value)
  }

  /** `try_coerce_args`: only when something changes. */
  method TryCoerceArgs(h: Host, args: seq<Value>, ts: seq<ExprType>, ps: seq<ExprType>, skip: bool)
    returns (r: Option<seq<Value>>)
    requires |ts| == |args|
    ensures r == if ArgsCoerce(h, args, ts, ps, skip) then Some(CoercedArgs(h, args, ts, ps, skip)) else None
  {
    if |args| != |ps| { return None; }
    var coerced: seq<Value> := [];
    var changed := false;
    for i := 0 to |args|
      invariant |coerced| == i
      invariant forall k :: 0 <= k < i ==> CoerceOneArg(h, args[k], ts[k], ps[k], skip && k == 0) == Some(coerced[k])
      invariant changed <==> exists k :: 0 <= k < i && ts[k] != ps[k]
    {
      if ts[i] == ps[i] {
        coerced := coerced + [args[i]];
      } else if CanCoerce(ts[i], ps[i]) && !(skip && i == 0) {
        changed := true;
        var converted := Converted(h, args[i], ps[i]);
        if converted.None? {
          assert CoerceOneArg(h, args[i], ts[i], ps[i], skip && i == 0).None?;
          return None;
        }
        coerced := coerced + [converted.value];
      } else {
        assert CoerceOneArg(h, args[i], ts[i], ps[i], skip && i == 0).None?;
        return None;
      }
    }
    assert ArgsCoerce(h, args, ts, ps, skip) ==> coerced == CoercedArgs(h, args, ts, ps, skip);
    return if changed then Some(coerced) else None;
  }

  /** `coerce_values`, for generic overloads. */
  function CoerceValue(h: Host, a: Value, t: ExprType): Value {
    if CanCoerce(TypeOf(a), t) && Converted(h, a, t).Some? then Converted(h, a, t).value else a
  }

  function CoerceValues(h: Host, args: seq<Value>, ts: seq<ExprType>): (r: seq<Value>)
    requires |ts| == |args|
    ensures |r| == |args|
  {
    seq(|args|, i requires 0 <= i < |args| => CoerceValue(h, args[i], ts[i]))
  }

  // ---- Choosing ----

  datatype Choice =
    | Nothing
    | Exact(k: nat)
    | Coerced(k: nat)
    | Generic(k: nat, bindings: Bindings)
    | GenericCoerced(k: nat, types: seq<ExprType>, bindings: Bindings)

  predicate ExactAt(e: Entry, ts: seq<ExprType>) {
    !IsGeneric(e) && MatchCall(e.params, ts).Some?
  }

  predicate CoercedAt(h: Host, e: Entry, args: seq<Value>, ts: seq<ExprType>, skip: bool)
    requires |ts| == |args|
  {
    && !IsGeneric(e)
    && if AnyUnresolved(args) then TypesCoerce(ts, e.params, skip) else ArgsCoerce(h, args, ts, e.params, skip)
  }

  function GenericAt(e: Entry, k: nat, ts: seq<ExprType>, skip: bool): Choice {
    if !IsGeneric(e) then Nothing
    else if MatchCall(e.params, ts).Some? then Generic(k, MatchCall(e.params, ts).value)
    else if TypesCoerce(ts, e.params, skip) && MatchCall(e.params, CoercedTypes(ts, e.params, skip)).Some? then
      GenericCoerced(k, CoercedTypes(ts, e.params, skip), MatchCall(e.params, CoercedTypes(ts, e.params, skip)).value)
    else Nothing
  }

  function FirstExact(es: seq<Entry>, ts: seq<ExprType>, k: nat): Choice
    decreases |es| - k
  {
    if k >= |es| then Nothing else if ExactAt(es[k], ts) then Exact(k) else FirstExact(es, ts, k + 1)
  }

  function FirstCoerced(h: Host, es: seq<Entry>, args: seq<Value>, ts: seq<ExprType>, skip: bool, k: nat): Choice
    requires |ts| == |args|
    decreases |es| - k
  {
    if k >= |es| then Nothing
    else if CoercedAt(h, es[k], args, ts, skip) then Coerced(k)
    else FirstCoerced(h, es, args, ts, skip, k + 1)
  }

  function FirstGeneric(es: seq<Entry>, ts: seq<ExprType>, skip: bool, k: nat): Choice
    decreases |es| - k
  {
    if k >= |es| then Nothing
    else if !GenericAt(es[k], k, ts, skip).Nothing? then GenericAt(es[k], k, ts, skip)
    else FirstGeneric(es, ts, skip, k + 1)
  }

  /** Which overload `call_inner` picks, and in which phase. */
  function Choose(h: Host, es: seq<Entry>, args: seq<Value>, skip: bool): Choice {
    var ts := ArgTypes(args);
    var exact := FirstExact(es, ts, 0);
    if !exact.Nothing? then exact
    else
      var coerced := FirstCoerced(h, es, args, ts, skip, 0);
      if !coerced.Nothing? then coerced else FirstGeneric(es, ts, skip, 0)
  }

  /** The arguments the chosen implementation is run on, when none is unresolved. */
  function Passed(h: Host, es: seq<Entry>, args: seq<Value>, skip: bool): seq<Value> {
    match Choose(h, es, args, skip)
    case Coerced(k) =>
      if k < |es| && ArgsCoerce(h, args, ArgTypes(args), es[k].params, skip)
      then CoercedArgs(h, args, ArgTypes(args), es[k].params, skip) else args
    case GenericCoerced(_, types, _) => if |types| == |args| then CoerceValues(h, args, types) else args
    case _ => args
  }

  /** `call_inner`: the choice and, for a call without unresolved arguments, what is passed on. With
      an unresolved argument nothing is run and only the choice matters. */
  method CallInner(h: Host, es: seq<Entry>, args: seq<Value>, skip: bool) returns (choice: Choice, passed: seq<Value>)
    ensures choice == Choose(h, es, args, skip)
    ensures !AnyUnresolved(args) ==> passed == Passed(h, es, args, skip)
  {
    var ts := ArgTypes(args);
    var unresolved := AnyUnresolved(args);
    for k := 0 to |es|
      invariant FirstExact(es, ts, 0) == FirstExact(es, ts, k)
    {
      if !IsGeneric(es[k]) {
        var bindings := MatchCallLoop(es[k].params, ts);
        if bindings.Some? { return Exact(k), args; }
      }
    }
    choice, passed := CallCoerced(h, es, args, ts, skip, unresolved);
    if choice.Coerced? { return; }
    for k := 0 to |es|
      invariant FirstGeneric(es, ts, skip, 0) == FirstGeneric(es, ts, skip, k)
    {
      if IsGeneric(es[k]) {
        var bindings := MatchCallLoop(es[k].params, ts);
        if bindings.Some? { return Generic(k, bindings.value), args; }
        var coerced := TryCoerceTypes(ts, es[k].params, skip);
        if coerced.Some? {
          bindings := MatchCallLoop(es[k].params, coerced.value);
          if bindings.Some? {
            return GenericCoerced(k, coerced.value, bindings.value), CoerceValues(h, args, coerced.value);
          }
        }
      }
    }
    return Nothing, args;
  }

  /** Phase 2. */
  method CallCoerced(h: Host, es: seq<Entry>, args: seq<Value>, ts: seq<ExprType>, skip: bool, unresolved: bool)
    returns (choice: Choice, passed: seq<Value>)
    requires |ts| == |args| && unresolved == AnyUnresolved(args)
    ensures choice == FirstCoerced(h, es, args, ts, skip, 0)
    ensures choice.Coerced? || choice.Nothing?
    ensures choice.Coerced? ==> choice.k < |es| && (unresolved || ArgsCoerce(h, args, ts, es[choice.k].params, skip))
    ensures choice.Coerced? && !unresolved ==> passed == CoercedArgs(h, args, ts, es[choice.k].params, skip)
  {
    for k := 0 to |es|
      invariant FirstCoerced(h, es, args, ts, skip, 0) == FirstCoerced(h, es, args, ts, skip, k)
    {
      if !IsGeneric(es[k]) {
        if unresolved {
          var types := TryCoerceTypes(ts, es[k].params, skip);
          if types.Some? { return Coerced(k), args; }
        } else {
          var coerced := TryCoerceArgs(h, args, ts, es[k].params, skip);
          if coerced.Some? { return Coerced(k), coerced.value; }
        }
      }
    }
    return Nothing, args;
  }

  // ---- Values and placeholders choose alike ----

  /** A type without variables matches itself and binds nothing. */
  lemma {:induction false} MatchSelf(p: ExprType)
    requires Normal(p) && !IsSymbolic(p)
    ensures MatchType(p, p) == Some(map[])
    decreases p
  {
    if p.List? {
      MatchSelf(p.elem);
    } else if p.Unresolved? {
      MatchSelf(p.constraint);
    } else if p.Union? {
      assert !IsSymbolic(p.members[0]) && Normal(p.members[0]);
      MatchSelf(p.members[0]);
      assert FirstTarget(p.members[0], p, 0) == Some(map[]);
    }
  }

  lemma {:induction false} CallSelf(ps: seq<ExprType>)
    requires AllNormal(ps) && forall i :: 0 <= i < |ps| ==> !IsSymbolic(ps[i])
    ensures MatchParams(ps, ps) == Some(Pair(map[], map[]))
  {
    if ps == [] {
    } else {
      var n := |ps| - 1;
      CallSelf(ps[..n]);
      MatchSelf(ps[n]);
      assert !IsSymbolic(ps[n]);
      var none: Bindings := map[];
      assert Merged(none, none) == none;
    }
  }

  /** `b` is `a`, or an unresolved placeholder of its type. */
  ghost predicate StandsFor(b: Value, a: Value) {
    b == a || b == UnresolvedValue(TypeOf(a))
  }

  ghost predicate AllStandFor(bs: seq<Value>, args: seq<Value>) {
    |bs| == |args| && forall i :: 0 <= i < |args| ==> StandsFor(bs[i], args[i])
  }

  ghost predicate AllConcrete(args: seq<Value>) {
    forall i :: 0 <= i < |args| ==> ConcreteValue(args[i])
  }

  lemma SameArgTypes(bs: seq<Value>, args: seq<Value>)
    requires AllConcrete(args) && AllStandFor(bs, args)
    ensures ArgTypes(bs) == ArgTypes(args)
    ensures forall i :: 0 <= i < |args| ==> ArgType(args[i]) == TypeOf(args[i]) && Normal(TypeOf(args[i]))
  {
    forall i | 0 <= i < |args|
      ensures ArgType(bs[i]) == ArgType(args[i]) == TypeOf(args[i]) && Normal(TypeOf(args[i]))
    {
      assert ConcreteValue(args[i]) && StandsFor(bs[i], args[i]);
    }
  }

  ghost predicate TakesAny(e: Entry) {
    exists i :: 0 <= i < |e.params| && e.params[i].Any?
  }

  lemma OneArgument(h: Host, a: Value, pt: ExprType, skip: bool)
    requires ConcreteValue(a) && !pt.Any? && !IsSymbolic(pt)
    ensures CoerceOneArg(h, a, TypeOf(a), pt, skip).Some? <==> CoerceOneType(TypeOf(a), pt, skip).Some?
    ensures CoerceOneArg(h, a, TypeOf(a), pt, skip).Some? ==>
              TypeOf(CoerceOneArg(h, a, TypeOf(a), pt, skip).value) == CoerceOneType(TypeOf(a), pt, skip).value
  {}

  lemma NoArgumentForAny(h: Host, a: Value, skip: bool)
    requires ConcreteValue(a)
    ensures CoerceOneArg(h, a, TypeOf(a), Any, skip).None?
  {}

  /** Where an overload was not an exact match, value coercion and type coercion accept the same
      calls, except that only type coercion lets anything through an `any` parameter. */
  lemma CoercionsAgree(h: Host, e: Entry, args: seq<Value>, ts: seq<ExprType>, skip: bool)
    requires AllConcrete(args) && ts == ArgTypes(args) && AllNormal(e.params)
    requires !IsGeneric(e) && !ExactAt(e, ts)
    ensures ArgsCoerce(h, args, ts, e.params, skip) <==> TypesCoerce(ts, e.params, skip) && !TakesAny(e)
    ensures ArgsCoerce(h, args, ts, e.params, skip) ==>
              forall i :: 0 <= i < |args| ==>
                TypeOf(CoercedArgs(h, args, ts, e.params, skip)[i]) == CoercedTypes(ts, e.params, skip)[i]
  {
    SameArgTypes(args, args);
    forall i | 0 <= i < |args| ensures ts[i] == TypeOf(args[i]) && ConcreteValue(args[i]) {}
    if |args| == |e.params| {
      if i :| 0 <= i < |e.params| && e.params[i].Any? {
        NoArgumentForAny(h, args[i], skip && i == 0);
      } else {
        forall i | 0 <= i < |args|
          ensures CoerceOneArg(h, args[i], ts[i], e.params[i], skip && i == 0).Some? <==>
                  CoerceOneType(ts[i], e.params[i], skip && i == 0).Some?
          ensures CoerceOneArg(h, args[i], ts[i], e.params[i], skip && i == 0).Some? ==>
                    TypeOf(CoerceOneArg(h, args[i], ts[i], e.params[i], skip && i == 0).value) ==
                    CoerceOneType(ts[i], e.params[i], skip && i == 0).value
        {
          OneArgument(h, args[i], e.params[i], skip && i == 0);
        }
        if forall i :: 0 <= i < |args| ==> ts[i] == e.params[i] {
          assert ts == e.params;
          CallSelf(e.params);
        }
      }
    }
  }

  lemma {:induction false} NoneExact(es: seq<Entry>, ts: seq<ExprType>, k: nat, j: nat)
    requires FirstExact(es, ts, k).Nothing? && k <= j < |es|
    ensures !ExactAt(es[j], ts)
    decreases |es| - k
  {
    if k < j { NoneExact(es, ts, k + 1, j); }
  }

  ghost predicate NormalEntries(es: seq<Entry>) {
    forall k :: 0 <= k < |es| ==> AllNormal(es[k].params)
  }

  /** From the k-th entry on, with no exact match anywhere: placeholders and values coerce alike unless
      the entry the placeholders pick takes `any`. */
  lemma {:induction false} CoercedAlike(h: Host, es: seq<Entry>, args: seq<Value>, bs: seq<Value>, ts: seq<ExprType>,
                                        skip: bool, k: nat)
    requires AllConcrete(args) && |bs| == |args| && ts == ArgTypes(args) && NormalEntries(es)
    requires !AnyUnresolved(args) && AnyUnresolved(bs) && FirstExact(es, ts, 0).Nothing?
    ensures var typed, valued := FirstCoerced(h, es, bs, ts, skip, k), FirstCoerced(h, es, args, ts, skip, k);
            && (typed.Nothing? || (typed.Coerced? && k <= typed.k < |es|))
            && (valued.Nothing? || (valued.Coerced? && k <= valued.k < |es|))
            && (typed == valued <==> typed.Coerced? ==> !TakesAny(es[typed.k]))
            && (typed.Nothing? ==> valued.Nothing?)
    decreases |es| - k
  {
    if k < |es| {
      NoneExact(es, ts, 0, k);
      if !IsGeneric(es[k]) {
        CoercionsAgree(h, es[k], args, ts, skip);
      }
      CoercedAlike(h, es, args, bs, ts, skip, k + 1);
    }
  }

  lemma ConcreteResolved(args: seq<Value>)
    requires AllConcrete(args)
    ensures !AnyUnresolved(args)
  {
    forall i | 0 <= i < |args| ensures !args[i].UnresolvedValue? {
      assert ConcreteValue(args[i]);
    }
  }

  lemma GenericNotCoerced(es: seq<Entry>, ts: seq<ExprType>, skip: bool, k: nat)
    ensures !FirstGeneric(es, ts, skip, k).Coerced?
    decreases |es| - k
  {
    if k < |es| { GenericNotCoerced(es, ts, skip, k + 1); }
  }

  /** The k-th overload is the first one without type variables whose parameters the argument types
      coerce to. */
  ghost predicate FirstCoercible(es: seq<Entry>, ts: seq<ExprType>, skip: bool, k: nat) {
    && k < |es| && !IsGeneric(es[k]) && TypesCoerce(ts, es[k].params, skip)
    && forall j :: 0 <= j < k ==> IsGeneric(es[j]) || !TypesCoerce(ts, es[j].params, skip)
  }

  ghost predicate SomeExact(es: seq<Entry>, ts: seq<ExprType>) {
    exists k :: 0 <= k < |es| && ExactAt(es[k], ts)
  }

  /** No overload matches the argument types, and the first one they coerce to takes `any`. */
  ghost predicate AnyTakesOver(es: seq<Entry>, ts: seq<ExprType>, skip: bool) {
    !SomeExact(es, ts) && exists k: nat :: FirstCoercible(es, ts, skip, k) && TakesAny(es[k])
  }

  lemma {:induction false} ExactFound(es: seq<Entry>, ts: seq<ExprType>, k: nat)
    requires k <= |es|
    ensures FirstExact(es, ts, k).Exact? || FirstExact(es, ts, k).Nothing?
    ensures FirstExact(es, ts, k).Exact? <==> exists j :: k <= j < |es| && ExactAt(es[j], ts)
    decreases |es| - k
  {
    if k < |es| { ExactFound(es, ts, k + 1); }
  }

  lemma {:induction false} CoercibleFound(h: Host, es: seq<Entry>, bs: seq<Value>, ts: seq<ExprType>, skip: bool,
                                          k: nat)
    requires |ts| == |bs| && AnyUnresolved(bs) && k <= |es|
    requires forall j :: 0 <= j < k ==> IsGeneric(es[j]) || !TypesCoerce(ts, es[j].params, skip)
    ensures var c := FirstCoerced(h, es, bs, ts, skip, k);
            if c.Coerced? then FirstCoercible(es, ts, skip, c.k)
            else c.Nothing? && forall j :: 0 <= j < |es| ==> IsGeneric(es[j]) || !TypesCoerce(ts, es[j].params, skip)
    decreases |es| - k
  {
    if k < |es| && !CoercedAt(h, es[k], bs, ts, skip) { CoercibleFound(h, es, bs, ts, skip, k + 1); }
  }

  lemma FirstCoercibleOnce(es: seq<Entry>, ts: seq<ExprType>, skip: bool, j: nat, k: nat)
    requires FirstCoercible(es, ts, skip, j) && FirstCoercible(es, ts, skip, k)
    ensures j == k
  {}

  /** Replacing arguments by placeholders of their types leaves the choice alone, unless no overload
      matches their types and the first one they coerce to takes `any`; then it changes. */
  lemma ChoiceUnchanged(h: Host, es: seq<Entry>, args: seq<Value>, bs: seq<Value>, skip: bool)
    requires AllConcrete(args) && AllStandFor(bs, args) && AnyUnresolved(bs) && NormalEntries(es)
    ensures Choose(h, es, bs, skip) == Choose(h, es, args, skip) <==> !AnyTakesOver(es, ArgTypes(args), skip)
  {
    var ts := ArgTypes(args);
    SameArgTypes(bs, args);
    ConcreteResolved(args);
    ExactFound(es, ts, 0);
    if FirstExact(es, ts, 0).Nothing? {
      CoercedAlike(h, es, args, bs, ts, skip, 0);
      GenericNotCoerced(es, ts, skip, 0);
      TakenOver(h, es, bs, ts, skip);
    }
  }

  lemma TakenOver(h: Host, es: seq<Entry>, bs: seq<Value>, ts: seq<ExprType>, skip: bool)
    requires |ts| == |bs| && AnyUnresolved(bs) && !SomeExact(es, ts)
    ensures var typed := FirstCoerced(h, es, bs, ts, skip, 0);
            AnyTakesOver(es, ts, skip) <==> typed.Coerced? && typed.k < |es| && TakesAny(es[typed.k])
  {
    CoercibleFound(h, es, bs, ts, skip, 0);
    var typed := FirstCoerced(h, es, bs, ts, skip, 0);
    if AnyTakesOver(es, ts, skip) {
      var k: nat :| FirstCoercible(es, ts, skip, k) && TakesAny(es[k]);
      if typed.Coerced? { FirstCoercibleOnce(es, ts, skip, k, typed.k); }
    }
  }

  /** It does change for one overload of `any` and `float`: called with a string and an int nothing is
      chosen, while an unresolved int is taken for a float. */
  lemma ChoiceChanges(h: Host)
    ensures var es, args := [Entry([Any, Float], Int)], [StringValue("a"), IntValue(1)];
            var bs := [StringValue("a"), UnresolvedValue(Int)];
            && AllStandFor(bs, args) && NormalEntries(es)
            && Choose(h, es, bs, false) == Coerced(0) && Choose(h, es, args, false) == Nothing
  {
    var es, args := [Entry([Any, Float], Int)], [StringValue("a"), IntValue(1)];
    var bs := [StringValue("a"), UnresolvedValue(Int)];
    ExampleTypes(args, bs);
    NoArgumentForAny(h, args[0], false);
    ExampleChoice(h, es, args, bs);
  }

  lemma ExampleChoice(h: Host, es: seq<Entry>, args: seq<Value>, bs: seq<Value>)
    requires es == [Entry([Any, Float], Int)] && ArgTypes(args) == ArgTypes(bs) == [String, Int]
    requires !AnyUnresolved(args) && AnyUnresolved(bs) && |args| == 2
            && CoerceOneArg(h, args[0], String, Any, false).None?
    ensures Choose(h, es, bs, false) == Coerced(0) && Choose(h, es, args, false) == Nothing
  {
    OnlyTypesCoerce(h, es[0], args, bs);
    ChooseOne(h, es, args);
    ChooseOne(h, es, bs);
  }

  lemma ExampleTypes(args: seq<Value>, bs: seq<Value>)
    requires args == [StringValue("a"), IntValue(1)] && bs == [StringValue("a"), UnresolvedValue(Int)]
    ensures AllStandFor(bs, args) && !AnyUnresolved(args) && AnyUnresolved(bs)
    ensures ArgTypes(args) == [String, Int] && ArgTypes(bs) == [String, Int]
  {
    assert bs[1].UnresolvedValue?;
  }

  lemma OnlyTypesCoerce(h: Host, e: Entry, args: seq<Value>, bs: seq<Value>)
    requires e == Entry([Any, Float], Int) && ArgTypes(args) == ArgTypes(bs) == [String, Int]
    requires !AnyUnresolved(args) && AnyUnresolved(bs) && |args| == 2
            && CoerceOneArg(h, args[0], String, Any, false).None?
    ensures !IsGeneric(e) && !ExactAt(e, [String, Int])
    ensures CoercedAt(h, e, bs, [String, Int], false) && !CoercedAt(h, e, args, [String, Int], false)
  {
    NoFloatForInt(e.params, [String, Int]);
  }

  lemma ChooseOne(h: Host, es: seq<Entry>, args: seq<Value>)
    requires |es| == 1 && !IsGeneric(es[0]) && !ExactAt(es[0], ArgTypes(args))
    ensures Choose(h, es, args, false) ==
            if CoercedAt(h, es[0], args, ArgTypes(args), false) then Coerced(0) else Nothing
  {
    var ts := ArgTypes(args);
    assert FirstExact(es, ts, 1) == Nothing && FirstGeneric(es, ts, false, 1) == Nothing;
    assert FirstCoerced(h, es, args, ts, false, 1) == Nothing;
  }

  lemma NoFloatForInt(ps: seq<ExprType>, ts: seq<ExprType>)
    requires ps == [Any, Float] && ts == [String, Int]
    ensures MatchCall(ps, ts).None?
  {
    assert MatchType(ps[1], ts[1]).None?;
  }

  /** So in a library without `any` parameters static checking and evaluation agree on every call. */
  lemma ChoiceIndependent(h: Host, es: seq<Entry>, args: seq<Value>, bs: seq<Value>, skip: bool)
    requires AllConcrete(args) && AllStandFor(bs, args) && NormalEntries(es)
    requires forall k :: 0 <= k < |es| ==> !TakesAny(es[k])
    ensures Choose(h, es, bs, skip) == Choose(h, es, args, skip)
  {
    if AnyUnresolved(bs) {
      ChoiceUnchanged(h, es, args, bs, skip);
    } else {
      forall i | 0 <= i < |args| ensures bs[i] == args[i] {
        assert StandsFor(bs[i], args[i]) && !bs[i].UnresolvedValue?;
      }
      assert bs == args;
    }
  }
}
