/** Which overload a call picks and what it is run on, said of the signatures and arguments alone. */
module DispatchRules {
  import opened Wrappers
  import opened ExprTypes
  import opened Satisfaction
  import opened ExprValues
  import opened Unification
  import opened Dispatch

  // ---- The rule ----

  ghost predicate NoVariables(e: Entry) {
    !IsSymbolic(e.ret) && forall i :: 0 <= i < |e.params| ==> !IsSymbolic(e.params[i])
  }

  ghost predicate TakesExactly(e: Entry, ts: seq<ExprType>) {
    NoVariables(e) && MatchCall(e.params, ts).Some?
  }

  /** An int is taken for a float and a path for a string, unless the argument is held fixed. */
  ghost predicate Adapts(t: ExprType, p: ExprType, fixed: bool) {
    !fixed && ((t == Int && p == Float) || (t == Path && p == String))
  }

  /** On values every argument has its parameter's type or adapts to it, and some argument adapts. On
      placeholders none need adapt, and an `any` parameter takes everything. */
  ghost predicate TakesAdapted(e: Entry, ts: seq<ExprType>, skip: bool, placeholders: bool) {
    && NoVariables(e) && |e.params| == |ts|
    && (forall i :: 0 <= i < |ts| ==>
          ts[i] == e.params[i] || Adapts(ts[i], e.params[i], skip && i == 0) || (placeholders && e.params[i] == Any))
    && (placeholders || exists i :: 0 <= i < |ts| && ts[i] != e.params[i])
  }

  /** The types a call is matched with once its arguments are adapted to parameters without variables. */
  ghost predicate AdaptedTypes(ts: seq<ExprType>, ps: seq<ExprType>, skip: bool, us: seq<ExprType>) {
    && |ps| == |ts| && |us| == |ts|
    && forall i :: 0 <= i < |ts| ==>
         if Adapts(ts[i], ps[i], skip && i == 0) then us[i] == ps[i]
         else us[i] == ts[i] && (ts[i] == ps[i] || ps[i] == Any || IsSymbolic(ps[i]))
  }

  ghost predicate TakesGeneric(e: Entry, ts: seq<ExprType>, skip: bool) {
    !NoVariables(e) &&
    (MatchCall(e.params, ts).Some? ||
     exists us :: AdaptedTypes(ts, e.params, skip, us) && MatchCall(e.params, us).Some?)
  }

  ghost predicate Leads(es: seq<Entry>, k: nat, takes: Entry -> bool) {
    k < |es| && takes(es[k]) && forall j :: 0 <= j < k ==> !takes(es[j])
  }

  ghost predicate NoneTakes(es: seq<Entry>, takes: Entry -> bool) {
    forall j :: 0 <= j < |es| ==> !takes(es[j])
  }

  ghost function Exactly(ts: seq<ExprType>): Entry -> bool {
    e => TakesExactly(e, ts)
  }

  ghost function Adapted(ts: seq<ExprType>, skip: bool, placeholders: bool): Entry -> bool {
    e => TakesAdapted(e, ts, skip, placeholders)
  }

  ghost function Generically(ts: seq<ExprType>, skip: bool): Entry -> bool {
    e => TakesGeneric(e, ts, skip)
  }

  /** The first overload that takes the call exactly; failing all of those the first that takes it
      adapted; failing those the first with type variables that takes it, as it stands if it can and
      adapted otherwise. */
  ghost predicate Rule(es: seq<Entry>, ts: seq<ExprType>, skip: bool, placeholders: bool, c: Choice) {
    match c
    case Exact(k) => Leads(es, k, Exactly(ts))
    case Coerced(k) => NoneTakes(es, Exactly(ts)) && Leads(es, k, Adapted(ts, skip, placeholders))
    case Generic(k, b) =>
      && NoneTakes(es, Exactly(ts)) && NoneTakes(es, Adapted(ts, skip, placeholders))
      && Leads(es, k, Generically(ts, skip)) && MatchCall(es[k].params, ts) == Some(b)
    case GenericCoerced(k, us, b) =>
      && NoneTakes(es, Exactly(ts)) && NoneTakes(es, Adapted(ts, skip, placeholders))
      && Leads(es, k, Generically(ts, skip)) && MatchCall(es[k].params, ts).None?
      && AdaptedTypes(ts, es[k].params, skip, us) && MatchCall(es[k].params, us) == Some(b)
    case Nothing =>
      && NoneTakes(es, Exactly(ts)) && NoneTakes(es, Adapted(ts, skip, placeholders))
      && NoneTakes(es, Generically(ts, skip))
  }

  // ---- One overload ----

  lemma AdaptedOnce(ts: seq<ExprType>, ps: seq<ExprType>, skip: bool, us: seq<ExprType>, vs: seq<ExprType>)
    requires AdaptedTypes(ts, ps, skip, us) && AdaptedTypes(ts, ps, skip, vs)
    ensures us == vs
  {
    forall i | 0 <= i < |ts| ensures us[i] == vs[i] {}
  }

  lemma OneType(t: ExprType, p: ExprType, fixed: bool, u: ExprType)
    ensures CoerceOneType(t, p, fixed) == Some(u) <==>
            if Adapts(t, p, fixed) then u == p else u == t && (t == p || p == Any || IsSymbolic(p))
  {}

  lemma TypesAdapt(ts: seq<ExprType>, ps: seq<ExprType>, skip: bool, us: seq<ExprType>)
    ensures (TypesCoerce(ts, ps, skip) && CoercedTypes(ts, ps, skip) == us) <==> AdaptedTypes(ts, ps, skip, us)
  {
    if |ts| == |ps| == |us| {
      forall i | 0 <= i < |ts|
        ensures CoerceOneType(ts[i], ps[i], skip && i == 0) == Some(us[i]) <==>
                if Adapts(ts[i], ps[i], skip && i == 0) then us[i] == ps[i]
                else us[i] == ts[i] && (ts[i] == ps[i] || ps[i] == Any || IsSymbolic(ps[i]))
      {
        OneType(ts[i], ps[i], skip && i == 0, us[i]);
      }
      if AdaptedTypes(ts, ps, skip, us) { assert CoercedTypes(ts, ps, skip) == us; }
    }
  }

  lemma OneArg(h: Host, a: Value, p: ExprType, fixed: bool)
    requires !a.UnresolvedValue?
    ensures CoerceOneArg(h, a, ArgType(a), p, fixed).Some? <==> ArgType(a) == p || Adapts(ArgType(a), p, fixed)
  {}

  lemma ArgsAdapt(h: Host, args: seq<Value>, e: Entry, skip: bool)
    requires !AnyUnresolved(args) && NoVariables(e)
    ensures ArgsCoerce(h, args, ArgTypes(args), e.params, skip) <==> TakesAdapted(e, ArgTypes(args), skip, false)
  {
    var ts, ps := ArgTypes(args), e.params;
    if |args| == |ps| {
      forall i | 0 <= i < |args|
        ensures CoerceOneArg(h, args[i], ts[i], ps[i], skip && i == 0).Some? <==>
                ts[i] == ps[i] || Adapts(ts[i], ps[i], skip && i == 0)
      {
        OneArg(h, args[i], ps[i], skip && i == 0);
      }
    }
  }

  lemma PlaceholdersAdapt(ts: seq<ExprType>, e: Entry, skip: bool)
    requires NoVariables(e)
    ensures TypesCoerce(ts, e.params, skip) <==> TakesAdapted(e, ts, skip, true)
  {}

  lemma GenericIs(e: Entry)
    ensures IsGeneric(e) <==> !NoVariables(e)
  {}

  lemma AtExact(e: Entry, ts: seq<ExprType>)
    ensures ExactAt(e, ts) <==> TakesExactly(e, ts)
  {
    GenericIs(e);
  }

  lemma AtCoerced(h: Host, e: Entry, args: seq<Value>, skip: bool)
    ensures CoercedAt(h, e, args, ArgTypes(args), skip) <==> TakesAdapted(e, ArgTypes(args), skip, AnyUnresolved(args))
  {
    GenericIs(e);
    if NoVariables(e) {
      if AnyUnresolved(args) { PlaceholdersAdapt(ArgTypes(args), e, skip); } else { ArgsAdapt(h, args, e, skip); }
    }
  }

  lemma AtGeneric(e: Entry, k: nat, ts: seq<ExprType>, skip: bool)
    ensures var c := GenericAt(e, k, ts, skip);
            match c
            case Nothing => !TakesGeneric(e, ts, skip)
            case Generic(j, b) => j == k && TakesGeneric(e, ts, skip) && MatchCall(e.params, ts) == Some(b)
            case GenericCoerced(j, us, b) =>
              && j == k && TakesGeneric(e, ts, skip) && MatchCall(e.params, ts).None?
              && AdaptedTypes(ts, e.params, skip, us) && MatchCall(e.params, us) == Some(b)
            case _ => false
  {
    GenericIs(e);
    if TypesCoerce(ts, e.params, skip) {
      TypesAdapt(ts, e.params, skip, CoercedTypes(ts, e.params, skip));
    }
    forall us | AdaptedTypes(ts, e.params, skip, us)
      ensures TypesCoerce(ts, e.params, skip) && us == CoercedTypes(ts, e.params, skip)
    {
      TypesAdapt(ts, e.params, skip, us);
    }
  }

  // ---- The first in each phase ----

  ghost predicate NoneBefore(es: seq<Entry>, k: nat, takes: Entry -> bool) {
    k <= |es| && forall j :: 0 <= j < k ==> !takes(es[j])
  }

  lemma {:induction false} FirstOfExact(es: seq<Entry>, ts: seq<ExprType>, k: nat)
    requires NoneBefore(es, k, Exactly(ts))
    ensures match FirstExact(es, ts, k)
            case Exact(j) => Leads(es, j, Exactly(ts))
            case Nothing => NoneTakes(es, Exactly(ts))
            case _ => false
    decreases |es| - k
  {
    if k < |es| {
      AtExact(es[k], ts);
      if !ExactAt(es[k], ts) { FirstOfExact(es, ts, k + 1); }
    }
  }

  lemma {:induction false} FirstOfCoerced(h: Host, es: seq<Entry>, args: seq<Value>, skip: bool, k: nat)
    requires NoneBefore(es, k, Adapted(ArgTypes(args), skip, AnyUnresolved(args)))
    ensures var takes := Adapted(ArgTypes(args), skip, AnyUnresolved(args));
            match FirstCoerced(h, es, args, ArgTypes(args), skip, k)
            case Coerced(j) => Leads(es, j, takes)
            case Nothing => NoneTakes(es, takes)
            case _ => false
    decreases |es| - k
  {
    if k < |es| {
      AtCoerced(h, es[k], args, skip);
      if !CoercedAt(h, es[k], args, ArgTypes(args), skip) { FirstOfCoerced(h, es, args, skip, k + 1); }
    }
  }

  /** The generic part of the rule, for a choice of that phase. */
  ghost predicate GenericRule(es: seq<Entry>, ts: seq<ExprType>, skip: bool, c: Choice) {
    match c
    case Generic(k, b) => Leads(es, k, Generically(ts, skip)) && MatchCall(es[k].params, ts) == Some(b)
    case GenericCoerced(k, us, b) =>
      && Leads(es, k, Generically(ts, skip)) && MatchCall(es[k].params, ts).None?
      && AdaptedTypes(ts, es[k].params, skip, us) && MatchCall(es[k].params, us) == Some(b)
    case Nothing => NoneTakes(es, Generically(ts, skip))
    case _ => false
  }

  lemma {:induction false} FirstOfGeneric(es: seq<Entry>, ts: seq<ExprType>, skip: bool, k: nat)
    requires NoneBefore(es, k, Generically(ts, skip))
    ensures GenericRule(es, ts, skip, FirstGeneric(es, ts, skip, k))
    decreases |es| - k
  {
    if k < |es| {
      AtGeneric(es[k], k, ts, skip);
      if GenericAt(es[k], k, ts, skip).Nothing? { FirstOfGeneric(es, ts, skip, k + 1); }
    }
  }

  // ---- The choice ----

  lemma FollowsRule(h: Host, es: seq<Entry>, args: seq<Value>, skip: bool)
    ensures Rule(es, ArgTypes(args), skip, AnyUnresolved(args), Choose(h, es, args, skip))
  {
    var ts := ArgTypes(args);
    FirstOfExact(es, ts, 0);
    FirstOfCoerced(h, es, args, skip, 0);
    FirstOfGeneric(es, ts, skip, 0);
  }

  lemma LeadsOnce(es: seq<Entry>, j: nat, k: nat, takes: Entry -> bool)
    requires Leads(es, j, takes)
    ensures !NoneTakes(es, takes)
    ensures Leads(es, k, takes) ==> j == k
  {}

  lemma RuleOnce(es: seq<Entry>, ts: seq<ExprType>, skip: bool, placeholders: bool, c: Choice, d: Choice)
    requires Rule(es, ts, skip, placeholders, c) && Rule(es, ts, skip, placeholders, d)
    ensures c == d
  {
    if !c.Nothing? {
      var takes :=
        if c.Exact? then Exactly(ts) else if c.Coerced? then Adapted(ts, skip, placeholders) else Generically(ts, skip);
      LeadsOnce(es, c.k, if d.Nothing? then 0 else d.k, takes);
      if c.GenericCoerced? && d.GenericCoerced? {
        AdaptedOnce(ts, es[c.k].params, skip, c.types, d.types);
      }
    }
    if !d.Nothing? {
      var takes :=
        if d.Exact? then Exactly(ts) else if d.Coerced? then Adapted(ts, skip, placeholders) else Generically(ts, skip);
      LeadsOnce(es, d.k, d.k, takes);
    }
  }

  /** A call picks exactly what the rule says. */
  lemma ChoiceExactly(h: Host, es: seq<Entry>, args: seq<Value>, skip: bool, c: Choice)
    ensures Choose(h, es, args, skip) == c <==> Rule(es, ArgTypes(args), skip, AnyUnresolved(args), c)
  {
    FollowsRule(h, es, args, skip);
    if Rule(es, ArgTypes(args), skip, AnyUnresolved(args), c) {
      RuleOnce(es, ArgTypes(args), skip, AnyUnresolved(args), c, Choose(h, es, args, skip));
    }
  }

  // ---- The values passed ----

  /** `w` is the argument under the type `u`: the int's float, the path's own text, or the argument. */
  ghost predicate PassedAs(h: Host, a: Value, u: ExprType, w: Value) {
    if a.IntValue? && u == Float then w == FloatValue(h.intToFloat(a.i))
    else if a.PathValue? && u == String then w == StringValue(a.path)
    else w == a
  }

  /** The types the implementation chosen is run on. */
  ghost function RunOn(es: seq<Entry>, ts: seq<ExprType>, c: Choice): seq<ExprType> {
    match c
    case Coerced(k) => if k < |es| then es[k].params else ts
    case GenericCoerced(_, us, _) => us
    case _ => ts
  }

  lemma OnePassed(h: Host, a: Value, p: ExprType, fixed: bool)
    requires !a.UnresolvedValue? && CoerceOneArg(h, a, ArgType(a), p, fixed).Some?
    ensures PassedAs(h, a, p, CoerceOneArg(h, a, ArgType(a), p, fixed).value)
  {}

  lemma ValuePassed(h: Host, a: Value, u: ExprType)
    requires !a.UnresolvedValue?
    ensures PassedAs(h, a, u, CoerceValue(h, a, u))
  {}

  /** Each value passed on is its argument under the type the chosen implementation is run on. */
  lemma PassedExactly(h: Host, es: seq<Entry>, args: seq<Value>, skip: bool)
    requires !AnyUnresolved(args)
    ensures var us := RunOn(es, ArgTypes(args), Choose(h, es, args, skip));
            && |us| == |args| && |Passed(h, es, args, skip)| == |args|
            && forall i :: 0 <= i < |args| ==> PassedAs(h, args[i], us[i], Passed(h, es, args, skip)[i])
  {
    var ts, c := ArgTypes(args), Choose(h, es, args, skip);
    FollowsRule(h, es, args, skip);
    if c.Coerced? {
      ArgsAdapt(h, args, es[c.k], skip);
      forall i | 0 <= i < |args| ensures PassedAs(h, args[i], es[c.k].params[i], Passed(h, es, args, skip)[i]) {
        OnePassed(h, args[i], es[c.k].params[i], skip && i == 0);
      }
    } else if c.GenericCoerced? {
      forall i | 0 <= i < |args| ensures PassedAs(h, args[i], c.types[i], Passed(h, es, args, skip)[i]) {
        ValuePassed(h, args[i], c.types[i]);
      }
    } else {
      forall i | 0 <= i < |args| ensures PassedAs(h, args[i], ts[i], args[i]) {
        assert !args[i].UnresolvedValue?;
      }
    }
  }
}
