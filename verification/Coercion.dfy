/** Target-type coercion of values, and its mirror on the types of unresolved values. */
module Coercion {
  import opened Wrappers
  import opened IntRanges
  import Ranges = RangeExprs
  import opened Sorting
  import opened ExprTypes
  import opened UnionLaws
  import opened Satisfaction
  import opened ExprValues
  import opened Decimal

  const DEFAULT_OPERATION_LIMIT: u64 := 10_000_000

  // ---- Destinations ----

  /** The scalar conversion rules with the source's preference among them. */
  function ScalarRank(source: ExprType, dest: ExprType): Option<nat> {
    match (source, dest)
    case (Int, Float) => Some(0)
    case (Float, Int) => Some(0)
    case (String, Int) => Some(0)
    case (Bool, String) => Some(1)
    case (Int, String) => Some(1)
    case (Float, String) => Some(1)
    case (Path, String) => Some(1)
    case (RangeExpr, String) => Some(1)
    case (String, Float) => Some(1)
    case (String, Bool) => Some(2)
    case (String, RangeExpr) => Some(3)
    case (String, Path) => Some(4)
    case _ => None
  }

  function DestinationRank(source: ExprType, dest: ExprType): nat
    decreases source
  {
    if source.List? && dest.List? then DestinationRank(source.elem, dest.elem)
    else match ScalarRank(source, dest) case Some(k) => k case None => 255
  }

  predicate IsDestination(t: ExprType) {
    match t
    case Bool => true
    case Int => true
    case Float => true
    case String => true
    case Path => true
    case RangeExpr => true
    case List(e) => Denotes(e) && !IsSymbolic(e)
    case _ => false
  }

  function Filter(ts: seq<ExprType>, p: ExprType -> bool): (r: seq<ExprType>)
    ensures forall x :: x in r <==> x in ts && p(x)
  {
    if ts == [] then []
    else
      assert ts == [ts[0]] + ts[1..];
      (if p(ts[0]) then [ts[0]] else []) + Filter(ts[1..], p)
  }

  predicate IsListType(t: ExprType) {
    t.List?
  }

  predicate IsScalarType(t: ExprType) {
    !t.List?
  }

  function SortByRank(source: ExprType, ts: seq<ExprType>): (r: seq<ExprType>)
    ensures forall x :: x in r <==> x in ts
  {
    var r := Sort(ts, (a, b) => DestinationRank(source, a) <= DestinationRank(source, b));
    assert forall x :: x in r <==> x in multiset(r);
    assert forall x :: x in ts <==> x in multiset(ts);
    r
  }

  /** What a value may be converted to, in the order it is tried: scalars before lists, then by
      the source's preference. */
  function Destinations(source: ExprType, target: ExprType): (ds: seq<ExprType>)
    ensures forall d :: d in ds <==> IsDestination(d) && if target.Union? then d in target.members else d == target
  {
    if !target.Union? then
      if IsDestination(target) then [target] else []
    else
      var usable := Filter(target.members, IsDestination);
      SortByRank(source, Filter(usable, IsScalarType)) + SortByRank(source, Filter(usable, IsListType))
  }

  /** The order destinations are tried in: scalars first, then by rank, then by printed form. */
  ghost predicate TriedBefore(source: ExprType, a: ExprType, b: ExprType) {
    if a.List? != b.List? then !a.List?
    else if DestinationRank(source, a) != DestinationRank(source, b) then
      DestinationRank(source, a) < DestinationRank(source, b)
    else TextLe(a, b)
  }

  lemma {:induction false} FilterSorted(ts: seq<ExprType>, p: ExprType -> bool, tie: (ExprType, ExprType) -> bool)
    requires SortedBy(ts, tie)
    ensures SortedBy(Filter(ts, p), tie)
  {
    if ts == [] {
    } else {
      FilterSorted(ts[1..], p, tie);
      var rest := Filter(ts[1..], p);
      forall j | 0 <= j < |rest| ensures tie(ts[0], rest[j]) {
        assert rest[j] in rest;
      }
    }
  }

  lemma RankSorted(source: ExprType, ts: seq<ExprType>)
    requires SortedBy(ts, TextLe)
    ensures Ranked(source, SortByRank(source, ts))
  {
    var le := (a, b) => DestinationRank(source, a) <= DestinationRank(source, b);
    SortStable(ts, le, TextLe);
    var r := SortByRank(source, ts);
    forall i, j | 0 <= i < j < |r|
      ensures le(r[i], r[j]) && (le(r[j], r[i]) ==> TextLe(r[i], r[j]))
    {
      assert Then(le, TextLe, r[i], r[j]);
    }
  }

  lemma KindApart(usable: seq<ExprType>)
    ensures forall x :: x in Filter(usable, IsScalarType) ==> !x.List?
    ensures forall x :: x in Filter(usable, IsListType) ==> x.List?
  {}

  /** Exactly the usable members, each tried before the ones the preference puts after it; the order
      the source's two stable sorts leave. */
  lemma DestinationsOrdered(source: ExprType, target: ExprType)
    requires Normal(target)
    ensures InOrder(source, Destinations(source, target))
  {
    if target.Union? {
      var usable := Filter(target.members, IsDestination);
      var scalars, lists := Filter(usable, IsScalarType), Filter(usable, IsListType);
      FilterSorted(target.members, IsDestination, TextLe);
      FilterSorted(usable, IsScalarType, TextLe);
      FilterSorted(usable, IsListType, TextLe);
      KindApart(usable);
      RankSorted(source, scalars);
      RankSorted(source, lists);
      GroupsOrdered(source, SortByRank(source, scalars), SortByRank(source, lists));
    }
  }

  ghost predicate Ranked(source: ExprType, ts: seq<ExprType>) {
    forall i, j :: 0 <= i < j < |ts| ==>
      DestinationRank(source, ts[i]) <= DestinationRank(source, ts[j])
      && (DestinationRank(source, ts[i]) == DestinationRank(source, ts[j]) ==> TextLe(ts[i], ts[j]))
  }

  lemma GroupsOrdered(source: ExprType, scalars: seq<ExprType>, lists: seq<ExprType>)
    requires Ranked(source, scalars) && Ranked(source, lists)
    requires (forall x :: x in scalars ==> !x.List?) && (forall x :: x in lists ==> x.List?)
    ensures InOrder(source, scalars + lists)
  {
    var ds := scalars + lists;
    forall i, j | 0 <= i < j < |ds| ensures TriedBefore(source, ds[i], ds[j]) {
      assert ds[i] == if i < |scalars| then scalars[i] else lists[i - |scalars|];
      assert ds[j] == if j < |scalars| then scalars[j] else lists[j - |scalars|];
      assert ds[i].List? <==> i >= |scalars| by {
        if i < |scalars| { assert scalars[i] in scalars; } else { assert lists[i - |scalars|] in lists; }
      }
      assert ds[j].List? <==> j >= |scalars| by {
        if j < |scalars| { assert scalars[j] in scalars; } else { assert lists[j - |scalars|] in lists; }
      }
    }
  }

  // ---- Values ----

  function FromText(h: Host, s: string, dest: ExprType, fmt: PathFormat): Option<Value> {
    match dest
    case Int => (match h.parseInt(s) case Some(i) => Some(IntValue(i)) case None => None)
    case Float => (match h.parseFloat(s) case Some(f) => Some(FloatValue(f)) case None => None)
    case Bool =>
      var low := h.toLower(s);
      if low == "true" || low == "yes" || low == "on" || low == "1" then Some(BoolValue(true))
      else if low == "false" || low == "no" || low == "off" || low == "0" then Some(BoolValue(false))
      else None
    case String => Some(StringValue(s))
    case Path => Some(NewPath(h, s, fmt))
    case RangeExpr => (match h.parseRange(s) case Some(r) => Some(RangeValue(r)) case None => None)
    case NullType => if s == "null" then Some(Null) else None
    case _ => None
  }

  /** Exactly integral and inside i64. */
  function FloatToInt(f: real): Option<Value> {
    if f.Floor as real != f then None
    else if -0x8000_0000_0000_0000 <= f.Floor < 0x8000_0000_0000_0000 then Some(IntValue(f.Floor as i64))
    else None
  }

  function RangeToList(r: ValidRange, dest: ExprType): Option<Value> {
    if !Satisfies(List(Int), dest) then None
    else if Ranges.Len(r) > DEFAULT_OPERATION_LIMIT then None
    else Some(ListInt(ToVec(r)))
  }

  /** `to_vec`: the values fit i64 because endpoints do. */
  function ToVec(r: ValidRange): (s: seq<i64>)
    ensures |s| == |Ranges.Flatten(r.ranges)|
    ensures forall k :: 0 <= k < |s| ==> s[k] as int == Ranges.Flatten(r.ranges)[k]
  {
    var list := Ranges.Flatten(r.ranges);
    RangeFits(r);
    seq(|list|, k requires 0 <= k < |list| => list[k] as i64)
  }

  lemma RangeFits(r: ValidRange)
    ensures forall k :: 0 <= k < |Ranges.Flatten(r.ranges)| ==>
                          -0x8000_0000_0000_0000 <= Ranges.Flatten(r.ranges)[k] < 0x8000_0000_0000_0000
  {
    var list := Ranges.Flatten(r.ranges);
    if r.ranges != [] {
      Ranges.FlattenSorted(r.ranges);
      forall k | 0 <= k < |list| ensures -0x8000_0000_0000_0000 <= list[k] < 0x8000_0000_0000_0000 {
        assert list[k] in list;
      }
    }
  }

  function Coerce(h: Host, v: Value, target: ExprType, fmt: PathFormat): Option<Value>
    requires v.UnresolvedValue? ==> Normal(v.t)
    requires Normal(target)
    decreases target, 2
  {
    if v.UnresolvedValue? then
      match CoerceType(v.t, target)
      case Some(t) => Some(UnresolvedValue(t))
      case None => None
    else if Satisfies(TypeOf(v), target) then Some(v)
    else FirstSome(Conversions(h, v, target, fmt))
  }

  /** What each destination, in order, would convert to. */
  function Conversions(h: Host, v: Value, target: ExprType, fmt: PathFormat): (r: seq<Option<Value>>)
    requires !v.UnresolvedValue? && Normal(target)
    ensures |r| == |Destinations(TypeOf(v), target)|
    decreases target, 1
  {
    var ds := Destinations(TypeOf(v), target);
    DestinationsSmaller(TypeOf(v), target, ds);
    seq(|ds|, i requires 0 <= i < |ds| => ConvertTo(h, v, ds[i], fmt))
  }

  /** The first success wins. */
  function FirstSome<T>(rs: seq<Option<T>>): (r: Option<T>)
    ensures r.Some? ==> exists i :: 0 <= i < |rs| && rs[i] == r && forall j :: 0 <= j < i ==> rs[j].None?
    ensures r.None? ==> forall i :: 0 <= i < |rs| ==> rs[i].None?
  {
    FirstSomeFrom(rs, 0)
  }

  function FirstSomeFrom<T>(rs: seq<Option<T>>, k: nat): (r: Option<T>)
    requires k <= |rs| && forall j :: 0 <= j < k ==> rs[j].None?
    ensures r.Some? ==> exists i :: 0 <= i < |rs| && rs[i] == r && forall j :: 0 <= j < i ==> rs[j].None?
    ensures r.None? ==> forall i :: 0 <= i < |rs| ==> rs[i].None?
    decreases |rs| - k
  {
    if k == |rs| then None else if rs[k].Some? then rs[k] else FirstSomeFrom(rs, k + 1)
  }

  lemma DestinationSmaller(source: ExprType, target: ExprType, d: ExprType)
    requires d in Destinations(source, target) && Normal(target)
    ensures Normal(d)
    ensures d == target || (target.Union? && exists i :: 0 <= i < |target.members| && target.members[i] == d)
  {
    if target.Union? {
      var i :| 0 <= i < |target.members| && target.members[i] == d;
      assert Normal(target.members[i]);
    }
  }

  lemma DestinationsSmaller(source: ExprType, target: ExprType, ds: seq<ExprType>)
    requires ds == Destinations(source, target) && Normal(target)
    ensures forall k :: 0 <= k < |ds| ==>
              Normal(ds[k]) && (ds[k] == target || (target.Union? && ds[k] in target.members))
  {
    forall k | 0 <= k < |ds|
      ensures Normal(ds[k]) && (ds[k] == target || (target.Union? && ds[k] in target.members))
    {
      assert ds[k] in ds;
      DestinationSmaller(source, target, ds[k]);
    }
  }

  /** The outcome of converting toward one destination. */
  ghost predicate ConvertsTo(h: Host, v: Value, d: ExprType, fmt: PathFormat, r: Option<Value>) {
    !v.UnresolvedValue? && Normal(d) && ConvertTo(h, v, d, fmt) == r
  }

  lemma ConversionAt(h: Host, v: Value, target: ExprType, k: nat, fmt: PathFormat)
    requires !v.UnresolvedValue? && Normal(target) && k < |Destinations(TypeOf(v), target)|
    ensures ConvertsTo(h, v, Destinations(TypeOf(v), target)[k], fmt, Conversions(h, v, target, fmt)[k])
  {
    DestinationsSmaller(TypeOf(v), target, Destinations(TypeOf(v), target));
  }

  lemma FirstIndex<T>(rs: seq<Option<T>>) returns (i: nat)
    requires FirstSome(rs).Some?
    ensures i < |rs| && rs[i] == FirstSome(rs) && forall j :: 0 <= j < i ==> rs[j].None?
  {
    i :| 0 <= i < |rs| && rs[i] == FirstSome(rs) && forall j :: 0 <= j < i ==> rs[j].None?;
  }

  ghost predicate InOrder(source: ExprType, ds: seq<ExprType>) {
    forall i, j :: 0 <= i < j < |ds| ==> TriedBefore(source, ds[i], ds[j])
  }

  lemma OnlyEarlier(source: ExprType, ds: seq<ExprType>, i: nat, x: ExprType) returns (j: nat)
    requires InOrder(source, ds) && i < |ds| && x in ds && !TriedBefore(source, ds[i], x)
    ensures j < i && ds[j] == x
  {
    j :| 0 <= j < |ds| && ds[j] == x;
    StringLeTotal(Show(x), Show(x));
  }

  /** So coercion toward a union takes the most preferred conversion that succeeds: every destination
      that the preference does not put after it fails. */
  lemma CoercePrefers(h: Host, v: Value, target: ExprType, fmt: PathFormat) returns (d: ExprType)
    requires !v.UnresolvedValue? && Normal(target) && !Satisfies(TypeOf(v), target) && Coerce(h, v, target, fmt).Some?
    ensures d in Destinations(TypeOf(v), target) && ConvertsTo(h, v, d, fmt, Coerce(h, v, target, fmt))
    ensures forall x :: x in Destinations(TypeOf(v), target) && !TriedBefore(TypeOf(v), d, x) ==>
              ConvertsTo(h, v, x, fmt, None)
  {
    var source := TypeOf(v);
    var ds := Destinations(source, target);
    var i := FirstIndex(Conversions(h, v, target, fmt));
    d := ds[i];
    ConversionAt(h, v, target, i, fmt);
    DestinationsOrdered(source, target);
    forall x | x in ds && !TriedBefore(source, d, x) ensures ConvertsTo(h, v, x, fmt, None) {
      var j := OnlyEarlier(source, ds, i, x);
      ConversionAt(h, v, target, j, fmt);
    }
  }

  /** The scalar rows of the conversion table. */
  function ConvertScalar(h: Host, v: Value, dest: ExprType, fmt: PathFormat): Option<Value> {
    match (v, dest)
    case (IntValue(i), Float) => Some(FloatValue(h.intToFloat(i)))
    case (FloatValue(f), Int) => FloatToInt(f)
    case (BoolValue(b), String) => Some(StringValue(if b then "true" else "false"))
    case (IntValue(i), String) => Some(StringValue(IntText(i as int)))
    case (FloatValue(f), String) => Some(StringValue(h.showFloat(f)))
    case (StringValue(s), _) => FromText(h, s, dest, fmt)
    case (PathValue(p, _), String) => Some(StringValue(p))
    case (RangeValue(r), String) => Some(StringValue(h.showRange(r)))
    case _ => None
  }

  /** The conversion table toward one destination: `convert_to`. */
  function ConvertTo(h: Host, v: Value, dest: ExprType, fmt: PathFormat): Option<Value>
    requires !v.UnresolvedValue? && Normal(dest)
    decreases dest, 0, 1
  {
    if !dest.List? then ConvertScalar(h, v, dest, fmt)
    else if v.RangeValue? then RangeToList(v.r, dest)
    else if IsList(v) then ConvertList(h, v, dest, fmt)
    else None
  }

  /** `list[T]` to `list[U]` by coercing each element to U. */
  function ConvertList(h: Host, v: Value, dest: ExprType, fmt: PathFormat): Option<Value>
    requires IsList(v) && dest.List? && Normal(dest)
    decreases dest, 0, 0
  {
    match CoerceAll(h, ListElements(h, v), dest.elem, fmt)
    case Some(es) => MakeListValue(h, es, dest.elem)
    case None => None
  }

  /** Every element coerced; unresolved elements do not occur in lists. */
  function CoerceAll(h: Host, es: seq<Value>, target: ExprType, fmt: PathFormat): Option<seq<Value>>
    requires Normal(target)
    decreases target, 3, |es|
  {
    if es == [] then Some([])
    else if es[0].UnresolvedValue? then None
    else
      match (Coerce(h, es[0], target, fmt), CoerceAll(h, es[1..], target, fmt))
      case (Some(w), Some(ws)) => Some([w] + ws)
      case _ => None
  }

  lemma CoerceAllStep(h: Host, es: seq<Value>, target: ExprType, fmt: PathFormat)
    requires Normal(target) && es != [] && CoerceAll(h, es, target, fmt).Some?
    ensures !es[0].UnresolvedValue? && Coerce(h, es[0], target, fmt).Some? && CoerceAll(h, es[1..], target, fmt).Some?
    ensures CoerceAll(h, es, target, fmt).value ==
            [Coerce(h, es[0], target, fmt).value] + CoerceAll(h, es[1..], target, fmt).value
  {}

  // ---- Types ----

  /** Type variables read as `any`. */
  function EraseVars(t: ExprType): (r: ExprType)
    requires Normal(t)
    ensures Normal(r)
  {
    SubstituteIn(t, map[T := Any, T1 := Any, T2 := Any, T3 := Any])
  }

  /** The type-level counterpart of `Coerce`. */
  function CoerceType(source: ExprType, target: ExprType): (r: Option<ExprType>)
    requires Normal(source) && Normal(target)
    ensures r.Some? ==> Normal(r.value)
    decreases source
  {
    if source.Unresolved? then CoerceType(source.constraint, target)
    else if !Denotes(target) then None
    else CoerceResolved(if IsSymbolic(source) then EraseVars(source) else source, target)
  }

  ghost predicate NormalResolved(ts: seq<ExprType>) {
    AllNormal(ts) && !HasUnresolved(ts)
  }

  /** The rules on a source without variables, toward a target that denotes values. */
  function CoerceResolved(source: ExprType, target: ExprType): (r: Option<ExprType>)
    requires Normal(source) && Normal(target) && Denotes(target)
    ensures r.Some? ==> Normal(r.value) && (!source.Unresolved? ==> !r.value.Unresolved?)
    decreases source, 1
  {
    if source.Any? then
      if target.Union? then
        UsableMembers(target);
        Some(UnionOf(Filter(target.members, Denotes)))
      else Some(target)
    else if source.Union? then
      NormalMembers(source);
      var results := CoerceMembers(source.members, target);
      if results == [] then None else Some(UnionOf(results))
    else if Satisfies(source, target) then Some(source)
    else
      var ds := Destinations(source, target);
      DestinationsNormal(source, target);
      var results := ConvertAll(source, ds);
      if results == [] then None else Some(UnionOf(results))
  }

  function CoerceMembers(ms: seq<ExprType>, target: ExprType): (r: seq<ExprType>)
    requires NormalResolved(ms) && Normal(target) && Denotes(target)
    ensures NormalResolved(r)
    decreases ms, 0
  {
    if ms == [] then []
    else
      var rest := CoerceMembers(ms[1..], target);
      match CoerceResolved(ms[0], target)
      case Some(t) =>
        PrependResolved(t, rest);
        [t] + rest
      case None => rest
  }

  /** The type converting a `source` value toward `dest` would produce. */
  function ConvertType(source: ExprType, dest: ExprType): (r: Option<ExprType>)
    requires Normal(dest) && !dest.Unresolved?
    ensures r.Some? ==> Normal(r.value) && !r.value.Unresolved?
  {
    if ScalarRank(source, dest).Some? then Some(dest)
    else if source.RangeExpr? && dest.List? then
      if Satisfies(List(Int), dest) then Some(List(Int)) else None
    else if source.List? && dest.List? then Some(dest)
    else None
  }

  function ConvertAll(source: ExprType, ds: seq<ExprType>): (r: seq<ExprType>)
    requires NormalResolved(ds)
    ensures NormalResolved(r)
  {
    if ds == [] then []
    else
      assert Normal(ds[0]) && !ds[0].Unresolved?;
      var rest := ConvertAll(source, ds[1..]);
      match ConvertType(source, ds[0])
      case Some(t) =>
        PrependResolved(t, rest);
        [t] + rest
      case None => rest
  }

  lemma PrependResolved(t: ExprType, ts: seq<ExprType>)
    requires Normal(t) && !t.Unresolved? && NormalResolved(ts)
    ensures NormalResolved([t] + ts)
  {
    var s := [t] + ts;
    forall i | 0 <= i < |s| ensures Normal(s[i]) && !s[i].Unresolved? {
      if i > 0 { assert s[i] == ts[i - 1]; }
    }
  }

  lemma NormalMembers(t: ExprType)
    requires Normal(t) && t.Union?
    ensures NormalResolved(t.members)
  {
    forall i | 0 <= i < |t.members| ensures !t.members[i].Unresolved? {
      assert IsAtom(t.members[i]);
    }
  }

  lemma UsableMembers(t: ExprType)
    requires Normal(t) && t.Union?
    ensures NormalResolved(Filter(t.members, Denotes))
  {
    var usable := Filter(t.members, Denotes);
    NormalMembers(t);
    forall i | 0 <= i < |usable| ensures Normal(usable[i]) && !usable[i].Unresolved? {
      assert usable[i] in t.members;
    }
  }

  lemma DestinationsNormal(source: ExprType, target: ExprType)
    requires Normal(target)
    ensures NormalResolved(Destinations(source, target))
  {
    var ds := Destinations(source, target);
    forall i | 0 <= i < |ds| ensures Normal(ds[i]) && !ds[i].Unresolved? {
      assert ds[i] in ds;
      DestinationSmaller(source, target, ds[i]);
    }
  }
}
