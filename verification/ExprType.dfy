/** Expression types: the constructors that keep them normalized, and their printed form. */
module ExprTypes {
  import opened Strings
  import opened Sorting

  datatype TypeVar = T | T1 | T2 | T3

  datatype ExprType =
    | NullType | Bool | Int | Float | String | Path | RangeExpr | Any | NoReturn
    | Var(v: TypeVar)
    | List(elem: ExprType)
    | Union(members: seq<ExprType>)
    | Unresolved(constraint: ExprType)

  // ---- Printing ----

  function Show(t: ExprType): string
    decreases t
  {
    match t
    case NullType => "nulltype"
    case Bool => "bool"
    case Int => "int"
    case Float => "float"
    case String => "string"
    case Path => "path"
    case RangeExpr => "range_expr"
    case Any => "any"
    case NoReturn => "noreturn"
    case Var(v) => ShowVar(v)
    case List(e) => "list[" + Show(e) + "]"
    case Unresolved(c) => if c.Any? then "unresolved" else "unresolved[" + Show(c) + "]"
    case Union(ms) =>
      var parts := seq(|ms|, i requires 0 <= i < |ms| => Show(ms[i]));
      ShowUnion(ms, parts)
  }

  function ShowVar(v: TypeVar): string {
    match v case T => "T" case T1 => "T1" case T2 => "T2" case T3 => "T3"
  }

  /** A union prints its non-null members, then `?` or `nulltype` for a null member. */
  function ShowUnion(ms: seq<ExprType>, parts: seq<string>): string
    requires |ms| == |parts|
  {
    var nonNull := NonNullParts(ms, parts);
    if |nonNull| == |parts| then Join(" | ", nonNull)
    else if |nonNull| == 1 then nonNull[0] + "?"
    else Join(" | ", nonNull + ["nulltype"])
  }

  function NonNullParts<A>(ms: seq<ExprType>, parts: seq<A>): seq<A>
    requires |ms| == |parts|
  {
    if ms == [] then []
    else (if ms[0].NullType? then [] else [parts[0]]) + NonNullParts(ms[1..], parts[1..])
  }

  function ShowAll(ms: seq<ExprType>): (parts: seq<string>)
    ensures |parts| == |ms|
  {
    seq(|ms|, i requires 0 <= i < |ms| => Show(ms[i]))
  }

  // ---- Normal form ----

  predicate TextLe(a: ExprType, b: ExprType) {
    StringLe(Show(a), Show(b))
  }

  /** What may stand as a member of a union. */
  predicate IsAtom(t: ExprType) {
    !t.Any? && !t.NoReturn? && !t.Union? && !t.Unresolved?
  }

  /** Distinct atoms in the order of their printed form. */
  ghost predicate CanonicalOrder(ms: seq<ExprType>) {
    && (forall i :: 0 <= i < |ms| ==> IsAtom(ms[i]))
    && forall i, j :: 0 <= i < j < |ms| ==> TextLe(ms[i], ms[j]) && Show(ms[i]) != Show(ms[j])
  }

  /** Normalized: `unresolved` only at the root, unions flat, duplicate-free and of size at
      least two. */
  ghost predicate Normal(t: ExprType)
    decreases t
  {
    match t
    case List(e) => Normal(e) && !e.Unresolved?
    case Unresolved(c) => Normal(c) && !c.Unresolved?
    case Union(ms) =>
      && |ms| >= 2 && CanonicalOrder(ms)
      && forall i :: 0 <= i < |ms| ==> Normal(ms[i])
    case _ => true
  }

  ghost predicate AllNormal(ts: seq<ExprType>) {
    forall i :: 0 <= i < |ts| ==> Normal(ts[i])
  }

  /** No `unresolved` anywhere. */
  ghost predicate Settled(t: ExprType)
    decreases t
  {
    match t
    case List(e) => Settled(e)
    case Unresolved(_) => false
    case Union(ms) => forall i :: 0 <= i < |ms| ==> Settled(ms[i])
    case _ => true
  }

  /** `unresolved` at the root or nowhere. */
  ghost predicate Rooted(t: ExprType) {
    match t case Unresolved(c) => Settled(c) case _ => Settled(t)
  }

  ghost predicate AllRooted(ts: seq<ExprType>) {
    forall i :: 0 <= i < |ts| ==> Rooted(ts[i])
  }

  ghost predicate AllSettled(ts: seq<ExprType>) {
    forall i :: 0 <= i < |ts| ==> Settled(ts[i])
  }

  lemma {:induction false} NormalRooted(t: ExprType)
    requires Normal(t)
    ensures Rooted(t)
    decreases t
  {
    match t
    case List(e) => NormalRooted(e);
    case Unresolved(c) => NormalRooted(c);
    case Union(ms) =>
      forall i | 0 <= i < |ms| ensures Settled(ms[i]) {
        NormalRooted(ms[i]);
        assert IsAtom(ms[i]);
      }
    case _ =>
  }

  // ---- Constructors ----

  function MakeList(elem: ExprType): (t: ExprType)
    ensures Rooted(elem) ==> Rooted(t)
    ensures Normal(elem) ==> Normal(t)
  {
    match elem case Unresolved(c) => Unresolved(List(c)) case _ => List(elem)
  }

  function MakeUnresolved(c: ExprType): (t: ExprType)
    ensures Rooted(c) ==> Rooted(t) && t.Unresolved?
    ensures Normal(c) ==> Normal(t)
  {
    if c.Unresolved? then c else Unresolved(c)
  }

  /** What one argument contributes: unions are spliced in, `noreturn` dropped. */
  function Spliced(t: ExprType): seq<ExprType> {
    match t case NoReturn => [] case Union(ms) => ms case _ => [t]
  }

  function Flatten(ts: seq<ExprType>): seq<ExprType> {
    if ts == [] then [] else Spliced(ts[0]) + Flatten(ts[1..])
  }

  function Concrete(ms: seq<ExprType>): seq<ExprType> {
    if ms == [] then []
    else if ms[0].Unresolved? then Concrete(ms[1..]) else [ms[0]] + Concrete(ms[1..])
  }

  function Constraints(ms: seq<ExprType>): seq<ExprType> {
    if ms == [] then []
    else if ms[0].Unresolved? then [ms[0].constraint] + Constraints(ms[1..]) else Constraints(ms[1..])
  }

  /** Fewer than two members are no union. */
  function Unwrapped(distinct: seq<ExprType>): ExprType {
    if distinct == [] then NoReturn else if |distinct| == 1 then distinct[0] else Union(distinct)
  }

  /** Sort by printed form, drop repeats, and unwrap. */
  function Canonical(ms: seq<ExprType>): ExprType {
    Unwrapped(Dedup(Sort(ms, TextLe)))
  }

  predicate HasUnresolved(ts: seq<ExprType>) {
    exists i :: 0 <= i < |ts| && ts[i].Unresolved?
  }

  /** `normalize_union`: `any` absorbs, an unresolved member makes the whole union unresolved. */
  function MakeUnion(ts: seq<ExprType>): (t: ExprType)
    requires AllRooted(ts)
    ensures Rooted(t)
    ensures AllSettled(ts) ==> Settled(t)
    decreases HasUnresolved(ts)
  {
    if Any in ts then Any
    else
      var members := Flatten(ts);
      var constraints := Constraints(members);
      Hoisted(ts);
      if constraints == [] then
        CanonicalSettled(members);
        Canonical(members)
      else
        MakeUnresolved(MakeUnion(Concrete(members) + constraints))
  }

  // ---- The pieces of a union ----

  lemma {:induction false} FlattenMember(ts: seq<ExprType>, x: ExprType)
    ensures x in Flatten(ts) <==> exists i :: 0 <= i < |ts| && x in Spliced(ts[i])
  {
    if ts == [] {
    } else {
      FlattenMember(ts[1..], x);
      if x in Flatten(ts[1..]) {
        var i :| 0 <= i < |ts[1..]| && x in Spliced(ts[1..][i]);
        assert x in Spliced(ts[i + 1]);
      }
      if i :| 0 <= i < |ts| && x in Spliced(ts[i]) {
        if i > 0 { assert x in Spliced(ts[1..][i - 1]); }
      }
    }
  }

  lemma {:induction false} ConcreteMember(ms: seq<ExprType>, x: ExprType)
    ensures x in Concrete(ms) <==> x in ms && !x.Unresolved?
    ensures x in Constraints(ms) <==> Unresolved(x) in ms
  {
    if ms == [] {
    } else {
      ConcreteMember(ms[1..], x);
      assert ms == [ms[0]] + ms[1..];
    }
  }

  lemma SplicedRooted(t: ExprType, x: ExprType)
    requires Rooted(t) && x in Spliced(t)
    ensures Rooted(x) && (Settled(t) ==> Settled(x))
    ensures x.Unresolved? ==> t == x
  {
    if t.Union? {
      var i :| 0 <= i < |t.members| && t.members[i] == x;
      assert Settled(t.members[i]);
    }
  }

  lemma FlattenRooted(ts: seq<ExprType>, x: ExprType)
    requires AllRooted(ts) && x in Flatten(ts)
    ensures Rooted(x) && (AllSettled(ts) ==> Settled(x))
    ensures x.Unresolved? ==> x in ts
  {
    FlattenMember(ts, x);
    var i :| 0 <= i < |ts| && x in Spliced(ts[i]);
    SplicedRooted(ts[i], x);
  }

  /** After hoisting, no unresolved member is left. */
  lemma Hoisted(ts: seq<ExprType>)
    requires AllRooted(ts)
    ensures var members := Flatten(ts);
            && AllSettled(Concrete(members) + Constraints(members))
            && (Constraints(members) != [] ==> HasUnresolved(ts))
            && (Constraints(members) == [] ==> AllSettled(members))
  {
    var members := Flatten(ts);
    var parts := Concrete(members) + Constraints(members);
    forall i | 0 <= i < |parts|
      ensures Settled(parts[i])
    {
      var x := parts[i];
      assert x in parts;
      ConcreteMember(members, x);
      if x in Concrete(members) {
        FlattenRooted(ts, x);
      } else {
        FlattenRooted(ts, Unresolved(x));
      }
    }
    if Constraints(members) != [] {
      var c := Constraints(members)[0];
      ConcreteMember(members, c);
      FlattenRooted(ts, Unresolved(c));
    } else {
      forall i | 0 <= i < |members| ensures Settled(members[i]) {
        FlattenRooted(ts, members[i]);
        if members[i].Unresolved? { ConcreteMember(members, members[i].constraint); }
      }
    }
  }

  /** The members of a canonical union are the members it was made from. */
  lemma DistinctMember(ms: seq<ExprType>, x: ExprType)
    ensures x in Dedup(Sort(ms, TextLe)) <==> x in ms
  {
    DedupMember(Sort(ms, TextLe), x);
    PermutationMember(Sort(ms, TextLe), ms, x);
  }

  lemma CanonicalSettled(ms: seq<ExprType>)
    requires AllSettled(ms)
    ensures Settled(Canonical(ms))
  {
    var distinct := Dedup(Sort(ms, TextLe));
    forall i | 0 <= i < |distinct| ensures Settled(distinct[i]) {
      DistinctMember(ms, distinct[i]);
    }
  }

  // ---- Order by printed form ----

  lemma TextOrder()
    ensures TotalPreorder(TextLe)
  {
    forall x, y ensures TextLe(x, y) || TextLe(y, x) {
      StringLeTotal(Show(x), Show(y));
    }
    forall x, y, z | TextLe(x, y) && TextLe(y, z) ensures TextLe(x, z) {
      StringLeTransitive(Show(x), Show(y), Show(z));
    }
  }
}
