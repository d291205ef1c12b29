/** The type-level coercion promises no more than the value-level one can keep: what it accepts some
    value reaches, what it promises fits the target, and exactly which types it promises. */
module CoercionTight {
  import opened Wrappers
  import opened IntRanges
  import Ranges = RangeExprs
  import opened ExprTypes
  import opened UnionLaws
  import opened Satisfaction
  import opened ExprValues
  import opened Coercion
  import opened CoercionSound
  import opened CoercedValues

  // ---- What the collected results come from ----

  lemma {:induction false} ConvertAllFrom(c: ExprType, ds: seq<ExprType>, r: ExprType) returns (d: ExprType)
    requires NormalResolved(ds) && r in ConvertAll(c, ds)
    ensures d in ds && Normal(d) && !d.Unresolved? && ConvertType(c, d) == Some(r)
  {
    assert Normal(ds[0]) && !ds[0].Unresolved?;
    if ConvertType(c, ds[0]) == Some(r) {
      d := ds[0];
    } else {
      d := ConvertAllFrom(c, ds[1..], r);
    }
  }

  lemma {:induction false} CoerceMembersFrom(ms: seq<ExprType>, t: ExprType, r: ExprType) returns (k: nat)
    requires NormalResolved(ms) && Normal(t) && Denotes(t) && r in CoerceMembers(ms, t)
    ensures k < |ms| && Normal(ms[k]) && CoerceResolved(ms[k], t) == Some(r)
  {
    var rest := CoerceMembers(ms[1..], t);
    if r in rest {
      var j := CoerceMembersFrom(ms[1..], t, r);
      k := j + 1;
    } else {
      assert Normal(ms[0]);
      k := 0;
    }
  }

  lemma UnionAtom(ts: seq<ExprType>, x: ExprType)
    requires NormalResolved(ts) && Any !in ts
    ensures x in Atoms(UnionOf(ts)) <==> HasAtom(ts, x)
  {
    UnionHolds(ts);
    ResolvedNoAny(ts);
  }

  // ---- Exactly which types are promised ----

  ghost predicate Holding(r: Option<ExprType>, x: ExprType) {
    r.Some? && x in Atoms(r.value)
  }

  /** `x` is what a value of plain type `c` may come out as toward `t`: a scalar type it restates as, a
      list for a list, a list of ints for a range. */
  ghost predicate ComesOut(c: ExprType, t: ExprType, x: ExprType) {
    || (x in Preference(c) && Offers(t, x))
    || (c.List? && OffersList(t, x))
    || (c.RangeExpr? && x == List(Int) && exists d :: TakesInts(t, d))
  }

  lemma ConvertTypeIs(c: ExprType, d: ExprType, r: ExprType)
    requires Normal(d) && IsDestination(d)
    ensures ConvertType(c, d) == Some(r) <==>
            if c.RangeExpr? && d.List? then r == List(Int) && Satisfies(List(Int), d)
            else r == d && (d in Preference(c) || (c.List? && d.List?))
  {}

  lemma ConvertTypePlain(c: ExprType, d: ExprType)
    requires Normal(d) && IsDestination(d) && ConvertType(c, d).Some?
    ensures Plain(ConvertType(c, d).value) && Atoms(ConvertType(c, d).value) == {ConvertType(c, d).value}
  {}

  lemma ResultsPlain(c: ExprType, t: ExprType, r: ExprType)
    requires Normal(t) && NormalResolved(Destinations(c, t)) && r in ConvertAll(c, Destinations(c, t))
    ensures Plain(r) && Atoms(r) == {r} && ComesOut(c, t, r)
  {
    var d := ConvertAllFrom(c, Destinations(c, t), r);
    ConvertTypePlain(c, d);
    ConvertTypeIs(c, d, r);
    if c.RangeExpr? && d.List? { assert TakesInts(t, d); }
  }

  lemma OfferUsable(c: ExprType, t: ExprType, d: ExprType)
    requires Normal(t) && Offers(t, d) && IsDestination(d)
    ensures d in Destinations(c, t) && Normal(d) && !d.Unresolved?
  {
    DestinationSmaller(c, t, d);
  }

  lemma ComesFrom(c: ExprType, t: ExprType, x: ExprType) returns (d: ExprType)
    requires Normal(t) && ComesOut(c, t, x)
    ensures d in Destinations(c, t) && Normal(d) && !d.Unresolved? && ConvertType(c, d) == Some(x)
  {
    d := x;
    if c.RangeExpr? && x == List(Int) {
      d :| TakesInts(t, d);
    }
    OfferUsable(c, t, d);
    ConvertTypeIs(c, d, x);
  }

  lemma ComesOutListed(c: ExprType, t: ExprType, x: ExprType)
    requires Normal(t) && NormalResolved(Destinations(c, t)) && ComesOut(c, t, x)
    ensures x in ConvertAll(c, Destinations(c, t))
  {
    var d := ComesFrom(c, t, x);
    ConvertAllHas(c, Destinations(c, t), d);
  }

  lemma PlainTable(c: ExprType, t: ExprType)
    requires Plain(c) && !IsSymbolic(c) && Normal(t) && Denotes(t) && !Satisfies(c, t)
    ensures NormalResolved(Destinations(c, t))
    ensures var rs := ConvertAll(c, Destinations(c, t));
            CoerceType(c, t) == if rs == [] then None else Some(UnionOf(rs))
  {
    DestinationsNormal(c, t);
  }

  lemma ResultsExactly(c: ExprType, t: ExprType, rs: seq<ExprType>)
    requires Normal(t) && NormalResolved(Destinations(c, t)) && rs == ConvertAll(c, Destinations(c, t))
    ensures forall y :: y in rs <==> ComesOut(c, t, y)
    ensures forall y :: y in rs ==> !y.Any? && Atoms(y) == {y}
  {
    forall y | y in rs ensures ComesOut(c, t, y) && Plain(y) && Atoms(y) == {y} { ResultsPlain(c, t, y); }
    forall y | ComesOut(c, t, y) ensures y in rs { ComesOutListed(c, t, y); }
  }

  /** A source that is no union and does not satisfy the target is promised exactly the types its values
      may come out as. */
  lemma PlainPromise(c: ExprType, t: ExprType, x: ExprType)
    requires Plain(c) && !IsSymbolic(c) && Normal(t) && Denotes(t) && !Satisfies(c, t)
    ensures Holding(CoerceType(c, t), x) <==> ComesOut(c, t, x)
  {
    PlainTable(c, t);
    var rs := ConvertAll(c, Destinations(c, t));
    ResultsExactly(c, t, rs);
    UnionAtom(rs, x);
    SingleAtoms(rs, x);
  }

  /** It is rejected exactly when there are none. */
  lemma PlainRejected(c: ExprType, t: ExprType)
    requires Plain(c) && !IsSymbolic(c) && Normal(t) && Denotes(t) && !Satisfies(c, t)
    ensures CoerceType(c, t).None? <==> forall y :: !ComesOut(c, t, y)
  {
    PlainTable(c, t);
    var rs := ConvertAll(c, Destinations(c, t));
    ResultsExactly(c, t, rs);
    if rs != [] { assert rs[0] in rs; }
  }

  lemma SingleAtoms(ts: seq<ExprType>, x: ExprType)
    requires forall y :: y in ts ==> Atoms(y) == {y}
    ensures HasAtom(ts, x) <==> x in ts
  {
    forall i | 0 <= i < |ts| ensures x in Atoms(ts[i]) <==> x == ts[i] {
      assert ts[i] in ts;
    }
  }

  lemma AnyTable(t: ExprType)
    requires Normal(t) && Denotes(t)
    ensures t.Union? ==> NormalResolved(Filter(t.members, Denotes))
    ensures CoerceType(Any, t) == Some(if t.Union? then UnionOf(Filter(t.members, Denotes)) else t)
  {
    if t.Union? { UsableMembers(t); }
  }

  /** From `any`, every usable part of the target. */
  lemma AnyPromise(t: ExprType, x: ExprType)
    requires Normal(t) && Denotes(t)
    ensures Holding(CoerceType(Any, t), x) <==> x in Atoms(t) && Denotes(x)
  {
    AnyTable(t);
    if t.Union? { UsableAtom(t, x); }
  }

  lemma UsableAtom(t: ExprType, x: ExprType)
    requires Normal(t) && t.Union? && NormalResolved(Filter(t.members, Denotes))
    ensures x in Atoms(UnionOf(Filter(t.members, Denotes))) <==> x in t.members && Denotes(x)
  {
    var usable := Filter(t.members, Denotes);
    UnionAtoms(t);
    UnionAtom(usable, x);
    SingleAtoms(usable, x);
  }

  lemma NotAny(c: ExprType, t: ExprType)
    requires Plain(c) && !IsSymbolic(c) && Normal(t) && Denotes(t) && CoerceType(c, t).Some?
    ensures !CoerceType(c, t).value.Any?
  {
    if Satisfies(c, t) {
      SatisfiedKept(c, t);
    } else {
      PlainPromise(c, t, Any);
      AnyNotOut(c, t);
    }
  }

  lemma AnyNotOut(c: ExprType, t: ExprType)
    ensures !ComesOut(c, t, Any)
  {}

  lemma MemberPlain(c: ExprType, k: nat)
    requires Normal(c) && c.Union? && !IsSymbolic(c) && k < |c.members|
    ensures Plain(c.members[k]) && !IsSymbolic(c.members[k])
  {
    assert IsAtom(c.members[k]);
  }

  lemma MembersNotAny(c: ExprType, t: ExprType)
    requires Normal(c) && c.Union? && !IsSymbolic(c) && Normal(t) && Denotes(t) && NormalResolved(c.members)
    ensures Any !in CoerceMembers(c.members, t)
  {
    if Any in CoerceMembers(c.members, t) {
      var k := CoerceMembersFrom(c.members, t, Any);
      MemberPlain(c, k);
      NotAny(c.members[k], t);
    }
  }

  /** What each member of a union source is promised. */
  ghost function MemberResults(c: ExprType, t: ExprType): (rs: seq<Option<ExprType>>)
    requires Normal(c) && c.Union? && Normal(t)
    ensures |rs| == |c.members| && forall k :: 0 <= k < |rs| ==> rs[k] == CoerceType(c.members[k], t)
  {
    seq(|c.members|, k requires 0 <= k < |c.members| => CoerceType(c.members[k], t))
  }

  ghost predicate SomeHolds(os: seq<Option<ExprType>>, x: ExprType) {
    exists k :: 0 <= k < |os| && Holding(os[k], x)
  }

  ghost predicate NoneGiven(os: seq<Option<ExprType>>) {
    forall k :: 0 <= k < |os| ==> os[k].None?
  }

  ghost predicate Gathers(rs: seq<ExprType>, os: seq<Option<ExprType>>) {
    && (forall k :: 0 <= k < |os| && os[k].Some? ==> os[k].value in rs)
    && forall r :: r in rs ==> Some(r) in os
  }

  lemma Gathered(rs: seq<ExprType>, os: seq<Option<ExprType>>, x: ExprType)
    requires Gathers(rs, os)
    ensures HasAtom(rs, x) <==> SomeHolds(os, x)
    ensures rs == [] <==> NoneGiven(os)
  {
    if HasAtom(rs, x) {
      var i :| 0 <= i < |rs| && x in Atoms(rs[i]);
      assert rs[i] in rs;
    }
    if SomeHolds(os, x) {
      var k :| 0 <= k < |os| && Holding(os[k], x);
      AtomWitness(rs, os[k].value, x);
    }
    if rs != [] { assert rs[0] in rs; }
  }

  lemma UnionTable(c: ExprType, t: ExprType)
    requires Normal(c) && c.Union? && !IsSymbolic(c) && Normal(t) && Denotes(t)
    ensures NormalResolved(c.members)
    ensures CoerceType(c, t) ==
            if CoerceMembers(c.members, t) == [] then None else Some(UnionOf(CoerceMembers(c.members, t)))
  {
    NormalMembers(c);
  }

  lemma MembersGathered(c: ExprType, t: ExprType)
    requires Normal(c) && c.Union? && !IsSymbolic(c) && Normal(t) && Denotes(t) && NormalResolved(c.members)
    ensures Gathers(CoerceMembers(c.members, t), MemberResults(c, t))
  {
    var rs, os := CoerceMembers(c.members, t), MemberResults(c, t);
    forall k | 0 <= k < |os| && os[k].Some? ensures os[k].value in rs {
      MemberPlain(c, k);
      CoerceMembersHas(c.members, t, k);
    }
    forall r | r in rs ensures Some(r) in os {
      var k := CoerceMembersFrom(c.members, t, r);
      MemberPlain(c, k);
      assert os[k] == Some(r);
    }
  }

  /** From a union, what its members are promised between them; it is rejected when they all are. */
  lemma UnionPromise(c: ExprType, t: ExprType, x: ExprType)
    requires Normal(c) && c.Union? && !IsSymbolic(c) && Normal(t) && Denotes(t)
    ensures Holding(CoerceType(c, t), x) <==> SomeHolds(MemberResults(c, t), x)
    ensures CoerceType(c, t).None? <==> NoneGiven(MemberResults(c, t))
  {
    UnionTable(c, t);
    var rs := CoerceMembers(c.members, t);
    MembersNotAny(c, t);
    UnionAtom(rs, x);
    MembersGathered(c, t);
    Gathered(rs, MemberResults(c, t), x);
  }

  // ---- A source that satisfies the target is promised itself ----

  lemma {:induction false} MembersKept(ms: seq<ExprType>, t: ExprType)
    requires NormalResolved(ms) && Normal(t) && Denotes(t)
    requires forall i :: 0 <= i < |ms| ==> IsAtom(ms[i]) && Satisfies(ms[i], t)
    ensures CoerceMembers(ms, t) == ms
  {
    if ms != [] { MembersKept(ms[1..], t); }
  }

  lemma UnionMembers(c: ExprType)
    requires Normal(c) && c.Union? && NormalResolved(c.members)
    ensures UnionOf(c.members) == c
  {
    UnionAtoms(c);
    forall x ensures x in Atoms(UnionOf(c.members)) <==> x in Atoms(c) {
      UnionAtom(c.members, x);
      SingleAtoms(c.members, x);
    }
    NormalDetermined(UnionOf(c.members), c);
  }

  /** Toward a target it satisfies a type passes through unchanged, a union included. */
  lemma SatisfiedKept(c: ExprType, t: ExprType)
    requires Normal(c) && !c.Unresolved? && !IsSymbolic(c) && Normal(t) && Satisfies(c, t)
    ensures CoerceType(c, t) == Some(c)
  {
    if c.Any? {
      AnyKept(t);
    } else if c.Union? {
      UnionTable(c, t);
      forall i | 0 <= i < |c.members| ensures IsAtom(c.members[i]) && Satisfies(c.members[i], t) {
        MemberPlain(c, i);
      }
      MembersKept(c.members, t);
      UnionMembers(c);
    }
  }

  lemma AnyKept(t: ExprType)
    requires Normal(t) && Satisfies(Any, t)
    ensures CoerceType(Any, t) == Some(Any)
  {
    if !t.Any? { AnyRefused(t); }
    AnyTable(t);
  }

  lemma AnyRefused(t: ExprType)
    requires Normal(t) && !t.Any?
    ensures !Satisfies(Any, t)
  {
    if t.Union? {
      forall i | 0 <= i < |t.members| ensures !Satisfies(Any, t.members[i]) {
        assert IsAtom(t.members[i]);
      }
    }
  }

  // ---- What is promised fits the target ----

  lemma ComesOutFits(c: ExprType, t: ExprType, x: ExprType)
    requires Normal(t) && ComesOut(c, t, x)
    ensures Fits(x, t)
  {
    var d := ComesFrom(c, t, x);
    ConvertTypePlain(c, d);
    ConvertTypeIs(c, d, x);
    if x != d { SatisfiesFits(List(Int), d); }
    assert Fits(x, d);
    if t.Union? { FitsMember(x, t.members, d); }
  }

  /** A promise has parts, and each of them fits. */
  ghost predicate PartsFit(r: ExprType, t: ExprType) {
    Atoms(r) != {} && forall x :: x in Atoms(r) ==> Fits(x, t)
  }

  lemma PartsOfFitting(r: ExprType, t: ExprType)
    requires Normal(r) && !r.Unresolved? && Denotes(t) && PartsFit(r, t)
    ensures Fits(r, t)
  {
    if r.Union? {
      forall i | 0 <= i < |r.members| ensures Fits(r.members[i], t) {
        assert r.members[i] in Atoms(r);
      }
    } else {
      assert r in Atoms(r);
    }
  }

  lemma PlainFits(c: ExprType, t: ExprType)
    requires Plain(c) && !IsSymbolic(c) && Normal(t) && !t.Any? && CoerceType(c, t).Some?
    ensures PartsFit(CoerceType(c, t).value, t)
  {
    var r := CoerceType(c, t).value;
    if Satisfies(c, t) {
      SatisfiesFits(c, t);
      assert c in Atoms(c);
    } else {
      PlainRejected(c, t);
      var y :| ComesOut(c, t, y);
      PlainPromise(c, t, y);
      forall x | x in Atoms(r) ensures Fits(x, t) {
        PlainPromise(c, t, x);
        ComesOutFits(c, t, x);
      }
    }
  }

  lemma AnyFitting(t: ExprType)
    requires Normal(t) && CoerceType(Any, t).Some?
    ensures PartsFit(CoerceType(Any, t).value, t)
  {
    var y := UsablePart(t);
    AnyPromise(t, y);
    forall x | x in Atoms(CoerceType(Any, t).value) ensures Fits(x, t) {
      AnyPromise(t, x);
      if t.Union? {
        UnionAtoms(t);
        FitsMember(x, t.members, x);
      }
    }
  }

  lemma UsablePart(t: ExprType) returns (x: ExprType)
    requires Denotes(t)
    ensures x in Atoms(t) && Denotes(x)
  {
    x := t;
    if t.Union? {
      var i :| 0 <= i < |t.members| && Denotes(t.members[i]);
      x := t.members[i];
    }
  }

  lemma UnionFits(c: ExprType, t: ExprType)
    requires Normal(c) && c.Union? && !IsSymbolic(c) && Normal(t) && !t.Any? && CoerceType(c, t).Some?
    ensures PartsFit(CoerceType(c, t).value, t)
  {
    var os := MemberResults(c, t);
    UnionPromise(c, t, c);
    var j :| 0 <= j < |os| && os[j].Some?;
    MemberPlain(c, j);
    PlainFits(c.members[j], t);
    var y :| y in Atoms(os[j].value);
    assert Holding(os[j], y);
    UnionPromise(c, t, y);
    forall x | x in Atoms(CoerceType(c, t).value) ensures Fits(x, t) {
      UnionPromise(c, t, x);
      var k :| 0 <= k < |os| && Holding(os[k], x);
      MemberPlain(c, k);
      PlainFits(c.members[k], t);
    }
  }

  lemma ResolvedFits(c: ExprType, t: ExprType)
    requires Normal(c) && !c.Unresolved? && !IsSymbolic(c) && Normal(t) && CoerceType(c, t).Some?
    ensures Fits(CoerceType(c, t).value, t)
  {
    if !t.Any? {
      if c.Any? { AnyFitting(t); } else if c.Union? { UnionFits(c, t); } else { PlainFits(c, t); }
      ResolvedResult(c, t);
      PartsOfFitting(CoerceType(c, t).value, t);
    }
  }

  lemma ResolvedResult(c: ExprType, t: ExprType)
    requires Normal(c) && !c.Unresolved? && !IsSymbolic(c) && Normal(t) && CoerceType(c, t).Some?
    ensures Denotes(t) && !CoerceType(c, t).value.Unresolved?
  {}

  lemma {:induction false} ErasedGround(t: ExprType)
    requires Normal(t) && !t.Unresolved?
    ensures !EraseVars(t).Unresolved? && !IsSymbolic(EraseVars(t))
    decreases t
  {
    EraseResolved(t);
    if t.List? {
      EraseList(t);
      ErasedGround(t.elem);
    } else if t.Union? {
      EraseMembers(t);
      var parts := Erased(t.members);
      forall i | 0 <= i < |parts| ensures !IsSymbolic(parts[i]) {
        assert IsAtom(t.members[i]);
        ErasedGround(t.members[i]);
      }
      GroundUnion(parts);
    } else if t.Var? {
      match t.v { case T => case T1 => case T2 => case T3 => }
      assert EraseVars(t) == Any;
    }
  }

  lemma GroundUnion(ts: seq<ExprType>)
    requires NormalResolved(ts) && forall i :: 0 <= i < |ts| ==> !IsSymbolic(ts[i])
    ensures !IsSymbolic(UnionOf(ts))
  {
    UnionHolds(ts);
    if Any !in ts {
      var u := UnionOf(ts);
      forall x | x in Atoms(u) ensures !IsSymbolic(x) {
        UnionAtom(ts, x);
        var i :| 0 <= i < |ts| && x in Atoms(ts[i]);
        GroundAtom(ts[i], x);
      }
      AtomsGround(u);
    }
  }

  lemma GroundAtom(t: ExprType, x: ExprType)
    requires !t.Unresolved? && !IsSymbolic(t) && x in Atoms(t)
    ensures !IsSymbolic(x)
  {}

  lemma AtomsGround(u: ExprType)
    requires !u.Unresolved? && forall x :: x in Atoms(u) ==> !IsSymbolic(x)
    ensures !IsSymbolic(u)
  {
    if u.Union? {
      forall i | 0 <= i < |u.members| ensures !IsSymbolic(u.members[i]) {
        assert u.members[i] in Atoms(u);
      }
    } else if u.Var? || u.List? {
      assert u in Atoms(u);
    }
  }

  /** Whatever the source, the promised type fits the target. */
  lemma {:induction false} PromiseFits(c: ExprType, t: ExprType)
    requires Normal(c) && Normal(t) && CoerceType(c, t).Some?
    ensures Fits(CoerceType(c, t).value, t)
    decreases c
  {
    if c.Unresolved? {
      PromiseFits(c.constraint, t);
    } else if IsSymbolic(c) {
      ErasedGround(c);
      ResolvedFits(EraseVars(c), t);
    } else {
      ResolvedFits(c, t);
    }
  }

  // ---- What is accepted is reached ----

  /** Some value of each type that has one. */
  ghost function Sample(t: ExprType): Value
    requires Denotes(t)
    decreases t
  {
    match t
    case Bool => BoolValue(true)
    case Int => IntValue(0)
    case Float => FloatValue(0.0)
    case String => StringValue("")
    case Path => PathValue("", Posix)
    case RangeExpr => RangeValue(Ranges.EmptyExpr)
    case List(e) => ListList([], TypeOf(Sample(e)))
    case Union(ms) =>
      var i :| 0 <= i < |ms| && Denotes(ms[i]);
      Sample(ms[i])
    case _ => Null
  }

  lemma {:induction false} SampleFits(t: ExprType)
    requires Denotes(t)
    ensures ConcreteValue(Sample(t)) && Satisfies(TypeOf(Sample(t)), t)
    decreases t
  {
    if t.List? {
      SampleFits(t.elem);
      ConcreteType(Sample(t.elem));
    } else if t.Union? {
      var i :| 0 <= i < |t.members| && Denotes(t.members[i]) && Sample(t) == Sample(t.members[i]);
      SampleFits(t.members[i]);
      ConcreteType(Sample(t));
      assert Satisfies(TypeOf(Sample(t)), t.members[i]);
    }
  }

  /** A platform on which every text parses. */
  const LENIENT: Host := Host(
    (s: string) => Some(0), (s: string) => Some(0.0), (s: string) => Some(Ranges.EmptyExpr),
    (i: i64) => 0.0, (f: real) => "", (r: ValidRange) => "", (v: Value) => "",
    (s: string) => "true", (s: string, f: PathFormat) => s, Posix)

  /** Some value of type `c`, on some platform, coerces to `t`. */
  ghost predicate Reachable(c: ExprType, t: ExprType)
    requires Normal(t)
  {
    exists h: Host, v: Value, fmt: PathFormat :: Witnesses(h, v, fmt, c, t)
  }

  ghost predicate Witnesses(h: Host, v: Value, fmt: PathFormat, c: ExprType, t: ExprType)
    requires Normal(t)
  {
    ConcreteValue(v) && Satisfies(TypeOf(v), c) && Coerce(h, v, t, fmt).Some?
  }

  lemma ScalarConverts(c: ExprType, d: ExprType)
    requires Denotes(c) && d in Preference(c) && Normal(d)
    ensures ConvertTo(LENIENT, Sample(c), d, Posix).Some?
  {}

  lemma SampleConverts(c: ExprType, d: ExprType)
    requires Plain(c) && Denotes(c) && Normal(d) && IsDestination(d) && ConvertType(c, d).Some?
    ensures ConvertTo(LENIENT, Sample(c), d, Posix).Some?
  {
    ConvertTypeIs(c, d, ConvertType(c, d).value);
    if d in Preference(c) {
      ScalarConverts(c, d);
    } else if c.List? {
      EmptyMade(LENIENT, [], d.elem, Posix);
      ListTable(LENIENT, Sample(c), d, Posix);
    }
  }

  lemma PlainReached(c: ExprType, t: ExprType)
    requires Plain(c) && Denotes(c) && !IsSymbolic(c) && Normal(t) && CoerceType(c, t).Some?
    ensures Witnesses(LENIENT, Sample(c), Posix, c, t)
  {
    var v := Sample(c);
    SampleFits(c);
    if Satisfies(c, t) {
      SatisfiesTransitive(TypeOf(v), c, t);
    } else if !Satisfies(TypeOf(v), t) {
      PlainRejected(c, t);
      var x :| ComesOut(c, t, x);
      SampleTaken(c, t, x, v);
    }
  }

  lemma SampleTaken(c: ExprType, t: ExprType, x: ExprType, v: Value)
    requires Plain(c) && Denotes(c) && Normal(t) && ComesOut(c, t, x)
    requires v == Sample(c) && !v.UnresolvedValue? && !Satisfies(TypeOf(v), t)
    ensures Coerce(LENIENT, v, t, Posix).Some?
  {
    var d := ComesFrom(c, t, x);
    SampleConverts(c, d);
    SameDestinations(c, TypeOf(v), t, d);
    OfferTaken(LENIENT, v, t, Posix, d);
  }

  lemma AnyReached(t: ExprType)
    requires Normal(t) && CoerceType(Any, t).Some?
    ensures Witnesses(LENIENT, Sample(t), Posix, Any, t)
  {
    SampleFits(t);
    ConcreteType(Sample(t));
  }

  ghost predicate AcceptsPart(c: ExprType, t: ExprType, x: ExprType)
    requires Normal(t)
  {
    x in Atoms(c) && Denotes(x) && Normal(x) && CoerceType(x, t).Some?
  }

  lemma PartReached(c: ExprType, t: ExprType, x: ExprType)
    requires Normal(c) && !c.Unresolved? && !IsSymbolic(c) && Normal(t) && AcceptsPart(c, t, x)
    ensures Reachable(c, t)
  {
    if c.Any? {
      AnyReached(t);
    } else {
      if c.Union? { UnionAtoms(c); }
      GroundAtom(c, x);
      PlainReached(x, t);
      SatisfiesAtom(TypeOf(Sample(x)), c, x);
      assert Witnesses(LENIENT, Sample(x), Posix, c, t);
    }
  }

  lemma WitnessPart(h: Host, v: Value, fmt: PathFormat, c: ExprType, t: ExprType) returns (x: ExprType)
    requires Normal(c) && !c.Unresolved? && Normal(t) && !IsSymbolic(t) && Witnesses(h, v, fmt, c, t)
    ensures AcceptsPart(c, t, x)
  {
    ConcreteType(v);
    x := SatisfyingAtom(TypeOf(v), c);
    if c.Union? { UnionAtoms(c); }
    CoercionMirrored(h, v, x, t, fmt);
  }

  /** Exactly when some value of type `c` can be coerced to `t`: a part of `c` that has values is
      accepted. */
  lemma ReachedExactly(c: ExprType, t: ExprType)
    requires Normal(c) && !c.Unresolved? && !IsSymbolic(c) && Normal(t) && !IsSymbolic(t)
    ensures Reachable(c, t) <==> exists x :: AcceptsPart(c, t, x)
  {
    if Reachable(c, t) {
      var h: Host, v: Value, fmt: PathFormat :| Witnesses(h, v, fmt, c, t);
      var x := WitnessPart(h, v, fmt, c, t);
    }
    if x :| AcceptsPart(c, t, x) { PartReached(c, t, x); }
  }

  lemma TargetUseless(c: ExprType, t: ExprType)
    requires Normal(c) && Normal(t) && !Denotes(t)
    ensures CoerceType(c, t).None?
  {
    if c.Unresolved? { assert CoerceType(c, t) == CoerceType(c.constraint, t); }
  }

  lemma UnionAccepted(c: ExprType, t: ExprType)
    requires Normal(c) && c.Union? && !IsSymbolic(c) && Normal(t) && Denotes(t)
    requires forall x :: x in Atoms(c) ==> Denotes(x)
    ensures CoerceType(c, t).Some? <==> exists x :: AcceptsPart(c, t, x)
  {
    var os := MemberResults(c, t);
    UnionPromise(c, t, c);
    if k :| 0 <= k < |os| && os[k].Some? {
      assert c.members[k] in Atoms(c);
      assert AcceptsPart(c, t, c.members[k]);
    }
    if x :| AcceptsPart(c, t, x) {
      var k :| 0 <= k < |c.members| && c.members[k] == x;
      assert os[k].Some?;
    }
  }

  lemma PartsAccepted(c: ExprType, t: ExprType)
    requires Normal(c) && Denotes(c) && !IsSymbolic(c) && Normal(t)
    requires forall x :: x in Atoms(c) ==> Denotes(x)
    ensures CoerceType(c, t).Some? <==> exists x :: AcceptsPart(c, t, x)
  {
    if !Denotes(t) {
      TargetUseless(c, t);
      forall x | Normal(x) ensures !AcceptsPart(c, t, x) { TargetUseless(x, t); }
    } else if c.Union? {
      UnionAccepted(c, t);
    } else {
      assert Atoms(c) == {c};
      if CoerceType(c, t).Some? { assert AcceptsPart(c, t, c); }
    }
  }

  /** So the two levels agree: when every part of `c` has values, the type is accepted exactly when some
      value of it can be coerced. */
  lemma AcceptedExactly(c: ExprType, t: ExprType)
    requires Normal(c) && Denotes(c) && !IsSymbolic(c) && Normal(t) && !IsSymbolic(t)
    requires forall x :: x in Atoms(c) ==> Denotes(x)
    ensures CoerceType(c, t).Some? <==> Reachable(c, t)
  {
    ReachedExactly(c, t);
    PartsAccepted(c, t);
  }

  lemma AcceptedInVain(c: ExprType, t: ExprType, k: nat)
    requires Normal(c) && c.Union? && !IsSymbolic(c) && Normal(t) && !IsSymbolic(t) && Denotes(t)
    requires k < |c.members| && CoerceType(c.members[k], t).Some?
    requires forall x :: x in c.members && Denotes(x) && Normal(x) ==> CoerceType(x, t).None?
    ensures CoerceType(c, t).Some? && !Reachable(c, t)
  {
    UnionPromise(c, t, c);
    assert MemberResults(c, t)[k].Some?;
    ReachedExactly(c, t);
  }

  /** Nothing but a list or a range has a list form. */
  lemma ScalarNoList(c: ExprType, t: ExprType)
    requires Plain(c) && !c.List? && !c.RangeExpr? && !IsSymbolic(c) && Normal(t) && t.List?
    ensures CoerceType(c, t).None?
  {
    if Denotes(t) {
      forall y ensures !ComesOut(c, t, y) { PreferenceScalar(c, y); }
      PlainRejected(c, t);
    } else {
      TargetUseless(c, t);
    }
  }

  lemma PreferenceScalar(c: ExprType, x: ExprType)
    requires !c.List? && !c.RangeExpr?
    ensures x in Preference(c) ==> !x.List?
  {}

  /** A scalar type beside a list type without values is accepted toward a list type, and no value of it
      can be coerced. */
  lemma ListInVain(a: ExprType, b: ExprType, c: ExprType, t: ExprType)
    requires c == Union([a, b]) && Normal(c) && !IsSymbolic(c) && !a.List? && !a.RangeExpr? && b.List? && !Denotes(b)
    requires Normal(t) && !IsSymbolic(t) && Denotes(t) && t.List? && !Satisfies(b, t)
    ensures CoerceType(c, t).Some? && !Reachable(c, t)
  {
    MemberPlain(c, 0);
    MemberPlain(c, 1);
    ScalarNoList(a, t);
    ListPromise(b, t);
    AcceptedInVain(c, t, 1);
  }

  lemma NothingListed(b: ExprType, t: ExprType)
    requires b == List(NoReturn) && t == List(Int)
    ensures !Denotes(b) && !Satisfies(b, t) && Normal(t) && !IsSymbolic(t) && Denotes(t)
  {}

  lemma BesideNothing(b: ExprType, c: ExprType)
    requires b == List(NoReturn) && c == Union([Int, b])
    ensures Normal(c) && Denotes(c) && !IsSymbolic(c)
  {
    PartlyUnusable();
  }

  /** With a part that has none they need not: `int | list[noreturn]` is accepted toward `list[int]` for
      the sake of a list that cannot exist. */
  lemma AcceptedUnreached(b: ExprType, c: ExprType, t: ExprType)
    requires b == List(NoReturn) && c == Union([Int, b]) && t == List(Int)
    ensures Normal(c) && Denotes(c) && Normal(t) && CoerceType(c, t).Some? && !Reachable(c, t)
  {
    NothingListed(b, t);
    BesideNothing(b, c);
    ListInVain(Int, b, c, t);
  }
}
