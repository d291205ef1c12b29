/** The type-level coercion never rejects, and always covers, what the value-level one does. */
module CoercionSound {
  import opened Wrappers
  import opened ExprTypes
  import opened UnionLaws
  import opened Satisfaction
  import opened ExprValues
  import opened Coercion

  // ---- Satisfaction up to the empty list ----

  /** `satisfies`, counting the type itself and the empty list's `list[nulltype]` as fitting. */
  ghost predicate Fits(s: ExprType, t: ExprType)
    decreases s, t
  {
    Denotes(t) &&
    (s == t ||
     if t.Any? then true
     else if s.Unresolved? then Fits(s.constraint, t)
     else if s.Union? then forall i :: 0 <= i < |s.members| ==> Fits(s.members[i], t)
     else if t.Union? then exists i :: 0 <= i < |t.members| && Fits(s, t.members[i])
     else if s.Any? then false
     else s.List? && t.List? && (s.elem.NullType? || Fits(s.elem, t.elem)))
  }

  lemma {:induction false} SatisfiesFits(s: ExprType, t: ExprType)
    requires Satisfies(s, t)
    ensures Fits(s, t)
    decreases s, t
  {
    if t.Any? || s == t {
    } else if s.Unresolved? {
      SatisfiesFits(s.constraint, t);
    } else if s.Union? {
      forall i | 0 <= i < |s.members| ensures Fits(s.members[i], t) {
        SatisfiesFits(s.members[i], t);
      }
    } else if t.Union? {
      var i :| 0 <= i < |t.members| && Satisfies(s, t.members[i]);
      SatisfiesFits(s, t.members[i]);
    } else if s.List? && t.List? {
      SatisfiesFits(s.elem, t.elem);
    }
  }

  /** No `list[nulltype]` inside. */
  ghost predicate NoEmptyList(s: ExprType)
    decreases s
  {
    match s
    case List(e) => !e.NullType? && NoEmptyList(e)
    case Unresolved(c) => NoEmptyList(c)
    case Union(ms) => forall i :: 0 <= i < |ms| ==> NoEmptyList(ms[i])
    case _ => true
  }

  /** Fitting is plain satisfaction once the target is usable throughout and no empty list is
      involved. */
  lemma {:induction false} FitsSatisfies(s: ExprType, t: ExprType)
    requires Fits(s, t) && Inhabited(t) && NoEmptyList(s)
    ensures Satisfies(s, t)
    decreases s, t
  {
    if s == t {
      SatisfiesReflexive(t);
    } else if t.Any? {
    } else if s.Unresolved? {
      FitsSatisfies(s.constraint, t);
    } else if s.Union? {
      forall i | 0 <= i < |s.members| ensures Satisfies(s.members[i], t) {
        FitsSatisfies(s.members[i], t);
      }
    } else if t.Union? {
      var i :| 0 <= i < |t.members| && Fits(s, t.members[i]);
      FitsSatisfies(s, t.members[i]);
    } else {
      FitsSatisfies(s.elem, t.elem);
    }
  }

  /** A type a concrete value can have. */
  ghost predicate Plain(s: ExprType) {
    Normal(s) && !s.Union? && !s.Any? && !s.Unresolved?
  }

  lemma ConcreteType(v: Value)
    requires ConcreteValue(v)
    ensures Plain(TypeOf(v)) && !TypeOf(v).NoReturn?
  {}

  lemma FitsMember(s: ExprType, ms: seq<ExprType>, m: ExprType)
    requires Plain(s) && m in ms && Fits(s, m)
    ensures Fits(s, Union(ms))
  {
    var i :| 0 <= i < |ms| && ms[i] == m;
    assert Denotes(ms[i]) && Fits(s, ms[i]);
  }

  lemma FitsAtom(s: ExprType, u: ExprType, x: ExprType)
    requires Plain(s) && Normal(u) && !u.Unresolved? && x in Atoms(u) && Fits(s, x)
    ensures Fits(s, u)
  {
    if u.Union? { FitsMember(s, u.members, x); }
  }

  /** Fitting an argument of a union fits the union. */
  lemma FitsUnion(s: ExprType, ts: seq<ExprType>, m: ExprType)
    requires Plain(s) && NormalResolved(ts) && m in ts && Fits(s, m)
    ensures Fits(s, UnionOf(ts))
  {
    UnionHolds(ts);
    if Any !in ts {
      var k :| 0 <= k < |ts| && ts[k] == m;
      assert Normal(ts[k]) && !ts[k].Unresolved?;
      var x := FittingAtom(s, m);
      AtomWitness(ts, m, x);
      ResolvedNoAny(ts);
      assert Holds(ts, x);
      FitsAtom(s, UnionOf(ts), x);
    }
  }

  lemma FittingAtom(s: ExprType, m: ExprType) returns (x: ExprType)
    requires Plain(s) && Normal(m) && !m.Unresolved? && Fits(s, m)
    ensures x in Atoms(m) && Fits(s, x)
  {
    if m.Union? {
      var i :| 0 <= i < |m.members| && Fits(s, m.members[i]);
      x := m.members[i];
    } else {
      x := m;
    }
  }

  lemma ResolvedNoAny(ts: seq<ExprType>)
    requires NormalResolved(ts) && Any !in ts
    ensures !HasAtom(ts, Any)
  {
    forall i | 0 <= i < |ts| ensures Any !in Atoms(ts[i]) {
      assert !ts[i].Unresolved?;
      UnionAtoms(ts[i]);
    }
  }

  // ---- make_list ----

  /** Concrete values whose types fit U. */
  ghost predicate AllFitting(es: seq<Value>, u: ExprType) {
    forall i :: 0 <= i < |es| ==> ConcreteValue(es[i]) && Fits(TypeOf(es[i]), u)
  }

  lemma TypedEmptyFits(h: Host, hint: ExprType)
    requires Normal(hint) && !hint.Unresolved? && Denotes(hint)
    ensures var w := TypedEmpty(h, hint);
            ConcreteValue(w) && Fits(TypeOf(w), List(hint))
  {
    assert Fits(List(NullType), List(hint)) && Fits(List(hint), List(hint));
  }

  lemma ListTypeFits(x: ExprType, u: ExprType)
    requires Fits(x, u)
    ensures Fits(List(x), List(u))
  {}

  lemma ListOfFits(es: seq<Value>, u: ExprType)
    requires es != [] && AllFitting(es, u)
    ensures ConcreteValue(ListOf(es)) && Fits(TypeOf(ListOf(es)), List(u))
  {
    ConcreteType(es[0]);
    ListTypeFits(TypeOf(es[0]), u);
  }

  /** The sibling an untyped empty list follows is one of the elements. */
  lemma {:induction false} SiblingFits(h: Host, es: seq<Value>, u: ExprType)
    requires AllFitting(es, u) && SiblingVariant(es).Some?
    ensures var w := TypedEmpty(h, SiblingVariant(es).value);
            ConcreteValue(w) && Fits(TypeOf(w), u) && w.ListList? == false
  {
    assert ConcreteValue(es[0]) && Fits(TypeOf(es[0]), u);
    if SiblingVariant(es) != SiblingVariant(es[1..]) {
      assert TypeOf(TypedEmpty(h, SiblingVariant(es).value)) == TypeOf(es[0]);
    } else {
      SiblingFits(h, es[1..], u);
    }
  }

  lemma FillEmptiesFits(h: Host, es: seq<Value>, u: ExprType)
    requires AllFitting(es, u)
    ensures AllFitting(FillEmpties(h, es), u)
  {
    if SiblingVariant(es).Some? { SiblingFits(h, es, u); }
  }

  /** A list value built from elements fitting U. */
  ghost predicate ListFits(w: Option<Value>, u: ExprType) {
    w.Some? ==> ConcreteValue(w.value) && Fits(TypeOf(w.value), List(u))
  }

  lemma FloatsFit(h: Host, es: seq<Value>, u: ExprType)
    requires HasFloat(es) && AllFitting(es, u)
    ensures ListFits(Floats(Map(es, e => PromoteInt(h, e))), u)
  {
    var k :| 0 <= k < |es| && es[k].FloatValue?;
    assert Fits(TypeOf(es[k]), u);
    ListTypeFits(Float, u);
  }

  lemma TextsFit(h: Host, es: seq<Value>, u: ExprType)
    requires HasString(es) && AllFitting(es, u)
    ensures ListFits(Some(Texts(h, es)), u)
  {
    var k :| 0 <= k < |es| && es[k].StringValue?;
    assert Fits(TypeOf(es[k]), u);
    ListTypeFits(String, u);
  }

  lemma IntListsFit(h: Host, es: seq<Value>, u: ExprType)
    requires es != [] && HasListOf(es, Float) && AllFitting(es, u)
    ensures ListFits(Some(ListOf(Map(es, e => PromoteInts(h, e)))), u)
  {
    var k :| 0 <= k < |es| && ListElemType(es[k]) == Some(Float);
    assert TypeOf(es[k]) == List(Float) && Fits(TypeOf(es[k]), u);
    var ps := Map(es, e => PromoteInts(h, e));
    forall i | 0 <= i < |ps| ensures ConcreteValue(ps[i]) && Fits(TypeOf(ps[i]), u) {
      assert ConcreteValue(es[i]) && Fits(TypeOf(es[i]), u);
    }
    ListOfFits(ps, u);
  }

  lemma PathListsFit(es: seq<Value>, u: ExprType)
    requires es != [] && HasListOf(es, String) && AllFitting(es, u)
    ensures ListFits(Some(ListOf(Map(es, e => PromotePaths(e)))), u)
  {
    var k :| 0 <= k < |es| && ListElemType(es[k]) == Some(String);
    assert TypeOf(es[k]) == List(String) && Fits(TypeOf(es[k]), u);
    var ps := Map(es, e => PromotePaths(e));
    forall i | 0 <= i < |ps| ensures ConcreteValue(ps[i]) && Fits(TypeOf(ps[i]), u) {
      assert ConcreteValue(es[i]) && Fits(TypeOf(es[i]), u);
    }
    ListOfFits(ps, u);
  }

  /** A typed list of the first element's kind has the first element's type as element type. */
  lemma UniformType(es: seq<Value>)
    requires es != [] && Uniform(es).Some? && ConcreteValue(es[0])
    ensures TypeOf(Uniform(es).value) == List(TypeOf(es[0]))
    ensures Uniform(es).value.ListList? ==> Uniform(es).value == ListOf(es)
  {
    ConcreteType(es[0]);
  }

  lemma UniformFits(es: seq<Value>, u: ExprType)
    requires es != [] && AllFitting(es, u)
    ensures ListFits(Uniform(es), u)
  {
    if Uniform(es).Some? {
      assert ConcreteValue(es[0]) && Fits(TypeOf(es[0]), u);
      UniformType(es);
      ListOfFits(es, u);
      ListTypeFits(TypeOf(es[0]), u);
    }
  }

  lemma AssembleFits(h: Host, es: seq<Value>, u: ExprType)
    requires es != [] && AllFitting(es, u)
    ensures ListFits(Assemble(h, es), u)
  {
    if HasInt(es) && HasFloat(es) {
      FloatsFit(h, es, u);
    } else if HasListOf(es, Int) && HasListOf(es, Float) {
      IntListsFit(h, es, u);
    } else if HasListOf(es, Path) && HasListOf(es, String) {
      PathListsFit(es, u);
    } else if HasPath(es) && HasString(es) {
      TextsFit(h, es, u);
    } else {
      UniformFits(es, u);
    }
  }

  /** What `make_list` builds from elements fitting U fits `list[U]`. */
  lemma MakeListFits(h: Host, es: seq<Value>, u: ExprType)
    requires AllFitting(es, u) && Normal(u) && !u.Unresolved? && Denotes(u)
    requires MakeListValue(h, es, u).Some?
    ensures ConcreteValue(MakeListValue(h, es, u).value)
    ensures Fits(TypeOf(MakeListValue(h, es, u).value), List(u))
  {
    if es == [] {
      TypedEmptyFits(h, u);
    } else {
      FillEmptiesFits(h, es, u);
      AssembleFits(h, FillEmpties(h, es), u);
    }
  }

  // ---- The coerced value fits the target ----

  lemma ElementsConcrete(h: Host, v: Value)
    requires ConcreteValue(v) && IsList(v)
    ensures forall i :: 0 <= i < |ListElements(h, v)| ==> ConcreteValue(ListElements(h, v)[i])
  {}

  lemma ConvertScalarFits(h: Host, v: Value, dest: ExprType, fmt: PathFormat)
    requires ConcreteValue(v) && ConvertScalar(h, v, dest, fmt).Some? && IsDestination(dest) && !dest.List?
    ensures ConcreteValue(ConvertScalar(h, v, dest, fmt).value)
    ensures TypeOf(ConvertScalar(h, v, dest, fmt).value) == dest && Fits(dest, dest)
  {}

  lemma {:induction false} CoerceFits(h: Host, v: Value, t: ExprType, fmt: PathFormat)
    requires ConcreteValue(v) && Normal(t) && Coerce(h, v, t, fmt).Some?
    ensures ConcreteValue(Coerce(h, v, t, fmt).value)
    ensures Fits(TypeOf(Coerce(h, v, t, fmt).value), t)
    decreases t, 1
  {
    if Satisfies(TypeOf(v), t) {
      SatisfiesFits(TypeOf(v), t);
    } else {
      var d := Converted(h, v, t, fmt);
      DestinationSmaller(TypeOf(v), t, d);
      ConvertFits(h, v, d, fmt);
      if t.Union? {
        var w := Coerce(h, v, t, fmt).value;
        ConcreteType(w);
        FitsMember(TypeOf(w), t.members, d);
      }
    }
  }

  /** A conversion that succeeds does so at some destination. */
  lemma Converted(h: Host, v: Value, t: ExprType, fmt: PathFormat) returns (d: ExprType)
    requires !v.UnresolvedValue? && Normal(t) && FirstSome(Conversions(h, v, t, fmt)).Some?
    ensures d in Destinations(TypeOf(v), t) && Normal(d)
            && ConvertTo(h, v, d, fmt) == FirstSome(Conversions(h, v, t, fmt))
  {
    var i := FirstIndex(Conversions(h, v, t, fmt));
    d := Destinations(TypeOf(v), t)[i];
    ConversionAt(h, v, t, i, fmt);
  }

  lemma {:induction false} ConvertFits(h: Host, v: Value, d: ExprType, fmt: PathFormat)
    requires ConcreteValue(v) && Normal(d) && IsDestination(d) && ConvertTo(h, v, d, fmt).Some?
    ensures ConcreteValue(ConvertTo(h, v, d, fmt).value)
    ensures Fits(TypeOf(ConvertTo(h, v, d, fmt).value), d)
    decreases d, 0
  {
    if !d.List? {
      ConvertScalarFits(h, v, d, fmt);
    } else if v.RangeValue? {
      SatisfiesFits(List(Int), d);
    } else {
      var es := ListElements(h, v);
      ElementsConcrete(h, v);
      CoerceAllFits(h, es, d.elem, fmt);
      MakeListFits(h, CoerceAll(h, es, d.elem, fmt).value, d.elem);
    }
  }

  lemma {:induction false} CoerceAllFits(h: Host, es: seq<Value>, u: ExprType, fmt: PathFormat)
    requires Normal(u) && (forall i :: 0 <= i < |es| ==> ConcreteValue(es[i])) && CoerceAll(h, es, u, fmt).Some?
    ensures |CoerceAll(h, es, u, fmt).value| == |es| && AllFitting(CoerceAll(h, es, u, fmt).value, u)
    decreases u, 2, |es|
  {
    if es == [] {
    } else {
      CoerceAllStep(h, es, u, fmt);
      ConcreteTail(es);
      CoerceFits(h, es[0], u, fmt);
      CoerceAllFits(h, es[1..], u, fmt);
      var w, ws := Coerce(h, es[0], u, fmt).value, CoerceAll(h, es[1..], u, fmt).value;
      PrependFitting(w, ws, u);
    }
  }

  lemma ConcreteTail(es: seq<Value>)
    requires es != [] && forall i :: 0 <= i < |es| ==> ConcreteValue(es[i])
    ensures ConcreteValue(es[0]) && forall i :: 0 <= i < |es[1..]| ==> ConcreteValue(es[1..][i])
  {}

  lemma PrependFitting(w: Value, ws: seq<Value>, u: ExprType)
    requires ConcreteValue(w) && Fits(TypeOf(w), u) && AllFitting(ws, u)
    ensures AllFitting([w] + ws, u)
  {}

  // ---- The type-level result covers the value ----

  lemma SatisfiesAtom(s: ExprType, u: ExprType, x: ExprType)
    requires Normal(u) && !u.Unresolved? && x in Atoms(u) && Satisfies(s, x)
    ensures Satisfies(s, u)
  {
    if u.Union? {
      var i :| 0 <= i < |u.members| && u.members[i] == x;
      UnionTarget(s, u.members, i);
    }
  }

  lemma UnionUpperAtom(s: ExprType, ts: seq<ExprType>, k: nat)
    requires !s.Union? && !s.Unresolved? && NormalResolved(ts) && k < |ts| && Satisfies(s, ts[k]) && Any !in ts
    ensures Satisfies(s, UnionOf(ts))
  {
    UnionHolds(ts);
    assert Normal(ts[k]) && !ts[k].Unresolved?;
    var x := SatisfyingAtom(s, ts[k]);
    AtomWitness(ts, ts[k], x);
    ResolvedNoAny(ts);
    assert Holds(ts, x);
    SatisfiesAtom(s, UnionOf(ts), x);
  }

  /** Satisfying an argument of a union satisfies the union. */
  lemma {:induction false} UnionUpper(s: ExprType, ts: seq<ExprType>, k: nat)
    requires Normal(s) && NormalResolved(ts) && k < |ts| && Satisfies(s, ts[k])
    ensures Satisfies(s, UnionOf(ts))
    decreases s
  {
    if Any in ts {
      UnionHolds(ts);
    } else if s.Unresolved? {
      UnionUpper(s.constraint, ts, k);
    } else if s.Union? {
      forall i | 0 <= i < |s.members| ensures Satisfies(s.members[i], UnionOf(ts)) {
        UnionUpper(s.members[i], ts, k);
      }
      assert Satisfies(s.members[0], UnionOf(ts));
    } else {
      UnionUpperAtom(s, ts, k);
    }
  }

  lemma SatisfyingAtom(s: ExprType, m: ExprType) returns (x: ExprType)
    requires !s.Union? && !s.Unresolved? && Normal(m) && !m.Unresolved? && Satisfies(s, m)
    ensures x in Atoms(m) && Satisfies(s, x)
  {
    if m.Union? {
      var i :| 0 <= i < |m.members| && Satisfies(s, m.members[i]);
      x := m.members[i];
    } else {
      x := m;
    }
  }

  lemma {:induction false} EraseResolved(t: ExprType)
    requires Normal(t) && !t.Unresolved?
    ensures !EraseVars(t).Unresolved?
    decreases t
  {
    if t.List? {
      EraseList(t);
    } else if t.Union? {
      EraseMembers(t);
    }
  }

  /** Erasing a list erases its element. */
  lemma EraseList(t: ExprType)
    requires Normal(t) && t.List?
    ensures !EraseVars(t.elem).Unresolved? && EraseVars(t) == List(EraseVars(t.elem))
    decreases t, 0
  {
    EraseResolved(t.elem);
  }

  ghost function Erased(ms: seq<ExprType>): (r: seq<ExprType>)
    requires AllNormal(ms)
    ensures |r| == |ms| && AllNormal(r)
  {
    seq(|ms|, i requires 0 <= i < |ms| => EraseVars(ms[i]))
  }

  /** Erasing a union erases its members and rebuilds it. */
  lemma EraseMembers(t: ExprType)
    requires Normal(t) && t.Union?
    ensures NormalResolved(Erased(t.members)) && EraseVars(t) == UnionOf(Erased(t.members))
    decreases t, 0
  {
    var b := map[T := Any, T1 := Any, T2 := Any, T3 := Any];
    SubstituteNormal(t, b);
    SubstituteUnion(t.members, b);
    var parts := Erased(t.members);
    assert SubstituteAll(t.members, b) == parts;
    forall i | 0 <= i < |parts| ensures !parts[i].Unresolved? {
      assert IsAtom(t.members[i]);
      EraseResolved(t.members[i]);
    }
  }

  /** Erasing variables to `any` only widens a constraint. */
  lemma {:induction false} EraseWider(s: ExprType, c: ExprType)
    requires Normal(s) && Normal(c) && Satisfies(s, c)
    ensures Satisfies(s, EraseVars(c))
    decreases s, c
  {
    if c.Any? {
    } else if s.Unresolved? {
      EraseWider(s.constraint, c);
    } else if s.Union? {
      forall i | 0 <= i < |s.members| ensures Satisfies(s.members[i], EraseVars(c)) {
        EraseWider(s.members[i], c);
      }
      assert Satisfies(s.members[0], EraseVars(c));
    } else if c.Union? {
      var i :| 0 <= i < |c.members| && Satisfies(s, c.members[i]);
      EraseWider(s, c.members[i]);
      EraseMembers(c);
      UnionUpper(s, Erased(c.members), i);
    } else if c.List? {
      EraseList(c);
      EraseWider(s.elem, c.elem);
    }
  }

  // ---- Main result ----

  /** A list collected one member at a time has what each member gave. */
  lemma {:induction false} CollectedHas(ms: seq<ExprType>, k: nat, each: ExprType -> Option<ExprType>,
                                        all: nat -> seq<ExprType>, n: nat)
    requires n <= k < |ms| && each(ms[k]).Some?
    requires forall j: nat :: j < |ms| ==>
            all(j) == (if each(ms[j]).Some? then [each(ms[j]).value] else []) + all(j + 1)
    ensures each(ms[k]).value in all(n)
    decreases k - n
  {
    assert all(n) == (if each(ms[n]).Some? then [each(ms[n]).value] else []) + all(n + 1);
    if n == k {
      assert all(n)[0] == each(ms[k]).value;
    } else {
      CollectedHas(ms, k, each, all, n + 1);
    }
  }

  lemma MembersStep(ms: seq<ExprType>, t: ExprType, j: nat)
    requires NormalResolved(ms) && Normal(t) && Denotes(t) && j < |ms|
    ensures Normal(ms[j]) && NormalResolved(ms[j..]) && NormalResolved(ms[j + 1..])
    ensures CoerceMembers(ms[j..], t) ==
            (if CoerceResolved(ms[j], t).Some? then [CoerceResolved(ms[j], t).value] else []) +
                CoerceMembers(ms[j + 1..], t)
  {
    assert ms[j..][0] == ms[j] && ms[j..][1..] == ms[j + 1..];
  }

  lemma CoerceMembersHas(ms: seq<ExprType>, t: ExprType, k: nat)
    requires NormalResolved(ms) && Normal(t) && Denotes(t) && k < |ms| && CoerceResolved(ms[k], t).Some?
    ensures CoerceResolved(ms[k], t).value in CoerceMembers(ms, t)
  {
    var each := (m: ExprType) => if Normal(m) then CoerceResolved(m, t) else None;
    var all := (j: nat) => if j <= |ms| && NormalResolved(ms[j..]) then CoerceMembers(ms[j..], t) else [];
    forall j: nat | j < |ms|
      ensures all(j) == (if each(ms[j]).Some? then [each(ms[j]).value] else []) + all(j + 1)
    {
      MembersStep(ms, t, j);
    }
    CollectedHas(ms, k, each, all, 0);
    assert ms[0..] == ms;
  }

  lemma {:induction false} ConvertAllHas(source: ExprType, ds: seq<ExprType>, d: ExprType)
    requires NormalResolved(ds) && d in ds && Normal(d) && !d.Unresolved?
    requires ConvertType(source, d).Some?
    ensures ConvertType(source, d).value in ConvertAll(source, ds)
  {
    if d != ds[0] { ConvertAllHas(source, ds[1..], d); }
  }

  /** The type-level result of a plain source is the union of its conversions. */
  lemma ResolvedConversions(c: ExprType, t: ExprType, ds: seq<ExprType>)
    requires Plain(c) && Normal(t) && Denotes(t) && !Satisfies(c, t) && ds == Destinations(c, t)
    ensures NormalResolved(ds)
    ensures ConvertAll(c, ds) != [] ==> CoerceResolved(c, t) == Some(UnionOf(ConvertAll(c, ds)))
  {
    DestinationsNormal(c, t);
  }

  lemma ConversionFits(s: ExprType, c: ExprType, ds: seq<ExprType>, d: ExprType)
    requires Plain(s) && NormalResolved(ds) && d in ds && Normal(d) && !d.Unresolved?
    requires ConvertType(c, d).Some? && Fits(s, ConvertType(c, d).value)
    ensures ConvertAll(c, ds) != [] && Fits(s, UnionOf(ConvertAll(c, ds)))
  {
    ConvertAllHas(c, ds, d);
    FitsUnion(s, ConvertAll(c, ds), ConvertType(c, d).value);
  }

  /** A destination the source can convert to shows up in the type-level result. */
  lemma ConversionCovered(s: ExprType, c: ExprType, t: ExprType, d: ExprType)
    requires Plain(s) && Plain(c) && Normal(t) && Denotes(t) && !Satisfies(c, t)
    requires d in Destinations(c, t) && Normal(d) && !d.Unresolved?
    requires ConvertType(c, d).Some? && Fits(s, ConvertType(c, d).value)
    ensures CoerceResolved(c, t).Some? && Fits(s, CoerceResolved(c, t).value)
  {
    var ds := Destinations(c, t);
    ResolvedConversions(c, t, ds);
    ConversionFits(s, c, ds, d);
  }

  /** A plain type satisfies a plain constraint by equality, or as a list under a list. */
  lemma PlainSatisfies(s: ExprType, c: ExprType)
    requires Plain(s) && Plain(c) && Satisfies(s, c)
    ensures s == c || (s.List? && c.List?)
  {}

  /** The list destination a list type passes through. */
  lemma ListDestination(s: ExprType, t: ExprType) returns (d: ExprType)
    requires Plain(s) && s.List? && Normal(t) && !t.Any? && !IsSymbolic(t) && Satisfies(s, t)
    ensures d.List? && Normal(d) && Satisfies(s, d) && IsDestination(d)
    ensures if t.Union? then d in t.members else d == t
  {
    d := t;
    if t.Union? {
      var i :| 0 <= i < |t.members| && Satisfies(s, t.members[i]);
      d := t.members[i];
      assert IsAtom(t.members[i]) && Normal(t.members[i]) && !IsSymbolic(t.members[i]);
    }
  }

  lemma ListCovered(s: ExprType, c: ExprType, t: ExprType, d: ExprType)
    requires Plain(s) && Plain(c) && Normal(t) && Denotes(t) && !Satisfies(c, t)
    requires c.List? && d.List? && Normal(d) && Satisfies(s, d) && d in Destinations(c, t)
    ensures CoerceResolved(c, t).Some? && Fits(s, CoerceResolved(c, t).value)
  {
    ListConverts(s, c, d);
    ConversionCovered(s, c, t, d);
  }

  lemma ListConverts(s: ExprType, c: ExprType, d: ExprType)
    requires c.List? && d.List? && Normal(d) && Satisfies(s, d)
    ensures ConvertType(c, d) == Some(d) && Fits(s, d)
  {
    SatisfiesFits(s, d);
  }

  /** A list value that passes through toward a union or list target is covered as well. */
  lemma PassThroughCovered(s: ExprType, c: ExprType, t: ExprType)
    requires Plain(s) && Plain(c) && Normal(t) && Denotes(t) && !IsSymbolic(t)
    requires Satisfies(s, c) && Satisfies(s, t) && !Satisfies(c, t)
    ensures CoerceResolved(c, t).Some? && Fits(s, CoerceResolved(c, t).value)
  {
    PlainSatisfies(s, c);
    assert !t.Any? && s.List? && c.List?;
    var d := ListDestination(s, t);
    ListCovered(s, c, t, d);
  }

  lemma ScalarRule(h: Host, v: Value, d: ExprType, fmt: PathFormat)
    requires !v.UnresolvedValue? && Normal(d) && IsDestination(d) && !d.List? && ConvertTo(h, v, d, fmt).Some?
            && !(v.StringValue? && d.String?)
    ensures ScalarRank(TypeOf(v), d).Some? && !IsList(v)
  {}

  lemma RangeRule(h: Host, v: Value, d: ExprType, fmt: PathFormat)
    requires v.RangeValue? && Normal(d) && d.List? && ConvertTo(h, v, d, fmt).Some?
    ensures Satisfies(List(Int), d) && TypeOf(ConvertTo(h, v, d, fmt).value) == List(Int)
  {}

  lemma TypeRule(s: ExprType, c: ExprType, d: ExprType)
    requires Plain(s) && Plain(c) && Satisfies(s, c) && Normal(d) && IsDestination(d)
    requires
      || (s.List? && d.List?)
      || (s.RangeExpr? && d.List? && Satisfies(List(Int), d))
      || (!s.List? && !d.List? && ScalarRank(s, d).Some?)
    ensures ConvertType(c, d).Some?
    ensures ConvertType(c, d).value == if s.RangeExpr? && d.List? then List(Int) else d
  {
    PlainSatisfies(s, c);
  }

  /** What a value converts to, its type converts to, except a string toward `string`: only the value
      table has that row, which coercion never reaches because the string already satisfies it. */
  lemma ConvertTypeCovers(h: Host, v: Value, c: ExprType, d: ExprType, fmt: PathFormat)
    requires ConcreteValue(v) && Plain(c) && Satisfies(TypeOf(v), c)
    requires Normal(d) && IsDestination(d) && ConvertTo(h, v, d, fmt).Some?
    ensures ConvertType(c, d).Some? <==> !(v.StringValue? && d.String?)
    ensures ConvertType(c, d).Some? ==> Fits(TypeOf(ConvertTo(h, v, d, fmt).value), ConvertType(c, d).value)
  {
    ConcreteType(v);
    if v.StringValue? && d.String? {
      PlainSatisfies(String, c);
    } else {
      if !d.List? {
        ScalarRule(h, v, d, fmt);
      } else if v.RangeValue? {
        RangeRule(h, v, d, fmt);
      }
      TypeRule(TypeOf(v), c, d);
      ConvertFits(h, v, d, fmt);
    }
  }

  lemma SameDestinations(s: ExprType, c: ExprType, t: ExprType, d: ExprType)
    requires d in Destinations(s, t) && Normal(t)
    ensures d in Destinations(c, t) && !d.Unresolved? && IsDestination(d)
    ensures d.String? ==> Satisfies(String, t)
  {
    if d.String? && t.Union? {
      var i :| 0 <= i < |t.members| && t.members[i] == d;
      UnionTarget(String, t.members, i);
    }
  }

  lemma AnySound(s: ExprType, t: ExprType)
    requires Plain(s) && Normal(t) && Fits(s, t)
    ensures CoerceResolved(Any, t).Some? && Fits(s, CoerceResolved(Any, t).value)
  {
    if t.Union? {
      var i :| 0 <= i < |t.members| && Fits(s, t.members[i]);
      UsableMembers(t);
      FitsUnion(s, Filter(t.members, Denotes), t.members[i]);
    }
  }

  lemma MemberSound(s: ExprType, c: ExprType, t: ExprType, k: nat)
    requires Plain(s) && Normal(c) && c.Union? && Normal(t) && Denotes(t) && k < |c.members|
    requires CoerceResolved(c.members[k], t).Some? && Fits(s, CoerceResolved(c.members[k], t).value)
    ensures CoerceResolved(c, t).Some? && Fits(s, CoerceResolved(c, t).value)
  {
    NormalMembers(c);
    CoerceMembersHas(c.members, t, k);
    FitsUnion(s, CoerceMembers(c.members, t), CoerceResolved(c.members[k], t).value);
  }

  lemma ConvertedPlain(h: Host, v: Value, d: ExprType, fmt: PathFormat)
    requires ConcreteValue(v) && Normal(d) && IsDestination(d) && ConvertTo(h, v, d, fmt).Some?
    ensures Plain(TypeOf(ConvertTo(h, v, d, fmt).value))
  {
    ConvertFits(h, v, d, fmt);
    ConcreteType(ConvertTo(h, v, d, fmt).value);
  }

  lemma ConvertedSound(h: Host, v: Value, c: ExprType, t: ExprType, fmt: PathFormat)
    requires ConcreteValue(v) && Plain(c) && Satisfies(TypeOf(v), c) && !Satisfies(c, t)
    requires Normal(t) && !IsSymbolic(t) && Denotes(t)
    requires !Satisfies(TypeOf(v), t) && Coerce(h, v, t, fmt).Some?
    ensures CoerceResolved(c, t).Some?
    ensures Fits(TypeOf(Coerce(h, v, t, fmt).value), CoerceResolved(c, t).value)
  {
    var d := Converted(h, v, t, fmt);
    SameDestinations(TypeOf(v), c, t, d);
    ConvertTypeCovers(h, v, c, d, fmt);
    ConvertedPlain(h, v, d, fmt);
    ConversionCovered(TypeOf(ConvertTo(h, v, d, fmt).value), c, t, d);
  }

  /** The plain case: the value passes through or is converted. */
  lemma PlainSound(h: Host, v: Value, c: ExprType, t: ExprType, fmt: PathFormat)
    requires ConcreteValue(v) && Plain(c) && Satisfies(TypeOf(v), c)
    requires Normal(t) && !IsSymbolic(t) && Denotes(t) && Coerce(h, v, t, fmt).Some?
    ensures CoerceResolved(c, t).Some?
    ensures Fits(TypeOf(Coerce(h, v, t, fmt).value), CoerceResolved(c, t).value)
  {
    ConcreteType(v);
    if Satisfies(c, t) {
      SatisfiesTransitive(TypeOf(v), c, t);
      SatisfiesFits(TypeOf(v), c);
    } else if Satisfies(TypeOf(v), t) {
      PassThroughCovered(TypeOf(v), c, t);
    } else {
      ConvertedSound(h, v, c, t, fmt);
    }
  }

  lemma {:induction false} ResolvedSound(h: Host, v: Value, c: ExprType, t: ExprType, fmt: PathFormat)
    requires ConcreteValue(v) && Normal(c) && !c.Unresolved? && Satisfies(TypeOf(v), c)
    requires Normal(t) && !IsSymbolic(t) && Denotes(t) && Coerce(h, v, t, fmt).Some?
    ensures CoerceResolved(c, t).Some?
    ensures Fits(TypeOf(Coerce(h, v, t, fmt).value), CoerceResolved(c, t).value)
    decreases c
  {
    if c.Any? || c.Union? {
      CoerceFits(h, v, t, fmt);
      ConcreteType(v);
      ConcreteType(Coerce(h, v, t, fmt).value);
      var s := TypeOf(Coerce(h, v, t, fmt).value);
      if c.Any? {
        AnySound(s, t);
      } else {
        var k :| 0 <= k < |c.members| && Satisfies(TypeOf(v), c.members[k]);
        assert IsAtom(c.members[k]);
        ResolvedSound(h, v, c.members[k], t, fmt);
        MemberSound(s, c, t, k);
      }
    } else {
      PlainSound(h, v, c, t, fmt);
    }
  }

  /** A successful coercion means the target denotes values. */
  lemma CoercedDenotes(h: Host, v: Value, t: ExprType, fmt: PathFormat)
    requires ConcreteValue(v) && Normal(t) && Coerce(h, v, t, fmt).Some?
    ensures Denotes(t)
  {
    CoerceFits(h, v, t, fmt);
  }

  /** The invariant the source states for its two hand-mirrored tables: whatever a concrete value
      coerces to, an unresolved value constrained to any type the value satisfies is accepted at
      the type level, and the promised type covers the result. */
  lemma CoercionMirrored(h: Host, v: Value, c: ExprType, t: ExprType, fmt: PathFormat)
    requires ConcreteValue(v) && Normal(c) && Satisfies(TypeOf(v), c)
    requires Normal(t) && !IsSymbolic(t) && Coerce(h, v, t, fmt).Some?
    ensures ConcreteValue(Coerce(h, v, t, fmt).value) && Fits(TypeOf(Coerce(h, v, t, fmt).value), t)
    ensures Coerce(h, UnresolvedValue(c), t, fmt).Some?
    ensures CoerceType(c, t).Some? && Fits(TypeOf(Coerce(h, v, t, fmt).value), CoerceType(c, t).value)
  {
    CoerceFits(h, v, t, fmt);
    CoercedDenotes(h, v, t, fmt);
    ConcreteType(v);
    if IsSymbolic(c) {
      EraseWider(TypeOf(v), c);
      EraseResolved(c);
      ResolvedSound(h, v, EraseVars(c), t, fmt);
    } else {
      ResolvedSound(h, v, c, t, fmt);
    }
  }

  // ---- With `satisfies` itself ----

  /** Built by the list constructors and without an empty list at any depth. */
  ghost predicate Full(v: Value)
    decreases v
  {
    match v
    case ListBool(s) => s != []
    case ListInt(s) => s != []
    case ListFloat(s) => s != []
    case ListString(s) => s != []
    case ListPath(s, _) => s != []
    case ListList(es, et) =>
      && es != [] && !es[0].Null? && et == TypeOf(es[0])
      && forall i :: 0 <= i < |es| ==> Full(es[i])
    case UnresolvedValue(_) => false
    case _ => true
  }

  /** A scalar type other than of a list of nulls, under any number of lists. */
  ghost predicate Solid(s: ExprType)
    decreases s
  {
    match s
    case List(e) => !e.NullType? && Solid(e)
    case Any => false
    case NoReturn => false
    case Var(_) => false
    case Union(_) => false
    case Unresolved(_) => false
    case _ => true
  }

  lemma {:induction false} SolidInhabited(s: ExprType)
    requires Solid(s)
    ensures Inhabited(s) && NoEmptyList(s)
  {
    if s.List? { SolidInhabited(s.elem); }
  }

  lemma {:induction false} FullSolid(v: Value)
    requires Full(v)
    ensures Solid(TypeOf(v))
    decreases v
  {
    if v.ListList? {
      assert Full(v.elements[0]);
      FullSolid(v.elements[0]);
    }
  }

  /** Fitting is satisfaction for such types, whatever the target. */
  lemma {:induction false} SolidFits(s: ExprType, t: ExprType)
    requires Solid(s) && Fits(s, t)
    ensures Satisfies(s, t)
    decreases s, t
  {
    if s == t {
      SolidInhabited(s);
      SatisfiesReflexive(s);
    } else if t.Any? {
    } else if t.Union? {
      var i :| 0 <= i < |t.members| && Fits(s, t.members[i]);
      SolidFits(s, t.members[i]);
    } else {
      SolidFits(s.elem, t.elem);
    }
  }

  ghost predicate AllSolid(es: seq<Value>) {
    forall i :: 0 <= i < |es| ==> !es[i].UnresolvedValue? && Solid(TypeOf(es[i]))
  }

  lemma SolidNotEmpty(es: seq<Value>, h: Host)
    requires AllSolid(es)
    ensures FillEmpties(h, es) == es
  {
    forall i | 0 <= i < |es| ensures !IsEmptyList(es[i]) {
      assert Solid(TypeOf(es[i]));
    }
  }

  lemma ListOfSolid(es: seq<Value>)
    requires es != [] && !es[0].Null? && Solid(TypeOf(es[0]))
    ensures Solid(TypeOf(ListOf(es)))
  {}

  lemma UniformSolid(es: seq<Value>)
    requires es != [] && AllSolid(es) && Uniform(es).Some?
    ensures Solid(TypeOf(Uniform(es).value))
  {
    assert Solid(TypeOf(es[0]));
  }

  lemma AssembleSolid(h: Host, es: seq<Value>)
    requires es != [] && !es[0].Null? && AllSolid(es) && Assemble(h, es).Some?
    ensures Solid(TypeOf(Assemble(h, es).value))
  {
    assert Solid(TypeOf(es[0]));
    if HasInt(es) && HasFloat(es) {
    } else if HasListOf(es, Int) && HasListOf(es, Float) {
      ListOfSolid(Map(es, e => PromoteInts(h, e)));
    } else if HasListOf(es, Path) && HasListOf(es, String) {
      ListOfSolid(Map(es, e => PromotePaths(e)));
    } else if HasPath(es) && HasString(es) {
    } else {
      UniformSolid(es);
    }
  }

  /** Coercing a value without empty lists leaves none. */
  lemma {:induction false} FullCoerced(h: Host, v: Value, t: ExprType, fmt: PathFormat)
    requires Full(v) && Normal(t) && Coerce(h, v, t, fmt).Some?
    ensures !Coerce(h, v, t, fmt).value.UnresolvedValue? && Solid(TypeOf(Coerce(h, v, t, fmt).value))
    ensures Coerce(h, v, t, fmt).value.Null? ==> v.Null?
    decreases t, 1
  {
    if Satisfies(TypeOf(v), t) {
      FullSolid(v);
    } else {
      var d := Converted(h, v, t, fmt);
      DestinationSmaller(TypeOf(v), t, d);
      FullConverted(h, v, d, fmt);
    }
  }

  lemma {:induction false} FullConverted(h: Host, v: Value, d: ExprType, fmt: PathFormat)
    requires Full(v) && Normal(d) && IsDestination(d) && ConvertTo(h, v, d, fmt).Some?
    ensures !ConvertTo(h, v, d, fmt).value.UnresolvedValue? && Solid(TypeOf(ConvertTo(h, v, d, fmt).value))
    ensures !ConvertTo(h, v, d, fmt).value.Null?
    decreases d, 0
  {
    if d.List? && IsList(v) {
      var es := ListElements(h, v);
      FullElements(h, v);
      FullCoercedAll(h, es, d.elem, fmt);
      MakeListSolid(h, CoerceAll(h, es, d.elem, fmt).value, d.elem);
    }
  }

  lemma FullElements(h: Host, v: Value)
    requires Full(v) && IsList(v)
    ensures ListElements(h, v) != [] && !ListElements(h, v)[0].Null?
    ensures forall i :: 0 <= i < |ListElements(h, v)| ==> Full(ListElements(h, v)[i])
  {}

  lemma MakeListSolid(h: Host, es: seq<Value>, hint: ExprType)
    requires es != [] && !es[0].Null? && AllSolid(es) && MakeListValue(h, es, hint).Some?
    ensures IsList(MakeListValue(h, es, hint).value) && Solid(TypeOf(MakeListValue(h, es, hint).value))
  {
    SolidNotEmpty(es, h);
    AssembleSolid(h, es);
  }

  lemma {:induction false} FullCoercedAll(h: Host, es: seq<Value>, u: ExprType, fmt: PathFormat)
    requires Normal(u) && (forall i :: 0 <= i < |es| ==> Full(es[i])) && CoerceAll(h, es, u, fmt).Some?
    ensures |CoerceAll(h, es, u, fmt).value| == |es| && AllSolid(CoerceAll(h, es, u, fmt).value)
    ensures es != [] && CoerceAll(h, es, u, fmt).value[0].Null? ==> es[0].Null?
    decreases u, 2, |es|
  {
    if es == [] {
    } else {
      CoerceAllStep(h, es, u, fmt);
      assert Full(es[0]);
      FullCoerced(h, es[0], u, fmt);
      FullCoercedAll(h, es[1..], u, fmt);
      PrependSolid(Coerce(h, es[0], u, fmt).value, CoerceAll(h, es[1..], u, fmt).value);
    }
  }

  lemma PrependSolid(w: Value, ws: seq<Value>)
    requires !w.UnresolvedValue? && Solid(TypeOf(w)) && AllSolid(ws)
    ensures AllSolid([w] + ws)
  {}

  /** For a value without empty lists the cover is `satisfies` itself, for the promised type and for the
      target. */
  lemma CoercionSatisfies(h: Host, v: Value, c: ExprType, t: ExprType, fmt: PathFormat)
    requires ConcreteValue(v) && Full(v) && Normal(c) && Satisfies(TypeOf(v), c)
    requires Normal(t) && !IsSymbolic(t) && Coerce(h, v, t, fmt).Some?
    ensures Satisfies(TypeOf(Coerce(h, v, t, fmt).value), t)
    ensures CoerceType(c, t).Some? && Satisfies(TypeOf(Coerce(h, v, t, fmt).value), CoerceType(c, t).value)
  {
    CoercionMirrored(h, v, c, t, fmt);
    FullCoerced(h, v, t, fmt);
    SolidFits(TypeOf(Coerce(h, v, t, fmt).value), t);
    SolidFits(TypeOf(Coerce(h, v, t, fmt).value), CoerceType(c, t).value);
  }

  lemma ListPromise(c: ExprType, t: ExprType)
    requires Plain(c) && c.List? && !IsSymbolic(c)
    requires Normal(t) && t.List? && IsDestination(t) && Denotes(t) && !Satisfies(c, t)
    ensures CoerceType(c, t) == Some(t)
  {
    assert Destinations(c, t) == [t];
    assert [t][1..] == [];
    DestinationsNormal(c, t);
    assert ConvertAll(c, [t]) == [t];
    UnionSingle(t);
  }

  lemma EmptyConverts(h: Host, v: Value, t: ExprType, fmt: PathFormat)
    requires IsList(v) && ListElements(h, v) == []
    requires Normal(t) && t.List? && IsDestination(t) && !Satisfies(TypeOf(v), t)
    ensures Coerce(h, v, t, fmt) == Some(TypedEmpty(h, t.elem))
  {
    var ds := Destinations(TypeOf(v), t);
    assert ds == [t] && ds[0] == t;
    EmptyMade(h, ListElements(h, v), t.elem, fmt);
    assert ConvertTo(h, v, t, fmt) == ConvertList(h, v, t, fmt);
  }

  lemma EmptyMade(h: Host, es: seq<Value>, hint: ExprType, fmt: PathFormat)
    requires es == [] && Normal(hint)
    ensures CoerceAll(h, es, hint, fmt) == Some(es)
    ensures MakeListValue(h, es, hint) == Some(TypedEmpty(h, hint))
  {}

  lemma NullMember(ms: seq<ExprType>)
    requires Normal(Union(ms)) && Denotes(Union(ms))
    ensures Satisfies(NullType, Union(ms)) <==> NullType in ms
  {
    forall i | 0 <= i < |ms| ensures Satisfies(NullType, ms[i]) <==> ms[i] == NullType {
      assert IsAtom(ms[i]);
    }
    if NullType in ms {
      var i :| 0 <= i < |ms| && ms[i] == NullType;
      assert Satisfies(NullType, ms[i]);
    }
  }

  lemma TypedEmptyType(h: Host, e: ExprType, s: ExprType)
    requires !e.Any? && !e.Var? && !e.NoReturn? && !e.Unresolved?
    requires s == if e.RangeExpr? || e.Union? then NullType else e
    ensures TypeOf(TypedEmpty(h, e)) == List(s)
  {}

  lemma ListUnder(s: ExprType, e: ExprType)
    requires Denotes(e)
    ensures Satisfies(List(s), List(e)) <==> Satisfies(s, e)
  {}

  /** The type of an empty list made for this element type is that of a list of these. */
  ghost predicate EmptyKept(e: ExprType) {
    && !e.RangeExpr?
    && (e.Union? ==> NullType in e.members)
    && (e.List? ==> SelfFit(e))
  }

  lemma ElementSatisfies(e: ExprType, s: ExprType)
    requires Normal(e) && Denotes(e) && !IsSymbolic(e)
    requires s == if e.RangeExpr? || e.Union? then NullType else e
    ensures Satisfies(s, e) <==> EmptyKept(e)
  {
    if e.Union? {
      NullMember(e.members);
    } else if e.List? {
      SatisfiesSelf(e);
    }
  }

  lemma EmptyConverted(h: Host, v: Value, t: ExprType, fmt: PathFormat)
    requires ConcreteValue(v) && IsList(v) && ListElements(h, v) == [] && !IsSymbolic(TypeOf(v))
    requires Normal(t) && t.List? && Denotes(t) && !IsSymbolic(t) && !Satisfies(TypeOf(v), t)
    ensures Coerce(h, v, t, fmt).Some? && CoerceType(TypeOf(v), t) == Some(t)
    ensures Satisfies(TypeOf(Coerce(h, v, t, fmt).value), t) <==> EmptyKept(t.elem)
  {
    EmptyConverts(h, v, t, fmt);
    ConcreteType(v);
    ListPromise(TypeOf(v), t);
    assert !t.elem.Any?;
    var s := if t.elem.RangeExpr? || t.elem.Union? then NullType else t.elem;
    ElementSatisfies(t.elem, s);
    TypedEmptyType(h, t.elem, s);
    ListUnder(s, t.elem);
  }

  /** With an empty list it need not be. Toward every list target that denotes values it is accepted,
      and what comes out satisfies the target if and only if the list did so already, or the element
      type is not `range_expr`, not a union without `nulltype`, and not a list that does not satisfy
      itself. */
  lemma EmptyListPromise(h: Host, v: Value, t: ExprType, fmt: PathFormat)
    requires ConcreteValue(v) && IsList(v) && ListElements(h, v) == [] && !IsSymbolic(TypeOf(v))
    requires Normal(t) && t.List? && !IsSymbolic(t)
    ensures Coerce(h, v, t, fmt).Some? <==> Denotes(t)
    ensures Denotes(t) && !Satisfies(TypeOf(v), t) ==> CoerceType(TypeOf(v), t) == Some(t)
    ensures Denotes(t) ==>
              (Satisfies(TypeOf(Coerce(h, v, t, fmt).value), t) <==> Satisfies(TypeOf(v), t) || EmptyKept(t.elem))
  {
    if !Denotes(t) {
      assert Destinations(TypeOf(v), t) == [];
    } else if !Satisfies(TypeOf(v), t) {
      EmptyConverted(h, v, t, fmt);
    }
  }

  /** The type level promises `t`, and what `v` becomes does not satisfy it. */
  ghost predicate Unkept(h: Host, v: Value, t: ExprType, fmt: PathFormat) {
    && ConcreteValue(v) && Normal(TypeOf(v)) && Normal(t)
    && CoerceType(TypeOf(v), t) == Some(t) && Coerce(h, v, t, fmt).Some?
    && !Satisfies(TypeOf(Coerce(h, v, t, fmt).value), t)
  }

  lemma EmptyUnkept(h: Host, t: ExprType, fmt: PathFormat)
    requires Normal(t) && t.List? && Denotes(t) && !IsSymbolic(t)
    requires !Satisfies(NullType, t.elem) && !EmptyKept(t.elem)
    ensures Unkept(h, ListList([], NullType), t, fmt)
  {
    ListUnder(NullType, t.elem);
    EmptyListPromise(h, ListList([], NullType), t, fmt);
  }

  /** The promise fails for an empty list toward `list[range_expr]`. */
  lemma EmptyRangesUnkept(h: Host, fmt: PathFormat)
    ensures Unkept(h, ListList([], NullType), List(RangeExpr), fmt)
  {
    EmptyUnkept(h, List(RangeExpr), fmt);
  }

  /** It fails too toward a list of lists with an unusable part, `list[list[int | list[noreturn]]]`. */
  lemma EmptyPartlyUnkept(h: Host, fmt: PathFormat)
    ensures Unkept(h, ListList([], NullType), List(List(Union([Int, List(NoReturn)]))), fmt)
  {
    PartlyUnusable();
    UnusableUnkept(h, Union([Int, List(NoReturn)]), fmt);
  }

  lemma UnusableUnkept(h: Host, u: ExprType, fmt: PathFormat)
    requires Normal(u) && u.Union? && Denotes(u) && !IsSymbolic(u) && !Satisfies(u, u)
    ensures Unkept(h, ListList([], NullType), List(List(u)), fmt)
  {
    SatisfiesSelf(u);
    ListNotKept(u);
    EmptyUnkept(h, List(List(u)), fmt);
  }

  lemma ListNotKept(u: ExprType)
    requires !SelfFit(u)
    ensures !EmptyKept(List(u)) && !Satisfies(NullType, List(u))
  {}
}
