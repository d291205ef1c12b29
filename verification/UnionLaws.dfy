/** Union construction is canonical: the result depends only on which members go in. */
module UnionLaws {
  import opened Wrappers
  import opened Sorting
  import opened ExprTypes
  import opened TypeRoundTrip

  // ---- normalize_union as the source runs it ----

  lemma {:induction false} FlattenPush(ts: seq<ExprType>, t: ExprType)
    ensures Flatten(ts + [t]) == Flatten(ts) + Spliced(t)
  {
    if ts == [] {
      assert [t][1..] == [] && ts + [t] == [t];
    } else {
      assert (ts + [t])[1..] == ts[1..] + [t];
      FlattenPush(ts[1..], t);
    }
  }

  method SpliceLoop(types: seq<ExprType>) returns (members: Option<seq<ExprType>>)
    ensures members == if Any in types then None else Some(Flatten(types))
  {
    var out := [];
    for i := 0 to |types|
      invariant Any !in types[..i]
      invariant out == Flatten(types[..i])
    {
      assert types[..i + 1] == types[..i] + [types[i]];
      FlattenPush(types[..i], types[i]);
      match types[i]
      case Any => return None;
      case NoReturn =>
      case Union(ms) => out := out + ms;
      case _ => out := out + [types[i]];
    }
    assert types[..|types|] == types;
    return Some(out);
  }

  method HoistLoop(members: seq<ExprType>) returns (constraints: seq<ExprType>, concrete: seq<ExprType>)
    ensures constraints == Constraints(members) && concrete == Concrete(members)
  {
    constraints, concrete := [], [];
    for i := 0 to |members|
      invariant constraints + Constraints(members[i..]) == Constraints(members)
      invariant concrete + Concrete(members[i..]) == Concrete(members)
    {
      assert members[i..][1..] == members[i + 1..];
      if members[i].Unresolved? {
        constraints := constraints + [members[i].constraint];
      } else {
        concrete := concrete + [members[i]];
      }
    }
  }

  method NormalizeUnion(types: seq<ExprType>) returns (t: ExprType)
    requires AllRooted(types)
    ensures t == MakeUnion(types)
    decreases HasUnresolved(types)
  {
    var members := SpliceLoop(types);
    if members.None? {
      return Any;
    }
    var constraints, concrete := HoistLoop(members.value);
    Hoisted(types);
    if constraints != [] {
      var inner := NormalizeUnion(concrete + constraints);
      return MakeUnresolved(inner);
    }
    t := Canonical(members.value);
  }

  // ---- What a union holds ----

  ghost function Atoms(t: ExprType): set<ExprType> {
    match t
    case NoReturn => {}
    case Union(ms) => set x | x in ms
    case Unresolved(c) => Atoms(c)
    case _ => {t}
  }

  ghost predicate HasAtom(ts: seq<ExprType>, x: ExprType) {
    exists i :: 0 <= i < |ts| && x in Atoms(ts[i])
  }

  /** The atoms of the arguments, or `any` alone once it is among them. */
  ghost predicate Holds(ts: seq<ExprType>, x: ExprType) {
    if HasAtom(ts, Any) then x == Any else HasAtom(ts, x)
  }

  /** Sorting and dropping repeats leaves distinct printed forms. */
  lemma {:induction false} DedupCanonical(ms: seq<ExprType>)
    requires AllNormal(ms) && SortedBy(ms, TextLe)
    ensures forall i, j :: 0 <= i < j < |Dedup(ms)| ==>
            TextLe(Dedup(ms)[i], Dedup(ms)[j]) && Show(Dedup(ms)[i]) != Show(Dedup(ms)[j])
  {
    if |ms| > 1 {
      DedupCanonical(ms[1..]);
      if ms[0] != ms[1] {
        var rest := Dedup(ms[1..]);
        forall j | 0 <= j < |rest|
          ensures TextLe(ms[0], rest[j]) && Show(ms[0]) != Show(rest[j])
        {
          DedupMember(ms[1..], rest[j]);
          var k :| 0 <= k < |ms[1..]| && ms[1..][k] == rest[j];
          SortedSeparates(ms, k + 1);
        }
      }
    }
  }

  lemma SortedSeparates(ms: seq<ExprType>, k: nat)
    requires AllNormal(ms) && SortedBy(ms, TextLe) && 1 <= k < |ms| && ms[0] != ms[1]
    ensures TextLe(ms[0], ms[k]) && Show(ms[0]) != Show(ms[k])
  {
    assert TextLe(ms[0], ms[1]) && TextLe(ms[0], ms[k]);
    if Show(ms[0]) == Show(ms[k]) {
      if k > 1 { assert TextLe(ms[1], ms[k]); }
      StringLeAntisymmetric(Show(ms[0]), Show(ms[1]));
      ShowInjective(ms[0], ms[1]);
    }
  }

  lemma DistinctCanonical(ms: seq<ExprType>)
    requires AllNormal(ms) && forall i :: 0 <= i < |ms| ==> IsAtom(ms[i])
    ensures var distinct := Dedup(Sort(ms, TextLe));
            CanonicalOrder(distinct) && AllNormal(distinct)
  {
    var sorted := Sort(ms, TextLe);
    var distinct := Dedup(sorted);
    TextOrder();
    SortSorted(ms, TextLe);
    forall i | 0 <= i < |sorted| ensures Normal(sorted[i]) {
      PermutationMember(sorted, ms, sorted[i]);
    }
    DedupCanonical(sorted);
    forall i | 0 <= i < |distinct| ensures Normal(distinct[i]) && IsAtom(distinct[i]) {
      DistinctMember(ms, distinct[i]);
    }
  }

  lemma UnwrappedNormal(distinct: seq<ExprType>)
    requires CanonicalOrder(distinct) && AllNormal(distinct)
    ensures Normal(Unwrapped(distinct)) && !Unwrapped(distinct).Any? && !Unwrapped(distinct).Unresolved?
    ensures forall x :: x in Atoms(Unwrapped(distinct)) <==> x in distinct
  {
    if |distinct| == 1 { assert IsAtom(distinct[0]); }
  }

  lemma CanonicalNormal(ms: seq<ExprType>)
    requires AllNormal(ms) && forall i :: 0 <= i < |ms| ==> IsAtom(ms[i])
    ensures Normal(Canonical(ms)) && !Canonical(ms).Any? && !Canonical(ms).Unresolved?
    ensures forall x :: x in Atoms(Canonical(ms)) <==> x in ms
  {
    DistinctCanonical(ms);
    UnwrappedNormal(Dedup(Sort(ms, TextLe)));
    forall x ensures x in Dedup(Sort(ms, TextLe)) <==> x in ms { DistinctMember(ms, x); }
  }

  /** With nothing to hoist, the spliced members are atoms. */
  lemma FlattenIsAtoms(ts: seq<ExprType>)
    requires AllNormal(ts) && Any !in ts && Constraints(Flatten(ts)) == []
    ensures AllNormal(Flatten(ts))
    ensures forall i :: 0 <= i < |Flatten(ts)| ==> IsAtom(Flatten(ts)[i])
    ensures !HasUnresolved(ts)
  {
    var members := Flatten(ts);
    forall i | 0 <= i < |members| ensures Normal(members[i]) && IsAtom(members[i]) {
      var m := members[i];
      FlattenMember(ts, m);
      var k :| 0 <= k < |ts| && m in Spliced(ts[k]);
      SplicedNormal(ts[k], m);
      ConcreteMember(members, if m.Unresolved? then m.constraint else m);
    }
    forall i | 0 <= i < |ts| ensures !ts[i].Unresolved? {
      FlattenMember(ts, ts[i]);
      ConcreteMember(members, if ts[i].Unresolved? then ts[i].constraint else ts[i]);
      assert ts[i].Unresolved? ==> ts[i] in Spliced(ts[i]);
    }
  }

  lemma AtomsOfAtoms(ms: seq<ExprType>, x: ExprType)
    requires forall i :: 0 <= i < |ms| ==> IsAtom(ms[i])
    ensures x in ms <==> HasAtom(ms, x)
  {
    if x in ms { AtomWitness(ms, x, x); }
  }

  lemma SplicedNormal(t: ExprType, x: ExprType)
    requires Normal(t) && x in Spliced(t)
    ensures Normal(x) && !x.Union? && !x.NoReturn?
    ensures x.Unresolved? || x.Any? ==> t == x
  {
    if t.Union? {
      var i :| 0 <= i < |t.members| && t.members[i] == x;
      assert IsAtom(t.members[i]);
    }
  }

  /** The parts of a hoisted union are normalized and hold the same atoms. */
  lemma HoistedAtoms(ts: seq<ExprType>)
    requires AllNormal(ts) && Any !in ts
    ensures var parts := Concrete(Flatten(ts)) + Constraints(Flatten(ts));
            AllNormal(parts) && forall x :: HasAtom(parts, x) <==> HasAtom(ts, x)
  {
    var members := Flatten(ts);
    var parts := Concrete(members) + Constraints(members);
    forall i | 0 <= i < |parts| ensures Normal(parts[i]) {
      var p := parts[i];
      assert p in parts;
      ConcreteMember(members, p);
      var m := if p in Concrete(members) then p else Unresolved(p);
      FlattenMember(ts, m);
      var k :| 0 <= k < |ts| && m in Spliced(ts[k]);
      SplicedNormal(ts[k], m);
    }
    forall x ensures HasAtom(parts, x) <==> HasAtom(ts, x) {
      SplicedAtom(ts, x);
      PartAtom(members, x);
    }
  }

  lemma AtomWitness(ts: seq<ExprType>, t: ExprType, x: ExprType)
    requires t in ts && x in Atoms(t)
    ensures HasAtom(ts, x)
  {
    var i :| 0 <= i < |ts| && ts[i] == t;
    assert x in Atoms(ts[i]);
  }

  /** Splicing one type keeps its atoms. */
  lemma SplicedOne(t: ExprType, x: ExprType)
    requires Normal(t)
    ensures x in Atoms(t) <==> exists m :: m in Spliced(t) && x in Atoms(m)
  {
    UnionAtoms(t);
    if x in Atoms(t) {
      var m := if t.Union? then x else t;
      assert m in Spliced(t) && x in Atoms(m);
    }
  }

  lemma SplicedAtom(ts: seq<ExprType>, x: ExprType)
    requires AllNormal(ts)
    ensures HasAtom(Flatten(ts), x) <==> HasAtom(ts, x)
  {
    var members := Flatten(ts);
    if HasAtom(members, x) {
      var j :| 0 <= j < |members| && x in Atoms(members[j]);
      var m := members[j];
      FlattenMember(ts, m);
      var i :| 0 <= i < |ts| && m in Spliced(ts[i]);
      SplicedOne(ts[i], x);
    }
    if HasAtom(ts, x) {
      var i :| 0 <= i < |ts| && x in Atoms(ts[i]);
      SplicedOne(ts[i], x);
      var m :| m in Spliced(ts[i]) && x in Atoms(m);
      FlattenMember(ts, m);
      AtomWitness(members, m, x);
    }
  }

  lemma PartAtom(members: seq<ExprType>, x: ExprType)
    ensures HasAtom(Concrete(members) + Constraints(members), x) <==> HasAtom(members, x)
  {
    var parts := Concrete(members) + Constraints(members);
    if HasAtom(parts, x) {
      var i :| 0 <= i < |parts| && x in Atoms(parts[i]);
      var p := parts[i];
      assert p in parts;
      ConcreteMember(members, p);
      AtomWitness(members, if p in Concrete(members) then p else Unresolved(p), x);
    }
    if HasAtom(members, x) {
      var i :| 0 <= i < |members| && x in Atoms(members[i]);
      var p := match members[i] case Unresolved(c) => c case m => m;
      ConcreteMember(members, p);
      AtomWitness(parts, p, x);
    }
  }

  /** What `union` builds: normalized, `any` when asked for it, otherwise unresolved exactly when
      an argument is, and holding exactly the arguments' atoms unless `any` absorbs them. */
  lemma {:induction false} UnionHolds(ts: seq<ExprType>)
    requires AllNormal(ts)
    ensures AllRooted(ts)
    ensures Normal(MakeUnion(ts))
    ensures MakeUnion(ts).Any? <==> Any in ts
    ensures Any !in ts ==> (MakeUnion(ts).Unresolved? <==> HasUnresolved(ts))
    ensures forall x :: x in Atoms(MakeUnion(ts)) <==> Holds(ts, x)
    decreases HasUnresolved(ts)
  {
    forall i | 0 <= i < |ts| ensures Rooted(ts[i]) { NormalRooted(ts[i]); }
    if Any in ts {
      AtomWitness(ts, Any, Any);
    } else {
      var members := Flatten(ts);
      if Constraints(members) == [] {
        FlattenIsAtoms(ts);
        CanonicalNormal(members);
        forall x ensures x in members <==> HasAtom(ts, x) {
          AtomsOfAtoms(members, x);
          SplicedAtom(ts, x);
        }
        assert Any !in members;
      } else {
        var parts := Concrete(members) + Constraints(members);
        Hoisted(ts);
        HoistedAtoms(ts);
        NoneUnresolved(parts);
        UnionHolds(parts);
        HoistedAny(parts);
      }
    }
  }

  lemma NoneUnresolved(parts: seq<ExprType>)
    requires AllSettled(parts)
    ensures !HasUnresolved(parts)
  {
    forall i | 0 <= i < |parts| ensures !parts[i].Unresolved? {
      assert Settled(parts[i]);
    }
  }

  lemma HoistedAny(parts: seq<ExprType>)
    requires AllNormal(parts) && AllSettled(parts)
    ensures HasAtom(parts, Any) <==> Any in parts
  {
    forall i | 0 <= i < |parts| && Any in Atoms(parts[i]) ensures parts[i] == Any {
      assert Settled(parts[i]);
      UnionAtoms(parts[i]);
    }
    if Any in parts { AtomWitness(parts, Any, Any); }
  }

  lemma UnionAtoms(t: ExprType)
    requires Normal(t)
    ensures t.Union? ==> forall x :: x in t.members ==> IsAtom(x) && Normal(x) && Atoms(x) == {x}
  {
    if t.Union? {
      forall x | x in t.members ensures IsAtom(x) && Normal(x) {
        var k :| 0 <= k < |t.members| && t.members[k] == x;
        assert IsAtom(t.members[k]);
      }
    }
  }

  // ---- Normal forms are canonical ----

  lemma {:induction false} DistinctMultiset(ms: seq<ExprType>)
    requires forall i, j :: 0 <= i < j < |ms| ==> ms[i] != ms[j]
    ensures multiset(ms) == multiset(set x | x in ms)
  {
    if ms == [] {
    } else {
      DistinctMultiset(ms[1..]);
      var head := ms[0];
      assert head !in ms[1..];
      assert ms == [head] + ms[1..];
      assert (set x | x in ms) == {head} + (set x | x in ms[1..]);
    }
  }

  lemma SameMembersSameOrder(ms: seq<ExprType>, ns: seq<ExprType>)
    requires CanonicalOrder(ms) && CanonicalOrder(ns) && (set x | x in ms) == (set x | x in ns)
    ensures ms == ns
  {
    DistinctMultiset(ms);
    DistinctMultiset(ns);
    SortedDistinct(ms);
    SortedDistinct(ns);
    SortedUnique(ms, ns, TextLe);
  }

  lemma AtomCount(t: ExprType)
    requires Normal(t) && !t.Unresolved?
    ensures t.Union? <==> |Atoms(t)| >= 2
  {
    if t.Union? {
      DistinctMultiset(t.members);
      assert |multiset(t.members)| == |t.members|;
    }
  }

  /** A normalized type is determined by its atoms and whether it is unresolved. */
  lemma NormalDetermined(t: ExprType, u: ExprType)
    requires Normal(t) && Normal(u)
    requires (t.Unresolved? <==> u.Unresolved?) && Atoms(t) == Atoms(u)
    ensures t == u
  {
    if t.Unresolved? {
      NormalDetermined(t.constraint, u.constraint);
    } else {
      AtomCount(t);
      AtomCount(u);
      if t.Union? {
        SameMembersSameOrder(t.members, u.members);
      } else {
        assert t.NoReturn? || t in Atoms(t);
        assert u.NoReturn? || u in Atoms(u);
      }
    }
  }

  /** Canonicity: the union depends only on which atoms go in and whether any argument is
      unresolved or `any`, not on order, repetition or nesting. */
  lemma UnionCanonical(ts: seq<ExprType>, us: seq<ExprType>)
    requires AllNormal(ts) && AllNormal(us)
    requires (Any in ts <==> Any in us) && (Any !in ts ==> (HasUnresolved(ts) <==> HasUnresolved(us)))
    requires forall x :: Holds(ts, x) <==> Holds(us, x)
    ensures AllRooted(ts) && AllRooted(us) && MakeUnion(ts) == MakeUnion(us)
  {
    UnionHolds(ts);
    UnionHolds(us);
    BuiltAlike(ts, us, MakeUnion(ts), MakeUnion(us));
  }

  /** `t` is what a union of `ts` has to be. */
  ghost predicate BuiltFrom(ts: seq<ExprType>, t: ExprType) {
    && Normal(t) && (t.Any? <==> Any in ts)
    && (Any !in ts ==> (t.Unresolved? <==> HasUnresolved(ts)))
    && forall x :: x in Atoms(t) <==> Holds(ts, x)
  }

  lemma BuiltAlike(ts: seq<ExprType>, us: seq<ExprType>, t: ExprType, u: ExprType)
    requires BuiltFrom(ts, t) && BuiltFrom(us, u)
    requires (Any in ts <==> Any in us) && (Any !in ts ==> (HasUnresolved(ts) <==> HasUnresolved(us)))
    requires forall x :: Holds(ts, x) <==> Holds(us, x)
    ensures t == u
  {
    if Any !in ts {
      assert Atoms(t) == Atoms(u);
      NormalDetermined(t, u);
    }
  }

  lemma UnionOrderFree(ts: seq<ExprType>, us: seq<ExprType>)
    requires AllNormal(ts) && multiset(ts) == multiset(us)
    ensures AllRooted(ts) && AllRooted(us) && MakeUnion(ts) == MakeUnion(us)
  {
    forall t ensures t in ts <==> t in us { PermutationMember(ts, us, t); }
    forall i | 0 <= i < |us| ensures Normal(us[i]) {
      assert us[i] in ts;
    }
    SameTypesSameUnion(ts, us);
  }

  lemma SameTypesSameUnion(ts: seq<ExprType>, us: seq<ExprType>)
    requires AllNormal(ts) && AllNormal(us) && forall t :: t in ts <==> t in us
    ensures AllRooted(ts) && AllRooted(us) && MakeUnion(ts) == MakeUnion(us)
  {
    forall x ensures HasAtom(ts, x) <==> HasAtom(us, x) {
      if HasAtom(ts, x) { SameAtom(ts, us, x); }
      if HasAtom(us, x) { SameAtom(us, ts, x); }
    }
    if HasUnresolved(ts) { SameUnresolved(ts, us); }
    if HasUnresolved(us) { SameUnresolved(us, ts); }
    UnionCanonical(ts, us);
  }

  lemma SameAtom(ts: seq<ExprType>, us: seq<ExprType>, x: ExprType)
    requires HasAtom(ts, x) && forall t :: t in ts ==> t in us
    ensures HasAtom(us, x)
  {
    var i :| 0 <= i < |ts| && x in Atoms(ts[i]);
    AtomWitness(us, ts[i], x);
  }

  lemma SameUnresolved(ts: seq<ExprType>, us: seq<ExprType>)
    requires HasUnresolved(ts) && forall t :: t in ts ==> t in us
    ensures HasUnresolved(us)
  {
    var i :| 0 <= i < |ts| && ts[i].Unresolved?;
    var t := ts[i];
    assert t in ts;
    var k :| 0 <= k < |us| && us[k] == t;
  }

  lemma OneAtom(t: ExprType, x: ExprType)
    requires Normal(t)
    ensures Holds([t], x) <==> x in Atoms(t)
  {
    NestedAtom(t, [], x);
    NestedAtom(t, [], Any);
    assert [t] + [] == [t];
    AnyAlone(t);
  }

  /** Idempotence: the union of one type is that type. */
  lemma UnionSingle(t: ExprType)
    requires Normal(t)
    ensures Rooted(t) && MakeUnion([t]) == t
  {
    NormalRooted(t);
    UnionHolds([t]);
    if !t.Any? {
      assert HasUnresolved([t]) <==> [t][0].Unresolved?;
      forall x ensures x in Atoms(MakeUnion([t])) <==> x in Atoms(t) { OneAtom(t, x); }
      NormalDetermined(MakeUnion([t]), t);
    }
  }

  /** Idempotence: repeating the arguments changes nothing. */
  lemma UnionTwice(ts: seq<ExprType>)
    requires AllNormal(ts)
    ensures AllRooted(ts) && MakeUnion(ts + ts) == MakeUnion(ts)
  {
    SameTypesSameUnion(ts + ts, ts);
  }

  lemma AnyAlone(t: ExprType)
    requires Normal(t)
    ensures Any in Atoms(t) ==> Atoms(t) == {Any}
  {
    UnionAtoms(t);
    if t.Unresolved? { AnyAlone(t.constraint); }
  }

  /** Nested unions flatten: building a part first makes no difference. */
  lemma UnionAssociative(ts: seq<ExprType>, us: seq<ExprType>)
    requires AllNormal(ts) && AllNormal(us)
    ensures AllRooted(ts) && AllRooted(us)
    ensures MakeUnion([MakeUnion(ts)] + us) == MakeUnion(ts + us)
  {
    UnionHolds(ts);
    forall i | 0 <= i < |us| ensures Rooted(us[i]) { NormalRooted(us[i]); }
    NestedUnion(MakeUnion(ts), ts, us);
  }

  lemma NestedUnion(t: ExprType, ts: seq<ExprType>, us: seq<ExprType>)
    requires AllNormal(ts) && AllNormal(us) && BuiltFrom(ts, t)
    ensures AllRooted([t] + us) && AllRooted(ts + us) && MakeUnion([t] + us) == MakeUnion(ts + us)
  {
    if Any !in ts { NestedUnresolved(t, ts, us); }
    forall x ensures Holds([t] + us, x) <==> Holds(ts + us, x) { NestedHolds(t, ts, us, x); }
    UnionCanonical([t] + us, ts + us);
  }

  lemma NestedHolds(t: ExprType, ts: seq<ExprType>, us: seq<ExprType>, x: ExprType)
    requires forall y :: y in Atoms(t) <==> Holds(ts, y)
    ensures Holds([t] + us, x) <==> Holds(ts + us, x)
  {
    NestedAtom(t, us, x);
    NestedAtom(t, us, Any);
    AppendAtom(ts, us, x);
    AppendAtom(ts, us, Any);
  }

  lemma NestedUnresolved(t: ExprType, ts: seq<ExprType>, us: seq<ExprType>)
    requires t.Unresolved? <==> HasUnresolved(ts)
    ensures HasUnresolved([t] + us) <==> HasUnresolved(ts + us)
  {
    var nested, flat := [t] + us, ts + us;
    if HasUnresolved(ts) {
      var i :| 0 <= i < |ts| && ts[i].Unresolved?;
      assert flat[i].Unresolved? && nested[0].Unresolved?;
    } else if HasUnresolved(us) {
      var i :| 0 <= i < |us| && us[i].Unresolved?;
      assert flat[|ts| + i].Unresolved? && nested[1 + i].Unresolved?;
    }
  }

  lemma AppendAtom(ts: seq<ExprType>, us: seq<ExprType>, x: ExprType)
    ensures HasAtom(ts + us, x) <==> HasAtom(ts, x) || HasAtom(us, x)
  {
    if HasAtom(ts, x) { SameAtom(ts, ts + us, x); }
    if HasAtom(us, x) { SameAtom(us, ts + us, x); }
  }

  lemma NestedAtom(t: ExprType, us: seq<ExprType>, x: ExprType)
    ensures HasAtom([t] + us, x) <==> x in Atoms(t) || HasAtom(us, x)
  {
    AppendAtom([t], us, x);
    if x in Atoms(t) { AtomWitness([t], t, x); }
  }

  // ---- Substitution ----

  type Bindings = map<TypeVar, ExprType>

  ghost predicate NormalBindings(b: Bindings) {
    forall v :: v in b ==> Normal(b[v])
  }

  ghost predicate RootedBindings(b: Bindings) {
    forall v :: v in b ==> Rooted(b[v])
  }

  /** `substitute`: type variables replaced, each shape rebuilt through its constructor. */
  function Substitute(t: ExprType, b: Bindings): (r: ExprType)
    requires Rooted(t) && RootedBindings(b)
    ensures Rooted(r)
    decreases t
  {
    match t
    case Var(v) => if v in b then b[v] else t
    case List(e) =>
      SettledRooted(e);
      MakeList(Substitute(e, b))
    case Unresolved(c) =>
      SettledRooted(c);
      MakeUnresolved(Substitute(c, b))
    case Union(ms) =>
      MembersRooted(ms);
      assert forall i :: 0 <= i < |ms| ==> Rooted(Substitute(ms[i], b));
      MakeUnion(seq(|ms|, i requires 0 <= i < |ms| => Substitute(ms[i], b)))
    case _ => t
  }

  lemma SettledRooted(t: ExprType)
    requires Settled(t)
    ensures Rooted(t)
  {}

  lemma MembersRooted(ms: seq<ExprType>)
    requires Settled(Union(ms))
    ensures AllRooted(ms)
  {
    forall i | 0 <= i < |ms| ensures Rooted(ms[i]) {
      assert Settled(ms[i]);
    }
  }

  ghost function SubstituteAll(ms: seq<ExprType>, b: Bindings): (r: seq<ExprType>)
    requires AllRooted(ms) && RootedBindings(b)
    ensures |r| == |ms| && AllRooted(r)
  {
    seq(|ms|, i requires 0 <= i < |ms| => Substitute(ms[i], b))
  }

  lemma SubstituteUnion(ms: seq<ExprType>, b: Bindings)
    requires Settled(Union(ms)) && RootedBindings(b)
    ensures AllRooted(ms) && Substitute(Union(ms), b) == MakeUnion(SubstituteAll(ms, b))
  {
    MembersRooted(ms);
    assert SubstituteAll(ms, b) == seq(|ms|, i requires 0 <= i < |ms| => Substitute(ms[i], b));
  }

  /** Substitution keeps types normalized: `unresolved` stays at the root, unions stay flat. */
  lemma {:induction false} SubstituteNormal(t: ExprType, b: Bindings)
    requires Normal(t) && NormalBindings(b)
    ensures Rooted(t) && RootedBindings(b) && Normal(Substitute(t, b))
    decreases t
  {
    NormalRooted(t);
    forall v | v in b ensures Rooted(b[v]) { NormalRooted(b[v]); }
    match t
    case List(e) => SubstituteNormal(e, b);
    case Unresolved(c) => SubstituteNormal(c, b);
    case Union(ms) =>
      SubstituteUnion(ms, b);
      var parts := SubstituteAll(ms, b);
      forall i | 0 <= i < |parts| ensures Normal(parts[i]) {
        SubstituteNormal(ms[i], b);
      }
      UnionHolds(parts);
    case _ =>
  }

  // ---- The constructors on normalized types ----

  function UnionOf(ts: seq<ExprType>): (t: ExprType)
    requires AllNormal(ts)
    ensures Normal(t)
    ensures !HasUnresolved(ts) ==> !t.Unresolved?
  {
    UnionHolds(ts);
    MakeUnion(ts)
  }

  function SubstituteIn(t: ExprType, b: Bindings): (r: ExprType)
    requires Normal(t) && NormalBindings(b)
    ensures Normal(r)
  {
    SubstituteNormal(t, b);
    Substitute(t, b)
  }
}
