/** The directional `satisfies` relation between types. */
module Satisfaction {
  import opened ExprTypes
  import opened UnionLaws

  predicate IsSymbolic(t: ExprType)
    decreases t
  {
    match t
    case Var(_) => true
    case List(e) => IsSymbolic(e)
    case Unresolved(c) => IsSymbolic(c)
    case Union(ms) => exists i :: 0 <= i < |ms| && IsSymbolic(ms[i])
    case _ => false
  }

  predicate IsConcrete(t: ExprType)
    decreases t
  {
    match t
    case Any => false
    case Union(_) => false
    case Unresolved(_) => false
    case Var(_) => false
    case List(e) => IsConcrete(e)
    case _ => true
  }

  /** `denotes_runtime_values`: some value can have this type. */
  predicate Denotes(t: ExprType)
    decreases t
  {
    match t
    case Var(_) => false
    case NoReturn => false
    case Unresolved(_) => false
    case Union(ms) => exists i :: 0 <= i < |ms| && Denotes(ms[i])
    case List(e) => Denotes(e)
    case _ => true
  }

  predicate Satisfies(s: ExprType, t: ExprType)
    decreases s, t
  {
    Denotes(t) &&
    if t.Any? then true
    else if s.Unresolved? then Satisfies(s.constraint, t)
    else if s.Union? then forall i :: 0 <= i < |s.members| ==> Satisfies(s.members[i], t)
    else if t.Union? then exists i :: 0 <= i < |t.members| && Satisfies(s, t.members[i])
    else if s.Any? then false
    else if s.List? && t.List? then Satisfies(s.elem, t.elem)
    else !IsSymbolic(s) && s == t
  }

  /** `satisfies` is transitive, on all types. */
  lemma {:induction false} SatisfiesTransitive(a: ExprType, b: ExprType, c: ExprType)
    requires Satisfies(a, b) && Satisfies(b, c)
    ensures Satisfies(a, c)
    decreases a, b, c
  {
    if !c.Any? {
      if a.Unresolved? {
        if !b.Any? {
          SatisfiesTransitive(a.constraint, b, c);
        } else {
          AnyFits(a, b, c);
        }
      } else if b.Any? {
        AnyFits(a, b, c);
      } else if a.Union? {
        forall i | 0 <= i < |a.members| ensures Satisfies(a.members[i], c) {
          SatisfiesTransitive(a.members[i], b, c);
        }
      } else if b.Union? {
        var i :| 0 <= i < |b.members| && Satisfies(a, b.members[i]);
        assert Satisfies(b.members[i], c);
        SatisfiesTransitive(a, b.members[i], c);
      } else if c.Union? {
        var i :| 0 <= i < |c.members| && Satisfies(b, c.members[i]);
        SatisfiesTransitive(a, b, c.members[i]);
      } else if a.List? && b.List? && c.List? {
        SatisfiesTransitive(a.elem, b.elem, c.elem);
      }
    }
  }

  /** Only a target that admits `any` is satisfied by it, and that target admits everything. */
  lemma {:induction false} AnyFits(a: ExprType, b: ExprType, c: ExprType)
    requires b.Any? && Satisfies(b, c)
    ensures Satisfies(a, c)
    decreases a, c
  {
    if !c.Any? {
      var i :| 0 <= i < |c.members| && Satisfies(b, c.members[i]);
      if a.Unresolved? {
        AnyFits(a.constraint, b, c);
      } else if a.Union? {
        forall k | 0 <= k < |a.members| ensures Satisfies(a.members[k], c) {
          AnyFits(a.members[k], b, c);
        }
      } else {
        AnyFits(a, b, c.members[i]);
      }
    }
  }

  /** Every part of the type denotes values, so no union member is unusable. */
  ghost predicate Inhabited(t: ExprType)
    decreases t
  {
    match t
    case Var(_) => false
    case NoReturn => false
    case Unresolved(_) => false
    case Union(ms) => ms != [] && forall i :: 0 <= i < |ms| ==> Inhabited(ms[i])
    case List(e) => Inhabited(e)
    case _ => true
  }

  lemma {:induction false} InhabitedDenotes(t: ExprType)
    requires Inhabited(t)
    ensures Denotes(t) && !IsSymbolic(t)
    decreases t
  {
    match t
    case List(e) => InhabitedDenotes(e);
    case Union(ms) =>
      forall i | 0 <= i < |ms| ensures Denotes(ms[i]) && !IsSymbolic(ms[i]) {
        InhabitedDenotes(ms[i]);
      }
      assert Denotes(ms[0]);
    case _ =>
  }

  lemma {:induction false} SatisfiesReflexive(t: ExprType)
    requires Inhabited(t)
    ensures Satisfies(t, t)
    decreases t
  {
    InhabitedDenotes(t);
    match t
    case List(e) => SatisfiesReflexive(e);
    case Union(ms) =>
      forall i | 0 <= i < |ms| ensures Satisfies(ms[i], t) {
        SatisfiesReflexive(ms[i]);
        UnionTarget(ms[i], ms, i);
      }
    case _ =>
  }

  /** Satisfying a member satisfies the union. */
  lemma {:induction false} UnionTarget(s: ExprType, ms: seq<ExprType>, i: nat)
    requires i < |ms| && Satisfies(s, ms[i])
    ensures Satisfies(s, Union(ms))
    decreases s
  {
    if s.Unresolved? && !ms[i].Any? {
      UnionTarget(s.constraint, ms, i);
    } else if s.Unresolved? {
      AnyMember(s, ms, i);
    } else if s.Union? {
      forall k | 0 <= k < |s.members| ensures Satisfies(s.members[k], Union(ms)) {
        if ms[i].Any? { AnyMember(s.members[k], ms, i); } else { UnionTarget(s.members[k], ms, i); }
      }
    }
  }

  lemma AnyMember(s: ExprType, ms: seq<ExprType>, i: nat)
    requires i < |ms| && ms[i].Any?
    ensures Satisfies(s, Union(ms))
  {
    assert Satisfies(Any, ms[i]);
    assert Satisfies(Any, Union(ms));
    AnyFits(s, Any, Union(ms));
  }

  ghost predicate FitsSome(x: ExprType, ms: seq<ExprType>) {
    exists j :: 0 <= j < |ms| && Satisfies(x, ms[j])
  }

  /** A member that is a special case of another one. */
  ghost predicate FitsOther(ms: seq<ExprType>, i: nat)
    requires i < |ms|
  {
    exists j :: 0 <= j < |ms| && j != i && Satisfies(ms[i], ms[j])
  }

  /** Usable throughout, except that a union may have members that are special cases of others. */
  ghost predicate SelfFit(t: ExprType)
    decreases t
  {
    match t
    case Var(_) => false
    case NoReturn => false
    case Unresolved(_) => false
    case List(e) => SelfFit(e)
    case Union(ms) => ms != [] && forall i :: 0 <= i < |ms| ==> SelfFit(ms[i]) || FitsOther(ms, i)
    case _ => true
  }

  lemma SatisfiedDenotes(s: ExprType, t: ExprType)
    requires Satisfies(s, t)
    ensures Denotes(t)
  {}

  lemma AtomInUnion(x: ExprType, ms: seq<ExprType>)
    requires IsAtom(x)
    ensures Satisfies(x, Union(ms)) <==> FitsSome(x, ms)
  {
    if j :| 0 <= j < |ms| && Satisfies(x, ms[j]) {
      SatisfiedDenotes(x, ms[j]);
    }
  }

  lemma AllOfUnion(ms: seq<ExprType>, c: ExprType)
    requires ms != [] && !c.Any?
    ensures Satisfies(Union(ms), c) <==> forall i :: 0 <= i < |ms| ==> Satisfies(ms[i], c)
  {
    if Satisfies(ms[0], c) {
      SatisfiedDenotes(ms[0], c);
    }
  }

  lemma UnionSelf(ms: seq<ExprType>)
    requires ms != [] && forall i :: 0 <= i < |ms| ==> IsAtom(ms[i])
    ensures Satisfies(Union(ms), Union(ms)) <==> forall i :: 0 <= i < |ms| ==> FitsSome(ms[i], ms)
  {
    var u := Union(ms);
    AllOfUnion(ms, u);
    forall i | 0 <= i < |ms| ensures Satisfies(ms[i], u) <==> FitsSome(ms[i], ms) {
      AtomInUnion(ms[i], ms);
    }
  }

  lemma MemberSelf(ms: seq<ExprType>, i: nat)
    requires i < |ms| && (Satisfies(ms[i], ms[i]) <==> SelfFit(ms[i]))
    ensures FitsSome(ms[i], ms) <==> SelfFit(ms[i]) || FitsOther(ms, i)
  {
    if FitsSome(ms[i], ms) {
      var j :| 0 <= j < |ms| && Satisfies(ms[i], ms[j]);
    }
  }

  lemma ListSelf(e: ExprType)
    ensures Satisfies(List(e), List(e)) <==> Satisfies(e, e)
  {
    if Satisfies(e, e) { SatisfiedDenotes(e, e); }
  }

  /** Exactly these types satisfy themselves. */
  lemma {:induction false} SatisfiesSelf(t: ExprType)
    requires Normal(t)
    ensures Satisfies(t, t) <==> SelfFit(t)
    decreases t
  {
    if t.List? {
      SatisfiesSelf(t.elem);
      ListSelf(t.elem);
    } else if t.Union? {
      forall i | 0 <= i < |t.members|
        ensures FitsSome(t.members[i], t.members) <==> SelfFit(t.members[i]) || FitsOther(t.members, i)
      {
        assert Normal(t.members[i]);
        SatisfiesSelf(t.members[i]);
        MemberSelf(t.members, i);
      }
      UnionSelf(t.members);
    }
  }

  /** No `any` inside. */
  ghost predicate AnyFree(t: ExprType)
    decreases t
  {
    match t
    case Any => false
    case List(e) => AnyFree(e)
    case Union(ms) => forall i :: 0 <= i < |ms| ==> AnyFree(ms[i])
    case Unresolved(c) => AnyFree(c)
    case _ => true
  }

  /** Only a type usable throughout satisfies a target without `any`. */
  lemma {:induction false} SourceInhabited(s: ExprType, t: ExprType)
    requires Normal(s) && !s.Unresolved? && AnyFree(t) && Satisfies(s, t)
    ensures Inhabited(s)
    decreases s, t
  {
    if s.Union? {
      forall i | 0 <= i < |s.members| ensures Inhabited(s.members[i]) {
        assert IsAtom(s.members[i]);
        SourceInhabited(s.members[i], t);
      }
    } else if t.Union? {
      var i :| 0 <= i < |t.members| && Satisfies(s, t.members[i]);
      SourceInhabited(s, t.members[i]);
    } else if s.List? {
      SourceInhabited(s.elem, t.elem);
    }
  }

  /** Without `any` there are no special cases: exactly the types usable throughout satisfy themselves. */
  lemma SatisfiesSelfPlain(t: ExprType)
    requires Normal(t) && AnyFree(t)
    ensures Satisfies(t, t) <==> Inhabited(t)
  {
    if Inhabited(t) { SatisfiesReflexive(t); }
    if Satisfies(t, t) { SourceInhabited(t, t); }
  }

  /** A union with an unusable member denotes values without satisfying itself. */
  lemma PartlyUnusable()
    ensures var t := Union([Int, List(NoReturn)]);
            Normal(t) && Denotes(t) && !IsSymbolic(t) && !Satisfies(t, t)
  {
    var t := Union([Int, List(NoReturn)]);
    assert Show(t.members[0])[0] == 'i' && Show(t.members[1])[0] == 'l';
    assert !Satisfies(t.members[1], t.members[0]);
    assert !Satisfies(t.members[1], t.members[1]);
    assert !Satisfies(t.members[1], t);
  }

  // ---- Unions as sources ----

  /** `noreturn`, resolved or not: the type without atoms. */
  predicate IsEmpty(t: ExprType) {
    t.NoReturn? || t == Unresolved(NoReturn)
  }

  /** A normalized source satisfies a target exactly when all its atoms do; without atoms it satisfies
      `any` alone. */
  lemma SatisfiesAtoms(t: ExprType, c: ExprType)
    requires Normal(t) && Normal(c)
    ensures Satisfies(t, c) <==> if IsEmpty(t) then c.Any? else AllSatisfy(Atoms(t), c)
  {
    if IsEmpty(t) {
      EmptyTarget(c);
    } else if t.Unresolved? {
      SatisfiesAtoms(t.constraint, c);
    } else if t.Union? {
      MembersSatisfy(t.members, c);
    } else {
      assert t in Atoms(t);
    }
  }

  lemma EmptyTarget(c: ExprType)
    requires Normal(c)
    ensures Satisfies(NoReturn, c) <==> c.Any?
    ensures Satisfies(Unresolved(NoReturn), c) <==> c.Any?
  {
    if c.Union? {
      forall i | 0 <= i < |c.members| ensures !Satisfies(NoReturn, c.members[i]) {
        assert IsAtom(c.members[i]);
      }
    }
  }

  lemma MembersSatisfy(ms: seq<ExprType>, c: ExprType)
    requires ms != []
    ensures Satisfies(Union(ms), c) <==> AllSatisfy(Atoms(Union(ms)), c)
  {
    var t := Union(ms);
    if Satisfies(t, c) {
      forall x | x in ms ensures Satisfies(x, c) {
        var i :| 0 <= i < |ms| && ms[i] == x;
        if c.Any? {} else { assert Satisfies(ms[i], c); }
      }
    }
    if AllSatisfy(Atoms(t), c) {
      forall i | 0 <= i < |ms| ensures Satisfies(ms[i], c) {
        var x := ms[i];
        assert x in Atoms(t);
      }
      SatisfiedDenotes(ms[0], c);
    }
  }

  lemma AnyTarget(c: ExprType)
    requires Normal(c)
    ensures Satisfies(Any, c) <==> c.Any?
  {
    if c.Union? {
      forall i | 0 <= i < |c.members| ensures !Satisfies(Any, c.members[i]) {
        assert IsAtom(c.members[i]);
      }
    }
  }

  /** The atoms of a two-member union. */
  lemma PairUnion(a: ExprType, b: ExprType)
    requires Normal(a) && Normal(b)
    ensures Rooted(a) && Rooted(b) && Normal(MakeUnion([a, b]))
    ensures Atoms(MakeUnion([a, b])) == if Any in Atoms(a) + Atoms(b) then {Any} else Atoms(a) + Atoms(b)
  {
    var ts := [a, b];
    UnionHolds(ts);
    assert Rooted(ts[0]) && Rooted(ts[1]);
    PairAtoms(a, b, Atoms(MakeUnion(ts)));
  }

  lemma PairAtoms(a: ExprType, b: ExprType, atoms: set<ExprType>)
    requires forall x :: x in atoms <==> Holds([a, b], x)
    ensures atoms == if Any in Atoms(a) + Atoms(b) then {Any} else Atoms(a) + Atoms(b)
  {
    forall x ensures HasAtom([a, b], x) <==> x in Atoms(a) + Atoms(b) { PairAtom(a, b, x); }
  }

  ghost predicate AllSatisfy(s: set<ExprType>, c: ExprType) {
    forall x :: x in s ==> Satisfies(x, c)
  }

  lemma AbsorbedSatisfy(s: set<ExprType>, c: ExprType)
    requires Normal(c)
    ensures AllSatisfy(if Any in s then {Any} else s, c) <==> AllSatisfy(s, c)
  {
    AnyTarget(c);
  }

  lemma SetsSatisfy(u: set<ExprType>, a: set<ExprType>, b: set<ExprType>, c: ExprType)
    requires Normal(c) && u == if Any in a + b then {Any} else a + b
    ensures AllSatisfy(u, c) <==> AllSatisfy(a, c) && AllSatisfy(b, c)
  {
    AbsorbedSatisfy(a + b, c);
  }

  /** All atoms of `t` satisfy `c`; nothing is asked of a type without atoms. */
  ghost predicate Contributes(t: ExprType, c: ExprType) {
    IsEmpty(t) || Satisfies(t, c)
  }

  lemma ContributesAtoms(t: ExprType, c: ExprType)
    requires Normal(t) && Normal(c)
    ensures Contributes(t, c) <==> AllSatisfy(Atoms(t), c)
  {
    AtomExists(t);
    SatisfiesAtoms(t, c);
  }

  lemma UnionSourceOf(u: ExprType, a: ExprType, b: ExprType, c: ExprType)
    requires Normal(u) && Normal(a) && Normal(b) && Normal(c)
    requires Atoms(u) == if Any in Atoms(a) + Atoms(b) then {Any} else Atoms(a) + Atoms(b)
    ensures Contributes(u, c) <==> Contributes(a, c) && Contributes(b, c)
  {
    ContributesAtoms(u, c);
    ContributesAtoms(a, c);
    ContributesAtoms(b, c);
    SetsSatisfy(Atoms(u), Atoms(a), Atoms(b), c);
  }

  /** The union of A and B satisfies C exactly when both A and B do, where `noreturn` adds nothing to a
      union; a union of nothing else satisfies `any` alone. */
  lemma UnionSource(a: ExprType, b: ExprType, c: ExprType)
    requires Normal(a) && Normal(b) && Normal(c)
    ensures Rooted(a) && Rooted(b)
    ensures IsEmpty(a) && IsEmpty(b) ==> (Satisfies(MakeUnion([a, b]), c) <==> c.Any?)
    ensures !(IsEmpty(a) && IsEmpty(b)) ==>
            (Satisfies(MakeUnion([a, b]), c) <==> Contributes(a, c) && Contributes(b, c))
  {
    PairUnion(a, b);
    EmptyParts(MakeUnion([a, b]), a, b);
    if IsEmpty(a) && IsEmpty(b) {
      EmptySatisfies(MakeUnion([a, b]), c);
    } else {
      BuiltSource(MakeUnion([a, b]), a, b, c);
    }
  }

  lemma BuiltSource(u: ExprType, a: ExprType, b: ExprType, c: ExprType)
    requires Normal(u) && Normal(a) && Normal(b) && Normal(c) && !IsEmpty(u)
    requires Atoms(u) == if Any in Atoms(a) + Atoms(b) then {Any} else Atoms(a) + Atoms(b)
    ensures Satisfies(u, c) <==> Contributes(a, c) && Contributes(b, c)
  {
    UnionSourceOf(u, a, b, c);
    assert Contributes(u, c) <==> Satisfies(u, c);
  }

  lemma EmptySatisfies(t: ExprType, c: ExprType)
    requires Normal(c) && IsEmpty(t)
    ensures Satisfies(t, c) <==> c.Any?
  {
    EmptyTarget(c);
  }

  lemma EmptyParts(u: ExprType, a: ExprType, b: ExprType)
    requires Normal(u) && Normal(a) && Normal(b)
    requires Atoms(u) == if Any in Atoms(a) + Atoms(b) then {Any} else Atoms(a) + Atoms(b)
    ensures IsEmpty(u) <==> IsEmpty(a) && IsEmpty(b)
  {
    AtomExists(a);
    AtomExists(b);
    AtomExists(u);
  }

  lemma PairAtom(a: ExprType, b: ExprType, x: ExprType)
    ensures HasAtom([a, b], x) <==> x in Atoms(a) || x in Atoms(b)
  {
    NestedAtom(a, [b], x);
    NestedAtom(b, [], x);
    assert [a] + [b] == [a, b] && [b] + [] == [b];
  }

  lemma AtomExists(t: ExprType)
    requires Normal(t)
    ensures IsEmpty(t) <==> Atoms(t) == {}
  {
    if t.Unresolved? {
      AtomExists(t.constraint);
    } else if t.Union? {
      assert t.members[0] in Atoms(t);
    } else if !t.NoReturn? {
      assert t in Atoms(t);
    }
  }
}
