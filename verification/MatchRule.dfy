/** When one argument type matches a parameter, and when two bindings reconcile, said without the
    algorithms: instances of a pattern, and common widenings. */
module MatchRules {
  import opened Wrappers
  import opened ExprTypes
  import opened UnionLaws
  import opened Unification

  // ---- Instances of a parameter ----

  /** With its variables read as `b` says, the parameter takes `t`. */
  ghost predicate Takes(p: ExprType, t: ExprType, b: Bindings)
    decreases p
  {
    match p
    case Var(v) => v in b && b[v] == t
    case Any => true
    case Unresolved(c) => Takes(c, t, b)
    case Union(ms) => exists i :: 0 <= i < |ms| && Takes(ms[i], t, b)
    case List(e) => t.List? && Takes(e, t.elem, b)
    case _ => p == t
  }

  /** No union in it. */
  ghost predicate OneWay(p: ExprType) {
    match p
    case Union(_) => false
    case List(e) => OneWay(e)
    case Unresolved(c) => OneWay(c)
    case _ => true
  }

  lemma {:induction false} MemberMatches(p: ExprType, t: ExprType, k: nat, i: nat)
    requires p.Union? && !t.Union? && k <= i < |p.members| && MatchType(p.members[i], t).Some?
    ensures FirstMember(p, t, k).Some?
    decreases i - k
  {
    if k < i { MemberMatches(p, t, k + 1, i); }
  }

  /** Whatever reading makes the parameter take the argument, it matches; and without unions what it binds is part
      of that reading. */
  lemma {:induction false} TakenMatches(p: ExprType, t: ExprType, b: Bindings)
    requires Normal(p) && Ground(t) && Takes(p, t, b)
    ensures MatchType(p, t).Some?
    ensures OneWay(p) ==> forall v :: v in MatchType(p, t).value ==> v in b && b[v] == MatchType(p, t).value[v]
    decreases p
  {
    match p
    case Unresolved(c) => TakenMatches(c, t, b);
    case Union(ms) =>
      var i :| 0 <= i < |ms| && Takes(ms[i], t, b);
      TakenMatches(ms[i], t, b);
      MemberMatches(p, t, 0, i);
    case List(e) => TakenMatches(e, t.elem, b);
    case _ =>
  }

  /** What a match binds is such a reading. */
  lemma {:induction false} MatchTakes(p: ExprType, t: ExprType)
    requires Normal(p) && Ground(t) && MatchType(p, t).Some?
    ensures Takes(p, t, MatchType(p, t).value)
    decreases p
  {
    match p
    case Unresolved(c) => MatchTakes(c, t);
    case Union(ms) =>
      var i := FirstMemberFound(p, t, 0);
      MatchTakes(ms[i], t);
    case List(e) => MatchTakes(e, t.elem);
    case _ =>
  }

  /** `b` is a reading that makes the parameter take the argument. */
  ghost predicate IsReading(b: Bindings, p: ExprType, t: ExprType) {
    Takes(p, t, b)
  }

  /** An argument matches exactly when some reading of the variables makes the parameter take it. */
  lemma MatchExactly(p: ExprType, t: ExprType)
    requires Normal(p) && Ground(t)
    ensures MatchType(p, t).Some? <==> exists b :: IsReading(b, p, t)
  {
    if MatchType(p, t).Some? {
      MatchTakes(p, t);
      assert IsReading(MatchType(p, t).value, p, t);
    }
    if b :| IsReading(b, p, t) { TakenMatches(p, t, b); }
  }

  // ---- Arguments that are unions ----

  ghost predicate MatchesMember(p: ExprType, t: ExprType, k: nat)
    requires t.Union?
  {
    k < |t.members| && MatchType(p, t.members[k]).Some?
  }

  lemma {:induction false} TargetFound(p: ExprType, t: ExprType, k: nat)
    requires t.Union? && k <= |t.members|
    ensures FirstTarget(p, t, k).Some? <==> exists j: nat :: k <= j && MatchesMember(p, t, j)
    decreases |t.members| - k
  {
    if k < |t.members| {
      TargetFound(p, t, k + 1);
      assert MatchesMember(p, t, k) <==> MatchType(p, t.members[k]).Some?;
    }
  }

  ghost predicate MemberMatchesSome(p: ExprType, t: ExprType, i: nat)
    requires p.Union? && t.Union?
  {
    i < |p.members| && FirstTarget(p.members[i], t, 0).Some?
  }

  lemma {:induction false} MemberFound(p: ExprType, t: ExprType, k: nat)
    requires p.Union? && t.Union? && k <= |p.members|
    ensures FirstMember(p, t, k).Some? <==> exists i: nat :: k <= i && MemberMatchesSome(p, t, i)
    decreases |p.members| - k
  {
    if k < |p.members| {
      MemberFound(p, t, k + 1);
      assert MemberMatchesSome(p, t, k) <==> FirstTarget(p.members[k], t, 0).Some?;
    }
  }

  /** A union argument matches when one of its members matches, or for a union parameter one of the parameter's
      members. */
  lemma UnionMatches(p: ExprType, t: ExprType)
    requires t.Union? && !p.Var? && !p.Any? && !p.Unresolved?
    ensures !p.Union? ==> (MatchType(p, t).Some? <==> exists k: nat :: MatchesMember(p, t, k))
    ensures p.Union? ==>
              (MatchType(p, t).Some? <==>
               exists i: nat, k: nat :: i < |p.members| && MatchesMember(p.members[i], t, k))
  {
    if p.Union? {
      MemberFound(p, t, 0);
      if i: nat, k: nat :| i < |p.members| && MatchesMember(p.members[i], t, k) {
        TargetFound(p.members[i], t, 0);
        assert MemberMatchesSome(p, t, i);
      }
      if i: nat :| MemberMatchesSome(p, t, i) {
        TargetFound(p.members[i], t, 0);
      }
    } else {
      TargetFound(p, t, 0);
    }
  }

  // ---- The empty list ----

  ghost predicate AllNull(b: Bindings) {
    forall v :: v in b ==> b[v] == NullType
  }

  /** What one more parameter adds. */
  ghost function Added(done: Pair, sub: Bindings, weakly: bool): Option<Pair> {
    if weakly then if Agree(done.weak, sub) then Some(done.(weak := Merged(done.weak, sub))) else None
    else if Agree(done.strong, sub) then Some(done.(strong := Merged(done.strong, sub))) else None
  }

  lemma ParamsStep(ps: seq<ExprType>, ts: seq<ExprType>, p: ExprType, t: ExprType)
    requires |ps| == |ts|
    ensures MatchParams(ps + [p], ts + [t]) ==
            if MatchParams(ps, ts).None? || MatchType(p, t).None? then None
            else Added(MatchParams(ps, ts).value, MatchType(p, t).value, IsWeak(p, t))
  {
    var qs, us := ps + [p], ts + [t];
    assert qs[..|ps|] == ps && us[..|ts|] == ts;
  }

  lemma WeakMatch(p: ExprType, t: ExprType)
    requires IsWeak(p, t)
    ensures MatchType(p, t) == Some(map[p.elem.v := NullType])
  {}

  lemma NullMerged(weak: Bindings, v: TypeVar)
    requires AllNull(weak)
    ensures Agree(weak, map[v := NullType]) && AllNull(Merged(weak, map[v := NullType]))
    ensures Merged(weak, map[v := NullType]).Keys == weak.Keys + {v}
  {}

  lemma {:induction false} WeakNull(ps: seq<ExprType>, ts: seq<ExprType>)
    requires |ps| == |ts| && MatchParams(ps, ts).Some?
    ensures AllNull(MatchParams(ps, ts).value.weak)
  {
    if ps != [] {
      var n := |ps| - 1;
      assert ps == ps[..n] + [ps[n]] && ts == ts[..n] + [ts[n]];
      ParamsStep(ps[..n], ts[..n], ps[n], ts[n]);
      WeakNull(ps[..n], ts[..n]);
      if IsWeak(ps[n], ts[n]) {
        WeakMatch(ps[n], ts[n]);
        NullMerged(MatchParams(ps[..n], ts[..n]).value.weak, ps[n].elem.v);
      }
    }
  }

  lemma AddedIs(done: Pair, sub: Bindings, weakly: bool)
    requires weakly ==> Agree(done.weak, sub)
    ensures Added(done, sub, weakly).Some? <==> weakly || Agree(done.strong, sub)
    ensures Added(done, sub, weakly).Some? ==>
              && Added(done, sub, weakly).value.strong == (if weakly then done.strong else Merged(done.strong, sub))
              && Added(done, sub, weakly).value.weak == (if weakly then Merged(done.weak, sub) else done.weak)
  {}

  /** One more parameter: what decides is the strong bindings alone. */
  lemma OneMore(ps: seq<ExprType>, ts: seq<ExprType>, p: ExprType, t: ExprType)
    requires |ps| == |ts|
    ensures var before, after := MatchParams(ps, ts), MatchParams(ps + [p], ts + [t]);
            && (after.Some? <==> before.Some? && MatchType(p, t).Some?
                                 && (IsWeak(p, t) || Agree(before.value.strong, MatchType(p, t).value)))
            && (after.Some? ==>
                  && after.value.strong == (if IsWeak(p, t) then before.value.strong
                                            else Merged(before.value.strong, MatchType(p, t).value))
                  && after.value.weak.Keys == before.value.weak.Keys + if IsWeak(p, t) then {p.elem.v} else {})
  {
    ParamsStep(ps, ts, p, t);
    if MatchParams(ps, ts).Some? && MatchType(p, t).Some? {
      var done, sub := MatchParams(ps, ts).value, MatchType(p, t).value;
      if IsWeak(p, t) {
        WeakMatch(p, t);
        WeakNull(ps, ts);
        NullMerged(done.weak, p.elem.v);
      }
      AddedIs(done, sub, IsWeak(p, t));
    }
  }

  lemma PushedMiddle(a: seq<ExprType>, x: ExprType, b: seq<ExprType>)
    requires b != []
    ensures a + [x] + b == (a + [x] + b[..|b| - 1]) + [b[|b| - 1]]
    ensures a + b == (a + b[..|b| - 1]) + [b[|b| - 1]]
  {
    assert b == b[..|b| - 1] + [b[|b| - 1]];
  }

  /** An empty list given for a `list[T]` parameter, wherever it stands, decides neither whether the call matches
      nor what anything else binds a variable to. */
  lemma {:induction false} EmptyListYields(a: seq<ExprType>, c: seq<ExprType>, v: TypeVar, b: seq<ExprType>,
                                           d: seq<ExprType>)
    requires |a| == |c| && |b| == |d|
    ensures var whole := MatchParams(a + [List(Var(v))] + b, c + [List(NullType)] + d);
            var without := MatchParams(a + b, c + d);
            (whole.Some? <==> without.Some?) && (whole.Some? ==> whole.value.strong == without.value.strong)
    decreases |b|
  {
    var p, t := List(Var(v)), List(NullType);
    if b == [] {
      assert a + [p] + b == a + [p] && c + [t] + d == c + [t] && a + b == a && c + d == c;
      OneMore(a, c, p, t);
    } else {
      var n := |b| - 1;
      PushedMiddle(a, p, b);
      PushedMiddle(c, t, d);
      EmptyListYields(a, c, v, b[..n], d[..n]);
      OneMore(a + [p] + b[..n], c + [t] + d[..n], b[n], d[n]);
      OneMore(a + b[..n], c + d[..n], b[n], d[n]);
    }
  }

  lemma {:induction false} WeakKept(a: seq<ExprType>, c: seq<ExprType>, v: TypeVar, b: seq<ExprType>, d: seq<ExprType>)
    requires |a| == |c| && |b| == |d| && MatchParams(a + b, c + d).Some?
    ensures var whole := MatchParams(a + [List(Var(v))] + b, c + [List(NullType)] + d);
            whole.Some? && whole.value.weak.Keys == MatchParams(a + b, c + d).value.weak.Keys + {v}
    decreases |b|
  {
    EmptyListYields(a, c, v, b, d);
    var p, t := List(Var(v)), List(NullType);
    if b == [] {
      assert a + [p] + b == a + [p] && c + [t] + d == c + [t] && a + b == a && c + d == c;
      OneMore(a, c, p, t);
    } else {
      var n := |b| - 1;
      PushedMiddle(a, p, b);
      PushedMiddle(c, t, d);
      OneMore(a + b[..n], c + d[..n], b[n], d[n]);
      OneMore(a + [p] + b[..n], c + [t] + d[..n], b[n], d[n]);
      WeakKept(a, c, v, b[..n], d[..n]);
    }
  }

  lemma SameOutcome(whole: Pair, without: Pair, v: TypeVar)
    requires whole.strong == without.strong && whole.weak.Keys == without.weak.Keys + {v}
    requires AllNull(whole.weak) && AllNull(without.weak)
    ensures var r, q := whole.weak + whole.strong, without.weak + without.strong;
            && v in r && (v !in q ==> r[v] == NullType) && forall u :: u in q ==> u in r && r[u] == q[u]
  {}

  /** So the call binds what it binds without it, and the variable, bound by nothing else, to `nulltype`. */
  lemma EmptyListMatches(a: seq<ExprType>, c: seq<ExprType>, v: TypeVar, b: seq<ExprType>, d: seq<ExprType>)
    requires |a| == |c| && |b| == |d| && MatchCall(a + b, c + d).Some?
    ensures var r := MatchCall(a + [List(Var(v))] + b, c + [List(NullType)] + d);
            var q := MatchCall(a + b, c + d).value;
            && r.Some? && v in r.value && (v !in q ==> r.value[v] == NullType)
            && forall u :: u in q ==> u in r.value && r.value[u] == q[u]
  {
    var ps, ts := a + [List(Var(v))] + b, c + [List(NullType)] + d;
    EmptyListYields(a, c, v, b, d);
    WeakKept(a, c, v, b, d);
    WeakNull(ps, ts);
    WeakNull(a + b, c + d);
    SameOutcome(MatchParams(ps, ts).value, MatchParams(a + b, c + d).value, v);
  }

  // ---- Common widenings ----

  ghost predicate WidensBoth(a: ExprType, b: ExprType, c: ExprType, inList: bool) {
    Ground(c) && Widens(a, c, inList, false) && Widens(b, c, inList, false)
  }

  /** A range in one, where the other has the empty list's type. */
  ghost predicate RangeMeetsEmpty(a: ExprType, b: ExprType) {
    || (a.RangeExpr? && b == List(NullType))
    || (a == List(NullType) && b.RangeExpr?)
    || (a.List? && b.List? && RangeMeetsEmpty(a.elem, b.elem))
  }

  lemma {:induction false} UnifiedApart(a: ExprType, b: ExprType, inList: bool)
    requires Ground(a) && Ground(b) && Unify(a, b, inList).Some?
    ensures !RangeMeetsEmpty(a, b)
    decreases a
  {
    if a.List? && b.List? {
      if a == b { SelfApart(a); } else { UnifiedApart(a.elem, b.elem, true); }
    }
  }

  lemma {:induction false} SelfApart(a: ExprType)
    ensures !RangeMeetsEmpty(a, a)
  {
    if a.List? { SelfApart(a.elem); }
  }

  lemma {:induction false} WidenedUnify(a: ExprType, b: ExprType, c: ExprType, inList: bool)
    requires Ground(a) && Ground(b) && WidensBoth(a, b, c, inList) && !RangeMeetsEmpty(a, b)
    ensures Unify(a, b, inList).Some?
    decreases a
  {
    if a.List? && b.List? && a != b {
      WidensElements(a, c, inList, false);
      WidensElements(b, c, inList, false);
      WidenedUnify(a.elem, b.elem, c.elem, true);
    } else {
      ScalarsUnify(a, b, c, inList);
    }
  }

  lemma ScalarsUnify(a: ExprType, b: ExprType, c: ExprType, inList: bool)
    requires Ground(a) && Ground(b) && WidensBoth(a, b, c, inList) && !RangeMeetsEmpty(a, b)
    requires !(a.List? && b.List? && a != b)
    ensures Unify(a, b, inList).Some?
  {}

  /** Two types reconcile exactly when both widen to some type, except that a range is not reconciled with the
      empty list. */
  lemma UnifyExactly(a: ExprType, b: ExprType, inList: bool)
    requires Ground(a) && Ground(b)
    ensures Unify(a, b, inList).Some? <==> !RangeMeetsEmpty(a, b) && exists c :: WidensBoth(a, b, c, inList)
  {
    if Unify(a, b, inList).Some? {
      UnifiedApart(a, b, inList);
      UnifyWidens(a, b, inList, false);
      assert WidensBoth(a, b, Unify(a, b, inList).value, inList);
    }
    if c :| WidensBoth(a, b, c, inList) {
      if !RangeMeetsEmpty(a, b) { WidenedUnify(a, b, c, inList); }
    }
  }

  /** The exception is real: a list of ints is a widening of both. */
  lemma RangeAgainstEmpty()
    ensures Unify(RangeExpr, List(NullType), false).None? && WidensBoth(RangeExpr, List(NullType), List(Int), false)
  {}
}
