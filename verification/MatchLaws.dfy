/** Matching a call finds bindings whenever some exist, the least ones, in whatever order the
    parameters come; unless ranges are involved. */
module MatchLaws {
  import opened Wrappers
  import opened Sorting
  import opened ExprTypes
  import opened UnionLaws
  import opened Unification

  // ---- Reconciling is complete without ranges ----

  ghost predicate RangeFree(t: ExprType)
    decreases t
  {
    match t
    case RangeExpr => false
    case List(e) => RangeFree(e)
    case _ => true
  }

  ghost predicate RangeFreeBindings(b: Bindings) {
    forall v :: v in b ==> RangeFree(b[v])
  }

  /** Two types with a common widening reconcile. */
  lemma {:induction false} UnifyComplete(a: ExprType, b: ExprType, c: ExprType, inList: bool, chained: bool)
    requires Ground(a) && Ground(b) && Ground(c) && RangeFree(a) && RangeFree(b)
    requires Widens(a, c, inList, chained) && Widens(b, c, inList, chained)
    ensures Unify(a, b, inList).Some? && RangeFree(Unify(a, b, inList).value)
    decreases a
  {
    if a.List? && b.List? && a != b {
      WidensElements(a, c, inList, chained);
      WidensElements(b, c, inList, chained);
      UnifyComplete(a.elem, b.elem, c.elem, true, chained);
      UnifyWidens(a.elem, b.elem, true, chained);
      assert Unify(a, b, inList) == Some(List(Unify(a.elem, b.elem, true).value));
    } else {
      ScalarsComplete(a, b, c, inList, chained);
    }
  }

  lemma ScalarsComplete(a: ExprType, b: ExprType, c: ExprType, inList: bool, chained: bool)
    requires Ground(a) && Ground(b) && Ground(c) && RangeFree(a) && RangeFree(b)
    requires Widens(a, c, inList, chained) && Widens(b, c, inList, chained) && !(a.List? && b.List? && a != b)
    ensures Unify(a, b, inList).Some? && RangeFree(Unify(a, b, inList).value)
  {}

  lemma {:induction false} WidensAntisymmetric(a: ExprType, b: ExprType, inList: bool)
    requires Ground(a) && Ground(b) && Widens(a, b, inList, true) && Widens(b, a, inList, true)
    ensures a == b
    decreases a
  {
    if a != b && a.List? && b.List? {
      WidensAntisymmetric(a.elem, b.elem, true);
    }
  }

  lemma {:induction false} MatchRangeFree(p: ExprType, t: ExprType)
    requires Normal(p) && Ground(t) && RangeFree(t) && MatchType(p, t).Some?
    ensures RangeFreeBindings(MatchType(p, t).value)
    decreases p
  {
    if p.Unresolved? {
      MatchRangeFree(p.constraint, t);
    } else if p.Union? {
      var i := FirstMemberFound(p, t, 0);
      MatchRangeFree(p.members[i], t);
    } else if p.List? && t.List? {
      MatchRangeFree(p.elem, t.elem);
    }
  }

  // ---- Bindings are the least that suit ----

  lemma MergedLeast(target: Bindings, sub: Bindings, b: Bindings, chained: bool)
    requires GroundBindings(target) && GroundBindings(sub) && GroundBindings(b)
    requires Agree(target, sub) && Serves(b, target, chained) && Serves(b, sub, chained)
    ensures GroundBindings(Merged(target, sub)) && Serves(b, Merged(target, sub), chained)
  {
    MergedServes(target, sub);
    var m := Merged(target, sub);
    forall v | v in m ensures v in b && Widens(m[v], b[v], false, chained) {
      if v in target && v in sub {
        assert Joined(target, sub, v).Some?;
        UnifyLeast(target[v], sub[v], b[v], false, chained);
      }
    }
  }

  /** The argument matches its parameter, and what it binds widens to what `b` says. */
  ghost predicate SuitedBy(p: ExprType, t: ExprType, b: Bindings, chained: bool) {
    MatchType(p, t).Some? && (IsWeak(p, t) || Serves(b, MatchType(p, t).value, chained))
  }

  ghost predicate AllSuited(ps: seq<ExprType>, ts: seq<ExprType>, b: Bindings, chained: bool) {
    |ps| == |ts| && forall i :: 0 <= i < |ps| ==> SuitedBy(ps[i], ts[i], b, chained)
  }

  ghost predicate WeakVar(ps: seq<ExprType>, ts: seq<ExprType>, v: TypeVar)
    requires |ps| == |ts|
  {
    exists i :: 0 <= i < |ps| && IsWeak(ps[i], ts[i]) && ps[i].elem.v == v
  }

  /** The weak bindings are `nulltype` for the variables of empty-list arguments. */
  ghost predicate WeakAre(ps: seq<ExprType>, ts: seq<ExprType>, weak: Bindings)
    requires |ps| == |ts|
  {
    (forall v :: v in weak <==> WeakVar(ps, ts, v)) && forall v :: v in weak ==> weak[v] == NullType
  }

  /** Whatever bindings suit all parameters of a matched call, its own are at most those. */
  lemma {:induction false} ParamsLeast(ps: seq<ExprType>, ts: seq<ExprType>, b: Bindings, chained: bool)
    requires |ps| == |ts| && AllNormal(ps) && AllGround(ts) && GroundBindings(b)
    requires MatchParams(ps, ts).Some? && AllSuited(ps, ts, b, chained)
    ensures var done := MatchParams(ps, ts).value;
            GroundBindings(done.strong) && Serves(b, done.strong, chained) && WeakAre(ps, ts, done.weak)
  {
    if ps == [] {
    } else {
      var n := |ps| - 1;
      AllButLast(ps, ts, b, chained);
      ParamsLeast(ps[..n], ts[..n], b, chained);
      var done := MatchParams(ps[..n], ts[..n]).value;
      assert SuitedBy(ps[n], ts[n], b, chained);
      MatchGround(ps[n], ts[n]);
      var sub := MatchType(ps[n], ts[n]).value;
      if IsWeak(ps[n], ts[n]) {
        WeakNext(ps, ts, done.weak, sub);
      } else {
        MergedLeast(done.strong, sub, b, chained);
        WeakSame(ps, ts, done.weak);
      }
    }
  }

  lemma AllButLast(ps: seq<ExprType>, ts: seq<ExprType>, b: Bindings, chained: bool)
    requires ps != [] && AllNormal(ps) && AllGround(ts) && AllSuited(ps, ts, b, chained)
    ensures var n := |ps| - 1;
            AllNormal(ps[..n]) && AllGround(ts[..n]) && AllSuited(ps[..n], ts[..n], b, chained)
  {
    var n := |ps| - 1;
    forall i | 0 <= i < n ensures SuitedBy(ps[..n][i], ts[..n][i], b, chained) {
      assert SuitedBy(ps[i], ts[i], b, chained);
    }
  }

  lemma WeakVarNext(ps: seq<ExprType>, ts: seq<ExprType>, v: TypeVar)
    requires ps != [] && |ps| == |ts|
    ensures var n := |ps| - 1;
            WeakVar(ps, ts, v) <==> WeakVar(ps[..n], ts[..n], v) || (IsWeak(ps[n], ts[n]) && ps[n].elem.v == v)
  {
    var n := |ps| - 1;
    if WeakVar(ps[..n], ts[..n], v) {
      var i :| 0 <= i < n && IsWeak(ps[..n][i], ts[..n][i]) && ps[..n][i].elem.v == v;
      assert IsWeak(ps[i], ts[i]);
    }
    if WeakVar(ps, ts, v) {
      var i :| 0 <= i < |ps| && IsWeak(ps[i], ts[i]) && ps[i].elem.v == v;
      if i < n { assert IsWeak(ps[..n][i], ts[..n][i]); }
    }
  }

  lemma WeakNext(ps: seq<ExprType>, ts: seq<ExprType>, weak: Bindings, sub: Bindings)
    requires ps != [] && |ps| == |ts| && WeakAre(ps[..|ps| - 1], ts[..|ps| - 1], weak)
    requires IsWeak(ps[|ps| - 1], ts[|ps| - 1]) && sub == map[ps[|ps| - 1].elem.v := NullType]
    ensures Agree(weak, sub) && WeakAre(ps, ts, Merged(weak, sub))
  {
    var m := Merged(weak, sub);
    forall v ensures v in m <==> WeakVar(ps, ts, v) {
      WeakVarNext(ps, ts, v);
    }
  }

  lemma WeakSame(ps: seq<ExprType>, ts: seq<ExprType>, weak: Bindings)
    requires ps != [] && |ps| == |ts| && WeakAre(ps[..|ps| - 1], ts[..|ps| - 1], weak)
    requires !IsWeak(ps[|ps| - 1], ts[|ps| - 1])
    ensures WeakAre(ps, ts, weak)
  {
    forall v ensures v in weak <==> WeakVar(ps, ts, v) {
      WeakVarNext(ps, ts, v);
    }
  }

  // ---- Order ----

  ghost function Zip(ps: seq<ExprType>, ts: seq<ExprType>): (r: seq<(ExprType, ExprType)>)
    requires |ps| == |ts|
    ensures |r| == |ps|
  {
    seq(|ps|, i requires 0 <= i < |ps| => (ps[i], ts[i]))
  }

  /** The same parameters with the same arguments, in another order. */
  ghost predicate Reordered(ps: seq<ExprType>, ts: seq<ExprType>, qs: seq<ExprType>, us: seq<ExprType>) {
    |ps| == |ts| && |qs| == |us| && multiset(Zip(ps, ts)) == multiset(Zip(qs, us))
  }

  lemma Relocated(ps: seq<ExprType>, ts: seq<ExprType>, qs: seq<ExprType>, us: seq<ExprType>, j: nat) returns (i: nat)
    requires Reordered(ps, ts, qs, us) && j < |qs|
    ensures i < |ps| && ps[i] == qs[j] && ts[i] == us[j]
  {
    var x := Zip(qs, us)[j];
    PermutationMember(Zip(ps, ts), Zip(qs, us), x);
    i :| 0 <= i < |Zip(ps, ts)| && Zip(ps, ts)[i] == x;
  }

  lemma SuitedToo(ps: seq<ExprType>, ts: seq<ExprType>, qs: seq<ExprType>, us: seq<ExprType>, b: Bindings,
                  chained: bool)
    requires Reordered(ps, ts, qs, us) && AllSuited(ps, ts, b, chained)
    ensures AllSuited(qs, us, b, chained)
  {
    forall j | 0 <= j < |qs| ensures SuitedBy(qs[j], us[j], b, chained) {
      var i := Relocated(ps, ts, qs, us, j);
    }
  }

  lemma MatchedSuits(ps: seq<ExprType>, ts: seq<ExprType>)
    requires |ps| == |ts| && AllNormal(ps) && AllGround(ts) && MatchParams(ps, ts).Some?
    ensures GroundBindings(MatchParams(ps, ts).value.strong)
            && AllSuited(ps, ts, MatchParams(ps, ts).value.strong, true)
  {
    ParamsServed(ps, ts);
    var done := MatchParams(ps, ts).value;
    forall i | 0 <= i < |ps| ensures SuitedBy(ps[i], ts[i], done.strong, true) {
      assert ServedAt(ps[i], ts[i], done);
    }
  }

  lemma ServeEachOther(x: Bindings, y: Bindings)
    requires GroundBindings(x) && GroundBindings(y) && Serves(x, y, true) && Serves(y, x, true)
    ensures x == y
  {
    forall v | v in x ensures v in y && x[v] == y[v] {
      WidensAntisymmetric(x[v], y[v], false);
    }
  }

  lemma WeakAlike(ps: seq<ExprType>, ts: seq<ExprType>, qs: seq<ExprType>, us: seq<ExprType>, x: Bindings, y: Bindings)
    requires Reordered(ps, ts, qs, us) && WeakAre(ps, ts, x) && WeakAre(qs, us, y)
    ensures x == y
  {
    forall v ensures v in x <==> v in y {
      if WeakVar(ps, ts, v) {
        var i :| 0 <= i < |ps| && IsWeak(ps[i], ts[i]) && ps[i].elem.v == v;
        var j := Relocated(qs, us, ps, ts, i);
        assert IsWeak(qs[j], us[j]);
      }
      if WeakVar(qs, us, v) {
        var j :| 0 <= j < |qs| && IsWeak(qs[j], us[j]) && qs[j].elem.v == v;
        var i := Relocated(ps, ts, qs, us, j);
        assert IsWeak(ps[i], ts[i]);
      }
    }
  }

  lemma SameKinds(ps: seq<ExprType>, ts: seq<ExprType>, qs: seq<ExprType>, us: seq<ExprType>)
    requires Reordered(ps, ts, qs, us) && AllNormal(ps) && AllGround(ts)
    ensures AllNormal(qs) && AllGround(us)
  {
    forall j | 0 <= j < |qs| ensures Normal(qs[j]) && Ground(us[j]) {
      var i := Relocated(ps, ts, qs, us, j);
    }
  }

  lemma BoundAtMost(ps: seq<ExprType>, ts: seq<ExprType>, qs: seq<ExprType>, us: seq<ExprType>)
    requires Reordered(ps, ts, qs, us) && AllNormal(ps) && AllGround(ts) && AllNormal(qs) && AllGround(us)
    requires MatchParams(ps, ts).Some? && MatchParams(qs, us).Some?
    ensures var x, y := MatchParams(ps, ts).value, MatchParams(qs, us).value;
            && GroundBindings(x.strong) && GroundBindings(y.strong) && Serves(x.strong, y.strong, true)
            && WeakAre(ps, ts, x.weak) && WeakAre(qs, us, y.weak)
  {
    MatchedSuits(ps, ts);
    var b := MatchParams(ps, ts).value.strong;
    ParamsLeast(ps, ts, b, true);
    SuitedToo(ps, ts, qs, us, b, true);
    ParamsLeast(qs, us, b, true);
  }

  /** Two orders of the same parameters that both match bind every variable alike. */
  lemma SameBindings(ps: seq<ExprType>, ts: seq<ExprType>, qs: seq<ExprType>, us: seq<ExprType>)
    requires Reordered(ps, ts, qs, us) && AllNormal(ps) && AllGround(ts)
    requires MatchCall(ps, ts).Some? && MatchCall(qs, us).Some?
    ensures MatchCall(ps, ts) == MatchCall(qs, us)
  {
    SameKinds(ps, ts, qs, us);
    BoundAtMost(ps, ts, qs, us);
    BoundAtMost(qs, us, ps, ts);
    var x, y := MatchParams(ps, ts).value, MatchParams(qs, us).value;
    ServeEachOther(x.strong, y.strong);
    WeakAlike(ps, ts, qs, us, x.weak, y.weak);
  }

  // ---- When every order matches ----

  /** Types that reconcile pairwise reconcile together. */
  lemma {:induction false} UnifyThree(a: ExprType, b: ExprType, c: ExprType, inList: bool)
    requires Ground(a) && Ground(b) && Ground(c)
    requires Unify(a, b, inList).Some? && Unify(a, c, inList).Some? && Unify(b, c, inList).Some?
    ensures Unify(Unify(a, b, inList).value, c, inList).Some?
    decreases a
  {
    if a.List? && b.List? && c.List? && a != b && a != c && b != c {
      UnifyThree(a.elem, b.elem, c.elem, true);
      UnifyWidens(a.elem, b.elem, true, true);
      var e := Unify(a.elem, b.elem, true).value;
      assert Unify(a, b, inList) == Some(List(e));
      ListsUnify(e, c.elem, inList);
    } else if a.List? && b.List? && a != b {
      UnifyTwoLists(a, b, c, inList);
    } else {
      UnifyScalarsThree(a, b, c, inList);
    }
  }

  lemma UnifyTwoLists(a: ExprType, b: ExprType, c: ExprType, inList: bool)
    requires Ground(a) && Ground(b) && Ground(c) && a.List? && b.List? && a != b && (!c.List? || a == c || b == c)
    requires Unify(a, b, inList).Some? && Unify(a, c, inList).Some? && Unify(b, c, inList).Some?
    ensures Unify(Unify(a, b, inList).value, c, inList).Some?
  {
    if a == c || b == c {
      Absorbed(a, b, inList);
    } else {
      ListsWithOther(a, b, c, inList);
    }
  }

  lemma ListsWithOther(a: ExprType, b: ExprType, c: ExprType, inList: bool)
    requires Ground(a) && Ground(b) && Ground(c) && a.List? && b.List? && !c.List?
    requires Unify(a, b, inList).Some? && Unify(a, c, inList).Some? && Unify(b, c, inList).Some?
    ensures Unify(Unify(a, b, inList).value, c, inList).Some?
  {}

  /** What two types reconcile to reconciles with each of them. */
  lemma {:induction false} Absorbed(a: ExprType, b: ExprType, inList: bool)
    requires Ground(a) && Ground(b) && Unify(a, b, inList).Some?
    ensures Unify(Unify(a, b, inList).value, a, inList).Some? && Unify(Unify(a, b, inList).value, b, inList).Some?
    decreases a
  {
    if a.List? && b.List? && a != b {
      Absorbed(a.elem, b.elem, true);
      UnifyWidens(a.elem, b.elem, true, true);
      var e := Unify(a.elem, b.elem, true).value;
      assert Unify(a, b, inList) == Some(List(e));
      ListsUnify(e, a.elem, inList);
      ListsUnify(e, b.elem, inList);
    } else {
      ScalarsAbsorbed(a, b, inList);
    }
  }

  lemma ListsUnify(x: ExprType, y: ExprType, inList: bool)
    requires Unify(x, y, true).Some?
    ensures Unify(List(x), List(y), inList).Some?
  {}

  lemma ScalarsAbsorbed(a: ExprType, b: ExprType, inList: bool)
    requires Ground(a) && Ground(b) && Unify(a, b, inList).Some? && !(a.List? && b.List? && a != b)
    ensures Unify(Unify(a, b, inList).value, a, inList).Some? && Unify(Unify(a, b, inList).value, b, inList).Some?
  {}

  lemma UnifyScalarsThree(a: ExprType, b: ExprType, c: ExprType, inList: bool)
    requires Ground(a) && Ground(b) && Ground(c) && !(a.List? && b.List? && a != b)
    requires Unify(a, b, inList).Some? && Unify(a, c, inList).Some? && Unify(b, c, inList).Some?
    ensures Unify(Unify(a, b, inList).value, c, inList).Some?
  {}

  /** Two sets of bindings reconcile wherever they share a variable. */
  ghost predicate Reconcile(x: Bindings, y: Bindings) {
    forall v :: v in x && v in y ==> Unify(x[v], y[v], false).Some?
  }

  /** What the parameter binds for good; nothing for an empty list. */
  ghost function Binds(p: ExprType, t: ExprType): Bindings
    requires MatchType(p, t).Some?
  {
    if IsWeak(p, t) then map[] else MatchType(p, t).value
  }

  /** Every argument matches its parameter, and what they bind reconciles two by two. */
  ghost predicate PairwiseFit(ps: seq<ExprType>, ts: seq<ExprType>) {
    && |ps| == |ts|
    && (forall i :: 0 <= i < |ps| ==> MatchType(ps[i], ts[i]).Some?)
    && forall i, j :: 0 <= i < j < |ps| ==> Reconcile(Binds(ps[i], ts[i]), Binds(ps[j], ts[j]))
  }

  ghost predicate ReconcilesAll(ps: seq<ExprType>, ts: seq<ExprType>, sub: Bindings)
    requires PairwiseFit(ps, ts)
  {
    forall i :: 0 <= i < |ps| ==> Reconcile(Binds(ps[i], ts[i]), sub)
  }

  lemma MergedReconciles(target: Bindings, sub: Bindings, other: Bindings)
    requires GroundBindings(target) && GroundBindings(sub) && GroundBindings(other)
    requires Agree(target, sub) && Reconcile(target, other) && Reconcile(sub, other)
    ensures Reconcile(Merged(target, sub), other)
  {
    var m := Merged(target, sub);
    forall v | v in m && v in other ensures Unify(m[v], other[v], false).Some? {
      if v in target && v in sub {
        assert Joined(target, sub, v).Some?;
        UnifyThree(target[v], sub[v], other[v], false);
      }
    }
  }

  lemma ReconcileAgree(target: Bindings, sub: Bindings)
    ensures Reconcile(target, sub) <==> Agree(target, sub)
  {
    if Agree(target, sub) {
      forall v | v in target && v in sub ensures Unify(target[v], sub[v], false).Some? {
        assert Joined(target, sub, v).Some?;
      }
    }
  }

  lemma FitButLast(ps: seq<ExprType>, ts: seq<ExprType>, sub: Bindings)
    requires ps != [] && PairwiseFit(ps, ts) && ReconcilesAll(ps, ts, sub)
    ensures var n := |ps| - 1;
            && PairwiseFit(ps[..n], ts[..n]) && ReconcilesAll(ps[..n], ts[..n], sub)
            && ReconcilesAll(ps[..n], ts[..n], Binds(ps[n], ts[n]))
  {}

  /** The parameters of such a call match, and their bindings reconcile with whatever each does. */
  lemma {:induction false} FitMatches(ps: seq<ExprType>, ts: seq<ExprType>, sub: Bindings)
    requires AllNormal(ps) && AllGround(ts) && GroundBindings(sub) && PairwiseFit(ps, ts) && ReconcilesAll(ps, ts, sub)
    ensures MatchParams(ps, ts).Some?
    ensures var done := MatchParams(ps, ts).value;
            GroundBindings(done.strong) && Reconcile(done.strong, sub) && WeakAre(ps, ts, done.weak)
  {
    if ps == [] {
    } else {
      var n := |ps| - 1;
      FitButLast(ps, ts, sub);
      MatchGround(ps[n], ts[n]);
      var last := Binds(ps[n], ts[n]);
      FitMatches(ps[..n], ts[..n], sub);
      FitMatches(ps[..n], ts[..n], last);
      var done := MatchParams(ps[..n], ts[..n]).value;
      if IsWeak(ps[n], ts[n]) {
        WeakNext(ps, ts, done.weak, MatchType(ps[n], ts[n]).value);
      } else {
        ReconcileAgree(done.strong, last);
        MergedServes(done.strong, last);
        MergedReconciles(done.strong, last, sub);
        WeakSame(ps, ts, done.weak);
      }
    }
  }

  lemma FitReordered(ps: seq<ExprType>, ts: seq<ExprType>, qs: seq<ExprType>, us: seq<ExprType>)
    requires Reordered(ps, ts, qs, us) && AllNormal(ps) && AllGround(ts) && PairwiseFit(ps, ts)
    ensures PairwiseFit(qs, us)
  {
    forall j | 0 <= j < |qs| ensures MatchType(qs[j], us[j]).Some? {
      var i := Relocated(ps, ts, qs, us, j);
    }
    forall j, k | 0 <= j < k < |qs| ensures Reconcile(Binds(qs[j], us[j]), Binds(qs[k], us[k])) {
      PairInMultiset(Zip(qs, us), j, k);
      var x, y := PairFromMultiset(Zip(ps, ts), Zip(qs, us)[j], Zip(qs, us)[k]);
      FitPair(ps, ts, x, y);
    }
  }

  lemma FitPair(ps: seq<ExprType>, ts: seq<ExprType>, i: nat, j: nat)
    requires AllNormal(ps) && AllGround(ts) && PairwiseFit(ps, ts) && i < |ps| && j < |ps| && i != j
    ensures Reconcile(Binds(ps[i], ts[i]), Binds(ps[j], ts[j]))
  {
    MatchGround(ps[i], ts[i]);
    MatchGround(ps[j], ts[j]);
    if j < i {
      ReconcileSymmetric(Binds(ps[j], ts[j]), Binds(ps[i], ts[i]));
    }
  }

  lemma ReconcileSymmetric(x: Bindings, y: Bindings)
    requires GroundBindings(x) && GroundBindings(y) && Reconcile(x, y)
    ensures Reconcile(y, x)
  {
    forall v | v in y && v in x ensures Unify(y[v], x[v], false).Some? {
      UnifyWidens(x[v], y[v], false, true);
      UnifyLeast(x[v], y[v], Unify(x[v], y[v], false).value, false, true);
    }
  }

  // ---- When some order does not ----

  lemma FirstTwo(p: ExprType, q: ExprType, t: ExprType, u: ExprType)
    requires MatchType(p, t).Some? && MatchType(q, u).Some? && !Reconcile(Binds(p, t), Binds(q, u))
    ensures MatchParams([p, q], [t, u]).None?
  {
    var x, y := Binds(p, t), Binds(q, u);
    assert [p][..0] == [] && [t][..0] == [] && [p, q][..1] == [p] && [t, u][..1] == [t];
    assert MatchParams([p], [t]) == Some(Pair(Merged(map[], x), map[]));
    assert Merged(map[], x) == x;
    ReconcileAgree(x, y);
  }

  /** The i-th and the j-th first, then the others. */
  ghost function Fronted<A>(s: seq<A>, i: nat, j: nat): (r: seq<A>)
    requires i < j < |s|
    ensures |r| == |s| && r[..2] == [s[i], s[j]]
  {
    [s[i], s[j]] + (s[..i] + s[i + 1..j] + s[j + 1..])
  }

  lemma FrontedPermutes<A>(s: seq<A>, i: nat, j: nat)
    requires i < j < |s|
    ensures multiset(Fronted(s, i, j)) == multiset(s)
  {
    assert s == s[..i] + [s[i]] + s[i + 1..j] + [s[j]] + s[j + 1..];
  }

  lemma FrontedZip(ps: seq<ExprType>, ts: seq<ExprType>, i: nat, j: nat)
    requires |ps| == |ts| && i < j < |ps|
    ensures Reordered(ps, ts, Fronted(ps, i, j), Fronted(ts, i, j))
  {
    assert Zip(Fronted(ps, i, j), Fronted(ts, i, j)) == Fronted(Zip(ps, ts), i, j);
    FrontedPermutes(Zip(ps, ts), i, j);
  }

  lemma MatchedEach(ps: seq<ExprType>, ts: seq<ExprType>, i: nat)
    requires |ps| == |ts| && AllNormal(ps) && AllGround(ts) && MatchCall(ps, ts).Some? && i < |ps|
    ensures MatchType(ps[i], ts[i]).Some?
  {
    ParamsServed(ps, ts);
    assert ServedAt(ps[i], ts[i], MatchParams(ps, ts).value);
  }

  lemma MatchedPair(ps: seq<ExprType>, ts: seq<ExprType>, i: nat, j: nat)
    requires |ps| == |ts| && i < j < |ps| && MatchType(ps[i], ts[i]).Some? && MatchType(ps[j], ts[j]).Some?
    requires MatchCall(Fronted(ps, i, j), Fronted(ts, i, j)).Some?
    ensures Reconcile(Binds(ps[i], ts[i]), Binds(ps[j], ts[j]))
  {
    if !Reconcile(Binds(ps[i], ts[i]), Binds(ps[j], ts[j])) {
      FirstTwo(ps[i], ps[j], ts[i], ts[j]);
      StuckAfter(Fronted(ps, i, j), Fronted(ts, i, j), 2);
    }
  }

  ghost predicate MatchesAlways(ps: seq<ExprType>, ts: seq<ExprType>) {
    forall qs, us :: Reordered(ps, ts, qs, us) ==> MatchCall(qs, us).Some?
  }

  /** A call matches in every order of its parameters if and only if every argument matches its parameter
      and what they bind reconciles two by two. */
  lemma AlwaysMatches(ps: seq<ExprType>, ts: seq<ExprType>)
    requires |ps| == |ts| && AllNormal(ps) && AllGround(ts)
    ensures MatchesAlways(ps, ts) <==> PairwiseFit(ps, ts)
  {
    if PairwiseFit(ps, ts) {
      forall qs, us | Reordered(ps, ts, qs, us) ensures MatchCall(qs, us).Some? {
        SameKinds(ps, ts, qs, us);
        FitReordered(ps, ts, qs, us);
        FitMatches(qs, us, map[]);
      }
    }
    if MatchesAlways(ps, ts) {
      assert Reordered(ps, ts, ps, ts);
      forall i | 0 <= i < |ps| ensures MatchType(ps[i], ts[i]).Some? {
        MatchedEach(ps, ts, i);
      }
      forall i, j | 0 <= i < j < |ps| ensures Reconcile(Binds(ps[i], ts[i]), Binds(ps[j], ts[j])) {
        FrontedZip(ps, ts, i, j);
        MatchedPair(ps, ts, i, j);
      }
    }
  }

  // ---- Without ranges ----

  ghost predicate AllRangeFree(ts: seq<ExprType>) {
    forall i :: 0 <= i < |ts| ==> RangeFree(ts[i])
  }

  lemma SuitedFits(ps: seq<ExprType>, ts: seq<ExprType>, b: Bindings, chained: bool)
    requires AllNormal(ps) && AllGround(ts) && AllRangeFree(ts) && GroundBindings(b) && AllSuited(ps, ts, b, chained)
    ensures PairwiseFit(ps, ts)
  {
    forall i | 0 <= i < |ps| ensures MatchType(ps[i], ts[i]).Some? {
      assert SuitedBy(ps[i], ts[i], b, chained);
    }
    forall i, j | 0 <= i < j < |ps| ensures Reconcile(Binds(ps[i], ts[i]), Binds(ps[j], ts[j])) {
      assert SuitedBy(ps[i], ts[i], b, chained) && SuitedBy(ps[j], ts[j], b, chained);
      MatchGround(ps[i], ts[i]);
      MatchGround(ps[j], ts[j]);
      MatchRangeFree(ps[i], ts[i]);
      MatchRangeFree(ps[j], ts[j]);
      ServedReconcile(Binds(ps[i], ts[i]), Binds(ps[j], ts[j]), b, chained);
    }
  }

  lemma ServedReconcile(x: Bindings, y: Bindings, b: Bindings, chained: bool)
    requires GroundBindings(x) && GroundBindings(y) && GroundBindings(b)
    requires RangeFreeBindings(x) && RangeFreeBindings(y) && Serves(b, x, chained) && Serves(b, y, chained)
    ensures Reconcile(x, y)
  {
    forall v | v in x && v in y ensures Unify(x[v], y[v], false).Some? {
      UnifyComplete(x[v], y[v], b[v], false, chained);
    }
  }

  /** Completeness: for argument types without ranges, if any bindings at all suit every parameter the
      call matches, and every variable is bound at most as widely as they bind it. */
  lemma MatchCallComplete(ps: seq<ExprType>, ts: seq<ExprType>, b: Bindings)
    requires AllNormal(ps) && AllGround(ts) && AllRangeFree(ts) && GroundBindings(b) && AllSuited(ps, ts, b, false)
    ensures MatchCall(ps, ts).Some? && Serves(b, MatchParams(ps, ts).value.strong, false)
  {
    SuitedFits(ps, ts, b, false);
    FitMatches(ps, ts, map[]);
    ParamsLeast(ps, ts, b, false);
  }

  lemma MatchedAlways(ps: seq<ExprType>, ts: seq<ExprType>)
    requires AllNormal(ps) && AllGround(ts) && AllRangeFree(ts) && MatchCall(ps, ts).Some?
    ensures MatchesAlways(ps, ts)
  {
    MatchedSuits(ps, ts);
    SuitedFits(ps, ts, MatchParams(ps, ts).value.strong, true);
    AlwaysMatches(ps, ts);
  }

  /** For argument types without ranges the order of the parameters does not matter: the call matches in
      all orders or in none, with the same bindings. */
  lemma OrderFree(ps: seq<ExprType>, ts: seq<ExprType>, qs: seq<ExprType>, us: seq<ExprType>)
    requires Reordered(ps, ts, qs, us) && AllNormal(ps) && AllGround(ts) && AllRangeFree(ts)
    ensures MatchCall(ps, ts) == MatchCall(qs, us)
  {
    SameKinds(ps, ts, qs, us);
    forall j | 0 <= j < |us| ensures RangeFree(us[j]) {
      var i := Relocated(ps, ts, qs, us, j);
    }
    if MatchCall(ps, ts).Some? {
      MatchedAlways(ps, ts);
    } else if MatchCall(qs, us).Some? {
      MatchedAlways(qs, us);
    }
    if MatchCall(ps, ts).Some? && MatchCall(qs, us).Some? { SameBindings(ps, ts, qs, us); }
    assert |ps| == |Zip(ps, ts)| && |qs| == |Zip(qs, us)|;
  }

  /** With a range it can: a range reconciles with a list of ints, the ints then with floats, but a range
      does not reconcile with a list of floats. */
  lemma OrderMatters()
    ensures var ps := [Var(T), Var(T), Var(T)];
            && MatchCall(ps, [RangeExpr, List(Int), List(Float)]).Some?
            && MatchCall(ps, [RangeExpr, List(Float), List(Int)]).None?
  {
    var p := Var(T);
    OneBound(RangeExpr);
    TwoBound(RangeExpr, List(Int));
    TwoBound(RangeExpr, List(Float));
    ThirdBound(RangeExpr, List(Int), List(Float), List(Int), List(Float));
    StuckAfter([p, p, p], [RangeExpr, List(Float), List(Int)], 2);
  }

  lemma OneBound(t: ExprType)
    ensures MatchParams([Var(T)], [t]) == Some(Pair(Bound(T, t), map[]))
  {
    assert [Var(T)][..0] == [] && [t][..0] == [];
    assert Merged(map[], Bound(T, t)) == Bound(T, t);
  }

  lemma JoinedBounds(t: ExprType, u: ExprType)
    ensures Agree(Bound(T, t), Bound(T, u)) <==> Unify(t, u, false).Some?
    ensures Unify(t, u, false).Some? ==> Merged(Bound(T, t), Bound(T, u)) == Bound(T, Unify(t, u, false).value)
  {
    var x, y := Bound(T, t), Bound(T, u);
    assert T in y && Joined(x, y, T) == Unify(t, u, false);
  }

  lemma TwoBound(t: ExprType, u: ExprType)
    ensures [Var(T), Var(T), Var(T)][..2] == [Var(T), Var(T)]
    ensures MatchParams([Var(T), Var(T)], [t, u]) ==
            if Unify(t, u, false).Some? then Some(Pair(Bound(T, Unify(t, u, false).value), map[])) else None
  {
    OneBound(t);
    assert [Var(T), Var(T)][..1] == [Var(T)] && [t, u][..1] == [t];
    JoinedBounds(t, u);
  }

  lemma ThirdBound(t: ExprType, u: ExprType, w: ExprType, x: ExprType, y: ExprType)
    requires Unify(t, u, false) == Some(x) && Unify(x, w, false) == Some(y)
    ensures MatchCall([Var(T), Var(T), Var(T)], [t, u, w]) == Some(Bound(T, y))
  {
    TwoBound(t, u);
    assert [t, u, w][..2] == [t, u];
    JoinedBounds(x, w);
    assert MatchParams([Var(T), Var(T), Var(T)], [t, u, w]) == Some(Pair(Bound(T, y), map[]));
    NothingWeak(Bound(T, y));
  }

  lemma NothingWeak(b: Bindings)
    ensures map[] + b == b
  {}
}
