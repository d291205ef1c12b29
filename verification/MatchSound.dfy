/** What a matched call binds, against the source's rules, which do not chain. */
module MatchSoundness {
  import opened Wrappers
  import opened ExprTypes
  import opened UnionLaws
  import opened Unification
  import opened MatchLaws

  // ---- Where chaining makes the difference ----

  /** A range against a list of floats, at the same place of both types. */
  predicate Clash(a: ExprType, t: ExprType)
    decreases a
  {
    (a.RangeExpr? && t == List(Float)) || (a.List? && t.List? && Clash(a.elem, t.elem))
  }

  /** The rules reach everything the chained ones do, except across a clash. */
  lemma {:induction false} ChainedExactly(a: ExprType, t: ExprType, inList: bool)
    requires Ground(a) && Ground(t) && Widens(a, t, inList, true)
    ensures Widens(a, t, inList, false) <==> !Clash(a, t)
    decreases a
  {
    if a.List? && t.List? && a != t {
      ChainedExactly(a.elem, t.elem, true);
      ListsExactly(a, t, inList);
    } else if a == t {
      NoSelfClash(a);
    } else {
      ScalarsExactly(a, t, inList);
    }
  }

  lemma ListsExactly(a: ExprType, t: ExprType, inList: bool)
    requires Ground(a) && Ground(t) && a.List? && t.List? && a != t
    ensures Widens(a, t, inList, false) <==> Widens(a.elem, t.elem, true, false)
    ensures Clash(a, t) <==> Clash(a.elem, t.elem)
  {}

  lemma ScalarsExactly(a: ExprType, t: ExprType, inList: bool)
    requires Ground(a) && Ground(t) && Widens(a, t, inList, true) && a != t && !(a.List? && t.List?)
    ensures Widens(a, t, inList, false) <==> !Clash(a, t)
  {
    if a.RangeExpr? && t.List? && !t.elem.Int? { FromInt(t.elem); }
  }

  lemma {:induction false} NoSelfClash(a: ExprType)
    ensures !Clash(a, a)
  {
    if a.List? { NoSelfClash(a.elem); }
  }

  /** Single steps are among the chained ones. */
  lemma {:induction false} WidensChained(a: ExprType, t: ExprType, inList: bool)
    requires Ground(a) && Ground(t) && Widens(a, t, inList, false)
    ensures Widens(a, t, inList, true)
    decreases a
  {
    if a.List? && t.List? && a != t { WidensChained(a.elem, t.elem, true); }
  }

  /** Two widenings compose if and only if they do not take a range, by way of a list of ints, to a list of
      floats. */
  lemma WidensComposed(a: ExprType, b: ExprType, c: ExprType, inList: bool)
    requires Ground(a) && Ground(b) && Ground(c) && Widens(a, b, inList, false) && Widens(b, c, inList, false)
    ensures Widens(a, c, inList, false) <==> !Clash(a, c)
  {
    WidensChained(a, b, inList);
    WidensChained(b, c, inList);
    ChainTransitive(a, b, c, inList);
    ChainedExactly(a, c, inList);
  }

  /** A clash with what is reconciled is a clash with one of the two. */
  lemma {:induction false} ClashUnified(a: ExprType, x: ExprType, y: ExprType, inList: bool)
    requires Ground(x) && Ground(y) && Unify(x, y, inList).Some? && Clash(a, Unify(x, y, inList).value)
    ensures Clash(a, x) || Clash(a, y)
    decreases x
  {
    if x.List? && y.List? && x != y {
      UnifyWidens(x.elem, y.elem, true, true);
      var e := Unify(x.elem, y.elem, true).value;
      assert Unify(x, y, inList) == Some(List(e));
      if a.List? {
        ClashUnified(a.elem, x.elem, y.elem, true);
      } else {
        FloatUnified(x.elem, y.elem, true);
      }
    } else {
      ClashScalars(a, x, y, inList);
    }
  }

  lemma FloatUnified(x: ExprType, y: ExprType, inList: bool)
    requires Ground(x) && Ground(y) && Unify(x, y, inList) == Some(Float)
    ensures x.Float? || y.Float?
  {}

  lemma ClashScalars(a: ExprType, x: ExprType, y: ExprType, inList: bool)
    requires Ground(x) && Ground(y) && Unify(x, y, inList).Some? && !(x.List? && y.List? && x != y)
    requires Clash(a, Unify(x, y, inList).value)
    ensures Clash(a, x) || Clash(a, y)
  {}

  lemma FromFloat(t: ExprType)
    requires Ground(t) && Widens(Float, t, true, true)
    ensures t.Float?
  {}

  lemma FromInt(t: ExprType)
    requires Ground(t) && IntFits(t, true)
    ensures t.Int? || t.Float?
  {}

  /** And a clash stays one as the other side widens. */
  lemma {:induction false} ClashKept(a: ExprType, x: ExprType, t: ExprType, inList: bool)
    requires Ground(x) && Ground(t) && Clash(a, x) && Widens(x, t, inList, true)
    ensures Clash(a, t)
    decreases a
  {
    WidensElements(x, t, inList, true);
    if a.List? {
      ClashKept(a.elem, x.elem, t.elem, true);
    } else {
      FromFloat(t.elem);
    }
  }

  // ---- What a call binds ----

  /** Everything bound for a variable that some argument binds to a list of floats, where this one has a
      range, at the same place. */
  ghost predicate ClashAt(ps: seq<ExprType>, ts: seq<ExprType>, i: nat, v: TypeVar)
    requires |ps| == |ts| && i < |ps| && MatchType(ps[i], ts[i]).Some? && v in Binds(ps[i], ts[i])
  {
    exists j :: 0 <= j < |ps| && MatchType(ps[j], ts[j]).Some? && v in Binds(ps[j], ts[j])
                && Clash(Binds(ps[i], ts[i])[v], Binds(ps[j], ts[j])[v])
  }

  /** What clashes with the final binding clashes with one argument's. */
  lemma {:induction false} ClashFrom(ps: seq<ExprType>, ts: seq<ExprType>, v: TypeVar, a: ExprType) returns (j: nat)
    requires |ps| == |ts| && AllNormal(ps) && AllGround(ts) && MatchParams(ps, ts).Some?
    requires v in MatchParams(ps, ts).value.strong && Clash(a, MatchParams(ps, ts).value.strong[v])
    ensures j < |ps| && MatchType(ps[j], ts[j]).Some? && v in Binds(ps[j], ts[j])
    ensures Clash(a, Binds(ps[j], ts[j])[v])
  {
    var n := |ps| - 1;
    var strong, last := LastStep(ps, ts, v);
    if v in last && v in strong {
      ClashUnified(a, strong[v], last[v], false);
    }
    if v in last && Clash(a, last[v]) {
      j := n;
    } else {
      j := ClashFrom(ps[..n], ts[..n], v, a);
    }
  }

  /** What the last parameter makes of a variable. */
  lemma LastStep(ps: seq<ExprType>, ts: seq<ExprType>, v: TypeVar) returns (strong: Bindings, last: Bindings)
    requires |ps| == |ts| && AllNormal(ps) && AllGround(ts) && MatchParams(ps, ts).Some?
    requires v in MatchParams(ps, ts).value.strong
    ensures ps != [] && MatchType(ps[|ps| - 1], ts[|ps| - 1]).Some? && last == Binds(ps[|ps| - 1], ts[|ps| - 1])
    ensures MatchParams(ps[..|ps| - 1], ts[..|ps| - 1]).Some?
    ensures strong == MatchParams(ps[..|ps| - 1], ts[..|ps| - 1]).value.strong
    ensures GroundBindings(strong) && GroundBindings(last) && (v in strong || v in last)
    ensures var r := MatchParams(ps, ts).value.strong[v];
            if v !in last then r == strong[v] else if v !in strong then r == last[v]
            else Unify(strong[v], last[v], false) == Some(r)
  {
    var n := |ps| - 1;
    strong, last := MatchParams(ps[..n], ts[..n]).value.strong, Binds(ps[n], ts[n]);
    ParamsServed(ps[..n], ts[..n]);
    MatchGround(ps[n], ts[n]);
    assert v in strong && v in last ==> Joined(strong, last, v).Some?;
  }

  lemma BoundServed(ps: seq<ExprType>, ts: seq<ExprType>, i: nat)
    requires |ps| == |ts| && AllNormal(ps) && AllGround(ts) && MatchParams(ps, ts).Some? && i < |ps|
    ensures MatchType(ps[i], ts[i]).Some? && GroundBindings(Binds(ps[i], ts[i]))
    ensures GroundBindings(MatchParams(ps, ts).value.strong)
    ensures Serves(MatchParams(ps, ts).value.strong, Binds(ps[i], ts[i]), true)
  {
    ParamsServed(ps, ts);
    assert ServedAt(ps[i], ts[i], MatchParams(ps, ts).value);
    MatchGround(ps[i], ts[i]);
  }

  /** In a matched call, what an argument binds a variable to widens, by the source's rules, to the final
      binding if and only if it does not clash with what another argument binds it to. */
  lemma BindingServes(ps: seq<ExprType>, ts: seq<ExprType>, i: nat, v: TypeVar)
    requires AllNormal(ps) && AllGround(ts) && MatchCall(ps, ts).Some? && i < |ps|
    requires MatchType(ps[i], ts[i]).Some? && v in Binds(ps[i], ts[i])
    ensures var b := MatchCall(ps, ts).value;
            v in b && (Widens(Binds(ps[i], ts[i])[v], b[v], false, false) <==> !ClashAt(ps, ts, i, v))
  {
    BoundServed(ps, ts, i);
    var a, t := Binds(ps[i], ts[i])[v], MatchParams(ps, ts).value.strong[v];
    ChainedExactly(a, t, false);
    if Clash(a, t) {
      var j := ClashFrom(ps, ts, v, a);
    }
    if ClashAt(ps, ts, i, v) {
      var j :| 0 <= j < |ps| && MatchType(ps[j], ts[j]).Some? && v in Binds(ps[j], ts[j])
               && Clash(a, Binds(ps[j], ts[j])[v]);
      BoundServed(ps, ts, j);
      ClashKept(a, Binds(ps[j], ts[j])[v], t, false);
    }
  }

  /** No argument has a range where another one, binding the same variable, has a list of floats. */
  ghost predicate NoClashes(ps: seq<ExprType>, ts: seq<ExprType>) {
    && |ps| == |ts|
    && (forall i :: 0 <= i < |ps| ==> MatchType(ps[i], ts[i]).Some?)
    && forall i, v :: 0 <= i < |ps| && v in Binds(ps[i], ts[i]) ==> !ClashAt(ps, ts, i, v)
  }

  ghost predicate AllServed(ps: seq<ExprType>, ts: seq<ExprType>, b: Bindings) {
    && |ps| == |ts|
    && forall i :: 0 <= i < |ps| ==> MatchType(ps[i], ts[i]).Some? && Serves(b, Binds(ps[i], ts[i]), false)
  }

  /** Everything the arguments of a matched call bind widens to the final bindings if and only if no two
      of them clash. */
  lemma CallServes(ps: seq<ExprType>, ts: seq<ExprType>)
    requires AllNormal(ps) && AllGround(ts) && MatchCall(ps, ts).Some?
    ensures AllServed(ps, ts, MatchCall(ps, ts).value) <==> NoClashes(ps, ts)
  {
    var b := MatchCall(ps, ts).value;
    forall i | 0 <= i < |ps| ensures MatchType(ps[i], ts[i]).Some? {
      MatchedEach(ps, ts, i);
    }
    forall i, v | 0 <= i < |ps| && v in Binds(ps[i], ts[i])
      ensures v in b && (Widens(Binds(ps[i], ts[i])[v], b[v], false, false) <==> !ClashAt(ps, ts, i, v))
    {
      BindingServes(ps, ts, i, v);
    }
  }

  lemma CallGround(ps: seq<ExprType>, ts: seq<ExprType>)
    requires AllNormal(ps) && AllGround(ts) && MatchCall(ps, ts).Some?
    ensures GroundBindings(MatchCall(ps, ts).value) && NormalBindings(MatchCall(ps, ts).value)
    ensures forall i :: 0 <= i < |ps| && IsWeak(ps[i], ts[i]) ==> ps[i].elem.v in MatchCall(ps, ts).value
  {
    ParamsServed(ps, ts);
    var done := MatchParams(ps, ts).value;
    forall i | 0 <= i < |ps| && IsWeak(ps[i], ts[i]) ensures ps[i].elem.v in MatchCall(ps, ts).value {
      assert ServedAt(ps[i], ts[i], done);
    }
    GroundNormal(MatchCall(ps, ts).value);
  }

  /** Whenever a call without such a clash matches, one set of bindings serves all its parameters: every
      argument type widens, by the source's rules, to its substituted parameter. An empty list never fixes
      a variable that something else binds: strong bindings are the final ones. */
  lemma MatchCallSound(ps: seq<ExprType>, ts: seq<ExprType>, i: nat)
    requires AllNormal(ps) && AllGround(ts) && MatchCall(ps, ts).Some? && NoClashes(ps, ts) && i < |ps|
    ensures var b := MatchCall(ps, ts).value;
            && GroundBindings(b) && NormalBindings(b)
            && Widens(ts[i], SubstituteIn(ps[i], b), false, false)
            && forall v :: v in MatchParams(ps, ts).value.strong ==>
                v in b && b[v] == MatchParams(ps, ts).value.strong[v]
  {
    var b := MatchCall(ps, ts).value;
    CallGround(ps, ts);
    CallServes(ps, ts);
    if IsWeak(ps[i], ts[i]) {
      ListSubstituted(ps[i], b);
      SubstituteNormal(ps[i].elem, b);
    } else {
      MatchWidens(ps[i], ts[i], b, false);
    }
  }

  /** With one it need not be: a range, a list of ints and a list of floats match three T parameters, and T is
      bound to a list of floats, which a range does not widen to. */
  lemma RangeLeftBehind()
    ensures var ps, ts := [Var(T), Var(T), Var(T)], [RangeExpr, List(Int), List(Float)];
            && AllNormal(ps) && AllGround(ts) && !NoClashes(ps, ts)
            && MatchCall(ps, ts) == Some(map[T := List(Float)])
            && SubstituteIn(ps[0], map[T := List(Float)]) == List(Float) && !Widens(ts[0], List(Float), false, false)
  {
    var ps, ts := [Var(T), Var(T), Var(T)], [RangeExpr, List(Int), List(Float)];
    ThirdBound(RangeExpr, List(Int), List(Float), List(Int), List(Float));
    FirstClashesThird(ps, ts);
  }

  lemma FirstClashesThird(ps: seq<ExprType>, ts: seq<ExprType>)
    requires |ps| == |ts| == 3 && ps[0] == ps[2] == Var(T) && ts[0] == RangeExpr && ts[2] == List(Float)
    ensures !NoClashes(ps, ts)
  {
    var x, y := Binds(ps[0], ts[0]), Binds(ps[2], ts[2]);
    assert x == map[T := RangeExpr] && y == map[T := List(Float)];
    assert MatchType(ps[2], ts[2]).Some? && T in y && Clash(x[T], y[T]);
    assert ClashAt(ps, ts, 0, T);
  }
}
