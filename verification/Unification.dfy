/** Matching call arguments against a signature with type variables. */
module Unification {
  import opened Wrappers
  import opened ExprTypes
  import opened UnionLaws
  import opened Satisfaction
  import opened Coercion
  import opened CoercionSound

  // ---- Reconciling two bindings ----

  /** `unify_inner`. */
  function Unify(a: ExprType, b: ExprType, inList: bool): Option<ExprType>
    decreases a, b, 1, 0
  {
    if a == b then Some(a)
    else if a.Any? then Some(b)
    else if b.Any? then Some(a)
    else if inList && a.NullType? then Some(b)
    else if inList && b.NullType? then Some(a)
    else if (a.Int? && b.Float?) || (a.Float? && b.Int?) then Some(Float)
    else if (a.Path? && b.String?) || (a.String? && b.Path?) then Some(String)
    else if a.RangeExpr? && b.List? && b.elem.Int? then Some(b)
    else if a.List? && a.elem.Int? && b.RangeExpr? then Some(a)
    else if a.List? && b.List? then
      (match Unify(a.elem, b.elem, true) case Some(e) => Some(MakeList(e)) case None => None)
    else if a.Union? then if UnifiesSome(a, b, inList, 0) then Some(a) else None
    else if b.Union? then if UnifiedBySome(a, b, inList, 0) then Some(b) else None
    else None
  }

  /** Some member of `a` from the k-th on agrees with `b`. */
  predicate UnifiesSome(a: ExprType, b: ExprType, inList: bool, k: nat)
    requires a.Union?
    decreases a, b, 0, |a.members| - k
  {
    k < |a.members| && (Unify(a.members[k], b, inList).Some? || UnifiesSome(a, b, inList, k + 1))
  }

  predicate UnifiedBySome(a: ExprType, b: ExprType, inList: bool, k: nat)
    requires b.Union?
    decreases a, b, 0, |b.members| - k
  {
    k < |b.members| && (Unify(a, b.members[k], inList).Some? || UnifiedBySome(a, b, inList, k + 1))
  }

  // ---- Matching one parameter ----

  function Bound(v: TypeVar, t: ExprType): Bindings {
    map[v := t]
  }

  /** `match_type`. */
  function MatchType(p: ExprType, t: ExprType): Option<Bindings>
    decreases p, t, 1, 0
  {
    if p.Var? then Some(Bound(p.v, t))
    else if t.Var? then Some(Bound(t.v, p))
    else if p.Any? || t.Any? then Some(map[])
    else if p.Unresolved? then MatchType(p.constraint, t)
    else if t.Unresolved? then MatchType(p, t.constraint)
    else if p.Union? then FirstMember(p, t, 0)
    else if t.Union? then FirstTarget(p, t, 0)
    else if p.List? && t.List? then MatchType(p.elem, t.elem)
    else if p == t then Some(map[])
    else None
  }

  /** The first member of a union parameter that matches; against a union, member by member. */
  function FirstMember(p: ExprType, t: ExprType, k: nat): Option<Bindings>
    requires p.Union?
    decreases p, t, 0, |p.members| - k
  {
    if k >= |p.members| then None
    else
      var r := if t.Union? then FirstTarget(p.members[k], t, 0) else MatchType(p.members[k], t);
      if r.Some? then r else FirstMember(p, t, k + 1)
  }

  function FirstTarget(p: ExprType, t: ExprType, k: nat): Option<Bindings>
    requires t.Union?
    decreases p, t, 0, |t.members| - k
  {
    if k >= |t.members| then None
    else
      var r := MatchType(p, t.members[k]);
      if r.Some? then r else FirstTarget(p, t, k + 1)
  }

  // ---- Merging ----

  /** What a variable ends up bound to. */
  function Joined(target: Bindings, sub: Bindings, v: TypeVar): Option<ExprType>
    requires v in sub
  {
    if v in target then Unify(target[v], sub[v], false) else Some(sub[v])
  }

  predicate Agree(target: Bindings, sub: Bindings) {
    forall v :: v in sub ==> Joined(target, sub, v).Some?
  }

  function Merged(target: Bindings, sub: Bindings): (r: Bindings)
    requires Agree(target, sub)
    ensures r.Keys == target.Keys + sub.Keys
  {
    map v | v in target.Keys + sub.Keys :: if v in sub then Joined(target, sub, v).value else target[v]
  }

  /** Part way through: variables in `rest` have not been merged yet. */
  ghost predicate MergedExcept(merged: Bindings, target: Bindings, sub: Bindings, rest: set<TypeVar>,
                               join: TypeVar -> Option<ExprType>)
  {
    && merged.Keys == target.Keys + (sub.Keys - rest)
    && (forall v :: v in sub && v !in rest ==> join(v).Some?)
    && forall v :: v in merged ==> merged[v] == if v in sub && v !in rest then join(v).value else target[v]
  }

  lemma MergedOneMore(merged: Bindings, target: Bindings, sub: Bindings, rest: set<TypeVar>,
                      join: TypeVar -> Option<ExprType>, v: TypeVar)
    requires MergedExcept(merged, target, sub, rest, join) && rest <= sub.Keys && v in rest && join(v).Some?
    ensures MergedExcept(merged[v := join(v).value], target, sub, rest - {v}, join)
  {}

  ghost function Joins(target: Bindings, sub: Bindings): TypeVar -> Option<ExprType> {
    v => if v in sub then Joined(target, sub, v) else None
  }

  lemma MergedAll(merged: Bindings, target: Bindings, sub: Bindings)
    requires MergedExcept(merged, target, sub, {}, Joins(target, sub))
    ensures Agree(target, sub) && merged == Merged(target, sub)
  {
    forall v | v in sub ensures Joined(target, sub, v).Some? {
      assert Joins(target, sub)(v).Some?;
    }
  }

  /** The loop over one parameter's bindings: whatever the order, they merge or they conflict. */
  method MergeBindings(target: Bindings, sub: Bindings) returns (r: Option<Bindings>)
    ensures r == if Agree(target, sub) then Some(Merged(target, sub)) else None
  {
    var merged := target;
    var rest := sub.Keys;
    while rest != {}
      invariant rest <= sub.Keys && MergedExcept(merged, target, sub, rest, Joins(target, sub))
      decreases |rest|
    {
      var v :| v in rest;
      assert (v in merged <==> v in target) && (v in merged ==> merged[v] == target[v]);
      var both := if v in merged then Unify(merged[v], sub[v], false) else Some(sub[v]);
      assert both == Joined(target, sub, v) == Joins(target, sub)(v);
      if both.None? { return None; }
      MergedOneMore(merged, target, sub, rest, Joins(target, sub), v);
      merged := merged[v := both.value];
      rest := rest - {v};
    }
    MergedAll(merged, target, sub);
    return Some(merged);
  }

  // ---- Matching a call ----

  /** The empty list literal against `list[T]` binds T only weakly. */
  predicate IsWeak(p: ExprType, t: ExprType) {
    p.List? && p.elem.Var? && t == List(NullType)
  }

  datatype Pair = Pair(strong: Bindings, weak: Bindings)

  /** Strong and weak bindings after the first parameters. */
  function MatchParams(ps: seq<ExprType>, ts: seq<ExprType>): Option<Pair>
    requires |ps| == |ts|
  {
    if ps == [] then Some(Pair(map[], map[]))
    else
      var n := |ps| - 1;
      match MatchParams(ps[..n], ts[..n])
      case None => None
      case Some(done) =>
        match MatchType(ps[n], ts[n])
        case None => None
        case Some(sub) =>
          if IsWeak(ps[n], ts[n]) then
            if Agree(done.weak, sub) then Some(done.(weak := Merged(done.weak, sub))) else None
          else
            if Agree(done.strong, sub) then Some(done.(strong := Merged(done.strong, sub))) else None
  }

  /** `match_call`: weak bindings count only where nothing bound the variable strongly. */
  function MatchCall(ps: seq<ExprType>, ts: seq<ExprType>): Option<Bindings> {
    if |ps| != |ts| then None
    else
      match MatchParams(ps, ts)
      case None => None
      case Some(done) => Some(done.weak + done.strong)
  }

  method MatchCallLoop(ps: seq<ExprType>, ts: seq<ExprType>) returns (r: Option<Bindings>)
    ensures r == MatchCall(ps, ts)
  {
    if |ps| != |ts| { return None; }
    var strong: Bindings := map[];
    var weak: Bindings := map[];
    for i := 0 to |ps|
      invariant MatchParams(ps[..i], ts[..i]) == Some(Pair(strong, weak))
    {
      assert ps[..i + 1][..i] == ps[..i] && ts[..i + 1][..i] == ts[..i];
      var sub := MatchType(ps[i], ts[i]);
      if sub.None? {
        StuckAfter(ps, ts, i + 1);
        return None;
      }
      var merged := MergeBindings(if IsWeak(ps[i], ts[i]) then weak else strong, sub.value);
      if merged.None? {
        StuckAfter(ps, ts, i + 1);
        return None;
      }
      if IsWeak(ps[i], ts[i]) { weak := merged.value; } else { strong := merged.value; }
    }
    assert ps[..|ps|] == ps && ts[..|ts|] == ts;
    return Some(weak + strong);
  }

  /** A conflict stays one. */
  lemma {:induction false} StuckAfter(ps: seq<ExprType>, ts: seq<ExprType>, k: nat)
    requires |ps| == |ts| && k <= |ps| && MatchParams(ps[..k], ts[..k]).None?
    ensures MatchParams(ps, ts).None?
  {
    if k < |ps| {
      var n := |ps| - 1;
      assert ps[..n][..k] == ps[..k] && ts[..n][..k] == ts[..k];
      StuckAfter(ps[..n], ts[..n], k);
    } else {
      assert ps[..k] == ps && ts[..k] == ts;
    }
  }

  // ---- Implicit widening ----

  /** A value of type `a` can stand where `t` is wanted without losing anything: int for float, path
      for string, a range for a list of ints, lists element by element, the empty list for any. These
      rules do not chain. With `chained` they do: a range also stands for a list its ints widen to. */
  ghost predicate Widens(a: ExprType, t: ExprType, inList: bool, chained: bool)
    decreases t, 1
  {
    || a == t
    || t.Any?
    || (inList && a.NullType?)
    || (a.Int? && t.Float?)
    || (a.Path? && t.String?)
    || (a.RangeExpr? && t.List? && (t.elem.Int? || (chained && IntFits(t.elem, chained))))
    || (a.List? && t.List? && Widens(a.elem, t.elem, true, chained))
    || (t.Unresolved? && Widens(a, t.constraint, inList, chained))
    || (t.Union? && exists i :: 0 <= i < |t.members| && Widens(a, t.members[i], inList, chained))
  }

  ghost predicate IntFits(t: ExprType, chained: bool)
    decreases t, 2
  {
    Widens(Int, t, true, chained)
  }

  /** The type of a concrete value. */
  ghost predicate Ground(t: ExprType) {
    Normal(t) && IsConcrete(t) && Denotes(t)
  }

  ghost predicate GroundBindings(b: Bindings) {
    forall v :: v in b ==> Ground(b[v])
  }

  /** Both types widen to what they unify to. */
  lemma {:induction false} UnifyWidens(a: ExprType, b: ExprType, inList: bool, chained: bool)
    requires Ground(a) && Ground(b) && Unify(a, b, inList).Some?
    ensures var r := Unify(a, b, inList).value;
            Ground(r) && Widens(a, r, inList, chained) && Widens(b, r, inList, chained)
    decreases a
  {
    if a.List? && b.List? && a != b {
      UnifyWidens(a.elem, b.elem, true, chained);
      assert Unify(a, b, inList) == Some(List(Unify(a.elem, b.elem, true).value));
    } else {
      ScalarsWiden(a, b, inList, chained);
    }
  }

  lemma ScalarsWiden(a: ExprType, b: ExprType, inList: bool, chained: bool)
    requires Ground(a) && Ground(b) && Unify(a, b, inList).Some? && !(a.List? && b.List? && a != b)
    ensures var r := Unify(a, b, inList).value;
            Ground(r) && Widens(a, r, inList, chained) && Widens(b, r, inList, chained)
  {}

  /** And to nothing narrower: it is their least common widening, whichever comes first. */
  lemma {:induction false} UnifyLeast(a: ExprType, b: ExprType, c: ExprType, inList: bool, chained: bool)
    requires Ground(a) && Ground(b) && Ground(c) && Unify(a, b, inList).Some?
    requires Widens(a, c, inList, chained) && Widens(b, c, inList, chained)
    ensures Widens(Unify(a, b, inList).value, c, inList, chained)
    ensures Unify(b, a, inList) == Unify(a, b, inList)
    decreases a
  {
    if a.List? && b.List? && a != b {
      WidensElements(a, c, inList, chained);
      WidensElements(b, c, inList, chained);
      UnifyLeast(a.elem, b.elem, c.elem, true, chained);
      assert Unify(a, b, inList) ==
          Some(List(Unify(a.elem, b.elem, true).value)) by { UnifyWidens(a.elem, b.elem, true, chained); }
    } else {
      ScalarsLeast(a, b, c, inList, chained);
    }
  }

  lemma ScalarsLeast(a: ExprType, b: ExprType, c: ExprType, inList: bool, chained: bool)
    requires Ground(a) && Ground(b) && Ground(c) && Unify(a, b, inList).Some? && !(a.List? && b.List? && a != b)
    requires Widens(a, c, inList, chained) && Widens(b, c, inList, chained)
    ensures Widens(Unify(a, b, inList).value, c, inList, chained) && Unify(b, a, inList) == Unify(a, b, inList)
  {}

  lemma WidensElements(a: ExprType, c: ExprType, inList: bool, chained: bool)
    requires Ground(a) && Ground(c) && a.List? && Widens(a, c, inList, chained)
    ensures c.List? && Widens(a.elem, c.elem, true, chained)
  {}

  /** Chained, the rules are transitive. */
  lemma {:induction false} ChainTransitive(a: ExprType, b: ExprType, c: ExprType, inList: bool)
    requires Ground(a) && Ground(b) && Ground(c) && Widens(a, b, inList, true) && Widens(b, c, inList, true)
    ensures Widens(a, c, inList, true)
    decreases b
  {
    if a != b && b != c && b.List? && c.List? {
      if a.List? {
        ChainTransitive(a.elem, b.elem, c.elem, true);
      } else if a.RangeExpr? {
        ChainTransitive(Int, b.elem, c.elem, true);
      }
    }
  }

  lemma {:induction false} WidensInList(a: ExprType, t: ExprType, chained: bool)
    requires Widens(a, t, false, chained)
    ensures Widens(a, t, true, chained)
    decreases t
  {
    if a != t && !t.Any? {
      if t.Unresolved? && Widens(a, t.constraint, false, chained) {
        WidensInList(a, t.constraint, chained);
      } else if t.Union? {
        var i :| 0 <= i < |t.members| && Widens(a, t.members[i], false, chained);
        WidensInList(a, t.members[i], chained);
      }
    }
  }

  // ---- Substituting ground bindings ----

  lemma GroundNormal(b: Bindings)
    requires GroundBindings(b)
    ensures NormalBindings(b)
  {}

  /** A resolved parameter stays resolved. */
  lemma {:induction false} SubstituteResolved(t: ExprType, b: Bindings)
    requires Normal(t) && !t.Unresolved? && GroundBindings(b)
    ensures NormalBindings(b) && !SubstituteIn(t, b).Unresolved?
    decreases t
  {
    GroundNormal(b);
    if t.List? {
      SubstituteResolved(t.elem, b);
      SubstituteNormal(t, b);
    } else if t.Union? {
      MembersSubstituted(t, b);
    }
  }

  ghost function Members(t: ExprType, b: Bindings): (r: seq<ExprType>)
    requires Normal(t) && t.Union? && NormalBindings(b)
    ensures |r| == |t.members| && AllNormal(r)
  {
    seq(|t.members|, i requires 0 <= i < |t.members| => SubstituteIn(t.members[i], b))
  }

  /** A union parameter becomes the union of its substituted members. */
  lemma {:induction false} MembersSubstituted(t: ExprType, b: Bindings)
    requires Normal(t) && t.Union? && GroundBindings(b)
    ensures NormalBindings(b) && NormalResolved(Members(t, b)) && SubstituteIn(t, b) == UnionOf(Members(t, b))
    decreases t, 0
  {
    GroundNormal(b);
    SubstituteNormal(t, b);
    SubstituteUnion(t.members, b);
    var parts := Members(t, b);
    assert SubstituteAll(t.members, b) == parts;
    forall i | 0 <= i < |parts| ensures !parts[i].Unresolved? {
      assert IsAtom(t.members[i]);
      SubstituteResolved(t.members[i], b);
    }
  }

  lemma WidensAtom(a: ExprType, m: ExprType, chained: bool) returns (x: ExprType)
    requires Ground(a) && Normal(m) && !m.Unresolved? && Widens(a, m, false, chained)
    ensures x in Atoms(m) && Widens(a, x, false, chained)
  {
    if m.Union? {
      var i :| 0 <= i < |m.members| && Widens(a, m.members[i], false, chained);
      x := m.members[i];
    } else {
      x := m;
    }
  }

  lemma WidensUnion(a: ExprType, ts: seq<ExprType>, k: nat, chained: bool)
    requires Ground(a) && NormalResolved(ts) && k < |ts| && Widens(a, ts[k], false, chained)
    ensures Widens(a, UnionOf(ts), false, chained)
  {
    UnionHolds(ts);
    if Any !in ts {
      assert Normal(ts[k]) && !ts[k].Unresolved?;
      var x := WidensAtom(a, ts[k], chained);
      AtomWitness(ts, ts[k], x);
      ResolvedNoAny(ts);
      assert Holds(ts, x);
      WidensMember(a, UnionOf(ts), x, chained);
    }
  }

  lemma WidensMember(a: ExprType, u: ExprType, x: ExprType, chained: bool)
    requires Normal(u) && !u.Unresolved? && x in Atoms(u) && Widens(a, x, false, chained)
    ensures Widens(a, u, false, chained)
  {
    if u.Union? {
      var i :| 0 <= i < |u.members| && u.members[i] == x;
    }
  }

  // ---- One parameter ----

  lemma {:induction false} FirstMemberFound(p: ExprType, t: ExprType, k: nat) returns (i: nat)
    requires p.Union? && !t.Union? && FirstMember(p, t, k).Some?
    ensures i < |p.members| && MatchType(p.members[i], t) == FirstMember(p, t, k)
    decreases |p.members| - k
  {
    if MatchType(p.members[k], t).Some? {
      i := k;
    } else {
      i := FirstMemberFound(p, t, k + 1);
    }
  }

  lemma {:induction false} MatchGround(p: ExprType, t: ExprType)
    requires Normal(p) && Ground(t) && MatchType(p, t).Some?
    ensures GroundBindings(MatchType(p, t).value)
    decreases p
  {
    if p.Unresolved? {
      MatchGround(p.constraint, t);
    } else if p.Union? {
      var i := FirstMemberFound(p, t, 0);
      MatchGround(p.members[i], t);
    } else if p.List? && t.List? {
      MatchGround(p.elem, t.elem);
    }
  }

  /** Everything in `sub` widens to what `b` says. */
  ghost predicate Serves(b: Bindings, sub: Bindings, chained: bool) {
    forall v :: v in sub ==> v in b && Widens(sub[v], b[v], false, chained)
  }

  /** Bindings that serve what a parameter bound make the argument fit the parameter. */
  lemma {:induction false} MatchWidens(p: ExprType, t: ExprType, b: Bindings, chained: bool)
    requires Normal(p) && Ground(t) && GroundBindings(b)
    requires MatchType(p, t).Some? && Serves(b, MatchType(p, t).value, chained)
    ensures NormalBindings(b) && Widens(t, SubstituteIn(p, b), false, chained)
    decreases p
  {
    GroundNormal(b);
    if p.Unresolved? {
      MatchWidens(p.constraint, t, b, chained);
      SubstituteNormal(p, b);
    } else if p.Union? {
      var i := FirstMemberFound(p, t, 0);
      MatchWidens(p.members[i], t, b, chained);
      MembersSubstituted(p, b);
      WidensUnion(t, Members(p, b), i, chained);
    } else if p.List? && t.List? {
      MatchWidens(p.elem, t.elem, b, chained);
      WidensInList(t.elem, SubstituteIn(p.elem, b), chained);
      ListSubstituted(p, b);
    }
  }

  lemma ListSubstituted(p: ExprType, b: Bindings)
    requires Normal(p) && p.List? && GroundBindings(b)
    ensures NormalBindings(b) && SubstituteIn(p, b) == List(SubstituteIn(p.elem, b))
  {
    GroundNormal(b);
    SubstituteResolved(p.elem, b);
    SubstituteNormal(p, b);
  }

  // ---- The whole call, with chained rules ----

  lemma MergedAt(target: Bindings, sub: Bindings, v: TypeVar)
    requires GroundBindings(target) && GroundBindings(sub) && Agree(target, sub) && v in target.Keys + sub.Keys
    ensures var m := Merged(target, sub);
            && v in m && Ground(m[v])
            && (v in target ==> Widens(target[v], m[v], false, true))
            && (v in sub ==> Widens(sub[v], m[v], false, true))
  {
    if v in target && v in sub {
      assert Joined(target, sub, v).Some?;
      UnifyWidens(target[v], sub[v], false, true);
    }
  }

  /** Merging keeps what the target served and serves the new bindings too. */
  lemma MergedServes(target: Bindings, sub: Bindings)
    requires GroundBindings(target) && GroundBindings(sub) && Agree(target, sub)
    ensures GroundBindings(Merged(target, sub)) && Serves(Merged(target, sub), sub, true)
            && Serves(Merged(target, sub), target, true)
  {
    var m := Merged(target, sub);
    forall v | v in m ensures Ground(m[v])
    {
      MergedAt(target, sub, v);
    }
    forall v | v in sub ensures v in m && Widens(sub[v], m[v], false, true) {
      MergedAt(target, sub, v);
    }
    forall v | v in target ensures v in m && Widens(target[v], m[v], false, true) {
      MergedAt(target, sub, v);
    }
  }

  lemma ServesTransitive(a: Bindings, b: Bindings, c: Bindings)
    requires GroundBindings(a) && GroundBindings(b) && GroundBindings(c) && Serves(b, a, true) && Serves(c, b, true)
    ensures Serves(c, a, true)
  {
    forall v | v in a ensures v in c && Widens(a[v], c[v], false, true) {
      ChainTransitive(a[v], b[v], c[v], false);
    }
  }

  ghost predicate AllGround(ts: seq<ExprType>) {
    forall i :: 0 <= i < |ts| ==> Ground(ts[i])
  }

  /** One parameter's bindings are among the weak ones, or served by the strong ones. */
  ghost predicate ServedAt(p: ExprType, t: ExprType, done: Pair) {
    && MatchType(p, t).Some?
    && if IsWeak(p, t) then p.elem.v in done.weak else Serves(done.strong, MatchType(p, t).value, true)
  }

  ghost predicate Served(ps: seq<ExprType>, ts: seq<ExprType>, done: Pair)
    requires |ps| == |ts|
  {
    && GroundBindings(done.strong) && GroundBindings(done.weak)
    && forall i :: 0 <= i < |ps| ==> ServedAt(ps[i], ts[i], done)
  }

  /** Later parameters never take away what earlier ones rely on. */
  lemma ServedKept(p: ExprType, t: ExprType, done: Pair, more: Pair)
    requires Normal(p) && Ground(t) && ServedAt(p, t, done)
    requires GroundBindings(done.strong) && GroundBindings(more.strong)
    requires Serves(more.strong, done.strong, true) && done.weak.Keys <= more.weak.Keys
    ensures ServedAt(p, t, more)
  {
    if !IsWeak(p, t) {
      MatchGround(p, t);
      ServesTransitive(MatchType(p, t).value, done.strong, more.strong);
    }
  }

  lemma ServesSelf(b: Bindings)
    ensures Serves(b, b, true)
  {}

  lemma ParamServed(p: ExprType, t: ExprType, done: Pair, sub: Bindings) returns (more: Pair)
    requires Normal(p) && Ground(t) && GroundBindings(done.strong) && GroundBindings(done.weak)
    requires MatchType(p, t) == Some(sub)
    requires Agree(if IsWeak(p, t) then done.weak else done.strong, sub)
    ensures more ==
            if IsWeak(p, t) then done.(weak := Merged(done.weak, sub)) else done.(strong := Merged(done.strong, sub))
    ensures GroundBindings(more.strong) && GroundBindings(more.weak)
    ensures Serves(more.strong, done.strong, true) && done.weak.Keys <= more.weak.Keys && ServedAt(p, t, more)
  {
    MatchGround(p, t);
    if IsWeak(p, t) {
      MergedServes(done.weak, sub);
      ServesSelf(done.strong);
      more := done.(weak := Merged(done.weak, sub));
    } else {
      MergedServes(done.strong, sub);
      more := done.(strong := Merged(done.strong, sub));
    }
  }

  lemma {:induction false} ParamsServed(ps: seq<ExprType>, ts: seq<ExprType>)
    requires |ps| == |ts| && AllNormal(ps) && AllGround(ts) && MatchParams(ps, ts).Some?
    ensures Served(ps, ts, MatchParams(ps, ts).value)
  {
    if ps == [] {
    } else {
      var n := |ps| - 1;
      ParamsServed(ps[..n], ts[..n]);
      var done := MatchParams(ps[..n], ts[..n]).value;
      var more := ParamServed(ps[n], ts[n], done, MatchType(ps[n], ts[n]).value);
      ServedNext(ps, ts, done, more);
    }
  }

  lemma ServedNext(ps: seq<ExprType>, ts: seq<ExprType>, done: Pair, more: Pair)
    requires |ps| == |ts| && ps != [] && AllNormal(ps) && AllGround(ts)
    requires Served(ps[..|ps| - 1], ts[..|ps| - 1], done) && ServedAt(ps[|ps| - 1], ts[|ps| - 1], more)
    requires GroundBindings(more.strong) && GroundBindings(more.weak)
    requires Serves(more.strong, done.strong, true) && done.weak.Keys <= more.weak.Keys
    ensures Served(ps, ts, more)
  {
    var n := |ps| - 1;
    forall i | 0 <= i < |ps| ensures ServedAt(ps[i], ts[i], more) {
      if i < n {
        assert ServedAt(ps[..n][i], ts[..n][i], done);
        ServedKept(ps[i], ts[i], done, more);
      }
    }
  }
}
