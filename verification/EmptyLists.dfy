/** Coercing lists with empty lists inside: exactly when the result satisfies its target. */
module EmptyLists {
  import opened Wrappers
  import opened ExprTypes
  import opened Satisfaction
  import opened ExprValues
  import opened Coercion
  import opened CoercionSound

  /** A list of type `list[nulltype]`. */
  predicate Untyped(e: Value) {
    e.ListList? && e.elemType == NullType
  }

  /** What `make_list` accepts as an element. */
  predicate Usable(e: Value) {
    !TooDeep(e) && !e.UnresolvedValue?
  }

  ghost predicate AllUsable(es: seq<Value>) {
    forall i :: 0 <= i < |es| ==> Usable(es[i])
  }

  /** The promotion that turns every element into text: of a path next to a string, where no mix of lists of
      numbers or of text comes first. */
  ghost predicate TurnsToText(es: seq<Value>) {
    && HasPath(es) && HasString(es)
    && !(HasListOf(es, Int) && HasListOf(es, Float)) && !(HasListOf(es, Path) && HasListOf(es, String))
  }

  /** The list built of `es` takes its element type from an untyped list in front: no sibling gave it a type,
      and nothing turned the elements into text. */
  ghost predicate FrontUntyped(h: Host, es: seq<Value>)
    requires es != []
  {
    var filled := FillEmpties(h, es);
    Untyped(filled[0]) && !TurnsToText(filled)
  }

  lemma UsableType(e: Value)
    requires Usable(e)
    ensures if Untyped(e) then TypeOf(e) == List(NullType) else Solid(TypeOf(e))
    ensures TypeOf(e).NullType? <==> e.Null?
  {}

  lemma FilledUsable(h: Host, es: seq<Value>)
    requires AllUsable(es)
    ensures AllUsable(FillEmpties(h, es))
    ensures es != [] ==> (FillEmpties(h, es)[0].Null? <==> es[0].Null?)
  {
    var variant := SiblingVariant(es);
    if variant.Some? {
      SiblingScalar(es);
    }
  }

  lemma {:induction false} SiblingScalar(es: seq<Value>)
    requires SiblingVariant(es).Some?
    ensures var t := SiblingVariant(es).value; t.Bool? || t.Int? || t.Float? || t.String? || t.Path?
  {
    if SiblingVariant(es) == SiblingVariant(es[1..]) {
      SiblingScalar(es[1..]);
    }
  }

  lemma FrontType(ps: seq<Value>, e: Value)
    requires ps != [] && Usable(e) && (ps[0] == e || (!Untyped(e) && (ps[0].ListFloat? || ps[0].ListString?)))
    ensures TypeOf(ListOf(ps)) == List(TypeOf(ps[0]))
    ensures Untyped(e) ==> TypeOf(ps[0]) == List(NullType)
    ensures !Untyped(e) ==> Solid(TypeOf(ps[0])) && (TypeOf(ps[0]).NullType? ==> e.Null?)
  {
    UsableType(e);
  }

  /** The element type of what is assembled. */
  lemma AssembledType(h: Host, es: seq<Value>) returns (x: ExprType)
    requires es != [] && AllUsable(es) && Assemble(h, es).Some?
    ensures TypeOf(Assemble(h, es).value) == List(x)
    ensures Untyped(es[0]) && !TurnsToText(es) ==> x == List(NullType)
    ensures !Untyped(es[0]) || TurnsToText(es) ==> Solid(x) && (x.NullType? ==> es[0].Null?)
  {
    assert Usable(es[0]);
    UsableType(es[0]);
    if HasInt(es) && HasFloat(es) {
      x := Float;
      assert Map(es, e => PromoteInt(h, e))[0] == PromoteInt(h, es[0]);
    } else if HasListOf(es, Int) && HasListOf(es, Float) {
      var ps := Map(es, e => PromoteInts(h, e));
      FrontType(ps, es[0]);
      x := TypeOf(ps[0]);
    } else if HasListOf(es, Path) && HasListOf(es, String) {
      var ps := Map(es, e => PromotePaths(e));
      FrontType(ps, es[0]);
      x := TypeOf(ps[0]);
    } else if HasPath(es) && HasString(es) {
      x := String;
    } else {
      x := TypeOf(es[0]);
    }
  }

  /** Only `null` itself becomes `null`, and only where it was accepted. */
  lemma NullAccepted(h: Host, e: Value, u: ExprType, fmt: PathFormat)
    requires !e.UnresolvedValue? && Normal(u) && Coerce(h, e, u, fmt) == Some(Null)
    ensures Satisfies(NullType, u)
  {
    if !Satisfies(TypeOf(e), u) {
      var d := Converted(h, e, u, fmt);
      NeverNull(h, e, d, fmt);
    }
  }

  lemma NeverNull(h: Host, e: Value, d: ExprType, fmt: PathFormat)
    requires !e.UnresolvedValue? && Normal(d) && IsDestination(d) && ConvertTo(h, e, d, fmt).Some?
    ensures !ConvertTo(h, e, d, fmt).value.Null?
  {
    if d.List? && IsList(e) {
      var ws := CoerceAll(h, ListElements(h, e), d.elem, fmt).value;
      BuiltIsList(h, ws, d.elem);
    }
  }

  lemma BuiltIsList(h: Host, es: seq<Value>, hint: ExprType)
    requires MakeListValue(h, es, hint).Some?
    ensures IsList(MakeListValue(h, es, hint).value)
  {}

  /** Converting a list that is not empty toward `list[u]`. */
  lemma ListConverted(h: Host, v: Value, t: ExprType, fmt: PathFormat) returns (ws: seq<Value>)
    requires ConcreteValue(v) && IsList(v) && ListElements(h, v) != []
    requires Normal(t) && t.List? && !Satisfies(TypeOf(v), t) && Coerce(h, v, t, fmt).Some?
    ensures CoerceAll(h, ListElements(h, v), t.elem, fmt) == Some(ws) && ws != []
    ensures MakeListValue(h, ws, t.elem) == Coerce(h, v, t, fmt) && AllUsable(ws)
    ensures ws[0].Null? ==> Satisfies(NullType, t.elem)
  {
    var d := Converted(h, v, t, fmt);
    assert d == t;
    var es := ListElements(h, v);
    ws := CoerceAll(h, es, t.elem, fmt).value;
    CoerceAllStep(h, es, t.elem, fmt);
    if ws[0].Null? { NullAccepted(h, es[0], t.elem, fmt); }
  }

  /** The elements, coerced one by one, leave an untyped list in front. */
  ghost predicate LeavesUntyped(h: Host, v: Value, u: ExprType, fmt: PathFormat) {
    && IsList(v) && Normal(u) && CoerceAll(h, ListElements(h, v), u, fmt).Some?
    && CoerceAll(h, ListElements(h, v), u, fmt).value != []
    && FrontUntyped(h, CoerceAll(h, ListElements(h, v), u, fmt).value)
  }

  /** A list that is not empty, coerced toward a list target, satisfies it if and only if it did so already, or
      its elements do not leave an untyped empty list in front, or such a list satisfies the element type. */
  lemma NestedListPromise(h: Host, v: Value, t: ExprType, fmt: PathFormat)
    requires ConcreteValue(v) && IsList(v) && ListElements(h, v) != []
    requires Normal(t) && t.List? && Coerce(h, v, t, fmt).Some?
    ensures Satisfies(TypeOf(Coerce(h, v, t, fmt).value), t) <==>
            || Satisfies(TypeOf(v), t)
            || !LeavesUntyped(h, v, t.elem, fmt)
            || Satisfies(List(NullType), t.elem)
  {
    if !Satisfies(TypeOf(v), t) {
      var ws := ListConverted(h, v, t, fmt);
      FilledUsable(h, ws);
      var x := AssembledType(h, FillEmpties(h, ws));
      CoerceFits(h, v, t, fmt);
      if LeavesUntyped(h, v, t.elem, fmt) {
        ListUnder(List(NullType), t.elem);
      } else {
        SolidUnder(x, t.elem);
      }
    }
  }

  lemma SolidUnder(x: ExprType, u: ExprType)
    requires Solid(x) && Fits(List(x), List(u)) && (x.NullType? ==> Satisfies(NullType, u))
    ensures Satisfies(List(x), List(u))
  {
    if !x.NullType? {
      ElementFits(x, u);
      SolidFits(x, u);
    }
    SatisfiedDenotes(x, u);
    ListUnder(x, u);
  }

  lemma ElementFits(x: ExprType, u: ExprType)
    requires Fits(List(x), List(u)) && !x.NullType?
    ensures Fits(x, u)
  {}

  /** It fails for `[[]]` toward `list[list[range_expr]]`. */
  lemma NestedEmptyUnkept(h: Host, fmt: PathFormat)
    ensures Unkept(h, ListList([ListList([], NullType)], List(NullType)), List(List(RangeExpr)), fmt)
  {
    var inner := ListList([], NullType);
    InnerKept(h, inner, List(RangeExpr), fmt);
    NestedUnkept(h, inner, ListList([inner], List(NullType)), List(RangeExpr), fmt);
  }

  lemma InnerKept(h: Host, inner: Value, u: ExprType, fmt: PathFormat)
    requires inner == ListList([], NullType) && u == List(RangeExpr)
    ensures Coerce(h, inner, u, fmt) == Some(inner) && !Satisfies(TypeOf(inner), u)
  {
    EmptyConverts(h, inner, u, fmt);
  }

  /** A list of one empty list whose coercion leaves it untyped. */
  lemma NestedUnkept(h: Host, inner: Value, v: Value, u: ExprType, fmt: PathFormat)
    requires inner == ListList([], NullType) && v == ListList([inner], List(NullType))
    requires Normal(u) && Denotes(u) && !IsSymbolic(u) && !u.Unresolved? && !u.Any?
    requires Coerce(h, inner, u, fmt) == Some(inner) && !Satisfies(List(NullType), u)
    ensures Unkept(h, v, List(u), fmt)
  {
    NestedType(v, u);
    NestedConverts(h, inner, v, u, fmt);
    NotKept(h, v, List(u), fmt);
  }

  lemma NestedType(v: Value, u: ExprType)
    requires v == ListList([ListList([], NullType)], List(NullType)) && Denotes(u) && !Satisfies(List(NullType), u)
    ensures ConcreteValue(v) && TypeOf(v) == List(List(NullType)) && !Satisfies(TypeOf(v), List(u))
    ensures Plain(TypeOf(v)) && !IsSymbolic(TypeOf(v))
  {
    ListUnder(List(NullType), u);
  }

  /** A list that converts to itself without satisfying the target. */
  lemma NotKept(h: Host, v: Value, t: ExprType, fmt: PathFormat)
    requires ConcreteValue(v) && Plain(TypeOf(v)) && TypeOf(v).List? && !IsSymbolic(TypeOf(v))
    requires Normal(t) && t.List? && Denotes(t) && !IsSymbolic(t) && !Satisfies(TypeOf(v), t)
    requires ConvertTo(h, v, t, fmt) == Some(v)
    ensures Unkept(h, v, t, fmt)
  {
    ListPromise(TypeOf(v), t);
    OnlyDestination(h, v, t, fmt);
  }

  lemma NestedConverts(h: Host, inner: Value, v: Value, u: ExprType, fmt: PathFormat)
    requires inner == ListList([], NullType) && v == ListList([inner], List(NullType))
    requires Normal(u) && !u.Unresolved? && Coerce(h, inner, u, fmt) == Some(inner)
    ensures ConvertTo(h, v, List(u), fmt) == Some(v)
  {
    AloneCoerced(h, inner, u, fmt);
    BuiltAlone(h, inner, u);
  }

  lemma AloneCoerced(h: Host, e: Value, u: ExprType, fmt: PathFormat)
    requires !e.UnresolvedValue? && Normal(u) && Coerce(h, e, u, fmt) == Some(e)
    ensures CoerceAll(h, [e], u, fmt) == Some([e])
  {
    assert [e][1..] == [] && [e] + [] == [e];
  }

  lemma BuiltAlone(h: Host, inner: Value, hint: ExprType)
    requires inner == ListList([], NullType)
    ensures MakeListValue(h, [inner], hint) == Some(ListList([inner], List(NullType)))
  {
    var es := [inner];
    assert es[1..] == [] && SiblingVariant(es) == None;
    assert FillEmpties(h, es) == es && Uniform(es) == Some(ListOf(es));
  }

  lemma OnlyDestination(h: Host, v: Value, t: ExprType, fmt: PathFormat)
    requires !v.UnresolvedValue? && Normal(t) && t.List? && IsDestination(t) && !Satisfies(TypeOf(v), t)
    ensures Coerce(h, v, t, fmt) == ConvertTo(h, v, t, fmt)
  {
    var ds := Destinations(TypeOf(v), t);
    assert ds == [t];
    var rs := Conversions(h, v, t, fmt);
    ConversionAt(h, v, t, 0, fmt);
    assert rs == [rs[0]] && FirstSome(rs) == rs[0];
  }
}
