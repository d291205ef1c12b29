/** What `make_list` makes of its elements, kind by kind, and exactly which elements it refuses. */
module ListRules {
  import opened Wrappers
  import opened ExprTypes
  import opened ExprValues
  import opened ListBuilding

  lemma NoneRefused(h: Host, es: seq<Value>, hint: ExprType)
    requires es != [] && forall i :: 0 <= i < |es| ==> !IsList(es[i]) && !es[i].UnresolvedValue?
    ensures MakeListValue(h, es, hint) == Assemble(h, es)
    ensures !HasListOf(es, Int) && !HasListOf(es, Path)
  {
    NothingToFill(h, es);
  }

  // ---- Scalars ----

  /** Booleans make a list of booleans. */
  lemma MakesBools(h: Host, es: seq<Value>, hint: ExprType)
    requires es != [] && forall i :: 0 <= i < |es| ==> es[i].BoolValue?
    ensures var w := MakeListValue(h, es, hint);
            && w.Some? && w.value.ListBool? && |w.value.bools| == |es|
            && forall i :: 0 <= i < |es| ==> w.value.bools[i] == es[i].b
  {
    NoneRefused(h, es, hint);
  }

  /** Ints make a list of ints. */
  lemma MakesInts(h: Host, es: seq<Value>, hint: ExprType)
    requires es != [] && forall i :: 0 <= i < |es| ==> es[i].IntValue?
    ensures var w := MakeListValue(h, es, hint);
            && w.Some? && w.value.ListInt? && |w.value.ints| == |es|
            && forall i :: 0 <= i < |es| ==> w.value.ints[i] == es[i].i
  {
    NoneRefused(h, es, hint);
  }

  /** With a float among them all numbers become floats. */
  lemma MakesFloats(h: Host, es: seq<Value>, hint: ExprType)
    requires forall i :: 0 <= i < |es| ==> es[i].IntValue? || es[i].FloatValue?
    requires exists i :: 0 <= i < |es| && es[i].FloatValue?
    ensures var w := MakeListValue(h, es, hint);
            && w.Some? && w.value.ListFloat? && |w.value.floats| == |es|
            && forall i :: 0 <= i < |es| ==>
                 w.value.floats[i] == if es[i].IntValue? then h.intToFloat(es[i].i) else es[i].f
  {
    NoneRefused(h, es, hint);
    if !HasInt(es) {
      forall i | 0 <= i < |es| ensures es[i].FloatValue? { assert !es[i].IntValue?; }
    }
  }

  ghost function TextOf(v: Value): string
    requires v.StringValue? || v.PathValue?
  {
    if v.StringValue? then v.s else v.path
  }

  /** Strings and paths make a list of strings once a string is among them, a path its own text. */
  lemma MakesStrings(h: Host, es: seq<Value>, hint: ExprType)
    requires forall i :: 0 <= i < |es| ==> es[i].StringValue? || es[i].PathValue?
    requires exists i :: 0 <= i < |es| && es[i].StringValue?
    ensures var w := MakeListValue(h, es, hint);
            && w.Some? && w.value.ListString? && |w.value.strings| == |es|
            && forall i :: 0 <= i < |es| ==> w.value.strings[i] == TextOf(es[i])
  {
    NoneRefused(h, es, hint);
    if !HasPath(es) {
      forall i | 0 <= i < |es| ensures es[i].StringValue? { assert !es[i].PathValue?; }
    }
  }

  /** Paths alone make a list of paths, in the first one's format. */
  lemma MakesPaths(h: Host, es: seq<Value>, hint: ExprType)
    requires es != [] && forall i :: 0 <= i < |es| ==> es[i].PathValue?
    ensures var w := MakeListValue(h, es, hint);
            && w.Some? && w.value.ListPath? && |w.value.paths| == |es| && w.value.pathFormat == es[0].format
            && forall i :: 0 <= i < |es| ==> w.value.paths[i] == es[i].path
  {
    NoneRefused(h, es, hint);
  }

  // ---- Lists ----

  /** A list whose type untyped empty lists take on: it has elements, or is a list of floats. */
  ghost predicate Typed(e: Value) {
    || e.ListFloat? || (e.ListBool? && e.bools != []) || (e.ListInt? && e.ints != [])
    || (e.ListString? && e.strings != []) || (e.ListPath? && e.paths != [])
  }

  ghost predicate FirstTyped(es: seq<Value>, k: nat) {
    k < |es| && Typed(es[k]) && forall j :: 0 <= j < k ==> !Typed(es[j])
  }

  lemma {:induction false} SiblingFound(es: seq<Value>, k: nat)
    requires FirstTyped(es, k)
    ensures SiblingVariant(es).Some? && TypeOf(es[k]) == List(SiblingVariant(es).value)
    ensures SiblingVariant(es).value in {Bool, Int, Float, String, Path}
  {
    if k > 0 {
      assert !Typed(es[0]);
      SiblingFound(es[1..], k - 1);
    }
  }

  lemma {:induction false} SiblingMissing(es: seq<Value>)
    requires forall j :: 0 <= j < |es| ==> !Typed(es[j])
    ensures SiblingVariant(es).None?
  {
    if es != [] {
      assert !Typed(es[0]);
      SiblingMissing(es[1..]);
    }
  }

  ghost predicate AllLists(es: seq<Value>) {
    forall i :: 0 <= i < |es| ==> IsList(es[i]) && !TooDeep(es[i])
  }

  ghost predicate NoneDeep(es: seq<Value>) {
    forall i :: 0 <= i < |es| ==> !TooDeep(es[i])
  }

  ghost predicate NoneTyped(es: seq<Value>) {
    forall j :: 0 <= j < |es| ==> !Typed(es[j])
  }

  lemma {:induction false} TypedOrNone(es: seq<Value>, n: nat) returns (k: nat)
    requires n <= |es| && forall j :: 0 <= j < n ==> !Typed(es[j])
    ensures FirstTyped(es, k) || NoneTyped(es)
    decreases |es| - n
  {
    if n == |es| || Typed(es[n]) { k := n; } else { k := TypedOrNone(es, n + 1); }
  }

  /** What filling does at one place. */
  lemma FilledAt(h: Host, es: seq<Value>, i: nat, k: nat)
    requires i < |es| && (FirstTyped(es, k) || NoneTyped(es))
    ensures var f := FillEmpties(h, es)[i];
            if IsEmptyList(es[i]) && FirstTyped(es, k) then
              && SiblingVariant(es).Some? && TypeOf(es[k]) == List(SiblingVariant(es).value)
              && SiblingVariant(es).value in {Bool, Int, Float, String, Path}
              && f == TypedEmpty(h, SiblingVariant(es).value)
            else f == es[i]
  {
    if FirstTyped(es, k) { SiblingFound(es, k); } else { SiblingMissing(es); }
  }

  /** Filling brings in no kind of list that was not there. */
  lemma FilledKinds(h: Host, es: seq<Value>, t: ExprType)
    requires NoneDeep(es) && t in {Bool, Int, Float, String, Path}
    ensures HasListOf(FillEmpties(h, es), t) <==> HasListOf(es, t)
  {
    var fs := FillEmpties(h, es);
    var k := TypedOrNone(es, 0);
    if i :| 0 <= i < |fs| && ListElemType(fs[i]) == Some(t) {
      FilledAt(h, es, i, k);
      if FirstTyped(es, k) { TypedKind(es[k], t); }
    }
    if i :| 0 <= i < |es| && ListElemType(es[i]) == Some(t) {
      FilledAt(h, es, i, k);
      assert ListElemType(fs[i]) == Some(t);
    }
  }

  lemma TypedKind(e: Value, t: ExprType)
    requires Typed(e)
    ensures ListElemType(e) == Some(t) <==> TypeOf(e) == List(t)
  {}

  /** The promotion that applies to all of the lists. */
  ghost function Promotion(h: Host, es: seq<Value>): Value -> Value {
    if HasListOf(es, Int) && HasListOf(es, Float) then e => PromoteInts(h, e)
    else if HasListOf(es, Path) && HasListOf(es, String) then e => PromotePaths(e)
    else e => e
  }

  lemma MapSame(es: seq<Value>)
    ensures Map(es, e => e) == es
  {}

  lemma FilledLists(h: Host, es: seq<Value>)
    requires AllLists(es)
    ensures forall i :: 0 <= i < |es| ==> IsList(FillEmpties(h, es)[i])
  {
    var k := TypedOrNone(es, 0);
    forall i | 0 <= i < |es| ensures IsList(FillEmpties(h, es)[i]) { FilledAt(h, es, i, k); }
  }

  lemma AssembledLists(h: Host, fs: seq<Value>)
    requires fs != [] && forall i :: 0 <= i < |fs| ==> IsList(fs[i])
    ensures Assemble(h, fs) == Some(ListOf(Map(fs, Promotion(h, fs))))
  {
    MapSame(fs);
  }

  lemma ListsMade(h: Host, es: seq<Value>, hint: ExprType)
    requires es != [] && AllLists(es)
    ensures MakeListValue(h, es, hint) == Some(ListOf(Map(FillEmpties(h, es), Promotion(h, es))))
  {
    FilledLists(h, es);
    AssembledLists(h, FillEmpties(h, es));
    FilledKinds(h, es, Int);
    FilledKinds(h, es, Float);
    FilledKinds(h, es, Path);
    FilledKinds(h, es, String);
  }

  // ---- Each list as it comes out ----

  ghost predicate BesideFloats(es: seq<Value>) {
    exists k :: 0 <= k < |es| && es[k].ListFloat?
  }

  ghost predicate BesideInts(es: seq<Value>) {
    exists k :: 0 <= k < |es| && es[k].ListInt?
  }

  ghost predicate BesideStrings(es: seq<Value>) {
    exists k :: 0 <= k < |es| && es[k].ListString?
  }

  ghost predicate BesidePaths(es: seq<Value>) {
    exists k :: 0 <= k < |es| && es[k].ListPath?
  }

  lemma KindsSeen(es: seq<Value>)
    requires NoneDeep(es)
    ensures HasListOf(es, Int) <==> BesideInts(es)
    ensures HasListOf(es, Float) <==> BesideFloats(es)
    ensures HasListOf(es, Path) <==> BesidePaths(es)
    ensures HasListOf(es, String) <==> BesideStrings(es)
  {}

  /** A list that is not an untyped empty one comes out as it is, but ints beside floats as floats, and paths
      beside strings as strings where no ints become floats. */
  ghost predicate ListKept(h: Host, es: seq<Value>, e: Value, w: Value) {
    if e.ListInt? && BesideFloats(es) then w == ListFloat(FloatsOf(h, e.ints))
    else if e.ListPath? && BesideStrings(es) && !(BesideInts(es) && BesideFloats(es)) then w == ListString(e.paths)
    else w == e
  }

  lemma PromotionKeeps(h: Host, es: seq<Value>, i: nat)
    requires AllLists(es) && i < |es|
    ensures ListKept(h, es, es[i], Promotion(h, es)(es[i]))
  {
    KindsSeen(es);
    assert es[i].ListInt? ==> BesideInts(es);
    assert es[i].ListPath? ==> BesidePaths(es);
  }

  lemma PromotedEmpty(h: Host, es: seq<Value>, e: Value, t: ExprType)
    requires t in {Bool, Int, Float, String, Path} && Typed(e) && TypeOf(e) == List(t)
    ensures var w := Promotion(h, es)(TypedEmpty(h, t));
            TypeOf(w) == TypeOf(Promotion(h, es)(e)) && IsList(w) && ListElements(h, w) == []
  {}

  /** Lists make a list of lists, of the first one's type. Each comes out as above; an untyped empty list comes
      out as an empty list of the type of its first typed sibling, or as it is without one. */
  lemma MakesLists(h: Host, es: seq<Value>, hint: ExprType, k: nat)
    requires es != [] && AllLists(es) && (FirstTyped(es, k) || NoneTyped(es))
    ensures var w := MakeListValue(h, es, hint);
            && w.Some? && w.value.ListList? && |w.value.elements| == |es|
            && w.value.elemType == TypeOf(w.value.elements[0])
            && forall i :: 0 <= i < |es| ==>
                 if IsEmptyList(es[i]) && FirstTyped(es, k) then
                   && TypeOf(w.value.elements[i]) == TypeOf(w.value.elements[k])
                   && IsList(w.value.elements[i]) && ListElements(h, w.value.elements[i]) == []
                 else ListKept(h, es, es[i], w.value.elements[i])
  {
    ListsMade(h, es, hint);
    var ws := Map(FillEmpties(h, es), Promotion(h, es));
    forall i | 0 <= i < |es|
      ensures if IsEmptyList(es[i]) && FirstTyped(es, k) then
                TypeOf(ws[i]) == TypeOf(ws[k]) && IsList(ws[i]) && ListElements(h, ws[i]) == []
              else ListKept(h, es, es[i], ws[i])
    {
      FilledAt(h, es, i, k);
      PromotionKeeps(h, es, i);
      if IsEmptyList(es[i]) && FirstTyped(es, k) {
        FilledAt(h, es, k, k);
        PromotedEmpty(h, es, es[k], SiblingVariant(es).value);
      }
    }
  }

  // ---- What is refused ----

  ghost predicate IsScalar(v: Value) {
    v.BoolValue? || v.IntValue? || v.FloatValue? || v.StringValue? || v.PathValue?
  }

  ghost predicate SameKind(a: Value, b: Value) {
    || (a.BoolValue? && b.BoolValue?) || (a.IntValue? && b.IntValue?) || (a.FloatValue? && b.FloatValue?)
    || (a.StringValue? && b.StringValue?) || (a.PathValue? && b.PathValue?)
  }

  ghost predicate NumbersMixed(es: seq<Value>) {
    (exists i :: 0 <= i < |es| && es[i].IntValue?) && exists i :: 0 <= i < |es| && es[i].FloatValue?
  }

  ghost predicate TextsMixed(es: seq<Value>) {
    (exists i :: 0 <= i < |es| && es[i].PathValue?) && exists i :: 0 <= i < |es| && es[i].StringValue?
  }

  ghost predicate ListsMixed(es: seq<Value>) {
    (BesideInts(es) && BesideFloats(es)) || (BesidePaths(es) && BesideStrings(es))
  }

  /** The elements do not go together: a third kind among ints and floats; or, unless a promotion applies, a
      scalar first and another kind after it; or a null first. */
  ghost predicate Clashing(es: seq<Value>)
    requires es != []
  {
    if NumbersMixed(es) then exists i :: 0 <= i < |es| && !es[i].IntValue? && !es[i].FloatValue?
    else if ListsMixed(es) || TextsMixed(es) then false
    else es[0].Null? || (IsScalar(es[0]) && exists i :: 0 <= i < |es| && !SameKind(es[0], es[i]))
  }

  lemma FilledClash(h: Host, es: seq<Value>)
    requires es != [] && NoneDeep(es)
    ensures var fs := FillEmpties(h, es);
            && (NumbersMixed(fs) <==> NumbersMixed(es)) && (TextsMixed(fs) <==> TextsMixed(es))
            && (HasListOf(fs, Int) && HasListOf(fs, Float) <==> BesideInts(es) && BesideFloats(es))
            && (HasListOf(fs, Path) && HasListOf(fs, String) <==> BesidePaths(es) && BesideStrings(es))
  {
    FilledScalars(h, es);
    KindsSeen(es);
    FilledKinds(h, es, Int);
    FilledKinds(h, es, Float);
    FilledKinds(h, es, Path);
    FilledKinds(h, es, String);
  }

  lemma FilledScalars(h: Host, es: seq<Value>)
    ensures forall i :: 0 <= i < |es| ==>
              var f := FillEmpties(h, es)[i]; if IsList(es[i]) then IsList(f) else f == es[i]
  {
    var k := TypedOrNone(es, 0);
    forall i | 0 <= i < |es|
      ensures var f := FillEmpties(h, es)[i]; if IsList(es[i]) then IsList(f) else f == es[i]
    {
      FilledAt(h, es, i, k);
    }
  }

  lemma UniformRefuses(fs: seq<Value>)
    requires fs != [] && !TextsMixed(fs) && forall i :: 0 <= i < |fs| ==> !fs[i].UnresolvedValue?
    ensures Uniform(fs).None? <==>
            fs[0].Null? || (IsScalar(fs[0]) && exists i :: 0 <= i < |fs| && !SameKind(fs[0], fs[i]))
  {}

  lemma SameClash(es: seq<Value>, fs: seq<Value>)
    requires es != [] && |fs| == |es|
    requires forall i :: 0 <= i < |es| ==> if IsList(es[i]) then IsList(fs[i]) else fs[i] == es[i]
    ensures (exists i :: 0 <= i < |es| && !SameKind(es[0], es[i])) <==>
            exists i :: 0 <= i < |fs| && !SameKind(fs[0], fs[i])
    ensures (exists i :: 0 <= i < |es| && !es[i].IntValue? && !es[i].FloatValue?) <==>
            exists i :: 0 <= i < |fs| && !fs[i].IntValue? && !fs[i].FloatValue?
    ensures (es[0].Null? <==> fs[0].Null?) && (IsScalar(es[0]) <==> IsScalar(fs[0]))
  {}

  lemma NumbersRefused(h: Host, fs: seq<Value>)
    requires fs != [] && NumbersMixed(fs)
    ensures Assemble(h, fs).None? <==> exists i :: 0 <= i < |fs| && !fs[i].IntValue? && !fs[i].FloatValue?
  {
    var ps := Map(fs, e => PromoteInt(h, e));
    forall i | 0 <= i < |fs| ensures ps[i].FloatValue? <==> fs[i].IntValue? || fs[i].FloatValue? {}
  }

  lemma AssembleRefuses(h: Host, es: seq<Value>, fs: seq<Value>)
    requires es != [] && NoneDeep(es) && fs == FillEmpties(h, es)
    requires forall i :: 0 <= i < |es| ==> !es[i].UnresolvedValue?
    ensures Assemble(h, fs).None? <==> Clashing(es)
  {
    FilledScalars(h, es);
    FilledClash(h, es);
    SameClash(es, fs);
    if NumbersMixed(es) { NumbersRefused(h, fs); } else if !TextsMixed(es) { UniformRefuses(fs); }
  }

  /** Nothing else is refused: a list is made unless an element is a list of lists or unresolved, or the
      elements do not go together. */
  lemma RefusesExactly(h: Host, es: seq<Value>, hint: ExprType)
    ensures MakeListValue(h, es, hint).None? <==>
            || (exists i :: 0 <= i < |es| && es[i].ListList? && es[i].elemType != NullType)
            || (exists i :: 0 <= i < |es| && es[i].UnresolvedValue?)
            || (es != [] && Clashing(es))
  {
    if NoneDeep(es) && es != [] && forall i :: 0 <= i < |es| ==> !es[i].UnresolvedValue? {
      AssembleRefuses(h, es, FillEmpties(h, es));
    }
  }
}
