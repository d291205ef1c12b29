/** `make_list` as the source runs it: one vector of elements, rewritten in place. */
module ListBuilding {
  import opened Wrappers
  import opened IntRanges
  import opened ExprTypes
  import opened ExprValues

  /** A loop over `&mut elements`. */
  method Rewrite(a: array<Value>, f: Value -> Value)
    modifies a
    ensures a[..] == Map(old(a[..]), f)
  {
    for i := 0 to a.Length
      invariant forall k :: 0 <= k < i ==> a[k] == f(old(a[k]))
      invariant forall k :: i <= k < a.Length ==> a[k] == old(a[k])
    {
      a[i] := f(a[i]);
    }
    assert a[..] == Map(old(a[..]), f);
  }

  /** `iter().any`. */
  method HasAny(es: seq<Value>, p: Value -> bool) returns (found: bool)
    ensures found <==> exists i :: 0 <= i < |es| && p(es[i])
  {
    for i := 0 to |es|
      invariant forall k :: 0 <= k < i ==> !p(es[k])
    {
      if p(es[i]) { return true; }
    }
    return false;
  }

  /** The first sibling whose type untyped empty lists take on. */
  method FindSibling(es: seq<Value>) returns (variant: Option<ExprType>)
    ensures variant == SiblingVariant(es)
  {
    for i := 0 to |es|
      invariant SiblingVariant(es) == SiblingVariant(es[i..])
    {
      assert es[i..][0] == es[i] && es[i..][1..] == es[i + 1..];
      match es[i] {
        case ListBool(v) => if v != [] { return Some(Bool); }
        case ListInt(v) => if v != [] { return Some(Int); }
        case ListFloat(_) => return Some(Float);
        case ListString(v) => if v != [] { return Some(String); }
        case ListPath(v, _) => if v != [] { return Some(Path); }
        case _ =>
      }
    }
    return None;
  }

  function Filled(h: Host, variant: ExprType): Value -> Value {
    e => if IsEmptyList(e) then TypedEmpty(h, variant) else e
  }

  lemma NothingToFill(h: Host, es: seq<Value>)
    requires forall i :: 0 <= i < |es| ==> !IsEmptyList(es[i])
    ensures FillEmpties(h, es) == es
  {}

  lemma FilledIs(h: Host, es: seq<Value>, variant: ExprType)
    requires SiblingVariant(es) == Some(variant)
    ensures FillEmpties(h, es) == Map(es, Filled(h, variant))
  {}

  /** Untyped empty lists become lists of their siblings' type. */
  method FillInPlace(h: Host, a: array<Value>)
    modifies a
    ensures a[..] == FillEmpties(h, old(a[..]))
  {
    var empties := HasAny(a[..], IsEmptyList);
    if !empties {
      NothingToFill(h, a[..]);
      return;
    }
    var variant := FindSibling(a[..]);
    if variant.Some? {
      FilledIs(h, a[..], variant.value);
      Rewrite(a, Filled(h, variant.value));
    }
  }

  predicate IsKind(t: ExprType, e: Value) {
    ListElemType(e) == Some(t)
  }

  /** `make_list`; None for the source's errors, and for the mix of int, float and a third kind that
      it does not expect. */
  method MakeList(h: Host, elements: seq<Value>, hint: ExprType) returns (r: Option<Value>)
    ensures r == MakeListValue(h, elements, hint)
  {
    var tooDeep := HasAny(elements, TooDeep);
    var unresolved := HasAny(elements, (e: Value) => e.UnresolvedValue?);
    if tooDeep || unresolved { return None; }
    if elements == [] { return Some(TypedEmpty(h, hint)); }
    var a := new Value[|elements|](i requires 0 <= i < |elements| => elements[i]);
    assert a[..] == elements;
    FillInPlace(h, a);
    r := Promote(h, a);
  }

  ghost predicate Mapped(before: seq<Value>, after: seq<Value>, f: Value -> Value) {
    |after| == |before| && forall i :: 0 <= i < |before| ==> after[i] == f(before[i])
  }

  lemma MappedOnce(before: seq<Value>, after: seq<Value>, f: Value -> Value)
    requires Mapped(before, after, f)
    ensures after == Map(before, f)
  {}

  lemma AssembleNumbers(h: Host, es: seq<Value>, after: seq<Value>)
    requires es != [] && HasInt(es) && HasFloat(es) && Mapped(es, after, e => PromoteInt(h, e))
    ensures Assemble(h, es) == Floats(after)
  {
    MappedOnce(es, after, e => PromoteInt(h, e));
  }

  lemma AssembleLists(h: Host, es: seq<Value>, after: seq<Value>)
    requires es != [] && !(HasInt(es) && HasFloat(es)) && after != []
    ensures HasListOf(es, Int) && HasListOf(es, Float) && Mapped(es, after, e => PromoteInts(h, e)) ==>
              Assemble(h, es) == Some(ListOf(after))
    ensures !(HasListOf(es, Int) && HasListOf(es, Float)) && HasListOf(es, Path) && HasListOf(es, String)
            && Mapped(es, after, e => PromotePaths(e)) ==>
              Assemble(h, es) == Some(ListOf(after))
  {
    if Mapped(es, after, e => PromoteInts(h, e)) { MappedOnce(es, after, e => PromoteInts(h, e)); }
    if Mapped(es, after, e => PromotePaths(e)) { MappedOnce(es, after, e => PromotePaths(e)); }
  }

  /** The promotions, tried in order on the filled vector. */
  method Promote(h: Host, a: array<Value>) returns (r: Option<Value>)
    requires a.Length > 0
    modifies a
    ensures r == Assemble(h, old(a[..]))
  {
    var es := a[..];
    var ints := HasAny(es, (e: Value) => e.IntValue?);
    var floats := HasAny(es, (e: Value) => e.FloatValue?);
    if ints && floats {
      Rewrite(a, e => PromoteInt(h, e));
      AssembleNumbers(h, es, a[..]);
      return Floats(a[..]);
    }
    r := PromoteLists(h, a);
  }

  method PromoteLists(h: Host, a: array<Value>) returns (r: Option<Value>)
    requires a.Length > 0 && !(HasInt(a[..]) && HasFloat(a[..]))
    modifies a
    ensures r == Assemble(h, old(a[..]))
  {
    var es := a[..];
    var listInts := HasAny(es, e => IsKind(Int, e));
    var listFloats := HasAny(es, e => IsKind(Float, e));
    if listInts && listFloats {
      Rewrite(a, e => PromoteInts(h, e));
      AssembleLists(h, es, a[..]);
      return Some(ListOf(a[..]));
    }
    r := PromoteTexts(h, a);
  }

  method PromoteTexts(h: Host, a: array<Value>) returns (r: Option<Value>)
    requires a.Length > 0 && !(HasInt(a[..]) && HasFloat(a[..]))
    requires !(HasListOf(a[..], Int) && HasListOf(a[..], Float))
    modifies a
    ensures r == Assemble(h, old(a[..]))
  {
    var es := a[..];
    var listPaths := HasAny(es, e => IsKind(Path, e));
    var listStrings := HasAny(es, e => IsKind(String, e));
    if listPaths && listStrings {
      Rewrite(a, e => PromotePaths(e));
      AssembleLists(h, es, a[..]);
      return Some(ListOf(a[..]));
    }
    var paths := HasAny(es, (e: Value) => e.PathValue?);
    var strings := HasAny(es, (e: Value) => e.StringValue?);
    return if paths && strings then Some(Texts(h, es)) else Uniform(es);
  }

  // ---- No element is lost ----

  function FloatsOf(h: Host, xs: seq<i64>): seq<real> {
    seq(|xs|, i requires 0 <= i < |xs| => h.intToFloat(xs[i]))
  }

  /** `w` is `e`, or what a promotion makes of it: the same number, text or list in a wider type. */
  ghost predicate Promotes(h: Host, e: Value, w: Value) {
    || w == e
    || (e.IntValue? && w == FloatValue(h.intToFloat(e.i)))
    || (e.ListInt? && w == ListFloat(FloatsOf(h, e.ints)))
    || (e.ListPath? && w == ListString(e.paths))
    || (e.PathValue? && w == StringValue(e.path))
    || (e.PathValue? && w.PathValue? && w.path == h.normalizePath(e.path, w.format))
    || (!e.PathValue? && !e.StringValue? && w == StringValue(h.showValue(e)))
  }

  ghost predicate AllPromote(h: Host, es: seq<Value>, ws: seq<Value>) {
    |ws| == |es| && forall i :: 0 <= i < |es| ==> Promotes(h, es[i], ws[i])
  }

  /** `fs` is `es` with some of its untyped empty lists given a type. */
  ghost predicate Refilled(h: Host, es: seq<Value>, fs: seq<Value>) {
    |fs| == |es| &&
    forall i :: 0 <= i < |es| ==>
      fs[i] == es[i] || (IsEmptyList(es[i]) && IsList(fs[i]) && ListElements(h, fs[i]) == [])
  }

  lemma FillsOnlyEmpties(h: Host, es: seq<Value>)
    ensures Refilled(h, es, FillEmpties(h, es))
  {
    var variant := SiblingVariant(es);
    if variant.Some? {
      var typed := TypedEmpty(h, variant.value);
      assert IsList(typed) && ListElements(h, typed) == [];
    }
  }

  lemma MapPromotes(h: Host, es: seq<Value>, f: Value -> Value)
    requires forall i :: 0 <= i < |es| ==> Promotes(h, es[i], f(es[i]))
    ensures AllPromote(h, es, Map(es, f))
  {}

  lemma FloatsElements(h: Host, es: seq<Value>)
    requires Floats(es).Some?
    ensures IsList(Floats(es).value) && ListElements(h, Floats(es).value) == es
  {}

  lemma UniformElements(h: Host, es: seq<Value>)
    requires es != [] && !(HasPath(es) && HasString(es)) && Uniform(es).Some?
    ensures IsList(Uniform(es).value) && AllPromote(h, es, ListElements(h, Uniform(es).value))
  {
    if es[0].FloatValue? {
      FloatsElements(h, es);
    }
  }

  lemma AssembleElements(h: Host, es: seq<Value>)
    requires es != [] && Assemble(h, es).Some?
    ensures IsList(Assemble(h, es).value) && AllPromote(h, es, ListElements(h, Assemble(h, es).value))
  {
    if HasInt(es) && HasFloat(es) {
      MapPromotes(h, es, e => PromoteInt(h, e));
      FloatsElements(h, Map(es, e => PromoteInt(h, e)));
    } else if HasListOf(es, Int) && HasListOf(es, Float) {
      MapPromotes(h, es, e => PromoteInts(h, e));
    } else if HasListOf(es, Path) && HasListOf(es, String) {
      MapPromotes(h, es, e => PromotePaths(e));
    } else if !(HasPath(es) && HasString(es)) {
      UniformElements(h, es);
    }
  }

  /** `make_list` builds a list of exactly its elements, in their order: each is kept or promoted, apart
      from untyped empty lists, which may first have become empty lists of a sibling's type. */
  lemma MakeListKeeps(h: Host, es: seq<Value>, hint: ExprType)
    requires MakeListValue(h, es, hint).Some?
    ensures var w := MakeListValue(h, es, hint).value;
            IsList(w) && exists fs :: Refilled(h, es, fs) && AllPromote(h, fs, ListElements(h, w))
  {
    if es == [] {
      var w := MakeListValue(h, es, hint).value;
      assert ListElements(h, w) == [] && Refilled(h, es, []) && AllPromote(h, [], ListElements(h, w));
    } else {
      FillsOnlyEmpties(h, es);
      AssembleElements(h, FillEmpties(h, es));
    }
  }
}
