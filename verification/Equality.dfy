/** Equality, ordering and hashing of values. */
module ValueEquality {
  import opened Wrappers
  import opened Sequences
  import opened IntRanges
  import opened ExprTypes
  import opened ExprValues
  import opened Coercion

  // ---- Integers against floats ----

  const I64_LIMIT: real := 9223372036854775808.0

  /** `float_as_exact_i64`. */
  function ExactInt(v: real): Option<i64> {
    if v.Floor as real == v && -I64_LIMIT <= v < I64_LIMIT then Some(v.Floor as i64) else None
  }

  predicate IntFloatEq(i: i64, v: real) {
    ExactInt(v) == Some(i)
  }

  datatype Ordering = Less | Equal | Greater

  function Trunc(v: real): int {
    if v >= 0.0 then v.Floor else -((-v).Floor)
  }

  function CompareInts(a: int, b: int): Ordering {
    if a < b then Less else if a == b then Equal else Greater
  }

  function CompareReals(a: real, b: real): Ordering {
    if a < b then Less else if a == b then Equal else Greater
  }

  /** `int_float_cmp`: whole parts first, the fraction breaks ties. */
  function IntFloatCmp(i: i64, v: real): Ordering {
    if v >= I64_LIMIT then Less
    else if v < -I64_LIMIT then Greater
    else
      var whole := CompareInts(i as int, Trunc(v));
      if whole != Equal then whole
      else CompareReals(0.0, v - Trunc(v) as real)
  }

  /** Both are exact on the reals. */
  lemma IntFloatExact(i: i64, v: real)
    ensures IntFloatEq(i, v) <==> i as int as real == v
    ensures IntFloatCmp(i, v) == CompareReals(i as int as real, v)
  {
    var n := i as int;
    assert n as real == v ==> v.Floor == n;
    if v >= 0.0 {
      assert v.Floor as real <= v < v.Floor as real + 1.0;
    } else {
      var w := (-v).Floor;
      assert w as real <= -v < w as real + 1.0;
    }
  }

  // ---- Equality ----

  /** Nesting; typed lists hold scalars only. */
  function Height(v: Value): nat {
    match v
    case ListList(es, _) => 2 + MaxHeight(es)
    case _ => if IsList(v) then 1 else 0
  }

  function MaxHeight(es: seq<Value>): nat {
    if es == [] then 0
    else
      var rest := MaxHeight(es[1..]);
      if Height(es[0]) > rest then Height(es[0]) else rest
  }

  lemma {:induction false} MaxHeightBound(es: seq<Value>, i: nat)
    requires i < |es|
    ensures Height(es[i]) <= MaxHeight(es)
  {
    if i == 0 {
    } else {
      MaxHeightBound(es[1..], i - 1);
    }
  }

  lemma ElementHeight(h: Host, v: Value, i: nat)
    requires IsList(v) && i < |ListElements(h, v)|
    ensures Height(ListElements(h, v)[i]) < Height(v)
  {
    if v.ListList? { MaxHeightBound(v.elements, i); }
  }

  ghost predicate Below(es: seq<Value>, n: nat) {
    forall i :: 0 <= i < |es| ==> Height(es[i]) < n
  }

  lemma ElementsBelow(h: Host, v: Value)
    requires IsList(v)
    ensures Below(ListElements(h, v), Height(v))
  {
    forall i | 0 <= i < |ListElements(h, v)| ensures Height(ListElements(h, v)[i]) < Height(v) {
      ElementHeight(h, v, i);
    }
  }

  predicate IsText(v: Value) {
    v.StringValue? || v.PathValue?
  }

  function PlainText(v: Value): string
    requires IsText(v)
  {
    match v case StringValue(s) => s case PathValue(p, _) => p
  }

  /** `equals`, with the same-variant shortcuts the source takes. */
  predicate Equals(h: Host, a: Value, b: Value)
    decreases Height(a), 1
  {
    if a.IntValue? && b.FloatValue? then IntFloatEq(a.i, b.f)
    else if a.FloatValue? && b.IntValue? then IntFloatEq(b.i, a.f)
    else if IsText(a) && IsText(b) then PlainText(a) == PlainText(b)
    else if a.ListBool? && b.ListBool? then a.bools == b.bools
    else if a.ListInt? && b.ListInt? then a.ints == b.ints
    else if a.ListFloat? && b.ListFloat? then a.floats == b.floats
    else if a.ListString? && b.ListString? then a.strings == b.strings
    else if IsList(a) && IsList(b) then
      ElementsBelow(h, a);
      AllEqual(h, Height(a), ListElements(h, a), ListElements(h, b))
    else if a.ListInt? && b.RangeValue? then SameInts(a.ints, b.r)
    else if a.RangeValue? && b.ListInt? then SameInts(b.ints, a.r)
    else if a.RangeValue? && b.RangeValue? then a.r.ranges == b.r.ranges
    else (a.Null? || a.BoolValue? || a.IntValue? || a.FloatValue? || a.UnresolvedValue?) && a == b
  }

  predicate SameInts(ints: seq<i64>, r: ValidRange) {
    ints == ToVec(r)
  }

  /** The generic walk over the elements of two lists. */
  predicate AllEqual(h: Host, n: nat, x: seq<Value>, y: seq<Value>)
    requires Below(x, n)
    decreases n, 0, |x| + 1
  {
    |x| == |y| && EqualFrom(h, n, x, y, 0)
  }

  predicate EqualFrom(h: Host, n: nat, x: seq<Value>, y: seq<Value>, k: nat)
    requires Below(x, n) && |x| == |y|
    decreases n, 0, |x| - k
  {
    k < |x| ==> Equals(h, x[k], y[k]) && EqualFrom(h, n, x, y, k + 1)
  }

  // ---- What a value amounts to ----

  /** Numbers by their real value, text without its kind, lists by their elements. */
  datatype Content =
    | CNull
    | CBool(b: bool)
    | CNumber(x: real)
    | CText(s: string)
    | CList(es: seq<Content>)
    | CRange(rs: seq<IntRange>)
    | CUnresolved(t: ExprType)

  function ContentOf(h: Host, v: Value): Content
    decreases Height(v), 1
  {
    match v
    case Null => CNull
    case BoolValue(b) => CBool(b)
    case IntValue(i) => CNumber(i as int as real)
    case FloatValue(f) => CNumber(f)
    case StringValue(s) => CText(s)
    case PathValue(p, _) => CText(p)
    case RangeValue(r) => CRange(r.ranges)
    case UnresolvedValue(t) => CUnresolved(t)
    case _ =>
      ElementsBelow(h, v);
      CList(Contents(h, Height(v), ListElements(h, v)))
  }

  function Contents(h: Host, n: nat, es: seq<Value>): (r: seq<Content>)
    requires Below(es, n)
    ensures |r| == |es| && forall i :: 0 <= i < |es| ==> r[i] == ContentOf(h, es[i])
    decreases n, 0
  {
    seq(|es|, i requires 0 <= i < |es| => ContentOf(h, es[i]))
  }

  /** A list of ints stands somewhere against a range. */
  predicate Mixes(h: Host, a: Value, b: Value)
    decreases Height(a)
  {
    || (a.ListInt? && b.RangeValue?)
    || (a.RangeValue? && b.ListInt?)
    || (IsList(a) && IsList(b) &&
        var x, y := ListElements(h, a), ListElements(h, b);
        exists i | 0 <= i < |x| && i < |y| :: ElementHeight(h, a, i); Mixes(h, x[i], y[i]))
  }

  lemma {:induction false} EqualFromAll(h: Host, n: nat, x: seq<Value>, y: seq<Value>, k: nat)
    requires Below(x, n) && |x| == |y|
    ensures EqualFrom(h, n, x, y, k) <==> forall i :: k <= i < |x| ==> Equals(h, x[i], y[i])
    decreases |x| - k
  {
    if k < |x| { EqualFromAll(h, n, x, y, k + 1); }
  }

  /** Element by element. */
  ghost predicate SameElements(h: Host, x: seq<Value>, y: seq<Value>) {
    |x| == |y| && forall i :: 0 <= i < |x| ==> ContentOf(h, x[i]) == ContentOf(h, y[i])
  }

  lemma ListContents(h: Host, a: Value, b: Value)
    requires IsList(a) && IsList(b)
    ensures ContentOf(h, a) == ContentOf(h, b) <==> SameElements(h, ListElements(h, a), ListElements(h, b))
  {
    ElementsBelow(h, a);
    ElementsBelow(h, b);
    SameContents(h, Height(a), Height(b), ListElements(h, a), ListElements(h, b));
  }

  lemma SameContents(h: Host, n: nat, m: nat, x: seq<Value>, y: seq<Value>)
    requires Below(x, n) && Below(y, m)
    ensures Contents(h, n, x) == Contents(h, m, y) <==> SameElements(h, x, y)
  {
    var c, d := Contents(h, n, x), Contents(h, m, y);
    if c == d {
      forall i | 0 <= i < |x| ensures ContentOf(h, x[i]) == ContentOf(h, y[i]) {
        assert c[i] == d[i];
      }
    }
  }

  predicate SameVariant(a: Value, b: Value) {
    || (a.ListBool? && b.ListBool?) || (a.ListInt? && b.ListInt?)
    || (a.ListFloat? && b.ListFloat?) || (a.ListString? && b.ListString?)
  }

  /** The same-variant shortcuts decide what the generic walk would. */
  lemma ShortcutsAgree(h: Host, a: Value, b: Value)
    requires SameVariant(a, b)
    ensures Below(ListElements(h, a), Height(a))
    ensures Equals(h, a, b) <==> AllEqual(h, Height(a), ListElements(h, a), ListElements(h, b))
    ensures Equals(h, a, b) <==> SameElements(h, ListElements(h, a), ListElements(h, b))
  {
    ElementsBelow(h, a);
    var x, y := ListElements(h, a), ListElements(h, b);
    assert Equals(h, a, b) <==> a == b;
    if |x| == |y| {
      EqualFromAll(h, Height(a), x, y, 0);
      forall i | 0 <= i < |x|
        ensures Equals(h, x[i], y[i]) <==> x[i] == y[i]
        ensures ContentOf(h, x[i]) == ContentOf(h, y[i]) <==> x[i] == y[i]
      {
        SameKindScalars(h, x[i], y[i]);
      }
      if x == y { SameTyped(h, a, b); }
    }
  }

  lemma SameKindScalars(h: Host, a: Value, b: Value)
    requires || (a.BoolValue? && b.BoolValue?) || (a.IntValue? && b.IntValue?)
             || (a.FloatValue? && b.FloatValue?) || (a.StringValue? && b.StringValue?)
    ensures Equals(h, a, b) <==> a == b
    ensures ContentOf(h, a) == ContentOf(h, b) <==> a == b
  {}

  lemma SameTyped(h: Host, a: Value, b: Value)
    requires SameVariant(a, b) && ListElements(h, a) == ListElements(h, b)
    ensures a == b
  {
    var x := ListElements(h, a);
    if a.ListBool? {
      forall i | 0 <= i < |x| ensures a.bools[i] == b.bools[i] { assert x[i] == BoolValue(b.bools[i]); }
    } else if a.ListInt? {
      forall i | 0 <= i < |x| ensures a.ints[i] == b.ints[i] { assert x[i] == IntValue(b.ints[i]); }
    } else if a.ListFloat? {
      forall i | 0 <= i < |x| ensures a.floats[i] == b.floats[i] { assert x[i] == FloatValue(b.floats[i]); }
    } else {
      forall i | 0 <= i < |x| ensures a.strings[i] == b.strings[i] { assert x[i] == StringValue(b.strings[i]); }
    }
  }

  lemma NoMixWithin(h: Host, a: Value, b: Value, i: nat)
    requires IsList(a) && IsList(b) && !Mixes(h, a, b)
    requires i < |ListElements(h, a)| && i < |ListElements(h, b)|
    ensures !Mixes(h, ListElements(h, a)[i], ListElements(h, b)[i])
  {}

  /** Equality is sameness of content, as long as no list of ints meets a range. */
  lemma {:induction false} EqualsContent(h: Host, a: Value, b: Value)
    requires !Mixes(h, a, b)
    ensures Equals(h, a, b) <==> ContentOf(h, a) == ContentOf(h, b)
    decreases Height(a)
  {
    if IsList(a) && IsList(b) {
      ListEqualsContent(h, a, b);
    } else if IsList(a) || IsList(b) {
      OneList(h, a, b);
    } else {
      ScalarEqualsContent(h, a, b);
    }
  }

  lemma OneList(h: Host, a: Value, b: Value)
    requires !Mixes(h, a, b) && IsList(a) != IsList(b)
    ensures !Equals(h, a, b) && ContentOf(h, a) != ContentOf(h, b)
  {}

  lemma ScalarEqualsContent(h: Host, a: Value, b: Value)
    requires !IsList(a) && !IsList(b)
    ensures Equals(h, a, b) <==> ContentOf(h, a) == ContentOf(h, b)
  {
    if a.IntValue? && b.FloatValue? {
      IntFloatExact(a.i, b.f);
    } else if a.FloatValue? && b.IntValue? {
      IntFloatExact(b.i, a.f);
    }
  }

  lemma {:induction false} ListEqualsContent(h: Host, a: Value, b: Value)
    requires !Mixes(h, a, b) && IsList(a) && IsList(b)
    ensures Equals(h, a, b) <==> ContentOf(h, a) == ContentOf(h, b)
    decreases Height(a), 0
  {
    ListContents(h, a, b);
    var x, y := ListElements(h, a), ListElements(h, b);
    if SameVariant(a, b) {
      ShortcutsAgree(h, a, b);
    } else if |x| == |y| {
      ElementsBelow(h, a);
      EqualFromAll(h, Height(a), x, y, 0);
      forall i | 0 <= i < |x| ensures Equals(h, x[i], y[i]) <==> ContentOf(h, x[i]) == ContentOf(h, y[i]) {
        ElementHeight(h, a, i);
        NoMixWithin(h, a, b, i);
        EqualsContent(h, x[i], y[i]);
      }
    }
  }

  // ---- An equivalence ----

  ghost predicate RangeFree(h: Host, v: Value)
    decreases Height(v)
  {
    !v.RangeValue? &&
    (IsList(v) ==>
       var x := ListElements(h, v);
       forall i | 0 <= i < |x| :: ElementHeight(h, v, i); RangeFree(h, x[i]))
  }

  lemma {:induction false} RangeFreeUnmixed(h: Host, a: Value, b: Value)
    requires RangeFree(h, a) && RangeFree(h, b)
    ensures !Mixes(h, a, b)
    decreases Height(a)
  {
    if IsList(a) && IsList(b) {
      var x, y := ListElements(h, a), ListElements(h, b);
      forall i | 0 <= i < |x| && i < |y| ensures !Mixes(h, x[i], y[i]) {
        ElementHeight(h, a, i);
        RangeFreeUnmixed(h, x[i], y[i]);
      }
    }
  }

  /** On values without ranges, equality is an equivalence relation. */
  lemma EqualsEquivalence(h: Host, a: Value, b: Value, c: Value)
    requires RangeFree(h, a) && RangeFree(h, b) && RangeFree(h, c)
    ensures Equals(h, a, a)
    ensures Equals(h, a, b) ==> Equals(h, b, a)
    ensures Equals(h, a, b) && Equals(h, b, c) ==> Equals(h, a, c)
  {
    RangeFreeUnmixed(h, a, a);
    EqualsContent(h, a, a);
    RangeFreeUnmixed(h, a, b);
    EqualsContent(h, a, b);
    RangeFreeUnmixed(h, b, a);
    EqualsContent(h, b, a);
    RangeFreeUnmixed(h, b, c);
    EqualsContent(h, b, c);
    RangeFreeUnmixed(h, a, c);
    EqualsContent(h, a, c);
  }

  // ---- Hashing ----

  /** What is fed to the hasher, piece by piece. */
  datatype Token =
    | Tag(n: nat)
    | BoolData(b: bool)
    | IntData(i: i64)
    | FloatData(f: real)
    | TextData(s: string)
    | RangeData(rs: seq<IntRange>)
    | TypeData(t: ExprType)

  function NumberFeed(x: real): seq<Token> {
    match ExactInt(x)
    case Some(i) => [Tag(2), IntData(i)]
    case None => [Tag(12), FloatData(x)]
  }

  /** The `Hash` impl: paths of a list as they are stored. */
  function Feed(v: Value): seq<Token>
    decreases v, 1
  {
    match v
    case Null => [Tag(0)]
    case BoolValue(b) => [Tag(1), BoolData(b)]
    case IntValue(i) => [Tag(2), IntData(i)]
    case FloatValue(f) => NumberFeed(f)
    case StringValue(s) => [Tag(3), TextData(s)]
    case PathValue(p, _) => [Tag(3), TextData(p)]
    case ListBool(bs) => [Tag(4)] + Concat(seq(|bs|, i requires 0 <= i < |bs| => [Tag(1), BoolData(bs[i])]))
    case ListInt(xs) => [Tag(4)] + Concat(seq(|xs|, i requires 0 <= i < |xs| => [Tag(2), IntData(xs[i])]))
    case ListFloat(xs) => [Tag(4)] + Concat(seq(|xs|, i requires 0 <= i < |xs| => NumberFeed(xs[i])))
    case ListString(ss) => [Tag(4)] + Concat(seq(|ss|, i requires 0 <= i < |ss| => [Tag(3), TextData(ss[i])]))
    case ListPath(ps, _) => [Tag(4)] + Concat(seq(|ps|, i requires 0 <= i < |ps| => [Tag(3), TextData(ps[i])]))
    case ListList(es, _) => [Tag(4)] + Concat(seq(|es|, i requires 0 <= i < |es| => Feed(es[i])))
    case RangeValue(r) => [Tag(10), RangeData(r.ranges)]
    case UnresolvedValue(t) => [Tag(11), TypeData(t)]
  }

  function Concat(ss: seq<seq<Token>>): seq<Token> {
    if ss == [] then [] else ss[0] + Concat(ss[1..])
  }

  /** The same, read off the content. */
  function ContentFeed(c: Content): seq<Token>
    decreases c
  {
    match c
    case CNull => [Tag(0)]
    case CBool(b) => [Tag(1), BoolData(b)]
    case CNumber(x) => NumberFeed(x)
    case CText(s) => [Tag(3), TextData(s)]
    case CList(es) => [Tag(4)] + Concat(seq(|es|, i requires 0 <= i < |es| => ContentFeed(es[i])))
    case CRange(rs) => [Tag(10), RangeData(rs)]
    case CUnresolved(t) => [Tag(11), TypeData(t)]
  }

  /** Paths of a list are stored with their separators normalized for the list's format. A list built from paths
      of several formats need not be: it takes the first one's format and keeps the others as they are. */
  ghost predicate PathsNormal(h: Host, v: Value)
    decreases v
  {
    match v
    case ListPath(ps, fmt) => forall i :: 0 <= i < |ps| ==> h.normalizePath(ps[i], fmt) == ps[i]
    case ListList(es, _) => forall i :: 0 <= i < |es| ==> PathsNormal(h, es[i])
    case _ => true
  }

  lemma IntFeed(i: i64)
    ensures NumberFeed(i as int as real) == [Tag(2), IntData(i)]
  {
    IntFloatExact(i, i as int as real);
  }

  ghost function ElementFeeds(h: Host, v: Value): (r: seq<seq<Token>>)
    requires IsList(v)
  {
    var es := ListElements(h, v);
    seq(|es|, i requires 0 <= i < |es| => Feed(es[i]))
  }

  /** A list feeds what its elements feed. */
  lemma ListFeed(h: Host, v: Value)
    requires IsList(v) && PathsNormal(h, v)
    ensures Feed(v) == [Tag(4)] + Concat(ElementFeeds(h, v))
  {
    var fs := ElementFeeds(h, v);
    match v {
      case ListBool(bs) =>
        assert fs == seq(|bs|, i requires 0 <= i < |bs| => [Tag(1), BoolData(bs[i])]);
      case ListInt(xs) =>
        assert fs == seq(|xs|, i requires 0 <= i < |xs| => [Tag(2), IntData(xs[i])]);
      case ListFloat(xs) =>
        assert fs == seq(|xs|, i requires 0 <= i < |xs| => NumberFeed(xs[i]));
      case ListString(ss) =>
        assert fs == seq(|ss|, i requires 0 <= i < |ss| => [Tag(3), TextData(ss[i])]);
      case ListPath(ps, _) =>
        assert fs == seq(|ps|, i requires 0 <= i < |ps| => [Tag(3), TextData(ps[i])]);
      case ListList(es, _) =>
        assert fs == seq(|es|, i requires 0 <= i < |es| => Feed(es[i]));
    }
  }

  lemma PathsNormalWithin(h: Host, v: Value, i: nat)
    requires IsList(v) && PathsNormal(h, v) && i < |ListElements(h, v)|
    ensures PathsNormal(h, ListElements(h, v)[i])
  {}

  /** Hashing depends on content alone. */
  lemma {:induction false} FeedContent(h: Host, v: Value)
    requires PathsNormal(h, v)
    ensures Feed(v) == ContentFeed(ContentOf(h, v))
    decreases Height(v)
  {
    if v.IntValue? {
      IntFeed(v.i);
    } else if IsList(v) {
      ListFeed(h, v);
      ListFeedContent(h, v);
    }
  }

  lemma {:induction false} ListFeedContent(h: Host, v: Value)
    requires PathsNormal(h, v) && IsList(v)
    ensures [Tag(4)] + Concat(ElementFeeds(h, v)) == ContentFeed(ContentOf(h, v))
    decreases Height(v), 0
  {
    var es := ListElements(h, v);
    var cs := ContentOf(h, v).es;
    forall i | 0 <= i < |es| ensures Feed(es[i]) == ContentFeed(cs[i]) {
      ElementHeight(h, v, i);
      PathsNormalWithin(h, v, i);
      FeedContent(h, es[i]);
    }
    assert ElementFeeds(h, v) == seq(|cs|, i requires 0 <= i < |cs| => ContentFeed(cs[i]));
  }

  // ---- Equal values hash alike, exactly when no list of ints met a range ----

  ghost predicate Diverges(f: seq<Token>, g: seq<Token>) {
    exists k :: 0 <= k < |f| && k < |g| && f[k] != g[k]
  }

  lemma DivergesFrom(p: seq<Token>, f: seq<Token>, g: seq<Token>, x: seq<Token>, y: seq<Token>)
    requires Diverges(f, g)
    ensures Diverges(p + (f + x), p + (g + y))
  {
    var k :| 0 <= k < |f| && k < |g| && f[k] != g[k];
    assert (p + (f + x))[|p| + k] == f[k] && (p + (g + y))[|p| + k] == g[k];
  }

  /** Concatenations diverge at the first parts that do. */
  lemma {:induction false} ConcatDiverges(fs: seq<seq<Token>>, gs: seq<seq<Token>>, j: nat)
    requires |fs| == |gs| && j < |fs| && Diverges(fs[j], gs[j])
    requires forall i :: 0 <= i < j ==> fs[i] == gs[i] || Diverges(fs[i], gs[i])
    ensures Diverges(Concat(fs), Concat(gs))
    decreases j
  {
    if Diverges(fs[0], gs[0]) {
      DivergesFrom([], fs[0], gs[0], Concat(fs[1..]), Concat(gs[1..]));
      assert [] + Concat(fs) == Concat(fs) && [] + Concat(gs) == Concat(gs);
    } else {
      assert fs[0] == gs[0];
      ConcatDiverges(fs[1..], gs[1..], j - 1);
      DivergesFrom(fs[0], Concat(fs[1..]), Concat(gs[1..]), [], []);
      assert Concat(fs[1..]) + [] == Concat(fs[1..]) && Concat(gs[1..]) + [] == Concat(gs[1..]);
    }
  }

  lemma ListsWalked(h: Host, a: Value, b: Value)
    requires IsList(a) && IsList(b) && Equals(h, a, b)
    ensures |ListElements(h, a)| == |ListElements(h, b)|
    ensures forall i :: 0 <= i < |ListElements(h, a)| ==> Equals(h, ListElements(h, a)[i], ListElements(h, b)[i])
  {
    if SameVariant(a, b) {
      ShortcutsAgree(h, a, b);
    }
    ElementsBelow(h, a);
    EqualFromAll(h, Height(a), ListElements(h, a), ListElements(h, b), 0);
  }

  lemma ListDiverges(h: Host, a: Value, b: Value, j: nat)
    requires IsList(a) && IsList(b) && PathsNormal(h, a) && PathsNormal(h, b)
    requires |ElementFeeds(h, a)| == |ElementFeeds(h, b)| && j < |ElementFeeds(h, a)|
    requires Diverges(ElementFeeds(h, a)[j], ElementFeeds(h, b)[j])
    requires forall i :: 0 <= i < j ==>
               ElementFeeds(h, a)[i] == ElementFeeds(h, b)[i] || Diverges(ElementFeeds(h, a)[i], ElementFeeds(h, b)[i])
    ensures Diverges(Feed(a), Feed(b))
  {
    var fs, gs := ElementFeeds(h, a), ElementFeeds(h, b);
    ConcatDiverges(fs, gs, j);
    ListFeed(h, a);
    ListFeed(h, b);
    DivergesFrom([Tag(4)], Concat(fs), Concat(gs), [], []);
    assert Concat(fs) + [] == Concat(fs) && Concat(gs) + [] == Concat(gs);
  }

  lemma {:induction false} ElementDiverges(h: Host, a: Value, b: Value, i: nat)
    requires IsList(a) && IsList(b) && PathsNormal(h, a) && PathsNormal(h, b)
    requires i < |ListElements(h, a)| && i < |ListElements(h, b)|
    requires Equals(h, ListElements(h, a)[i], ListElements(h, b)[i])
    ensures ElementFeeds(h, a)[i] == ElementFeeds(h, b)[i] || Diverges(ElementFeeds(h, a)[i], ElementFeeds(h, b)[i])
    ensures Mixes(h, ListElements(h, a)[i], ListElements(h, b)[i]) ==>
            Diverges(ElementFeeds(h, a)[i], ElementFeeds(h, b)[i])
    decreases Height(a), 0
  {
    var x, y := ListElements(h, a)[i], ListElements(h, b)[i];
    ElementHeight(h, a, i);
    PathsNormalWithin(h, a, i);
    PathsNormalWithin(h, b, i);
    if Mixes(h, x, y) {
      MixedDiverges(h, x, y);
    } else {
      UnmixedFeeds(h, x, y);
    }
  }

  lemma {:induction false} MixedDiverges(h: Host, a: Value, b: Value)
    requires Equals(h, a, b) && Mixes(h, a, b) && PathsNormal(h, a) && PathsNormal(h, b)
    ensures Diverges(Feed(a), Feed(b))
    decreases Height(a), 1
  {
    if IsList(a) && IsList(b) {
      ListsWalked(h, a, b);
      var x, y := ListElements(h, a), ListElements(h, b);
      var j :| 0 <= j < |x| && Mixes(h, x[j], y[j]);
      forall i | 0 <= i <= j
        ensures ElementFeeds(h, a)[i] == ElementFeeds(h, b)[i] || Diverges(ElementFeeds(h, a)[i], ElementFeeds(h, b)[i])
      {
        ElementDiverges(h, a, b, i);
      }
      ElementDiverges(h, a, b, j);
      ListDiverges(h, a, b, j);
    } else {
      assert Feed(a)[0] != Feed(b)[0];
    }
  }

  lemma UnmixedFeeds(h: Host, a: Value, b: Value)
    requires Equals(h, a, b) && !Mixes(h, a, b) && PathsNormal(h, a) && PathsNormal(h, b)
    ensures Feed(a) == Feed(b)
  {
    EqualsContent(h, a, b);
    FeedContent(h, a);
    FeedContent(h, b);
  }

  /** Equal values feed the hasher the same data if and only if no list of ints stands against a
      range in them. */
  lemma EqualHash(h: Host, a: Value, b: Value)
    requires Equals(h, a, b) && PathsNormal(h, a) && PathsNormal(h, b)
    ensures Feed(a) == Feed(b) <==> !Mixes(h, a, b)
  {
    if Mixes(h, a, b) {
      MixedDiverges(h, a, b);
    } else {
      UnmixedFeeds(h, a, b);
    }
  }

  // ---- Charging for comparisons ----

  /** Element comparisons made until the first mismatch; none when the lengths differ. */
  function Compared<T(==)>(a: seq<T>, b: seq<T>): nat {
    if |a| != |b| then 0 else ComparedFrom(a, b, 0)
  }

  function ComparedFrom<T(==)>(a: seq<T>, b: seq<T>, k: nat): nat
    requires |a| == |b|
    decreases |a| - k
  {
    if k >= |a| then 0 else if a[k] == b[k] then 1 + ComparedFrom(a, b, k + 1) else 1
  }

  /** `primitive_lists_eq` against a budget of operations. */
  method PrimitiveListsEq<T(==)>(a: seq<T>, b: seq<T>, budget: nat) returns (r: Option<bool>, left: nat)
    ensures r.Some? <==> Compared(a, b) <= budget
    ensures r.Some? ==> r.value == (a == b) && left == budget - Compared(a, b)
  {
    left := budget;
    if |a| != |b| { return Some(false), left; }
    for i := 0 to |a|
      invariant forall k :: 0 <= k < i ==> a[k] == b[k]
      invariant left <= budget && budget - left + ComparedFrom(a, b, i) == Compared(a, b)
    {
      if left == 0 { return None, left; }
      left := left - 1;
      if a[i] != b[i] { return Some(false), left; }
    }
    return Some(true), left;
  }

  /** What a comparison costs. */
  function Cost(h: Host, a: Value, b: Value): nat
    decreases Height(a), 1
  {
    if a.ListBool? && b.ListBool? then Compared(a.bools, b.bools)
    else if a.ListInt? && b.ListInt? then Compared(a.ints, b.ints)
    else if a.ListFloat? && b.ListFloat? then Compared(a.floats, b.floats)
    else if a.ListString? && b.ListString? then Compared(a.strings, b.strings)
    else if IsList(a) && IsList(b) then
      ElementsBelow(h, a);
      WalkCost(h, Height(a), ListElements(h, a), ListElements(h, b))
    else if a.ListInt? && b.RangeValue? then Compared(a.ints, ToVec(b.r))
    else if a.RangeValue? && b.ListInt? then Compared(b.ints, ToVec(a.r))
    else 0
  }

  function WalkCost(h: Host, n: nat, x: seq<Value>, y: seq<Value>): nat
    requires Below(x, n)
    decreases n, 0, |x| + 1
  {
    if |x| != |y| then 0 else CostFrom(h, n, x, y, 0)
  }

  function CostFrom(h: Host, n: nat, x: seq<Value>, y: seq<Value>, k: nat): nat
    requires Below(x, n) && |x| == |y|
    decreases n, 0, |x| - k
  {
    if k >= |x| then 0
    else 1 + Cost(h, x[k], y[k]) + if Equals(h, x[k], y[k]) then CostFrom(h, n, x, y, k + 1) else 0
  }

  /** `equals_charged`: the answer of `equals`, unless the budget runs out first. */
  method EqualsCharged(h: Host, a: Value, b: Value, budget: nat) returns (r: Option<bool>, left: nat)
    ensures r.Some? <==> Cost(h, a, b) <= budget
    ensures r.Some? ==> r.value == Equals(h, a, b) && left == budget - Cost(h, a, b)
    decreases Height(a), 1
  {
    if SameVariant(a, b) {
      r, left := SameVariantCharged(h, a, b, budget);
    } else if IsList(a) && IsList(b) {
      ElementsBelow(h, a);
      r, left := WalkCharged(h, Height(a), ListElements(h, a), ListElements(h, b), budget);
    } else if a.ListInt? && b.RangeValue? {
      r, left := PrimitiveListsEq(a.ints, ToVec(b.r), budget);
    } else if a.RangeValue? && b.ListInt? {
      r, left := PrimitiveListsEq(b.ints, ToVec(a.r), budget);
    } else {
      r, left := Some(Equals(h, a, b)), budget;
    }
  }

  method SameVariantCharged(h: Host, a: Value, b: Value, budget: nat) returns (r: Option<bool>, left: nat)
    requires SameVariant(a, b)
    ensures r.Some? <==> Cost(h, a, b) <= budget
    ensures r.Some? ==> r.value == Equals(h, a, b) && left == budget - Cost(h, a, b)
  {
    match a {
      case ListBool(bs) => r, left := PrimitiveListsEq(bs, b.bools, budget);
      case ListInt(xs) => r, left := PrimitiveListsEq(xs, b.ints, budget);
      case ListFloat(xs) => r, left := PrimitiveListsEq(xs, b.floats, budget);
      case ListString(ss) => r, left := PrimitiveListsEq(ss, b.strings, budget);
    }
  }

  method WalkCharged(h: Host, ghost n: nat, x: seq<Value>, y: seq<Value>, budget: nat)
      returns (r: Option<bool>, left: nat)
    requires Below(x, n)
    ensures r.Some? <==> WalkCost(h, n, x, y) <= budget
    ensures r.Some? ==> r.value == AllEqual(h, n, x, y) && left == budget - WalkCost(h, n, x, y)
    decreases n, 0
  {
    left := budget;
    if |x| != |y| { return Some(false), left; }
    for k := 0 to |x|
      invariant AllEqual(h, n, x, y) == EqualFrom(h, n, x, y, k)
      invariant left <= budget && budget - left + CostFrom(h, n, x, y, k) == WalkCost(h, n, x, y)
    {
      if left == 0 { return None, left; }
      var same, rest := EqualsCharged(h, x[k], y[k], left - 1);
      if same.None? { return None, rest; }
      left := rest;
      if !same.value { return Some(false), left; }
    }
    return Some(true), left;
  }

  // ---- Ordering ----

  function Reverse(o: Ordering): Ordering {
    match o case Less => Greater case Equal => Equal case Greater => Less
  }

  function CompareText(a: string, b: string): Ordering {
    if a == b then Equal
    else if a == "" then Less
    else if b == "" then Greater
    else if a[0] < b[0] then Less
    else if b[0] < a[0] then Greater
    else CompareText(a[1..], b[1..])
  }

  function CompareBools(a: bool, b: bool): Ordering {
    if a == b then Equal else if b then Less else Greater
  }

  /** `compare`; None where the source reports incomparable types. */
  function Compare(h: Host, a: Value, b: Value): Option<Ordering>
    decreases Height(a), 1
  {
    if a.IntValue? && b.IntValue? then Some(CompareInts(a.i as int, b.i as int))
    else if a.FloatValue? && b.FloatValue? then Some(CompareReals(a.f, b.f))
    else if a.IntValue? && b.FloatValue? then Some(IntFloatCmp(a.i, b.f))
    else if a.FloatValue? && b.IntValue? then Some(Reverse(IntFloatCmp(b.i, a.f)))
    else if a.BoolValue? && b.BoolValue? then Some(CompareBools(a.b, b.b))
    else if IsText(a) && IsText(b) then Some(CompareText(PlainText(a), PlainText(b)))
    else if IsList(a) && IsList(b) then
      ElementsBelow(h, a);
      CompareFrom(h, Height(a), ListElements(h, a), ListElements(h, b), 0)
    else None
  }

  /** Lexicographic from the k-th elements on; the shorter list comes first. */
  function CompareFrom(h: Host, n: nat, x: seq<Value>, y: seq<Value>, k: nat): Option<Ordering>
    requires Below(x, n)
    decreases n, 0, |x| - k
  {
    if k >= |x| || k >= |y| then Some(CompareInts(|x|, |y|))
    else
      match Compare(h, x[k], y[k])
      case Some(Equal) => CompareFrom(h, n, x, y, k + 1)
      case other => other
  }

  lemma {:induction false} CompareTextEqual(a: string, b: string)
    ensures CompareText(a, b) == Equal <==> a == b
    ensures CompareText(b, a) == Reverse(CompareText(a, b))
  {
    if a != b && a != "" && b != "" && a[0] == b[0] {
      CompareTextEqual(a[1..], b[1..]);
      HeadTail(a);
      HeadTail(b);
    }
  }

  /** Where two values compare, they compare as equal exactly when they are equal. */
  lemma {:induction false} CompareAgrees(h: Host, a: Value, b: Value)
    requires Compare(h, a, b).Some?
    ensures Compare(h, a, b).value == Equal <==> Equals(h, a, b)
    decreases Height(a), 2
  {
    if IsList(a) && IsList(b) {
      CompareListsAgree(h, a, b);
    } else if IsText(a) && IsText(b) {
      CompareTextEqual(PlainText(a), PlainText(b));
    } else if a.IntValue? && b.FloatValue? {
      IntFloatExact(a.i, b.f);
    } else if a.FloatValue? && b.IntValue? {
      IntFloatExact(b.i, a.f);
    }
  }

  lemma {:induction false} CompareListsAgree(h: Host, a: Value, b: Value)
    requires IsList(a) && IsList(b) && Compare(h, a, b).Some?
    ensures Compare(h, a, b).value == Equal <==> Equals(h, a, b)
    decreases Height(a), 1
  {
    ElementsBelow(h, a);
    CompareFromAgrees(h, Height(a), ListElements(h, a), ListElements(h, b), 0);
    if SameVariant(a, b) {
      ShortcutsAgree(h, a, b);
    }
  }

  lemma {:induction false} CompareFromAgrees(h: Host, n: nat, x: seq<Value>, y: seq<Value>, k: nat)
    requires Below(x, n) && k <= |x| && k <= |y| && CompareFrom(h, n, x, y, k).Some?
    ensures CompareFrom(h, n, x, y, k).value == Equal <==> |x| == |y| && EqualFrom(h, n, x, y, k)
    decreases n, 0, |x| - k
  {
    if k < |x| && k < |y| {
      CompareAgrees(h, x[k], y[k]);
      if Compare(h, x[k], y[k]) == Some(Equal) {
        CompareFromAgrees(h, n, x, y, k + 1);
      }
    }
  }
}
