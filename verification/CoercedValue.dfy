/** Which value coercion gives, said of the value and its outcome alone: the rows of the conversion
    table as a relation, and the outcome toward any target as the most preferred row that applies. */
module CoercedValues {
  import opened Wrappers
  import opened IntRanges
  import Ranges = RangeExprs
  import opened Decimal
  import opened ExprTypes
  import opened Satisfaction
  import opened ExprValues
  import opened ListBuilding
  import opened Coercion
  import opened CoercionSound

  // ---- The text of a number ----

  /** `d` writes `n` in digits, without leading zeros. */
  ghost predicate Writes(d: string, n: nat) {
    d != "" && AllDigits(d) && ToNat(d) == n && (|d| > 1 ==> d[0] != '0')
  }

  ghost predicate WritesInt(s: string, n: int) {
    if n < 0 then s != "" && s[0] == '-' && Writes(s[1..], -n) else Writes(s, n)
  }

  lemma {:induction false} NatWritten(n: nat)
    ensures Writes(NatText(n), n)
  {
    NatTextReadsBack(n);
    if n >= 10 {
      NatWritten(n / 10);
      var d := NatText(n / 10);
      if |d| == 1 {
        assert d[..0] == "";
        assert ToNat(d) == DigitValue(d[0]) == n / 10;
      }
      assert NatText(n)[0] == d[0];
    }
  }

  lemma {:induction false} PositiveText(d: string)
    requires d != "" && AllDigits(d) && d[0] != '0'
    ensures ToNat(d) > 0
  {
    if |d| > 1 { PositiveText(d[..|d| - 1]); } else { assert d[..0] == ""; }
  }

  /** A number has one such text. */
  lemma {:induction false} WrittenOnce(d: string, n: nat)
    requires Writes(d, n)
    ensures d == NatText(n)
  {
    var last := DigitValue(d[|d| - 1]);
    var front := d[..|d| - 1];
    assert d == front + [d[|d| - 1]] && DigitChar(last) == d[|d| - 1];
    if |d| == 1 {
      assert front == "";
    } else {
      PositiveText(front);
      WrittenOnce(front, ToNat(front));
      assert n / 10 == ToNat(front) && n % 10 == last;
    }
  }

  lemma IntWritten(s: string, n: int)
    ensures WritesInt(s, n) <==> s == IntText(n)
  {
    if n < 0 {
      NatWritten(-n);
      if WritesInt(s, n) {
        WrittenOnce(s[1..], -n);
        assert s == [s[0]] + s[1..];
      }
    } else {
      NatWritten(n);
      if WritesInt(s, n) { WrittenOnce(s, n); }
    }
  }

  // ---- The rows between scalars ----

  const TRUE_WORDS: set<string> := {"true", "yes", "on", "1"}
  const FALSE_WORDS: set<string> := {"false", "no", "off", "0"}

  /** `w` is what the text `s` spells. */
  ghost predicate Spells(h: Host, s: string, w: Value, fmt: PathFormat) {
    match w
    case BoolValue(b) => h.toLower(s) in (if b then TRUE_WORDS else FALSE_WORDS)
    case IntValue(i) => h.parseInt(s) == Some(i)
    case FloatValue(f) => h.parseFloat(s) == Some(f)
    case StringValue(t) => t == s
    case PathValue(p, f) => f == fmt && p == h.normalizePath(s, fmt)
    case RangeValue(r) => h.parseRange(s) == Some(r)
    case _ => false
  }

  /** `w` is the same number, the text of `v`, or what the text `v` spells. */
  ghost predicate Restated(h: Host, v: Value, w: Value, fmt: PathFormat) {
    match v
    case BoolValue(b) => w == StringValue(if b then "true" else "false")
    case IntValue(i) => w == FloatValue(h.intToFloat(i)) || (w.StringValue? && WritesInt(w.s, i as int))
    case FloatValue(f) => (w.IntValue? && w.i as int as real == f) || w == StringValue(h.showFloat(f))
    case StringValue(s) => Spells(h, s, w, fmt)
    case PathValue(p, _) => w == StringValue(p)
    case RangeValue(r) => w == StringValue(h.showRange(r))
    case _ => false
  }

  lemma WordsApart(h: Host, s: string, b: bool)
    ensures FromText(h, s, Bool, Posix) == Some(BoolValue(b)) <==>
            h.toLower(s) in (if b then TRUE_WORDS else FALSE_WORDS)
  {}

  lemma IntegralFloat(f: real, i: i64)
    ensures FloatToInt(f) == Some(IntValue(i)) <==> i as int as real == f
  {
    if i as int as real == f {
      assert f.Floor == i as int;
    }
  }

  lemma TextConverts(h: Host, s: string, d: ExprType, fmt: PathFormat, w: Value)
    requires Normal(d) && IsDestination(d) && !d.List?
    ensures FromText(h, s, d, fmt) == Some(w) <==> Spells(h, s, w, fmt) && TypeOf(w) == d
  {
    if w.BoolValue? { WordsApart(h, s, w.b); }
  }

  lemma NumberConverts(h: Host, v: Value, d: ExprType, fmt: PathFormat, w: Value)
    requires (v.IntValue? || v.FloatValue?) && Normal(d) && IsDestination(d) && !d.List?
    ensures ConvertScalar(h, v, d, fmt) == Some(w) <==> Restated(h, v, w, fmt) && TypeOf(w) == d
  {
    if v.IntValue? && w.StringValue? { IntWritten(w.s, v.i as int); }
    if v.FloatValue? && w.IntValue? { IntegralFloat(v.f, w.i); }
  }

  /** The scalar rows of the table, both ways: a conversion toward a scalar type gives `w` exactly
      when `w` is of that type and restates the value. */
  lemma ConvertsExactly(h: Host, v: Value, d: ExprType, fmt: PathFormat, w: Value)
    requires !v.UnresolvedValue? && Normal(d) && IsDestination(d) && !d.List?
    ensures ConvertTo(h, v, d, fmt) == Some(w) <==> Restated(h, v, w, fmt) && TypeOf(w) == d
  {
    if v.IntValue? || v.FloatValue? {
      NumberConverts(h, v, d, fmt, w);
    } else if v.StringValue? {
      TextConverts(h, v.s, d, fmt, w);
    }
  }

  // ---- The preference among them ----

  /** The scalar types a value of each type restates as, the most preferred first. */
  ghost function Preference(s: ExprType): seq<ExprType> {
    match s
    case Bool => [String]
    case Int => [Float, String]
    case Float => [Int, String]
    case String => [Int, Float, Bool, RangeExpr, Path]
    case Path => [String]
    case RangeExpr => [String]
    case _ => []
  }

  ghost predicate Preferred(s: ExprType, a: ExprType, b: ExprType) {
    exists i, j :: 0 <= i < j < |Preference(s)| && Preference(s)[i] == a && Preference(s)[j] == b
  }

  lemma PreferenceRanks(s: ExprType, a: ExprType, b: ExprType)
    requires Preferred(s, a, b)
    ensures IsDestination(a) && !a.List? && !b.List? && a != b && !TriedBefore(s, b, a)
  {}

  lemma PreferenceTotal(s: ExprType, a: ExprType, b: ExprType)
    requires a in Preference(s) && b in Preference(s)
    ensures a == b || Preferred(s, a, b) || Preferred(s, b, a)
  {
    var ps := Preference(s);
    var i :| 0 <= i < |ps| && ps[i] == a;
    var j :| 0 <= j < |ps| && ps[j] == b;
  }

  lemma RestatedType(h: Host, v: Value, w: Value, fmt: PathFormat)
    requires Restated(h, v, w, fmt)
    ensures TypeOf(w) in Preference(TypeOf(v)) || (v.StringValue? && w.StringValue?)
    ensures IsDestination(TypeOf(w)) && !TypeOf(w).List? && Normal(TypeOf(w))
  {}

  // ---- Scalars ----

  /** `d` is the target or a member of it. */
  ghost predicate Offers(t: ExprType, d: ExprType) {
    if t.Union? then d in t.members else d == t
  }

  ghost predicate Reaches(h: Host, v: Value, d: ExprType, fmt: PathFormat) {
    exists w :: Restated(h, v, w, fmt) && TypeOf(w) == d
  }

  /** `w` restates `v` in a type on offer, and no more preferred type on offer can be reached. */
  ghost predicate Best(h: Host, v: Value, t: ExprType, fmt: PathFormat, w: Value) {
    && Restated(h, v, w, fmt) && Offers(t, TypeOf(w))
    && forall x :: Preferred(TypeOf(v), x, TypeOf(w)) && Offers(t, x) ==> !Reaches(h, v, x, fmt)
  }

  lemma Unreached(h: Host, v: Value, d: ExprType, fmt: PathFormat)
    requires IsDestination(d) && !d.List? && ConvertsTo(h, v, d, fmt, None)
    ensures !Reaches(h, v, d, fmt)
  {
    forall w ensures !(Restated(h, v, w, fmt) && TypeOf(w) == d) {
      ConvertsExactly(h, v, d, fmt, w);
    }
  }

  lemma ScalarOutcome(h: Host, v: Value, t: ExprType, fmt: PathFormat, d: ExprType, w: Value)
    requires !v.UnresolvedValue? && Normal(t) && !Satisfies(TypeOf(v), t) && Coerce(h, v, t, fmt) == Some(w)
    requires d in Destinations(TypeOf(v), t) && !d.List? && ConvertsTo(h, v, d, fmt, Some(w))
    requires forall x :: x in Destinations(TypeOf(v), t) && !TriedBefore(TypeOf(v), d, x) ==>
               ConvertsTo(h, v, x, fmt, None)
    ensures Best(h, v, t, fmt, w)
  {
    ConvertsExactly(h, v, d, fmt, w);
    forall x | Preferred(TypeOf(v), x, TypeOf(w)) && Offers(t, x) ensures !Reaches(h, v, x, fmt) {
      PreferenceRanks(TypeOf(v), x, d);
      assert x in Destinations(TypeOf(v), t);
      Unreached(h, v, x, fmt);
    }
  }

  lemma BestOnce(h: Host, v: Value, t: ExprType, fmt: PathFormat, w: Value, u: Value)
    requires !v.UnresolvedValue? && Normal(t) && !Satisfies(TypeOf(v), t)
    requires Best(h, v, t, fmt, w) && Best(h, v, t, fmt, u)
    ensures w == u
  {
    RestatedType(h, v, w, fmt);
    RestatedType(h, v, u, fmt);
    var a, b := TypeOf(w), TypeOf(u);
    StringRefused(v, t, a);
    StringRefused(v, t, b);
    PreferenceTotal(TypeOf(v), a, b);
    assert Reaches(h, v, a, fmt) && Reaches(h, v, b, fmt);
    ConvertsExactly(h, v, a, fmt, w);
    ConvertsExactly(h, v, a, fmt, u);
  }

  lemma StringRefused(v: Value, t: ExprType, a: ExprType)
    requires Normal(t) && !Satisfies(TypeOf(v), t) && Offers(t, a)
    ensures !(v.StringValue? && a.String?)
  {
    if v.StringValue? && a.String? {
      assert a in Destinations(String, t);
      SameDestinations(String, String, t, a);
    }
  }

  /** A scalar that does not satisfy the target becomes the most preferred restatement on offer, and
      is rejected exactly when there is none. */
  lemma ScalarCoercion(h: Host, v: Value, t: ExprType, fmt: PathFormat, w: Value)
    requires !v.UnresolvedValue? && !v.RangeValue? && !IsList(v) && Normal(t) && !Satisfies(TypeOf(v), t)
    ensures Coerce(h, v, t, fmt) == Some(w) <==> Best(h, v, t, fmt, w)
  {
    if Coerce(h, v, t, fmt).Some? {
      var d := CoercePrefers(h, v, t, fmt);
      ScalarOutcome(h, v, t, fmt, d, Coerce(h, v, t, fmt).value);
    }
    if Best(h, v, t, fmt, w) {
      BestCoerces(h, v, t, fmt, w);
      BestOnce(h, v, t, fmt, w, Coerce(h, v, t, fmt).value);
    }
  }

  lemma BestCoerces(h: Host, v: Value, t: ExprType, fmt: PathFormat, w: Value)
    requires !v.UnresolvedValue? && Normal(t) && !Satisfies(TypeOf(v), t) && Best(h, v, t, fmt, w)
    ensures Coerce(h, v, t, fmt).Some?
  {
    var d := TypeOf(w);
    RestatedType(h, v, w, fmt);
    ConvertsExactly(h, v, d, fmt, w);
    OfferTaken(h, v, t, fmt, d);
  }

  lemma OfferTaken(h: Host, v: Value, t: ExprType, fmt: PathFormat, d: ExprType)
    requires !v.UnresolvedValue? && Normal(t) && !Satisfies(TypeOf(v), t)
    requires d in Destinations(TypeOf(v), t) && Normal(d) && ConvertTo(h, v, d, fmt).Some?
    ensures Coerce(h, v, t, fmt).Some?
  {
    var ds := Destinations(TypeOf(v), t);
    var k :| 0 <= k < |ds| && ds[k] == d;
    ConversionAt(h, v, t, k, fmt);
    SomeFirst(Conversions(h, v, t, fmt), k);
  }

  lemma SomeFirst<T>(rs: seq<Option<T>>, k: nat)
    requires k < |rs| && rs[k].Some?
    ensures FirstSome(rs).Some?
  {}

  // ---- Ranges ----

  /** `w` is the list of the range's values, in order. */
  ghost predicate Listed(v: Value, w: Value) {
    && v.RangeValue? && w.ListInt? && |w.ints| == |Ranges.Flatten(v.r.ranges)|
    && forall k :: 0 <= k < |w.ints| ==> w.ints[k] as int == Ranges.Flatten(v.r.ranges)[k]
  }

  /** At most ten million values are listed, toward a list type that takes ints. */
  lemma ListsExactly(h: Host, v: Value, d: ExprType, fmt: PathFormat, w: Value)
    requires v.RangeValue? && Normal(d) && d.List?
    ensures ConvertTo(h, v, d, fmt) == Some(w) <==>
            Satisfies(List(Int), d) && |Ranges.Flatten(v.r.ranges)| <= 10_000_000 && Listed(v, w)
  {
    if Listed(v, w) {
      assert w.ints == ToVec(v.r);
    }
  }

  // ---- Any value ----

  /** `w` is a list of the values `ms`, in their order, as building a list keeps or promotes them. */
  ghost predicate Collects(h: Host, ms: seq<Value>, w: Value) {
    IsList(w) && exists fs :: Refilled(h, ms, fs) && AllPromote(h, fs, ListElements(h, w))
  }

  ghost predicate AllRestated(h: Host, es: seq<Value>, ms: seq<Value>, fmt: PathFormat) {
    |ms| == |es| && forall i :: 0 <= i < |es| ==> ms[i] == es[i] || Restated(h, es[i], ms[i], fmt)
  }

  /** `w` is `v`, a restatement of it, the list of its range, or a list of what its elements become,
      one by one and in order. */
  ghost predicate Becomes(h: Host, v: Value, w: Value, fmt: PathFormat)
    decreases v
  {
    || w == v
    || Restated(h, v, w, fmt)
    || Listed(v, w)
    || (v.ListList? &&
        exists ms :: Collects(h, ms, w) && |ms| == |v.elements|
                     && forall i :: 0 <= i < |ms| ==> Becomes(h, v.elements[i], ms[i], fmt))
    || (IsList(v) && !v.ListList? &&
        exists ms :: Collects(h, ms, w) && AllRestated(h, ListElements(h, v), ms, fmt))
  }

  ghost predicate AllBecome(h: Host, es: seq<Value>, ms: seq<Value>, fmt: PathFormat) {
    |ms| == |es| && forall i :: 0 <= i < |es| ==> Becomes(h, es[i], ms[i], fmt)
  }

  lemma ListBecomes(h: Host, v: Value, ms: seq<Value>, w: Value, fmt: PathFormat)
    requires IsList(v) && AllBecome(h, ListElements(h, v), ms, fmt) && Collects(h, ms, w)
    ensures Becomes(h, v, w, fmt)
  {
    if !v.ListList? {
      var es := ListElements(h, v);
      forall i | 0 <= i < |es| ensures ms[i] == es[i] || Restated(h, es[i], ms[i], fmt) {
        assert Becomes(h, es[i], ms[i], fmt);
        assert !IsList(es[i]) && !es[i].RangeValue?;
      }
    }
  }

  /** Whatever coercion returns for a value is that value under another type. */
  lemma {:induction false} CoerceBecomes(h: Host, v: Value, t: ExprType, fmt: PathFormat)
    requires !v.UnresolvedValue? && Normal(t) && Coerce(h, v, t, fmt).Some?
    ensures Becomes(h, v, Coerce(h, v, t, fmt).value, fmt)
    decreases t, 1
  {
    if !Satisfies(TypeOf(v), t) {
      var d := Converted(h, v, t, fmt);
      DestinationSmaller(TypeOf(v), t, d);
      ConvertBecomes(h, v, d, fmt);
    }
  }

  lemma {:induction false} ConvertBecomes(h: Host, v: Value, d: ExprType, fmt: PathFormat)
    requires !v.UnresolvedValue? && Normal(d) && IsDestination(d) && ConvertTo(h, v, d, fmt).Some?
    ensures Becomes(h, v, ConvertTo(h, v, d, fmt).value, fmt)
    decreases d, 0
  {
    var w := ConvertTo(h, v, d, fmt).value;
    if !d.List? {
      ConvertsExactly(h, v, d, fmt, w);
    } else if v.RangeValue? {
      ListsExactly(h, v, d, fmt, w);
    } else {
      var es := ListElements(h, v);
      CoerceAllBecome(h, es, d.elem, fmt);
      var ms := CoerceAll(h, es, d.elem, fmt).value;
      MakeListKeeps(h, ms, d.elem);
      ListBecomes(h, v, ms, w, fmt);
    }
  }

  lemma {:induction false} CoerceAllBecome(h: Host, es: seq<Value>, u: ExprType, fmt: PathFormat)
    requires Normal(u) && CoerceAll(h, es, u, fmt).Some?
    ensures AllBecome(h, es, CoerceAll(h, es, u, fmt).value, fmt)
    decreases u, 2, |es|
  {
    if es == [] {
    } else {
      CoerceAllStep(h, es, u, fmt);
      CoerceBecomes(h, es[0], u, fmt);
      CoerceAllBecome(h, es[1..], u, fmt);
      PrependBecome(h, es, Coerce(h, es[0], u, fmt).value, CoerceAll(h, es[1..], u, fmt).value, fmt);
    }
  }

  lemma PrependBecome(h: Host, es: seq<Value>, w: Value, ws: seq<Value>, fmt: PathFormat)
    requires es != [] && Becomes(h, es[0], w, fmt) && AllBecome(h, es[1..], ws, fmt)
    ensures AllBecome(h, es, [w] + ws, fmt)
  {
    forall i | 0 < i < |es| ensures Becomes(h, es[i], ([w] + ws)[i], fmt) {
      assert es[i] == es[1..][i - 1];
    }
  }

  // ---- Lists and ranges toward a target ----

  ghost predicate Paired(es: seq<Value>, ms: seq<Value>, p: (Value, Value) -> bool) {
    |ms| == |es| && forall i :: 0 <= i < |es| ==> p(es[i], ms[i])
  }

  lemma PairedStep(es: seq<Value>, ms: seq<Value>, p: (Value, Value) -> bool)
    requires es != [] && ms != []
    ensures Paired(es, ms, p) <==> p(es[0], ms[0]) && Paired(es[1..], ms[1..], p)
  {
    if p(es[0], ms[0]) && Paired(es[1..], ms[1..], p) {
      forall i | 0 < i < |es| ensures p(es[i], ms[i]) {
        assert es[i] == es[1..][i - 1] && ms[i] == ms[1..][i - 1];
      }
    }
  }

  ghost function Coerced(h: Host, u: ExprType, fmt: PathFormat): (Value, Value) -> bool
    requires Normal(u)
  {
    (e: Value, m: Value) => !e.UnresolvedValue? && Coerce(h, e, u, fmt) == Some(m)
  }

  lemma CoerceAllOnce(h: Host, es: seq<Value>, u: ExprType, fmt: PathFormat, ms: seq<Value>)
    requires Normal(u) && es != []
    ensures CoerceAll(h, es, u, fmt) == Some(ms) <==>
            ms != [] && Coerced(h, u, fmt)(es[0], ms[0]) && CoerceAll(h, es[1..], u, fmt) == Some(ms[1..])
  {
    if CoerceAll(h, es, u, fmt) == Some(ms) {
      CoerceAllStep(h, es, u, fmt);
      assert ms[0] == Coerce(h, es[0], u, fmt).value && ms[1..] == CoerceAll(h, es[1..], u, fmt).value;
    }
    if ms != [] { assert ms == [ms[0]] + ms[1..]; }
  }

  /** Every element is coerced, in its place. */
  lemma {:induction false} CoercesEach(h: Host, es: seq<Value>, u: ExprType, fmt: PathFormat, ms: seq<Value>)
    requires Normal(u)
    ensures CoerceAll(h, es, u, fmt) == Some(ms) <==> Paired(es, ms, Coerced(h, u, fmt))
    decreases |es|
  {
    if es == [] {
    } else {
      CoerceAllOnce(h, es, u, fmt, ms);
      if ms != [] {
        CoercesEach(h, es[1..], u, fmt, ms[1..]);
        PairedStep(es, ms, Coerced(h, u, fmt));
      }
    }
  }

  /** `w` is the list made of the outcomes of coercing each element of `v`. */
  ghost predicate Rebuilt(h: Host, v: Value, d: ExprType, fmt: PathFormat, w: Value) {
    IsList(v) && d.List? && Normal(d) &&
    exists ms :: MakeListValue(h, ms, d.elem) == Some(w) && Paired(ListElements(h, v), ms, Coerced(h, d.elem, fmt))
  }

  lemma CollectedOnce(es: seq<Value>, all: Option<seq<Value>>, p: (Value, Value) -> bool,
      make: seq<Value> -> Option<Value>, w: Value)
    requires forall ms :: all == Some(ms) <==> Paired(es, ms, p)
    ensures (all.Some? && make(all.value) == Some(w)) <==> exists ms :: make(ms) == Some(w) && Paired(es, ms, p)
  {}

  lemma ListTable(h: Host, v: Value, d: ExprType, fmt: PathFormat)
    requires IsList(v) && Normal(d) && d.List?
    ensures ConvertTo(h, v, d, fmt) ==
            var all := CoerceAll(h, ListElements(h, v), d.elem, fmt);
            if all.Some? then MakeListValue(h, all.value, d.elem) else None
  {}

  /** A list converts exactly when each of its elements coerces and the outcomes make a list, which is
      then the conversion. */
  lemma RebuildsExactly(h: Host, v: Value, d: ExprType, fmt: PathFormat, w: Value)
    requires IsList(v) && Normal(d) && d.List?
    ensures ConvertTo(h, v, d, fmt) == Some(w) <==> Rebuilt(h, v, d, fmt, w)
  {
    var es, u := ListElements(h, v), d.elem;
    var all, p := CoerceAll(h, es, u, fmt), Coerced(h, u, fmt);
    forall ms ensures all == Some(ms) <==> Paired(es, ms, p) {
      CoercesEach(h, es, u, fmt, ms);
    }
    ListTable(h, v, d, fmt);
    CollectedOnce(es, all, p, ms => MakeListValue(h, ms, u), w);
  }

  /** Lists prefer as their innermost elements do. */
  ghost predicate PreferredInside(s: ExprType, a: ExprType, b: ExprType) {
    Preferred(s, a, b) || (s.List? && a.List? && b.List? && PreferredInside(s.elem, a.elem, b.elem))
  }

  lemma {:induction false} InsideRanks(s: ExprType, a: ExprType, b: ExprType)
    requires PreferredInside(s, a, b)
    ensures DestinationRank(s, a) < DestinationRank(s, b) && a.List? == b.List?
  {
    if Preferred(s, a, b) { PreferenceRanks(s, a, b); } else { InsideRanks(s.elem, a.elem, b.elem); }
  }

  ghost predicate OffersList(t: ExprType, d: ExprType) {
    Offers(t, d) && IsDestination(d) && d.List?
  }

  /** A list that does not satisfy the target is rebuilt as a list type on offer, and no list type that
      its elements prefer to that one could be built. */
  lemma ListCoercion(h: Host, v: Value, t: ExprType, fmt: PathFormat) returns (d: ExprType)
    requires IsList(v) && Normal(t) && !Satisfies(TypeOf(v), t) && Coerce(h, v, t, fmt).Some?
    ensures OffersList(t, d) && Rebuilt(h, v, d, fmt, Coerce(h, v, t, fmt).value)
    ensures forall x, w :: OffersList(t, x) && PreferredInside(TypeOf(v), x, d) ==> !Rebuilt(h, v, x, fmt, w)
  {
    d := CoercePrefers(h, v, t, fmt);
    TakenAsList(h, v, d, fmt, Coerce(h, v, t, fmt).value);
    forall x, w | OffersList(t, x) && PreferredInside(TypeOf(v), x, d) ensures !Rebuilt(h, v, x, fmt, w) {
      EarlierFails(h, v, t, fmt, d, x, w);
    }
  }

  ghost predicate NoneEarlier(h: Host, v: Value, t: ExprType, fmt: PathFormat, d: ExprType) {
    forall x :: x in Destinations(TypeOf(v), t) && !TriedBefore(TypeOf(v), d, x) ==> ConvertsTo(h, v, x, fmt, None)
  }

  lemma EarlierFails(h: Host, v: Value, t: ExprType, fmt: PathFormat, d: ExprType, x: ExprType, w: Value)
    requires IsList(v) && NoneEarlier(h, v, t, fmt, d) && OffersList(t, x) && PreferredInside(TypeOf(v), x, d)
    ensures !Rebuilt(h, v, x, fmt, w)
  {
    InsideRanks(TypeOf(v), x, d);
    assert x in Destinations(TypeOf(v), t) && !TriedBefore(TypeOf(v), d, x);
    NotRebuilt(h, v, x, fmt, w);
  }

  lemma TakenAsList(h: Host, v: Value, d: ExprType, fmt: PathFormat, w: Value)
    requires IsList(v) && IsDestination(d) && ConvertsTo(h, v, d, fmt, Some(w))
    ensures d.List? && Rebuilt(h, v, d, fmt, w)
  {
    if d.List? { RebuildsExactly(h, v, d, fmt, w); } else { ConvertsExactly(h, v, d, fmt, w); }
  }

  lemma NotRebuilt(h: Host, v: Value, d: ExprType, fmt: PathFormat, w: Value)
    requires IsList(v) && d.List? && ConvertsTo(h, v, d, fmt, None)
    ensures !Rebuilt(h, v, d, fmt, w)
  {
    RebuildsExactly(h, v, d, fmt, w);
  }

  /** It is rejected exactly when no list type on offer can be built. */
  lemma ListRejected(h: Host, v: Value, t: ExprType, fmt: PathFormat)
    requires IsList(v) && Normal(t) && !Satisfies(TypeOf(v), t)
    ensures Coerce(h, v, t, fmt).None? <==> forall d, w :: OffersList(t, d) ==> !Rebuilt(h, v, d, fmt, w)
  {
    if Coerce(h, v, t, fmt).Some? {
      var d := ListCoercion(h, v, t, fmt);
    } else {
      forall d, w | OffersList(t, d) ensures !Rebuilt(h, v, d, fmt, w) {
        assert d in Destinations(TypeOf(v), t);
        DestinationSmaller(TypeOf(v), t, d);
        RebuildsExactly(h, v, d, fmt, w);
        if Rebuilt(h, v, d, fmt, w) { OfferTaken(h, v, t, fmt, d); }
      }
    }
  }

  /** A range becomes its text where text is on offer. */
  lemma RangeSpoken(h: Host, v: Value, t: ExprType, fmt: PathFormat)
    requires v.RangeValue? && Normal(t) && !Satisfies(RangeExpr, t) && Offers(t, String)
    ensures Coerce(h, v, t, fmt) == Some(StringValue(h.showRange(v.r)))
  {
    var text := StringValue(h.showRange(v.r));
    assert Best(h, v, t, fmt, text);
    BestCoerces(h, v, t, fmt, text);
    var d := CoercePrefers(h, v, t, fmt);
    assert String in Destinations(RangeExpr, t);
    ConvertsExactly(h, v, String, fmt, text);
    assert TriedBefore(RangeExpr, d, String);
    ConvertsExactly(h, v, d, fmt, Coerce(h, v, t, fmt).value);
  }

  ghost predicate TakesInts(t: ExprType, d: ExprType) {
    Offers(t, d) && IsDestination(d) && d.List? && Satisfies(List(Int), d)
  }

  /** Otherwise it becomes the list of its values, if there are at most ten million and a list of ints
      is on offer. */
  lemma RangeListed(h: Host, v: Value, t: ExprType, fmt: PathFormat, w: Value)
    requires v.RangeValue? && Normal(t) && !Satisfies(RangeExpr, t) && !Offers(t, String)
    ensures Coerce(h, v, t, fmt) == Some(w) <==>
            (exists d :: TakesInts(t, d)) && |Ranges.Flatten(v.r.ranges)| <= 10_000_000 && Listed(v, w)
  {
    if Coerce(h, v, t, fmt).Some? {
      var d := RangeTakes(h, v, t, fmt);
      ListsExactly(h, v, d, fmt, Coerce(h, v, t, fmt).value);
      ListsExactly(h, v, d, fmt, w);
    } else if Listed(v, w) && |Ranges.Flatten(v.r.ranges)| <= 10_000_000 {
      forall d ensures !TakesInts(t, d) {
        if TakesInts(t, d) {
          DestinationSmaller(RangeExpr, t, d);
          ListsExactly(h, v, d, fmt, w);
          OfferTaken(h, v, t, fmt, d);
        }
      }
    }
  }

  lemma RangeTakes(h: Host, v: Value, t: ExprType, fmt: PathFormat) returns (d: ExprType)
    requires v.RangeValue? && Normal(t) && !Satisfies(RangeExpr, t) && !Offers(t, String)
    requires Coerce(h, v, t, fmt).Some?
    ensures Normal(d) && TakesInts(t, d) && ConvertTo(h, v, d, fmt) == Coerce(h, v, t, fmt)
  {
    d := CoercePrefers(h, v, t, fmt);
    var w := Coerce(h, v, t, fmt).value;
    if d.List? { ListsExactly(h, v, d, fmt, w); } else { ConvertsExactly(h, v, d, fmt, w); }
  }
}
