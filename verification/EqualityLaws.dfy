/** Equality on all values, ranges included, and the order laws of `compare`. */
module EqualityLaws {
  import opened Wrappers
  import opened Sequences
  import opened IntRanges
  import Ranges = RangeExprs
  import opened RangeBuild
  import opened RangeCanonical
  import opened ExprValues
  import opened Coercion
  import opened ValueEquality

  // ---- Ranges written out ----

  /** Every range inside replaced by the list of its values. */
  function Expand(v: Value): Value
    decreases v
  {
    match v
    case RangeValue(r) => ListInt(ToVec(r))
    case ListList(es, et) => ListList(seq(|es|, i requires 0 <= i < |es| => Expand(es[i])), et)
    case _ => v
  }

  lemma ExpandedElements(h: Host, v: Value)
    requires IsList(v)
    ensures IsList(Expand(v)) && |ListElements(h, Expand(v))| == |ListElements(h, v)|
    ensures forall i :: 0 <= i < |ListElements(h, v)| ==>
              ListElements(h, Expand(v))[i] == Expand(ListElements(h, v)[i])
  {}

  /** The same values in the same places. */
  ghost predicate SameValues(h: Host, a: Value, b: Value) {
    ContentOf(h, Expand(a)) == ContentOf(h, Expand(b))
  }

  ghost predicate EachSame(h: Host, x: seq<Value>, y: seq<Value>) {
    |x| == |y| && forall i :: 0 <= i < |x| ==> SameValues(h, x[i], y[i])
  }

  ghost predicate EachEqual(h: Host, x: seq<Value>, y: seq<Value>) {
    |x| == |y| && forall i :: 0 <= i < |x| ==> Equals(h, x[i], y[i])
  }

  lemma ListSameValues(h: Host, a: Value, b: Value)
    requires IsList(a) && IsList(b)
    ensures SameValues(h, a, b) <==> EachSame(h, ListElements(h, a), ListElements(h, b))
  {
    ExpandedElements(h, a);
    ExpandedElements(h, b);
    ListContents(h, Expand(a), Expand(b));
    var x, y := ListElements(h, a), ListElements(h, b);
    var p, q := ListElements(h, Expand(a)), ListElements(h, Expand(b));
    if SameValues(h, a, b) {
      forall i | 0 <= i < |x| ensures SameValues(h, x[i], y[i]) {
        assert ContentOf(h, p[i]) == ContentOf(h, q[i]);
      }
    }
    if EachSame(h, x, y) {
      forall i | 0 <= i < |p| ensures ContentOf(h, p[i]) == ContentOf(h, q[i]) {
        assert SameValues(h, x[i], y[i]);
      }
    }
  }

  /** Two lists are equal element by element, shortcut or not. */
  lemma ListEquals(h: Host, a: Value, b: Value)
    requires IsList(a) && IsList(b)
    ensures Equals(h, a, b) <==> EachEqual(h, ListElements(h, a), ListElements(h, b))
  {
    var x, y := ListElements(h, a), ListElements(h, b);
    ElementsBelow(h, a);
    EqualsIsWalk(h, a, b);
    if |x| == |y| { EqualFromAll(h, Height(a), x, y, 0); }
  }

  lemma EqualsIsWalk(h: Host, a: Value, b: Value)
    requires IsList(a) && IsList(b) && Below(ListElements(h, a), Height(a))
    ensures Equals(h, a, b) <==> AllEqual(h, Height(a), ListElements(h, a), ListElements(h, b))
  {
    if SameVariant(a, b) { ShortcutsAgree(h, a, b); }
  }

  /** Somewhere a range stands against a range cut into other chunks, or against a list that is not a
      list of ints. */
  predicate Clash(h: Host, a: Value, b: Value)
    decreases Height(a)
  {
    if a.RangeValue? then (b.RangeValue? && a.r.ranges != b.r.ranges) || (IsList(b) && !b.ListInt?)
    else if b.RangeValue? then IsList(a) && !a.ListInt?
    else
      IsList(a) && IsList(b) &&
      var x, y := ListElements(h, a), ListElements(h, b);
      exists i | 0 <= i < |x| && i < |y| :: ElementHeight(h, a, i); Clash(h, x[i], y[i])
  }

  lemma IntListsSame(h: Host, x: seq<i64>, y: seq<i64>)
    ensures ContentOf(h, ListInt(x)) == ContentOf(h, ListInt(y)) <==> x == y
  {
    ShortcutsAgree(h, ListInt(x), ListInt(y));
    ListContents(h, ListInt(x), ListInt(y));
  }

  lemma SameChunksSameVec(r: ValidRange, q: ValidRange)
    requires Ranges.Flatten(r.ranges) == Ranges.Flatten(q.ranges)
    ensures ToVec(r) == ToVec(q)
  {
    var x, y := ToVec(r), ToVec(q);
    forall k | 0 <= k < |x| ensures x[k] == y[k] {
      assert x[k] as int == y[k] as int;
    }
  }

  lemma RangeSide(h: Host, a: Value, b: Value)
    requires a.RangeValue? || b.RangeValue?
    ensures Equals(h, a, b) <==> SameValues(h, a, b) && !Clash(h, a, b)
  {
    if a.RangeValue? && b.RangeValue? {
      if a.r.ranges == b.r.ranges { SameChunksSameVec(a.r, b.r); }
    } else if a.RangeValue? && b.ListInt? {
      IntListsSame(h, ToVec(a.r), b.ints);
    } else if a.ListInt? && b.RangeValue? {
      IntListsSame(h, a.ints, ToVec(b.r));
    }
  }

  /** Equality of any two values: the same values in the same places, and no clash of ranges. */
  lemma {:induction false} EqualsExactly(h: Host, a: Value, b: Value)
    ensures Equals(h, a, b) <==> SameValues(h, a, b) && !Clash(h, a, b)
    decreases Height(a)
  {
    if a.RangeValue? || b.RangeValue? {
      RangeSide(h, a, b);
    } else if IsList(a) && IsList(b) {
      ListEqualsExactly(h, a, b);
    } else if IsList(a) || IsList(b) {
      OneListApart(h, a, b);
    } else {
      ScalarEqualsContent(h, a, b);
    }
  }

  lemma OneListApart(h: Host, a: Value, b: Value)
    requires IsList(a) != IsList(b) && !a.RangeValue? && !b.RangeValue?
    ensures !Equals(h, a, b) && !SameValues(h, a, b)
  {}

  lemma {:induction false} ListEqualsExactly(h: Host, a: Value, b: Value)
    requires IsList(a) && IsList(b)
    ensures Equals(h, a, b) <==> SameValues(h, a, b) && !Clash(h, a, b)
    decreases Height(a), 0
  {
    var x, y := ListElements(h, a), ListElements(h, b);
    ListSameValues(h, a, b);
    ListEquals(h, a, b);
    ListClash(h, a, b);
    forall i | 0 <= i < |x| && i < |y| ensures OneExactly(h, x[i], y[i]) {
      ElementHeight(h, a, i);
      EqualsExactly(h, x[i], y[i]);
    }
    AllExactly(h, x, y);
  }

  ghost predicate OneExactly(h: Host, a: Value, b: Value) {
    Equals(h, a, b) <==> SameValues(h, a, b) && !Clash(h, a, b)
  }

  ghost predicate SomeClash(h: Host, x: seq<Value>, y: seq<Value>) {
    exists i :: 0 <= i < |x| && i < |y| && Clash(h, x[i], y[i])
  }

  lemma ListClash(h: Host, a: Value, b: Value)
    requires IsList(a) && IsList(b)
    ensures Clash(h, a, b) <==> SomeClash(h, ListElements(h, a), ListElements(h, b))
  {}

  lemma AllExactly(h: Host, x: seq<Value>, y: seq<Value>)
    requires forall i :: 0 <= i < |x| && i < |y| ==> OneExactly(h, x[i], y[i])
    ensures EachEqual(h, x, y) <==> EachSame(h, x, y) && !SomeClash(h, x, y)
  {}

  lemma {:induction false} ClashSymmetric(h: Host, a: Value, b: Value)
    ensures Clash(h, a, b) <==> Clash(h, b, a)
    decreases Height(a)
  {
    if IsList(a) && IsList(b) {
      var x, y := ListElements(h, a), ListElements(h, b);
      ListClash(h, a, b);
      ListClash(h, b, a);
      forall i | 0 <= i < |x| && i < |y| ensures Clash(h, x[i], y[i]) <==> Clash(h, y[i], x[i]) {
        ElementHeight(h, a, i);
        ClashSymmetric(h, x[i], y[i]);
      }
      assert SomeClash(h, x, y) <==> SomeClash(h, y, x);
    }
  }

  lemma {:induction false} NoSelfClash(h: Host, a: Value)
    ensures !Clash(h, a, a)
    decreases Height(a)
  {
    if IsList(a) {
      var x := ListElements(h, a);
      forall i | 0 <= i < |x| ensures !Clash(h, x[i], x[i]) {
        ElementHeight(h, a, i);
        NoSelfClash(h, x[i]);
      }
    }
  }

  /** On all values equality is reflexive and symmetric, and a chain of two equalities closes if and only
      if its ends do not clash. */
  lemma EqualsLaws(h: Host, a: Value, b: Value, c: Value)
    ensures Equals(h, a, a)
    ensures Equals(h, a, b) <==> Equals(h, b, a)
    ensures Equals(h, a, b) && Equals(h, b, c) ==> (Equals(h, a, c) <==> !Clash(h, a, c))
  {
    EqualsExactly(h, a, a);
    NoSelfClash(h, a);
    EqualsExactly(h, a, b);
    EqualsExactly(h, b, a);
    ClashSymmetric(h, a, b);
    EqualsExactly(h, b, c);
    EqualsExactly(h, a, c);
  }

  /** An expression over given chunks. */
  lemma ExprOver(rs: seq<IntRange>) returns (r: ValidRange)
    requires Ranges.Ordered(rs)
    ensures r.ranges == rs
  {
    Ranges.FlattenCount(rs);
    var lengths := seq(|rs|, i requires 0 <= i < |rs| => Prefix(rs, i));
    var e := Ranges.RangeExpr(rs, lengths, |Ranges.Flatten(rs)| as u64);
    r := e;
  }

  ghost function Prefix(rs: seq<IntRange>, i: nat): (n: u64)
    requires Ranges.Ordered(rs) && i < |rs|
    ensures n as int == |Ranges.Flatten(rs[..i + 1])|
  {
    Ranges.FlattenCount(rs);
    Ranges.FlattenPrefix(rs, i + 1);
    |Ranges.Flatten(rs[..i + 1])| as u64
  }

  /** Transitivity does fail: `1-3:2` equals `[1, 3]`, which equals `1,3`, and the two ranges differ. It
      fails also between a range and the floats equal to the ints of its list. */
  lemma RangesNotTransitive(h: Host) returns (a: Value, b: Value, c: Value, d: Value)
    ensures Equals(h, a, b) && Equals(h, b, c) && !Equals(h, a, c)
    ensures Equals(h, a, b) && Equals(h, b, d) && !Equals(h, a, d)
    ensures a.RangeValue? && a.r.ranges == [IntRange(1, 3, 2)]
    ensures c.RangeValue? && c.r.ranges == [IntRange(1, 1, 1), IntRange(3, 3, 1)]
    ensures b == ListInt([1, 3]) && d == ListFloat([1.0, 3.0])
  {
    CutTwoWays(1, 3);
    var r := ExprOver([IntRange(1, 3, 2)]);
    var q := ExprOver([IntRange(1, 1, 1), IntRange(3, 3, 1)]);
    a, b, c, d := RangeValue(r), ListInt([1, 3]), RangeValue(q), ListFloat([1.0, 3.0]);
    WrittenOut(r, 1, 3);
    WrittenOut(q, 1, 3);
    IntsAsFloats(h);
  }

  lemma WrittenOut(r: ValidRange, x: i64, y: i64)
    requires Ranges.Flatten(r.ranges) == [x as int, y as int]
    ensures ToVec(r) == [x, y]
  {
    var v := ToVec(r);
    assert v[0] as int == x as int && v[1] as int == y as int;
  }

  lemma IntsAsFloats(h: Host)
    ensures Equals(h, ListInt([1, 3]), ListFloat([1.0, 3.0]))
  {
    var a, b := ListInt([1, 3]), ListFloat([1.0, 3.0]);
    ListEquals(h, a, b);
    IntFloatExact(1, 1.0);
    IntFloatExact(3, 3.0);
  }

  /** Every range equals the list of its values and hashes otherwise. */
  lemma RangeHashesApart(h: Host, r: ValidRange)
    ensures Equals(h, RangeValue(r), ListInt(ToVec(r)))
    ensures Feed(RangeValue(r)) != Feed(ListInt(ToVec(r)))
  {
    assert Feed(RangeValue(r))[0] == Tag(10) && Feed(ListInt(ToVec(r)))[0] == Tag(4);
  }

  /** Ranges made by `from_values` are equal, and hash alike, exactly when they hold the same values. */
  lemma CanonicalRangesEqual(h: Host, r: ValidRange, q: ValidRange)
    requires Canonical(r.ranges) && Canonical(q.ranges)
    ensures Equals(h, RangeValue(r), RangeValue(q)) <==> SameMembers(r, q)
    ensures Equals(h, RangeValue(r), RangeValue(q)) <==> Feed(RangeValue(r)) == Feed(RangeValue(q))
  {
    RangeEquals(h, r, q);
    SameRangeFeed(r, q);
    if SameMembers(r, q) { CanonicalUnique(r, q); }
  }

  ghost predicate SameMembers(r: ValidRange, q: ValidRange) {
    forall v :: v in Ranges.Flatten(r.ranges) <==> v in Ranges.Flatten(q.ranges)
  }

  lemma RangeEquals(h: Host, r: ValidRange, q: ValidRange)
    ensures Equals(h, RangeValue(r), RangeValue(q)) <==> r.ranges == q.ranges
  {}

  lemma SameRangeFeed(r: ValidRange, q: ValidRange)
    ensures Feed(RangeValue(r)) == Feed(RangeValue(q)) <==> r.ranges == q.ranges
  {
    var x, y := Feed(RangeValue(r)), Feed(RangeValue(q));
    assert x[1] == RangeData(r.ranges) && y[1] == RangeData(q.ranges);
  }

  // ---- The charge ----

  /** `k` is where two lists of one length first differ, or that length. */
  ghost predicate FirstDiffers<T>(a: seq<T>, b: seq<T>, k: nat) {
    |a| == |b| && k <= |a| && a[..k] == b[..k] && (k < |a| ==> a[k] != b[k])
  }

  lemma {:induction false} ComparedUpTo<T>(a: seq<T>, b: seq<T>, j: nat, k: nat)
    requires FirstDiffers(a, b, k) && j <= k
    ensures ComparedFrom(a, b, j) == k - j + if k < |a| then 1 else 0
    decreases k - j
  {
    if j < k {
      assert a[j] == a[..k][j] == b[..k][j] == b[j];
      ComparedUpTo(a, b, j + 1, k);
    }
  }

  /** One step for each pair of elements up to and including the first that differs, and none for lists of
      different lengths. */
  lemma ComparedExactly<T>(a: seq<T>, b: seq<T>, k: nat)
    ensures |a| != |b| ==> Compared(a, b) == 0
    ensures FirstDiffers(a, b, k) ==> Compared(a, b) == if k < |a| then k + 1 else k
  {
    if FirstDiffers(a, b, k) { ComparedUpTo(a, b, 0, k); }
  }

  /** The steps for the first `k` pairs: one each, and what comparing them takes. */
  ghost function Steps(h: Host, x: seq<Value>, y: seq<Value>, k: nat): nat
    requires k <= |x| && k <= |y|
  {
    if k == 0 then 0 else Steps(h, x, y, k - 1) + 1 + Cost(h, x[k - 1], y[k - 1])
  }

  ghost predicate SameUpTo(h: Host, x: seq<Value>, y: seq<Value>, k: nat) {
    |x| == |y| && k <= |x| && forall i :: 0 <= i < k ==> Equals(h, x[i], y[i])
  }

  lemma {:induction false} CostUpTo(h: Host, n: nat, x: seq<Value>, y: seq<Value>, k: nat)
    requires Below(x, n) && SameUpTo(h, x, y, k)
    ensures CostFrom(h, n, x, y, 0) == Steps(h, x, y, k) + CostFrom(h, n, x, y, k)
  {
    if k > 0 { CostUpTo(h, n, x, y, k - 1); }
  }

  lemma CostAt(h: Host, n: nat, x: seq<Value>, y: seq<Value>, k: nat)
    requires Below(x, n) && SameUpTo(h, x, y, k) && (k < |x| ==> !Equals(h, x[k], y[k]))
    ensures CostFrom(h, n, x, y, k) == if k < |x| then 1 + Cost(h, x[k], y[k]) else 0
  {}

  lemma ListCost(h: Host, a: Value, b: Value)
    requires IsList(a) && IsList(b) && !SameVariant(a, b)
    ensures Below(ListElements(h, a), Height(a))
    ensures Cost(h, a, b) == WalkCost(h, Height(a), ListElements(h, a), ListElements(h, b))
  {
    ElementsBelow(h, a);
  }

  /** The same for lists walked value by value, where comparing two elements may take steps itself. */
  lemma WalkedExactly(h: Host, a: Value, b: Value, x: seq<Value>, y: seq<Value>, k: nat)
    requires IsList(a) && IsList(b) && !SameVariant(a, b) && x == ListElements(h, a) && y == ListElements(h, b)
    ensures |x| != |y| ==> Cost(h, a, b) == 0
    ensures SameUpTo(h, x, y, k) && (k < |x| ==> !Equals(h, x[k], y[k])) ==>
              Cost(h, a, b) == Steps(h, x, y, if k < |x| then k + 1 else k)
  {
    ListCost(h, a, b);
    if SameUpTo(h, x, y, k) && (k < |x| ==> !Equals(h, x[k], y[k])) {
      CostUpTo(h, Height(a), x, y, k);
      CostAt(h, Height(a), x, y, k);
    }
  }

  // ---- The order ----

  /** The number a numeric value stands for. */
  predicate IsNumber(v: Value) {
    v.IntValue? || v.FloatValue?
  }

  ghost function NumberOf(v: Value): real
    requires IsNumber(v)
  {
    match v case IntValue(i) => i as int as real case FloatValue(f) => f
  }

  lemma CompareNumbers(h: Host, a: Value, b: Value)
    requires IsNumber(a) && IsNumber(b)
    ensures Compare(h, a, b) == Some(CompareReals(NumberOf(a), NumberOf(b)))
  {
    if a.IntValue? && b.FloatValue? {
      IntFloatExact(a.i, b.f);
    } else if a.FloatValue? && b.IntValue? {
      IntFloatExact(b.i, a.f);
    }
  }

  /** `a` is a proper prefix of `b`, or has the smaller character where they first differ. */
  ghost predicate TextBefore(a: string, b: string) {
    exists k :: 0 <= k <= |a| && k <= |b| && a[..k] == b[..k]
                && if k < |a| && k < |b| then a[k] < b[k] else |a| < |b|
  }

  lemma {:induction false} TextOrdered(a: string, b: string)
    ensures CompareText(a, b) == Less <==> TextBefore(a, b)
  {
    if a == "" || b == "" {
      assert a[..0] == b[..0];
    } else if a[0] != b[0] {
      assert a[..0] == b[..0];
      FirstApart(a, b);
    } else {
      TextOrdered(a[1..], b[1..]);
      BeforeStep(a, b);
      if a == b { NotBefore(a); }
    }
  }

  lemma FirstApart(a: string, b: string)
    requires a != "" && b != "" && a[0] != b[0]
    ensures TextBefore(a, b) <==> a[0] < b[0]
  {
    forall k | 0 < k <= |a| && k <= |b| ensures a[..k] != b[..k] {
      assert a[..k][0] == a[0] && b[..k][0] == b[0];
    }
    assert a[..0] == b[..0];
  }

  lemma NotBefore(a: string)
    ensures !TextBefore(a, a)
  {}

  lemma BeforeStep(a: string, b: string)
    requires a != "" && b != "" && a[0] == b[0]
    ensures TextBefore(a, b) <==> TextBefore(a[1..], b[1..])
  {
    if k :| 0 <= k <= |a| && k <= |b| && a[..k] == b[..k] && if k < |a| && k < |b| then a[k] < b[k] else |a| < |b| {
      TakeTail(a, b, k);
    }
    if k :| 0 <= k <= |a| - 1 && k <= |b| - 1 && a[1..][..k] == b[1..][..k]
            && if k < |a| - 1 && k < |b| - 1 then a[1..][k] < b[1..][k] else |a| < |b| {
      TakeHead(a, k);
      TakeHead(b, k);
      assert a[..k + 1] == b[..k + 1];
    }
  }

  lemma TakeTail(a: string, b: string, k: nat)
    requires a != "" && b != "" && 0 < k <= |a| && k <= |b| && a[..k] == b[..k]
    ensures a[1..][..k - 1] == b[1..][..k - 1]
  {
    assert a[1..][..k - 1] == a[..k][1..] && b[1..][..k - 1] == b[..k][1..];
  }

  lemma TakeHead(a: string, k: nat)
    requires k < |a|
    ensures a[..k + 1] == [a[0]] + a[1..][..k]
  {}

  ghost predicate HasText(v: Value, t: string) {
    (v.StringValue? && v.s == t) || (v.PathValue? && v.path == t)
  }

  /** False comes before true, and text in the order of its characters, a path by its own text. */
  lemma ScalarsOrdered(h: Host, a: Value, b: Value, s: string, t: string)
    ensures a.BoolValue? && b.BoolValue? ==> (Compare(h, a, b) == Some(Less) <==> !a.b && b.b)
    ensures HasText(a, s) && HasText(b, t) ==> (Compare(h, a, b) == Some(Less) <==> TextBefore(s, t))
  {
    if HasText(a, s) && HasText(b, t) { TextOrdered(s, t); }
  }

  /** Two numbers, two booleans and two texts always compare, and nothing else but lists does. */
  lemma ComparableKinds(h: Host, a: Value, b: Value)
    requires !IsList(a) || !IsList(b)
    ensures Compare(h, a, b).Some? <==>
            (IsNumber(a) && IsNumber(b)) || (a.BoolValue? && b.BoolValue?) || (IsText(a) && IsText(b))
  {}

  ghost predicate EqualUpTo(h: Host, x: seq<Value>, y: seq<Value>, k: nat) {
    k <= |x| && k <= |y| && forall i :: 0 <= i < k ==> Compare(h, x[i], y[i]) == Some(Equal)
  }

  lemma {:induction false} WalkedTo(h: Host, n: nat, x: seq<Value>, y: seq<Value>, j: nat, k: nat)
    requires Below(x, n) && j <= k && EqualUpTo(h, x, y, k)
    ensures CompareFrom(h, n, x, y, j) == CompareFrom(h, n, x, y, k)
    decreases k - j
  {
    if j < k {
      assert Compare(h, x[j], y[j]) == Some(Equal);
      WalkedTo(h, n, x, y, j + 1, k);
    }
  }

  lemma WalkedFrom(h: Host, n: nat, x: seq<Value>, y: seq<Value>, k: nat)
    requires Below(x, n) && k <= |x| && k <= |y|
    ensures if k < |x| && k < |y| then
              Compare(h, x[k], y[k]) != Some(Equal) ==> CompareFrom(h, n, x, y, k) == Compare(h, x[k], y[k])
            else CompareFrom(h, n, x, y, k) == Some(if |x| < |y| then Less else if |x| > |y| then Greater else Equal)
  {}

  lemma ListsCompare(h: Host, a: Value, b: Value)
    requires IsList(a) && IsList(b)
    ensures Below(ListElements(h, a), Height(a))
    ensures Compare(h, a, b) == CompareFrom(h, Height(a), ListElements(h, a), ListElements(h, b), 0)
  {
    ElementsBelow(h, a);
  }

  /** Lists compare as their first elements that do not compare as equal, and by length without any. */
  lemma ListsOrdered(h: Host, a: Value, b: Value, x: seq<Value>, y: seq<Value>, k: nat)
    requires IsList(a) && x == ListElements(h, a) && IsList(b) && y == ListElements(h, b) && EqualUpTo(h, x, y, k)
    ensures if k < |x| && k < |y| then
              Compare(h, x[k], y[k]) != Some(Equal) ==> Compare(h, a, b) == Compare(h, x[k], y[k])
            else Compare(h, a, b) == Some(if |x| < |y| then Less else if |x| > |y| then Greater else Equal)
  {
    ListsCompare(h, a, b);
    WalkedTo(h, Height(a), x, y, 0, k);
    WalkedFrom(h, Height(a), x, y, k);
  }

  function Reversed(o: Option<Ordering>): Option<Ordering> {
    match o case Some(x) => Some(Reverse(x)) case None => None
  }

  /** Comparing the other way round gives the reverse, or fails as well. */
  lemma {:induction false} CompareReversed(h: Host, a: Value, b: Value)
    ensures Compare(h, b, a) == Reversed(Compare(h, a, b))
    decreases Height(a), 1
  {
    if IsNumber(a) && IsNumber(b) {
      CompareNumbers(h, a, b);
      CompareNumbers(h, b, a);
    } else if IsText(a) && IsText(b) {
      CompareTextEqual(PlainText(a), PlainText(b));
    } else if IsList(a) && IsList(b) {
      ElementsBelow(h, a);
      ElementsBelow(h, b);
      CompareFromReversed(h, Height(a), Height(b), ListElements(h, a), ListElements(h, b), 0);
    }
  }

  lemma {:induction false} CompareFromReversed(h: Host, n: nat, m: nat, x: seq<Value>, y: seq<Value>, k: nat)
    requires Below(x, n) && Below(y, m) && k <= |x| && k <= |y|
    ensures CompareFrom(h, m, y, x, k) == Reversed(CompareFrom(h, n, x, y, k))
    decreases n, 0, |x| - k
  {
    if k < |x| && k < |y| {
      CompareReversed(h, x[k], y[k]);
      CompareFromReversed(h, n, m, x, y, k + 1);
    }
  }

  function Combined(p: Ordering, q: Ordering): Ordering {
    if p == Equal then q else p
  }

  lemma {:induction false} CompareTextTransitive(a: string, b: string, c: string)
    requires CompareText(a, b) != Greater && CompareText(b, c) != Greater
    ensures CompareText(a, c) == Combined(CompareText(a, b), CompareText(b, c))
  {
    if a != "" && b != "" && c != "" && a != b && b != c && a[0] == b[0] == c[0] {
      CompareTextTransitive(a[1..], b[1..], c[1..]);
      CompareTextEqual(a, c);
      CompareTextEqual(a[1..], c[1..]);
      HeadTail(a);
      HeadTail(c);
    }
  }

  /** Where `a` is at most `b` and `b` at most `c`, `a` and `c` compare too, and `a` is at most `c`;
      strictly so if either step was strict. */
  lemma {:induction false} CompareTransitive(h: Host, a: Value, b: Value, c: Value)
    requires Compare(h, a, b).Some? && Compare(h, a, b).value != Greater
    requires Compare(h, b, c).Some? && Compare(h, b, c).value != Greater
    ensures Compare(h, a, c) == Some(Combined(Compare(h, a, b).value, Compare(h, b, c).value))
    decreases Height(a), 1
  {
    if IsNumber(a) {
      NumbersTransitive(h, a, b, c);
    } else if IsText(a) {
      CompareTextTransitive(PlainText(a), PlainText(b), PlainText(c));
    } else if IsList(a) {
      ElementsBelow(h, a);
      ElementsBelow(h, b);
      CompareFromTransitive(h, Height(a), Height(b), ListElements(h, a), ListElements(h, b), ListElements(h, c), 0);
    }
  }

  lemma NumbersTransitive(h: Host, a: Value, b: Value, c: Value)
    requires IsNumber(a) && Compare(h, a, b).Some? && Compare(h, a, b).value != Greater
    requires Compare(h, b, c).Some? && Compare(h, b, c).value != Greater
    ensures Compare(h, a, c) == Some(Combined(Compare(h, a, b).value, Compare(h, b, c).value))
  {
    assert IsNumber(b) && IsNumber(c);
    CompareNumbers(h, a, b);
    CompareNumbers(h, b, c);
    CompareNumbers(h, a, c);
  }

  lemma {:induction false} CompareFromTransitive(h: Host, n: nat, m: nat, x: seq<Value>, y: seq<Value>, z: seq<Value>,
                                                 k: nat)
    requires Below(x, n) && Below(y, m) && k <= |x| && k <= |y| && k <= |z|
    requires CompareFrom(h, n, x, y, k).Some? && CompareFrom(h, n, x, y, k).value != Greater
    requires CompareFrom(h, m, y, z, k).Some? && CompareFrom(h, m, y, z, k).value != Greater
    ensures CompareFrom(h, n, x, z, k) ==
            Some(Combined(CompareFrom(h, n, x, y, k).value, CompareFrom(h, m, y, z, k).value))
    decreases n, 0, |x| - k
  {
    if k < |x| && k < |y| && k < |z| {
      CompareTransitive(h, x[k], y[k], z[k]);
      if Compare(h, x[k], y[k]) == Some(Equal) && Compare(h, y[k], z[k]) == Some(Equal) {
        CompareFromTransitive(h, n, m, x, y, z, k + 1);
      }
    }
  }
}
