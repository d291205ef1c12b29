/** The chunks `from_values` builds depend on the values alone. */
module RangeCanonical {
  import opened Arithmetic
  import opened IntRanges
  import opened RangeExprs
  import opened RangeBuild
  import opened RangeSlicing
  import opened RangeRoundTrip

  lemma FlattenCons(r: IntRange, rest: seq<IntRange>)
    requires Valid(r) && AllValid(rest)
    ensures Flatten([r] + rest) == Elements(r) + Flatten(rest)
  {
    FlattenAppend([r], rest);
    FlattenOne(r);
  }

  lemma FlattenOne(r: IntRange)
    requires Valid(r)
    ensures Flatten([r]) == Elements(r)
  {
    FlattenPush([], r);
    assert [] + [r] == [r];
  }

  lemma FlattenFirst(rs: seq<IntRange>)
    requires Ordered(rs)
    ensures rs == [] <==> Flatten(rs) == []
    ensures rs != [] ==> Flatten(rs)[0] == rs[0].start as int
  {
    if rs != [] {
      FlattenSorted(rs);
      ElementsEndpoints(rs[0]);
      FlattenAt(rs, 0, 0);
      assert rs[..0] == [];
    }
  }

  /** The list is the first chunk's values and the rest's. */
  lemma Unchunked(rs: seq<IntRange>)
    requires Ordered(rs) && rs != []
    ensures Ordered(rs[1..]) && Flatten(rs) == Elements(rs[0]) + Flatten(rs[1..])
  {
    var rest := rs[1..];
    forall k | 0 < k < |rest| ensures rest[k - 1].end < rest[k].start {
      assert rs[k + 1 - 1].end < rs[k + 1].start;
    }
    FlattenCons(rs[0], rest);
    assert rs == [rs[0]] + rest;
  }

  lemma FirstOf(s: seq<int>, r: IntRange, rest: seq<int>)
    requires Valid(r) && s == Elements(r) + rest
    ensures Count(r) <= |s| && (rest == [] <==> |s| == Count(r)) && (rest != [] ==> s[Count(r)] == rest[0])
    ensures forall k :: 0 <= k < Count(r) ==> s[k] == At(r.start as int, r.step as int, k)
  {
    assert |Elements(r)| == Count(r);
    forall k | 0 <= k < Count(r) ensures s[k] == At(r.start as int, r.step as int, k) {
      assert s[k] == Elements(r)[k];
    }
  }

  /** Where the first chunk sits in the list. */
  lemma FirstChunk(rs: seq<IntRange>)
    requires Ordered(rs) && rs != []
    ensures Count(rs[0]) <= |Flatten(rs)|
    ensures forall k :: 0 <= k < Count(rs[0]) ==> Flatten(rs)[k] == At(rs[0].start as int, rs[0].step as int, k)
    ensures |rs| > 1 <==> |Flatten(rs)| > Count(rs[0])
    ensures |rs| > 1 ==> Flatten(rs)[Count(rs[0])] == rs[1].start as int
  {
    Unchunked(rs);
    FlattenFirst(rs[1..]);
    FirstOf(Flatten(rs), rs[0], Flatten(rs[1..]));
  }

  lemma OneOrMore(r: IntRange)
    requires Valid(r)
    ensures r.start == r.end <==> Count(r) == 1
    ensures r.end as int == At(r.start as int, r.step as int, Count(r) - 1)
    ensures r.end as int + r.step as int == At(r.start as int, r.step as int, Count(r))
  {
    ElementsEndpoints(r);
    if Count(r) > 1 { ElementsAscending(r, 0, Count(r) - 1); }
  }

  lemma FirstTwo(x: int, d: int)
    ensures At(x, d, 0) == x && At(x, d, 1) == x + d
  {}

  lemma EarlyStop(s: seq<int>, a: IntRange, b: IntRange, next: int)
    requires Valid(a) && Valid(b) && Count(a) < Count(b) <= |s| && next == s[Count(a)]
    requires forall k :: 0 <= k < Count(a) ==> s[k] == At(a.start as int, a.step as int, k)
    requires forall k :: 0 <= k < Count(b) ==> s[k] == At(b.start as int, b.step as int, k)
    ensures !Stops(a, next)
  {
    OneOrMore(a);
    FirstTwo(a.start as int, a.step as int);
    FirstTwo(b.start as int, b.step as int);
    assert s[0] == a.start as int == b.start as int && s[1] == b.start as int + b.step as int;
    if Count(a) > 1 {
      assert a.step == b.step;
    }
  }

  /** If a longer first chunk fits the same list, the shorter one stopped too early. */
  lemma StoppedEarly(a: seq<IntRange>, b: seq<IntRange>)
    requires Ordered(a) && Ordered(b) && a != [] && b != [] && Flatten(a) == Flatten(b)
    requires Count(a[0]) < Count(b[0])
    ensures |a| > 1 && !Stops(a[0], a[1].start as int)
  {
    FirstChunk(a);
    FirstChunk(b);
    EarlyStop(Flatten(a), a[0], b[0], a[1].start as int);
  }

  lemma NotShorter(a: seq<IntRange>, b: seq<IntRange>)
    requires Ordered(a) && Ordered(b) && a != [] && b != [] && Flatten(a) == Flatten(b) && Longest(a)
    ensures Count(a[0]) >= Count(b[0])
  {
    if Count(a[0]) < Count(b[0]) {
      StoppedEarly(a, b);
    }
  }

  lemma SameFirst(a: seq<IntRange>, b: seq<IntRange>)
    requires Ordered(a) && Ordered(b) && a != [] && b != [] && Flatten(a) == Flatten(b)
    requires Canonical(a) && Canonical(b)
    ensures a[0] == b[0]
  {
    NotShorter(a, b);
    NotShorter(b, a);
    FirstChunk(a);
    FirstChunk(b);
    OneOrMore(a[0]);
    OneOrMore(b[0]);
    FirstTwo(a[0].start as int, a[0].step as int);
    FirstTwo(b[0].start as int, b[0].step as int);
    var s := Flatten(a);
    assert s[0] == a[0].start as int == b[0].start as int;
    if Count(a[0]) > 1 {
      assert s[1] == a[0].start as int + a[0].step as int == b[0].start as int + b[0].step as int;
    }
  }

  /** Chunks that are as long as possible are determined by their list. */
  lemma {:induction false} SameChunks(a: seq<IntRange>, b: seq<IntRange>)
    requires Ordered(a) && Ordered(b) && Canonical(a) && Canonical(b) && Flatten(a) == Flatten(b)
    ensures a == b
    decreases |a|
  {
    if a == [] {
      if b != [] { FlattenSorted(b); }
    } else {
      FlattenSorted(a);
      assert b != [];
      SameFirst(a, b);
      Unchunked(a);
      Unchunked(b);
      SameRests(Elements(a[0]), Flatten(a[1..]), Flatten(b[1..]));
      CanonicalRest(a);
      CanonicalRest(b);
      SameChunks(a[1..], b[1..]);
      assert a == [a[0]] + a[1..] && b == [b[0]] + b[1..];
    }
  }

  lemma SameRests(front: seq<int>, x: seq<int>, y: seq<int>)
    requires front + x == front + y
    ensures x == y
  {
    assert (front + x)[|front|..] == x && (front + y)[|front|..] == y;
  }

  lemma CanonicalRest(a: seq<IntRange>)
    requires a != [] && Ordered(a) && Canonical(a)
    ensures Ordered(a[1..]) && Canonical(a[1..])
  {
    var rest := a[1..];
    forall k | 0 < k < |rest| ensures rest[k - 1].end < rest[k].start && Stops(rest[k - 1], rest[k].start as int) {
      assert Stops(a[k + 1 - 1], a[k + 1].start as int);
    }
  }

  /** So expressions that `from_values` builds over the same set of values, in whatever order and with
      whatever repeats they came, have the same chunks. */
  lemma CanonicalUnique(a: RangeExpr, b: RangeExpr)
    requires ValidExpr(a) && ValidExpr(b) && Canonical(a.ranges) && Canonical(b.ranges)
    requires forall v :: v in Flatten(a.ranges) <==> v in Flatten(b.ranges)
    ensures a.ranges == b.ranges
  {
    FlattenCount(a.ranges);
    FlattenCount(b.ranges);
    AscendingUnique(Flatten(a.ranges), Flatten(b.ranges));
    SameChunks(a.ranges, b.ranges);
  }

  lemma PairElements(x: i64, y: i64)
    requires InDomain(x as int) && InDomain(y as int) && 0 < y as int - x as int && InDomain(y as int - x as int)
    ensures Valid(IntRange(x, y, y - x)) && Elements(IntRange(x, y, y - x)) == [x as int, y as int]
  {
    var r := IntRange(x, y, y - x);
    DivUnique(y as int - x as int, r.step as int, 1, 0);
    assert Count(r) == 2;
  }

  /** Without that, one list can be cut in several ways, and `from_ranges` keeps them apart: `1-3:2` and
      `1,3` hold the same values, and so does any pair of values more than one apart. */
  lemma CutTwoWays(x: i64, y: i64)
    requires InDomain(x as int) && InDomain(y as int) && 1 < y as int - x as int && InDomain(y as int - x as int)
    ensures var a, b := [IntRange(x, y, y - x)], [IntRange(x, x, 1), IntRange(y, y, 1)];
            && Ordered(a) && Ordered(b) && Flatten(a) == Flatten(b) == [x as int, y as int]
            && NoneJoinable(a) && NoneJoinable(b) && Canonical(a) && !Canonical(b)
  {
    var b := [IntRange(x, x, 1), IntRange(y, y, 1)];
    PairElements(x, y);
    FlattenOne(IntRange(x, y, y - x));
    TwoPieces(x, y);
    assert !Stops(b[0], b[1].start as int);
  }
}
