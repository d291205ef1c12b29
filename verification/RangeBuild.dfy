/** Building range expressions: from loose values and from chunks. */
module RangeBuild {
  import opened Wrappers
  import opened Arithmetic
  import opened IntRanges
  import opened RangeExprs
  import opened Sorting

  // ---- from_values ----

  ghost function Ints(s: seq<i64>): (r: seq<int>)
    ensures |r| == |s|
  {
    seq(|s|, k requires 0 <= k < |s| => s[k] as int)
  }

  predicate LessEq(a: i64, b: i64) {
    a <= b
  }

  ghost predicate Ascending(s: seq<i64>) {
    forall i, j :: 0 <= i < j < |s| ==> s[i] < s[j]
  }

  ghost predicate AllInDomain(s: seq<i64>) {
    forall i :: 0 <= i < |s| ==> InDomain(s[i] as int)
  }

  lemma {:induction false} DedupSorted(s: seq<i64>)
    requires SortedBy(s, LessEq)
    ensures Ascending(Dedup(s))
    ensures forall v :: v in Dedup(s) <==> v in s
    ensures s != [] ==> Dedup(s) != [] && Dedup(s)[0] == s[0]
  {
    if |s| > 1 {
      DedupSorted(s[1..]);
      assert LessEq(s[0], s[1]);
      assert forall v :: v in s <==> v == s[0] || v in s[1..];
    }
  }

  lemma {:induction false} AscendingGap(s: seq<i64>, i: nat, j: nat)
    requires Ascending(s) && i <= j < |s|
    ensures s[i] as int + (j - i) <= s[j] as int
    decreases j
  {
    if i < j { AscendingGap(s, i, j - 1); }
  }

  function CheckedMul(a: i64, b: i64): Option<i64> {
    var p := a as int * b as int;
    if -0x8000_0000_0000_0000 <= p < 0x8000_0000_0000_0000 then Some(p as i64) else None
  }

  function CheckedAdd(a: i64, b: i64): Option<i64> {
    var p := a as int + b as int;
    if -0x8000_0000_0000_0000 <= p < 0x8000_0000_0000_0000 then Some(p as i64) else None
  }

  /** `start + k * step`, or None once any step of it leaves i64. */
  function Extrapolate(start: i64, k: nat, step: i64): Option<i64> {
    if k >= 0x8000_0000_0000_0000 then None
    else match CheckedMul(k as i64, step)
      case None => None
      case Some(prod) => CheckedAdd(start, prod)
  }

  /** A run of equally spaced values is one chunk. */
  lemma RunIsChunk(values: seq<i64>, i: nat, j: nat, step: i64)
    requires i < j <= |values| && 0 < step && InDomain(step as int)
    requires AllInDomain(values)
    requires forall k :: i < k < j ==> values[k] as int == At(values[i] as int, step as int, k - i)
    ensures var r := IntRange(values[i], values[j - 1], step);
            Valid(r) && Elements(r) == Ints(values[i..j])
  {
    var d := step as int;
    MulMonotone(0, j - 1 - i, d);
    DivUnique(values[j - 1] as int - values[i] as int, d, j - 1 - i, 0);
  }

  lemma IntsSplit(s: seq<i64>, i: nat, j: nat)
    requires i <= j <= |s|
    ensures Ints(s[..j]) == Ints(s[..i]) + Ints(s[i..j])
  {}

  lemma AppendRun(ranges: seq<IntRange>, values: seq<i64>, i: nat, j: nat, r: IntRange)
    requires i < j <= |values|
    requires Ordered(ranges) && Flatten(ranges) == Ints(values[..i])
    requires Ascending(values) && AllInDomain(values)
    requires ranges != [] ==> i > 0 && ranges[|ranges| - 1].end == values[i - 1]
    requires r == IntRange(values[i], values[j - 1], r.step) && 0 < r.step && InDomain(r.step as int)
    requires forall k :: i < k < j ==> values[k] as int == At(values[i] as int, r.step as int, k - i)
    ensures Ordered(ranges + [r]) && Flatten(ranges + [r]) == Ints(values[..j])
  {
    RunIsChunk(values, i, j, r.step);
    OrderedPush(ranges, r);
    FlattenPush(ranges, r);
    IntsSplit(values, i, j);
  }

  /** The scan inside `from_values`: how far the progression from `i` reaches. */
  method ScanRun(values: seq<i64>, i: nat, step: i64) returns (j: nat)
    requires i < |values| && AllInDomain(values) && step > 0
    ensures i + 1 <= j <= |values|
    ensures forall k :: i < k < j ==> values[k] as int == At(values[i] as int, step as int, k - i)
    ensures j < |values| ==> values[j] as int != At(values[i] as int, step as int, j - i)
  {
    j := i + 1;
    while j < |values| && Some(values[j]) == Extrapolate(values[i], j - i, step)
      invariant i + 1 <= j <= |values|
      invariant forall k :: i < k < j ==> values[k] as int == At(values[i] as int, step as int, k - i)
    {
      j := j + 1;
    }
    if j < |values| {
      ExtrapolateExact(values[i], j - i, step, values[j]);
    }
  }

  /** Where the extrapolation overflows, no value inside the bound continues the progression. */
  lemma ExtrapolateExact(start: i64, k: nat, step: i64, v: i64)
    requires InDomain(start as int) && InDomain(v as int) && step > 0
    ensures Extrapolate(start, k, step) == Some(v) <==> v as int == At(start as int, step as int, k)
  {
    MulMonotone(1, step as int, k);
  }

  /** `next` neither continues the chunk nor, after a single value, is near enough to start one. */
  ghost predicate Stops(r: IntRange, next: int) {
    if r.start == r.end then next - r.end as int >= MAX_RANGE_VALUE_MAGNITUDE as int
    else next != r.end as int + r.step as int
  }

  /** No chunk could have taken in the first value of the next one. */
  ghost predicate Longest(ranges: seq<IntRange>) {
    forall k :: 0 < k < |ranges| ==> Stops(ranges[k - 1], ranges[k].start as int)
  }

  /** As long as possible, and a single value with step 1. */
  ghost predicate Canonical(ranges: seq<IntRange>) {
    Longest(ranges) && forall k :: 0 <= k < |ranges| && ranges[k].start == ranges[k].end ==> ranges[k].step == 1
  }

  /** The chunk that starts at `i`: a run of at least two equally spaced values, or one value. */
  method NextChunk(values: seq<i64>, i: nat) returns (j: nat, r: IntRange)
    requires i < |values| && Ascending(values) && AllInDomain(values)
    ensures i < j <= |values|
    ensures r == IntRange(values[i], values[j - 1], r.step) && 0 < r.step && InDomain(r.step as int)
    ensures forall k :: i < k < j ==> values[k] as int == At(values[i] as int, r.step as int, k - i)
    ensures j < |values| ==> Stops(r, values[j] as int)
    ensures r.start == r.end ==> r.step == 1
  {
    if i + 1 < |values| {
      assert InDomain(values[i] as int) && InDomain(values[i + 1] as int);
      var step := values[i + 1] - values[i];
      if step != 0 && step < MAX_RANGE_VALUE_MAGNITUDE && -MAX_RANGE_VALUE_MAGNITUDE < step {
        j := ScanRun(values, i, step);
        assert values[i + 1] as int == At(values[i] as int, step as int, 1);
        if j > i + 1 {
          assert At(values[i] as int, step as int, j - i) == At(values[i] as int, step as int, j - 1 - i) + step as int;
          return j, IntRange(values[i], values[j - 1], step);
        }
      }
    }
    return i + 1, IntRange(values[i], values[i], 1);
  }

  /** Greedy chunking of ascending values: the chunks flatten back to the values. */
  method Chunk(values: seq<i64>) returns (ranges: seq<IntRange>)
    requires Ascending(values) && AllInDomain(values)
    ensures Ordered(ranges) && Flatten(ranges) == Ints(values) && Canonical(ranges)
  {
    ranges := [];
    var i := 0;
    while i < |values|
      invariant 0 <= i <= |values|
      invariant Canonical(ranges) && (ranges != [] && i < |values| ==> Stops(ranges[|ranges| - 1], values[i] as int))
      invariant Ordered(ranges) && Flatten(ranges) == Ints(values[..i])
      invariant ranges != [] ==> i > 0 && ranges[|ranges| - 1].end == values[i - 1]
    {
      var j, r := NextChunk(values, i);
      AppendRun(ranges, values, i, j, r);
      CanonicalPush(ranges, r);
      ranges := ranges + [r];
      i := j;
    }
    assert values[..|values|] == values;
  }

  lemma CanonicalPush(ranges: seq<IntRange>, r: IntRange)
    requires Canonical(ranges) && (r.start == r.end ==> r.step == 1)
    requires ranges != [] ==> Stops(ranges[|ranges| - 1], r.start as int)
    ensures Canonical(ranges + [r])
  {}

  lemma AscendingCount(s: seq<i64>)
    requires Ascending(s) && AllInDomain(s)
    ensures |s| < 0x8000_0000_0000_0000
  {
    if s != [] {
      AscendingGap(s, 0, |s| - 1);
    }
  }

  /** `from_values` holds exactly the distinct input values; it fails only on a value outside
      the 2^62 bound. */
  method FromValues(input: seq<i64>) returns (r: Result<RangeExpr, RangeError>)
    ensures r.Ok? <==> AllInDomain(input)
    ensures r.Err? ==> r.error == IntegerOverflow
    ensures r.Ok? ==> ValidExpr(r.value) && !IsContiguous(r.value) && Canonical(r.value.ranges)
    ensures r.Ok? ==> forall v: i64 :: v as int in Flatten(r.value.ranges) <==> v in input
  {
    if input == [] {
      return Ok(EmptyExpr);
    }
    for i := 0 to |input|
      invariant forall k :: 0 <= k < i ==> InDomain(input[k] as int)
    {
      if !CheckRangeValue(input[i]) {
        return Err(IntegerOverflow);
      }
    }
    var sorted := Sort(input, LessEq);
    var values := Dedup(sorted);
    SortedDistinct(input);
    AscendingCount(values);
    var length := |values| as u64;
    var ranges := Chunk(values);
    var cumulative := BuildCumulative(ranges);
    PackedValid(ranges, cumulative, length);
    r := Ok(RangeExpr(ranges, cumulative, length));
    forall v: i64 ensures v as int in Flatten(ranges) <==> v in input {
      IntsMember(values, v);
    }
  }

  lemma SortedDistinct(input: seq<i64>)
    requires AllInDomain(input)
    ensures var values := Dedup(Sort(input, LessEq));
            && Ascending(values) && AllInDomain(values)
            && forall v :: v in values <==> v in input
  {
    var sorted := Sort(input, LessEq);
    SortSorted(input, LessEq);
    DedupSorted(sorted);
    forall v ensures v in Dedup(sorted) <==> v in input {
      PermutationMember(sorted, input, v);
    }
    forall i | 0 <= i < |Dedup(sorted)|
      ensures InDomain(Dedup(sorted)[i] as int)
    {
      assert Dedup(sorted)[i] in input;
    }
  }

  lemma IntsMember(s: seq<i64>, v: i64)
    ensures v as int in Ints(s) <==> v in s
  {
    if v in s {
      var k :| 0 <= k < |s| && s[k] == v;
      assert Ints(s)[k] == v as int;
    }
    if v as int in Ints(s) {
      var k :| 0 <= k < |Ints(s)| && Ints(s)[k] == v as int;
      assert s[k] == v;
    }
  }

  // ---- from_ranges ----

  predicate ByStartThenEnd(a: IntRange, b: IntRange) {
    a.start < b.start || (a.start == b.start && a.end <= b.end)
  }

  /** The intervals of two chunks do not meet. */
  predicate Apart(a: IntRange, b: IntRange) {
    a.end < b.start || b.end < a.start
  }

  ghost predicate AllAccepted(input: seq<IntRange>) {
    forall i :: 0 <= i < |input| ==> Accepts(input[i].start, input[i].end, input[i].step)
  }

  function Normalized(x: IntRange): (r: IntRange)
    requires Accepts(x.start, x.end, x.step)
    ensures Valid(r)
  {
    New(x.start, x.end, x.step).value
  }

  ghost function NormalizeAll(input: seq<IntRange>): (r: seq<IntRange>)
    requires AllAccepted(input)
    ensures |r| == |input| && AllValid(r)
  {
    seq(|input|, i requires 0 <= i < |input| => Normalized(input[i]))
  }

  lemma OrderedApart(s: seq<IntRange>)
    requires Ordered(s)
    ensures Pairwise(s, Apart)
  {
    forall i, j | 0 <= i < j < |s| ensures Apart(s[i], s[j]) {
      OrderedStarts(s, i, j);
    }
  }

  /** In start order, disjoint neighbours are all that pairwise disjointness takes. */
  lemma OrderedIffApart(s: seq<IntRange>)
    requires AllValid(s) && SortedBy(s, ByStartThenEnd)
    ensures Ordered(s) <==> Pairwise(s, Apart)
  {
    if Ordered(s) { OrderedApart(s); }
    if Pairwise(s, Apart) {
      forall i | 0 < i < |s| ensures s[i - 1].end < s[i].start {
        assert ByStartThenEnd(s[i - 1], s[i]) && Apart(s[i - 1], s[i]);
        assert Valid(s[i]);
      }
    }
  }

  method Renormalize(input: seq<IntRange>) returns (r: Result<seq<IntRange>, RangeError>)
    ensures r.Ok? <==> AllAccepted(input)
    ensures r.Ok? ==> r.value == NormalizeAll(input)
  {
    var ranges := [];
    for i := 0 to |input|
      invariant |ranges| == i
      invariant forall k :: 0 <= k < i ==> Accepts(input[k].start, input[k].end, input[k].step)
      invariant forall k :: 0 <= k < i ==> ranges[k] == Normalized(input[k])
    {
      match New(input[i].start, input[i].end, input[i].step)
      case Err(e) => return Err(e);
      case Ok(x) => ranges := ranges + [x];
    }
    return Ok(ranges);
  }

  ghost predicate Joinable(a: IntRange, b: IntRange) {
    a.step == b.step && a.end as int + b.step as int == b.start as int
  }

  /** No two neighbours could still be merged. */
  ghost predicate NoneJoinable(ranges: seq<IntRange>) {
    forall k :: 0 < k < |ranges| ==> !Joinable(ranges[k - 1], ranges[k])
  }

  lemma JoinLast(front: seq<IntRange>, last: IntRange, r: IntRange)
    requires AllValid(front) && Valid(last) && Valid(r)
    requires last.step == r.step && last.end as int + r.step as int == r.start as int
    ensures var joined := IntRange(last.start, r.end, last.step);
            && Valid(joined) && AllValid(front + [joined])
            && Flatten(front + [joined]) == Flatten(front + [last]) + Elements(r)
            && (Ordered(front + [joined]) <==> Ordered(front + [last]))
  {
    var joined := IntRange(last.start, r.end, last.step);
    ElementsJoin(last, r);
    FlattenPush(front, last);
    FlattenPush(front, joined);
    OrderedPush(front, last);
    OrderedPush(front, joined);
  }

  lemma JoinedApart(front: seq<IntRange>, last: IntRange, joined: IntRange)
    requires NoneJoinable(front + [last]) && joined.start == last.start && joined.step == last.step
    ensures NoneJoinable(front + [joined])
  {
    var ranges, after := front + [last], front + [joined];
    forall k | 0 < k < |after| ensures !Joinable(after[k - 1], after[k]) {
      assert !Joinable(ranges[k - 1], ranges[k]);
    }
  }

  lemma PushedApart(ranges: seq<IntRange>, r: IntRange)
    requires ranges != [] && NoneJoinable(ranges) && !Joinable(ranges[|ranges| - 1], r)
    ensures NoneJoinable(ranges + [r])
  {
    var after := ranges + [r];
    forall k | 0 < k < |after| ensures !Joinable(after[k - 1], after[k]) {
      if k < |ranges| { assert !Joinable(ranges[k - 1], ranges[k]); }
    }
  }

  /** One merge step: the last chunk absorbs `r`, or `r` is appended. */
  method MergeLast(merged: seq<IntRange>, r: IntRange) returns (m: seq<IntRange>)
    requires merged != [] && AllValid(merged) && Valid(r)
    ensures m != [] && AllValid(m) && m[|m| - 1].end == r.end
    ensures Flatten(m) == Flatten(merged) + Elements(r)
    ensures NoneJoinable(merged) ==> NoneJoinable(m)
    ensures Ordered(m) <==> Ordered(merged) && merged[|merged| - 1].end < r.start
  {
    var n := |merged| - 1;
    var front, last := merged[..n], merged[n];
    if last.step == r.step && last.end + r.step == r.start {
      assert front + [last] == merged;
      var joined := IntRange(last.start, r.end, last.step);
      JoinLast(front, last, r);
      if NoneJoinable(merged) { JoinedApart(front, last, joined); }
      m := front + [joined];
    } else {
      FlattenPush(merged, r);
      OrderedPush(merged, r);
      if NoneJoinable(merged) { PushedApart(merged, r); }
      m := merged + [r];
    }
  }

  lemma TakeOrdered(s: seq<IntRange>, i: nat)
    requires AllValid(s) && 0 < i < |s|
    ensures Ordered(s[..i + 1]) <==> Ordered(s[..i]) && s[i - 1].end < s[i].start
  {
    assert s[..i + 1] == s[..i] + [s[i]];
    OrderedPush(s[..i], s[i]);
  }

  /** Merging end-to-start neighbours changes neither the list nor whether chunks overlap. */
  method MergeAdjacent(s: seq<IntRange>) returns (merged: seq<IntRange>)
    requires s != [] && AllValid(s)
    ensures merged != [] && AllValid(merged) && Flatten(merged) == Flatten(s) && NoneJoinable(merged)
    ensures Ordered(merged) <==> Ordered(s)
  {
    merged := [s[0]];
    assert s[..1] == [s[0]];
    for i := 1 to |s|
      invariant merged != [] && AllValid(merged) && NoneJoinable(merged)
      invariant merged[|merged| - 1].end == s[i - 1].end
      invariant Flatten(merged) == Flatten(s[..i])
      invariant Ordered(merged) <==> Ordered(s[..i])
    {
      FlattenTake(s, i);
      TakeOrdered(s, i);
      merged := MergeLast(merged, s[i]);
    }
    assert s[..|s|] == s;
  }

  method HasOverlap(merged: seq<IntRange>) returns (overlap: bool)
    requires merged != [] && AllValid(merged)
    ensures overlap <==> !Ordered(merged)
  {
    for i := 1 to |merged|
      invariant forall k :: 0 < k < i && k < |merged| ==> merged[k - 1].end < merged[k].start
    {
      if merged[i].start <= merged[i - 1].end {
        return true;
      }
    }
    return false;
  }

  /** `from_ranges` accepts exactly 1 to 10,000 valid chunks with pairwise disjoint intervals,
      and then holds the union of what they ask for. */
  method FromRanges(input: seq<IntRange>) returns (r: Result<RangeExpr, RangeError>)
    ensures r.Ok? <==> 1 <= |input| <= MAX_RANGE_EXPR_CHUNKS && AllAccepted(input)
                       && Pairwise(NormalizeAll(input), Apart)
    ensures r.Ok? ==> ValidExpr(r.value) && !IsContiguous(r.value) && r.value.ranges != []
    ensures r.Ok? ==> NoneJoinable(r.value.ranges)
    ensures r.Ok? ==> forall v :: v in Flatten(r.value.ranges) <==>
                        exists i :: 0 <= i < |input| && Asks(input[i], v)
  {
    if input == [] || |input| > MAX_RANGE_EXPR_CHUNKS {
      return Err(ParseError);
    }
    var norm := Renormalize(input);
    if norm.Err? {
      return Err(norm.error);
    }
    var sorted := Sort(norm.value, ByStartThenEnd);
    SortedChunks(norm.value);
    var merged := MergeAdjacent(sorted);
    var overlap := HasOverlap(merged);
    if overlap {
      return Err(ParseError);
    }
    var length := SumLengths(merged);
    var cumulative := BuildCumulative(merged);
    PackedValid(merged, cumulative, length);
    r := Ok(RangeExpr(merged, cumulative, length));
    forall v ensures v in Flatten(merged) <==> exists i :: 0 <= i < |input| && Asks(input[i], v) {
      UnionMember(input, sorted, v);
    }
  }

  ghost predicate Asks(x: IntRange, v: int) {
    InProgression(v, x.start as int, x.end as int, x.step as int)
  }

  lemma SortedChunks(norm: seq<IntRange>)
    requires AllValid(norm)
    ensures var s := Sort(norm, ByStartThenEnd);
            && AllValid(s) && SortedBy(s, ByStartThenEnd)
            && (Ordered(s) <==> Pairwise(norm, Apart))
  {
    var s := Sort(norm, ByStartThenEnd);
    SortSorted(norm, ByStartThenEnd);
    forall i | 0 <= i < |s| ensures Valid(s[i]) {
      PermutationMember(s, norm, s[i]);
    }
    OrderedIffApart(s);
    if Pairwise(norm, Apart) { PairwisePermuted(norm, s, Apart); }
    if Pairwise(s, Apart) { PairwisePermuted(s, norm, Apart); }
  }

  lemma UnionMember(input: seq<IntRange>, s: seq<IntRange>, v: int)
    requires AllAccepted(input) && AllValid(s)
    requires multiset(s) == multiset(NormalizeAll(input))
    ensures v in Flatten(s) <==> exists i :: 0 <= i < |input| && Asks(input[i], v)
  {
    var norm := NormalizeAll(input);
    FlattenMember(s, v);
    if k :| 0 <= k < |s| && v in Elements(s[k]) {
      PermutationMember(s, norm, s[k]);
      var i :| 0 <= i < |norm| && norm[i] == s[k];
      NewHolds(input[i].start, input[i].end, input[i].step);
      assert Asks(input[i], v);
    }
    if i :| 0 <= i < |input| && Asks(input[i], v) {
      PermutationMember(s, norm, norm[i]);
      var k :| 0 <= k < |s| && s[k] == norm[i];
      NewHolds(input[i].start, input[i].end, input[i].step);
      assert v in Elements(s[k]);
    }
  }
}
