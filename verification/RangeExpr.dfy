/** A range expression: sorted disjoint chunks standing for one strictly ascending list. */
module RangeExprs {
  import opened Wrappers
  import opened Arithmetic
  import opened IntRanges

  const MAX_RANGE_EXPR_CHUNKS: nat := 10_000

  /** `length` is packed: the low 63 bits are the element count, the top bit the display flag. */
  datatype RangeExpr = RangeExpr(ranges: seq<IntRange>, cumulativeLengths: seq<u64>, length: u64)

  const CONTIGUOUS_BIT: u64 := 0x8000_0000_0000_0000

  const EmptyExpr := RangeExpr([], [], 0)

  ghost predicate AllValid(rs: seq<IntRange>) {
    forall i :: 0 <= i < |rs| ==> Valid(rs[i])
  }

  /** Chunks in order, none touching the next one's interval. */
  ghost predicate Ordered(rs: seq<IntRange>) {
    && AllValid(rs)
    && forall i :: 0 < i < |rs| ==> rs[i - 1].end < rs[i].start
  }

  /** The plain list the chunks stand for. */
  function Flatten(rs: seq<IntRange>): seq<int>
    requires AllValid(rs)
  {
    if rs == [] then [] else Flatten(rs[..|rs| - 1]) + Elements(rs[|rs| - 1])
  }

  ghost predicate StrictlyAscending(s: seq<int>) {
    forall i, j :: 0 <= i < j < |s| ==> s[i] < s[j]
  }

  ghost predicate ValidExpr(e: RangeExpr) {
    && Ordered(e.ranges)
    && |e.cumulativeLengths| == |e.ranges|
    && (forall i :: 0 <= i < |e.ranges| ==> e.cumulativeLengths[i] as int == |Flatten(e.ranges[..i + 1])|)
    && (e.length % CONTIGUOUS_BIT) as int == |Flatten(e.ranges)|
  }

  // ---- Facts about Flatten ----

  lemma FlattenPush(rs: seq<IntRange>, r: IntRange)
    requires AllValid(rs) && Valid(r)
    ensures Flatten(rs + [r]) == Flatten(rs) + Elements(r)
  {
    assert (rs + [r])[..|rs|] == rs;
  }

  lemma OrderedPush(rs: seq<IntRange>, r: IntRange)
    requires AllValid(rs) && Valid(r)
    ensures Ordered(rs + [r]) <==> Ordered(rs) && (rs == [] || rs[|rs| - 1].end < r.start)
  {
    var s := rs + [r];
    if Ordered(s) {
      forall i | 0 < i < |rs| ensures rs[i - 1].end < rs[i].start {
        assert s[i - 1].end < s[i].start;
      }
      if rs != [] { assert s[|rs| - 1].end < s[|rs|].start; }
    }
  }

  lemma FlattenTake(rs: seq<IntRange>, i: nat)
    requires AllValid(rs) && i < |rs|
    ensures Flatten(rs[..i + 1]) == Flatten(rs[..i]) + Elements(rs[i])
  {
    assert rs[..i + 1] == rs[..i] + [rs[i]];
    FlattenPush(rs[..i], rs[i]);
  }

  lemma {:induction false} FlattenPrefix(rs: seq<IntRange>, i: nat)
    requires AllValid(rs) && i <= |rs|
    ensures |Flatten(rs[..i])| <= |Flatten(rs)|
    ensures Flatten(rs)[..|Flatten(rs[..i])|] == Flatten(rs[..i])
    decreases |rs| - i
  {
    if i == |rs| {
      assert rs[..i] == rs;
    } else {
      FlattenPrefix(rs, i + 1);
      FlattenTake(rs, i);
    }
  }

  /** Where chunk i sits in the flattened list. */
  lemma FlattenAt(rs: seq<IntRange>, i: nat, k: nat)
    requires AllValid(rs) && i < |rs| && k < |Elements(rs[i])|
    ensures |Flatten(rs[..i])| + k < |Flatten(rs[..i + 1])| <= |Flatten(rs)|
    ensures Flatten(rs)[|Flatten(rs[..i])| + k] == Elements(rs[i])[k]
  {
    FlattenTake(rs, i);
    FlattenPrefix(rs, i + 1);
    var m := |Flatten(rs[..i])| + k;
    assert Flatten(rs)[m] == Flatten(rs)[..|Flatten(rs[..i + 1])|][m];
  }

  lemma {:induction false} OrderedStarts(rs: seq<IntRange>, i: nat, j: nat)
    requires Ordered(rs) && i < j < |rs|
    ensures rs[i].end < rs[j].start
    decreases j - i
  {
    if i + 1 < j { OrderedStarts(rs, i, j - 1); }
  }

  /** Every value of the flattened list lies between the first start and the last end, in
      strictly ascending order, so the count fits 63 bits. */
  lemma {:induction false} FlattenSorted(rs: seq<IntRange>)
    requires Ordered(rs) && rs != []
    ensures StrictlyAscending(Flatten(rs))
    ensures forall v <- Flatten(rs) :: rs[0].start as int <= v <= rs[|rs| - 1].end as int
    ensures 0 < |Flatten(rs)| <= rs[|rs| - 1].end as int - rs[0].start as int + 1 < 0x8000_0000_0000_0000
  {
    var n := |rs| - 1;
    var last := rs[n];
    ElementsEndpoints(last);
    assert Ordered(rs[..n]);
    if n > 0 { FlattenSorted(rs[..n]); }
    var front, tail := Flatten(rs[..n]), Elements(last);
    forall i, j | 0 <= i < j < |front + tail|
      ensures (front + tail)[i] < (front + tail)[j]
    {
      if i >= |front| {
        ElementsAscending(last, i - |front|, j - |front|);
      } else if j >= |front| {
        ElementsBounded(last, j - |front|);
        assert front[i] in front;
      }
    }
    forall v | v in Flatten(rs)
      ensures rs[0].start as int <= v <= last.end as int
    {
      if v !in front {
        var k :| 0 <= k < |tail| && tail[k] == v;
        ElementsBounded(last, k);
      }
    }
  }

  lemma FlattenCount(rs: seq<IntRange>)
    requires Ordered(rs)
    ensures |Flatten(rs)| < 0x8000_0000_0000_0000
    ensures StrictlyAscending(Flatten(rs))
  {
    if rs != [] { FlattenSorted(rs); }
  }

  lemma {:induction false} FlattenMember(rs: seq<IntRange>, v: int)
    requires AllValid(rs)
    ensures v in Flatten(rs) <==> exists i :: 0 <= i < |rs| && v in Elements(rs[i])
  {
    if rs == [] {
    } else {
      var n := |rs| - 1;
      var front := rs[..n];
      FlattenMember(front, v);
      if v in Flatten(front) {
        var i :| 0 <= i < n && v in Elements(front[i]);
        assert v in Elements(rs[i]);
      }
      if i :| 0 <= i < |rs| && v in Elements(rs[i]) {
        if i < n { assert v in Elements(front[i]); }
      }
    }
  }

  // ---- Queries ----

  /** True up to some place and false from there on, as `partition_point` asks of its caller. */
  ghost predicate Partitioned<T>(s: seq<T>, p: T -> bool) {
    forall i, j :: 0 <= i < j < |s| && p(s[j]) ==> p(s[i])
  }

  /** The first index whose element fails `p`: what `partition_point` returns. */
  function PartitionPoint<T>(s: seq<T>, p: T -> bool): (k: nat)
    requires Partitioned(s, p)
    ensures k <= |s|
    ensures forall i :: 0 <= i < k ==> p(s[i])
    ensures k < |s| ==> !p(s[k])
  {
    if s == [] || !p(s[0]) then 0
    else
      var k := PartitionPoint(s[1..], p);
      assert forall i :: 0 < i < k + 1 ==> s[i] == s[1..][i - 1];
      k + 1
  }

  /** Halving finds it. */
  method PartitionSearch<T>(s: seq<T>, p: T -> bool) returns (k: nat)
    requires Partitioned(s, p)
    ensures k == PartitionPoint(s, p)
  {
    k := 0;
    var end := |s|;
    while k < end
      invariant 0 <= k <= end <= |s|
      invariant forall i :: 0 <= i < k ==> p(s[i])
      invariant forall i :: end <= i < |s| ==> !p(s[i])
    {
      var mid := k + (end - k) / 2;
      if p(s[mid]) {
        k := mid + 1;
      } else {
        end := mid;
      }
    }
    PointUnique(s, p, k);
  }

  lemma PointUnique<T>(s: seq<T>, p: T -> bool, k: nat)
    requires Partitioned(s, p) && k <= |s|
    requires (forall i :: 0 <= i < k ==> p(s[i])) && (forall i :: k <= i < |s| ==> !p(s[i]))
    ensures k == PartitionPoint(s, p)
  {
    var point := PartitionPoint(s, p);
    var m := if point < k then point else k;
    if m < |s| {
      assert p(s[m]) <==> m < k;
      assert p(s[m]) <==> m < point;
    }
  }

  lemma EndsPartitioned(rs: seq<IntRange>, value: i64)
    requires Ordered(rs)
    ensures Partitioned(rs, (r: IntRange) => r.end < value)
  {
    forall i, j | 0 <= i < j < |rs| ensures rs[j].end < value ==> rs[i].end < value {
      OrderedStarts(rs, i, j);
    }
  }

  lemma LengthsPartitioned(e: RangeExpr, idx: u64)
    requires ValidExpr(e)
    ensures Partitioned(e.cumulativeLengths, (cum: u64) => cum <= idx)
  {
    forall i, j | 0 <= i < j < |e.ranges| ensures e.cumulativeLengths[i] <= e.cumulativeLengths[j] {
      LengthsGrow(e.ranges, i + 1, j + 1);
    }
  }

  lemma LengthsGrow(rs: seq<IntRange>, i: nat, j: nat)
    requires AllValid(rs) && i <= j <= |rs|
    ensures |Flatten(rs[..i])| <= |Flatten(rs[..j])|
  {
    FlattenPrefix(rs[..j], i);
    assert rs[..j][..i] == rs[..i];
  }

  function Len(e: RangeExpr): (n: u64)
    requires ValidExpr(e)
    ensures n as int == |Flatten(e.ranges)|
    ensures n < CONTIGUOUS_BIT
  {
    e.length % CONTIGUOUS_BIT
  }

  function IsEmpty(e: RangeExpr): (b: bool)
    requires ValidExpr(e)
    ensures b <==> Flatten(e.ranges) == []
  {
    e.length % CONTIGUOUS_BIT == 0
  }

  /** Setting the display flag leaves the list alone. */
  function WithContiguous(e: RangeExpr, contiguous: bool): (r: RangeExpr)
    requires ValidExpr(e)
    ensures ValidExpr(r) && Flatten(r.ranges) == Flatten(e.ranges) && Len(r) == Len(e)
    ensures IsContiguous(r) <==> contiguous
  {
    if contiguous then e.(length := e.length % CONTIGUOUS_BIT + CONTIGUOUS_BIT)
    else e.(length := e.length % CONTIGUOUS_BIT)
  }

  predicate IsContiguous(e: RangeExpr) {
    e.length >= CONTIGUOUS_BIT
  }

  /** One chunk probe decides membership in the whole list. */
  function ContainsValue(e: RangeExpr, value: i64): (b: bool)
    requires ValidExpr(e)
    ensures b <==> value as int in Flatten(e.ranges)
  {
    EndsPartitioned(e.ranges, value);
    var idx := PartitionPoint(e.ranges, (r: IntRange) => r.end < value);
    ContainsProbe(e.ranges, value, idx);
    idx < |e.ranges| && Contains(e.ranges[idx], value)
  }

  lemma ContainsProbe(rs: seq<IntRange>, value: i64, idx: nat)
    requires Ordered(rs) && idx <= |rs|
    requires forall i :: 0 <= i < idx ==> rs[i].end < value
    requires idx < |rs| ==> value <= rs[idx].end
    ensures value as int in Flatten(rs) <==> idx < |rs| && value as int in Elements(rs[idx])
  {
    FlattenMember(rs, value as int);
    if i :| 0 <= i < |rs| && value as int in Elements(rs[i]) {
      var k :| 0 <= k < |Elements(rs[i])| && Elements(rs[i])[k] == value as int;
      ElementsBounded(rs[i], k);
      if i > idx { OrderedStarts(rs, idx, i); }
      assert i == idx;
    }
  }

  /** Indexing through the cumulative table is indexing the list. */
  function ValueAtIndex(e: RangeExpr, idx: u64): (v: Option<i64>)
    requires ValidExpr(e)
    ensures idx as int < |Flatten(e.ranges)| ==> v.Some? && v.value as int == Flatten(e.ranges)[idx as int]
    ensures idx as int >= |Flatten(e.ranges)| ==> v.None?
  {
    if idx >= Len(e) then None
    else
      LengthsPartitioned(e, idx);
      var rangeIdx := PartitionPoint(e.cumulativeLengths, (cum: u64) => cum <= idx);
      IndexProbe(e, idx, rangeIdx);
      var offset := if rangeIdx == 0 then idx else idx - e.cumulativeLengths[rangeIdx - 1];
      FlattenAt(e.ranges, rangeIdx, offset as int);
      ValueAt(e.ranges[rangeIdx], offset)
  }

  lemma CumulativeAt(e: RangeExpr, p: nat)
    requires ValidExpr(e) && 0 < p <= |e.ranges|
    ensures e.cumulativeLengths[p - 1] as int == |Flatten(e.ranges[..p])|
  {
    assert e.ranges[..(p - 1) + 1] == e.ranges[..p];
  }

  lemma IndexProbe(e: RangeExpr, idx: u64, p: nat)
    requires ValidExpr(e) && p <= |e.ranges| && idx as int < |Flatten(e.ranges)|
    requires p > 0 ==> e.cumulativeLengths[p - 1] <= idx
    requires p < |e.ranges| ==> idx < e.cumulativeLengths[p]
    ensures p < |e.ranges|
    ensures |Flatten(e.ranges[..p])| <= idx as int < |Flatten(e.ranges[..p])| + |Elements(e.ranges[p])|
    ensures p > 0 ==> e.cumulativeLengths[p - 1] as int == |Flatten(e.ranges[..p])|
  {
    if p > 0 { CumulativeAt(e, p); }
    assert e.ranges[..|e.ranges|] == e.ranges;
    FlattenTake(e.ranges, p);
    CumulativeAt(e, p + 1);
  }

  /** Python-style indexing. */
  function Get(e: RangeExpr, index: i64): (v: Option<i64>)
    requires ValidExpr(e)
    ensures var list := Flatten(e.ranges);
            var i := if index < 0 then index as int + |list| else index as int;
            if 0 <= i < |list| then v.Some? && v.value as int == list[i] else v.None?
  {
    var idx := if index < 0 then index + Len(e) as i64 else index;
    if idx < 0 then None else ValueAtIndex(e, idx as u64)
  }

  // ---- Tables ----

  /** Chunks with their tables make a valid expression with the display flag off. */
  lemma PackedValid(ranges: seq<IntRange>, cum: seq<u64>, length: u64)
    requires Ordered(ranges) && |cum| == |ranges|
    requires forall i :: 0 <= i < |ranges| ==> cum[i] as int == |Flatten(ranges[..i + 1])|
    requires length as int == |Flatten(ranges)|
    ensures ValidExpr(RangeExpr(ranges, cum, length)) && !IsContiguous(RangeExpr(ranges, cum, length))
  {
    FlattenCount(ranges);
    var n := length as int;
    DivUnique(n, CONTIGUOUS_BIT as int, 0, n);
  }

  method SumLengths(ranges: seq<IntRange>) returns (total: u64)
    requires Ordered(ranges)
    ensures total as int == |Flatten(ranges)|
  {
    total := 0;
    for i := 0 to |ranges|
      invariant total as int == |Flatten(ranges[..i])|
    {
      FlattenTake(ranges, i);
      FlattenPrefix(ranges, i + 1);
      FlattenCount(ranges);
      total := total + LenU64(ranges[i]);
    }
    assert ranges[..|ranges|] == ranges;
  }

  method BuildCumulative(ranges: seq<IntRange>) returns (cum: seq<u64>)
    requires Ordered(ranges)
    ensures |cum| == |ranges|
    ensures forall i :: 0 <= i < |ranges| ==> cum[i] as int == |Flatten(ranges[..i + 1])|
  {
    cum := [];
    var total: u64 := 0;
    for i := 0 to |ranges|
      invariant |cum| == i
      invariant total as int == |Flatten(ranges[..i])|
      invariant forall j :: 0 <= j < i ==> cum[j] as int == |Flatten(ranges[..j + 1])|
    {
      FlattenTake(ranges, i);
      FlattenPrefix(ranges, i + 1);
      FlattenCount(ranges);
      total := total + LenU64(ranges[i]);
      cum := cum + [total];
    }
  }
}
