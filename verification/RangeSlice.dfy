/** Slicing a range expression chunk by chunk, by arithmetic alone. */
module RangeSlicing {
  import opened Wrappers
  import opened Arithmetic
  import opened IntRanges
  import opened RangeExprs

  // ---- What a slice means on a plain list ----

  /** How many of start, start + step, ... lie below `stop`. */
  ghost function SelectCount(start: int, stop: int, step: int): nat
    requires step > 0
  {
    if stop <= start then 0
    else
      DivBounds(stop - start - 1, step);
      (stop - start - 1) / step + 1
  }

  lemma SelectIndex(start: int, stop: int, step: int, j: int)
    requires step > 0 && 0 <= j
    ensures j < SelectCount(start, stop, step) <==> At(start, step, j) < stop
  {
    if start < stop {
      var a := stop - start - 1;
      DivBounds(a, step);
      if j <= a / step { MulMonotone(j, a / step, step); }
      if j >= a / step + 1 { MulMonotone(a / step + 1, j, step); MulSub(a / step + 1, 1, step); }
    } else {
      MulMonotone(0, j, step);
    }
  }

  /** The elements at indices start, start + step, ... below `stop`. */
  ghost function Selected(s: seq<int>, start: nat, stop: nat, step: nat): (r: seq<int>)
    requires step > 0 && stop <= |s|
    ensures |r| == SelectCount(start, stop, step)
    ensures forall j :: 0 <= j < |r| ==> 0 <= At(start, step, j) < |s| && r[j] == s[At(start, step, j)]
  {
    SelectInside(|s|, start, stop, step);
    seq(SelectCount(start, stop, step), j requires 0 <= j < SelectCount(start, stop, step) => s[At(start, step, j)])
  }

  lemma SelectInside(n: nat, start: nat, stop: nat, step: nat)
    requires step > 0 && stop <= n
    ensures forall j :: 0 <= j < SelectCount(start, stop, step) ==> 0 <= At(start, step, j) < n
  {
    forall j | 0 <= j < SelectCount(start, stop, step)
      ensures 0 <= At(start, step, j) < n
    {
      SelectIndex(start, stop, step, j);
      MulMonotone(0, j, step);
    }
  }

  /** Counting up to m2 is counting up to m1 and then on from the next selected index. */
  lemma CountSplit(start: int, m1: int, m2: int, step: int)
    requires step > 0 && m1 <= m2
    ensures var c := SelectCount(start, m1, step);
            SelectCount(start, m2, step) == c + SelectCount(At(start, step, c), m2, step)
  {
    var c: int := SelectCount(start, m1, step);
    var first := At(start, step, c);
    var c2: int := SelectCount(first, m2, step);
    CountUnique(start, m2, step, c + c2) by {
      MulSub(c + c2, c2, step);
      MulSub(c + c2 - 1, c2 - 1, step);
      SelectIndex(first, m2, step, c2);
      if c2 > 0 {
        SelectIndex(first, m2, step, c2 - 1);
      } else if c > 0 {
        SelectIndex(start, m1, step, c - 1);
      }
    }
  }

  lemma CountUnique(start: int, stop: int, step: int, n: nat)
    requires step > 0
    requires At(start, step, n) >= stop && (n > 0 ==> At(start, step, n - 1) < stop)
    ensures SelectCount(start, stop, step) == n
  {
    SelectIndex(start, stop, step, n);
    if n > 0 { SelectIndex(start, stop, step, n - 1); }
  }

  lemma SelectedSplit(s: seq<int>, start: nat, m1: nat, m2: nat, step: nat)
    requires step > 0 && m1 <= m2 <= |s|
    ensures var first := At(start, step, SelectCount(start, m1, step));
            && first >= 0
            && Selected(s, start, m2, step) == Selected(s, start, m1, step) + Selected(s, first, m2, step)
  {
    var c := SelectCount(start, m1, step);
    var first := At(start, step, c);
    MulMonotone(0, c, step);
    CountSplit(start, m1, m2, step);
    var whole := Selected(s, start, m2, step);
    var rest := Selected(s, first, m2, step);
    forall j | c <= j < |whole|
      ensures whole[j] == rest[j - c]
    {
      MulSub(j, c, step);
    }
  }

  /** A step at or past the end selects the first index only, so clamping it is harmless. */
  lemma ClampedStep(s: seq<int>, start: nat, stop: nat, step: nat, clamped: nat)
    requires start < stop <= |s|
    requires clamped == step > 0 || step >= clamped >= |s|
    ensures clamped > 0 && step > 0
    ensures Selected(s, start, stop, step) == Selected(s, start, stop, clamped)
  {
    if clamped != step {
      CountUnique(start, stop, step, 1);
      CountUnique(start, stop, clamped, 1);
    }
  }

  // ---- One chunk ----

  function DivCeil(a: u64, b: u64): (k: u64)
    requires b > 0 && a < 0x8000_0000_0000_0000
    ensures k as int == SelectCount(0, a as int, b as int)
    ensures 0 <= k as int * b as int < a as int + b as int
  {
    var q := a / b;
    DivCeilCount(a as int, b as int);
    DivBounds(a as int, b as int);
    if a % b > 0 then q + 1 else q
  }

  lemma DivCeilCount(a: nat, b: nat)
    requires b > 0
    ensures var k := a / b + if a % b > 0 then 1 else 0;
            k == SelectCount(0, a, b) && 0 <= k * b < a + b
  {
    var q := a / b;
    DivBounds(a, b);
    assert a == q * b + a % b;
    var k := q + if a % b > 0 then 1 else 0;
    MulSub(k, 1, b);
    MulSub(q + 1, 1, b);
    CountUnique(0, a, b, k);
  }

  /** The first selected global index at or after `cumStart`. */
  function FirstGlobal(start: u64, cumStart: u64, step: u64): (g: u64)
    requires 0 < step < 0x8000_0000_0000_0000
    requires start < 0x8000_0000_0000_0000 && cumStart < 0x8000_0000_0000_0000
    ensures g as int == At(start as int, step as int, SelectCount(start as int, cumStart as int, step as int))
    ensures g >= cumStart && g >= start
  {
    SelectIndex(start as int, cumStart as int, step as int, SelectCount(start as int, cumStart as int, step as int));
    MulMonotone(0, SelectCount(start as int, cumStart as int, step as int), step as int);
    if start >= cumStart then start
    else
      var offset := cumStart - start;
      var k := DivCeil(offset, step);
      start + k * step
  }

  /** Indices first, first + step, ..., `count` of them, all lie in the chunk. */
  ghost predicate Fits(r: IntRange, first: int, step: int, count: nat)
    requires Valid(r)
  {
    0 <= first && 0 < step && (count > 0 ==> At(first, step, count - 1) < Count(r))
  }

  lemma FitsAt(r: IntRange, first: int, step: int, count: nat)
    requires Valid(r) && Fits(r, first, step, count)
    ensures forall j :: 0 <= j < count ==> 0 <= At(first, step, j) < Count(r)
    ensures count > 0 ==> first == At(first, step, 0) < Count(r)
  {
    assert At(first, step, 0) == first;
    forall j | 0 <= j < count ensures 0 <= At(first, step, j) < Count(r) {
      MulMonotone(0, j, step);
      MulMonotone(j, count - 1, step);
    }
  }

  /** Elements first, first + step, ... of a chunk, `count` of them. */
  ghost function Stride(r: IntRange, first: int, step: int, count: nat): (s: seq<int>)
    requires Valid(r) && Fits(r, first, step, count)
    ensures |s| == count
  {
    FitsAt(r, first, step, count);
    seq(count, j requires 0 <= j < count => Elements(r)[At(first, step, j)])
  }

  /** Striding through a chunk is again an arithmetic progression. */
  lemma StrideValue(r: IntRange, first: int, step: int, count: nat, j: nat)
    requires Valid(r) && Fits(r, first, step, count) && j < count
    ensures first < Count(r)
    ensures Stride(r, first, step, count)[j] == At(Elements(r)[first], r.step as int * step, j)
    ensures r.start as int <= Stride(r, first, step, count)[j] <= r.end as int
  {
    var d := r.step as int;
    FitsAt(r, first, step, count);
    ElementsBounded(r, At(first, step, j));
    MulNest(first, j, step, d);
  }

  lemma OnePiece(v: i64)
    requires InDomain(v as int)
    ensures Valid(IntRange(v, v, 1)) && Elements(IntRange(v, v, 1)) == [v as int]
    ensures Ordered([IntRange(v, v, 1)]) && Flatten([IntRange(v, v, 1)]) == [v as int]
  {
    ElementsEndpoints(IntRange(v, v, 1));
    FlattenPush([], IntRange(v, v, 1));
    assert [] + [IntRange(v, v, 1)] == [IntRange(v, v, 1)];
  }

  lemma TwoPieces(a: i64, b: i64)
    requires InDomain(a as int) && InDomain(b as int) && a < b
    ensures var p := [IntRange(a, a, 1), IntRange(b, b, 1)];
            Ordered(p) && Flatten(p) == [a as int, b as int]
  {
    OnePiece(a);
    OnePiece(b);
    FlattenPush([IntRange(a, a, 1)], IntRange(b, b, 1));
    assert [IntRange(a, a, 1)] + [IntRange(b, b, 1)] == [IntRange(a, a, 1), IntRange(b, b, 1)];
  }

  lemma StrideChunk(r: IntRange, first: int, step: int, count: nat, a: i64, b: i64, ns: i64)
    requires Valid(r) && Fits(r, first, step, count)
    requires count >= 1 && ns as int == r.step as int * step && InDomain(ns as int)
    requires a as int == Stride(r, first, step, count)[0] && b as int == Stride(r, first, step, count)[count - 1]
    ensures Valid(IntRange(a, b, ns)) && Elements(IntRange(a, b, ns)) == Stride(r, first, step, count)
  {
    MulMonotone(1, step, r.step as int);
    StrideValue(r, first, step, count, 0);
    StrideValue(r, first, step, count, count - 1);
    MulMonotone(0, count - 1, ns as int);
    DivUnique(b as int - a as int, ns as int, count - 1, 0);
    forall j | 0 <= j < count
      ensures Elements(IntRange(a, b, ns))[j] == Stride(r, first, step, count)[j]
    {
      StrideValue(r, first, step, count, j);
    }
  }

  lemma StridePiece(r: IntRange, first: int, step: int, count: nat, a: i64, b: i64, ns: i64)
    requires Valid(r) && Fits(r, first, step, count)
    requires count >= 1 && ns as int == r.step as int * step && InDomain(ns as int)
    requires a as int == Stride(r, first, step, count)[0] && b as int == Stride(r, first, step, count)[count - 1]
    ensures Ordered([IntRange(a, b, ns)]) && Flatten([IntRange(a, b, ns)]) == Stride(r, first, step, count)
  {
    StrideChunk(r, first, step, count, a, b, ns);
    FlattenPush([], IntRange(a, b, ns));
    assert [] + [IntRange(a, b, ns)] == [IntRange(a, b, ns)];
  }

  /** Spacing at or past 2^62 leaves room for two values only. */
  lemma WideStride(r: IntRange, first: int, step: int, count: nat)
    requires Valid(r) && Fits(r, first, step, count)
    requires count >= 2 && r.step as int * step >= 0x4000_0000_0000_0000
    ensures count == 2
    ensures Stride(r, first, step, count)[0] < Stride(r, first, step, count)[1]
  {
    var ns := r.step as int * step;
    StrideValue(r, first, step, count, 0);
    StrideValue(r, first, step, count, 1);
    StrideValue(r, first, step, count, count - 1);
    if count > 2 { MulMonotone(2, count - 1, ns); }
  }

  ghost predicate Within(pieces: seq<IntRange>, r: IntRange) {
    forall i :: 0 <= i < |pieces| ==> r.start <= pieces[i].start && pieces[i].end <= r.end
  }

  /** The selected part of one chunk, as at most two chunks; two only for two far-apart values. */
  method StridePieces(r: IntRange, firstLocal: u64, lastLocal: u64, step: u64, count: u64)
      returns (pieces: seq<IntRange>)
    requires Valid(r) && 1 <= count && Fits(r, firstLocal as int, step as int, count as int)
    requires lastLocal as int == At(firstLocal as int, step as int, count as int - 1)
    ensures Ordered(pieces) && Within(pieces, r)
    ensures Flatten(pieces) == Stride(r, firstLocal as int, step as int, count as int)
    ensures |pieces| <= 2 && (|pieces| == 2 ==> count == 2)
  {
    FitsAt(r, firstLocal as int, step as int, count as int);
    var newStart, newEnd := Nth(r, firstLocal), Nth(r, lastLocal);
    StrideValue(r, firstLocal as int, step as int, count as int, 0);
    StrideValue(r, firstLocal as int, step as int, count as int, count as int - 1);
    var ns := r.step as int * step as int;
    if count == 1 {
      OnePiece(newStart);
      pieces := [IntRange(newStart, newStart, 1)];
    } else if ns < MAX_RANGE_VALUE_MAGNITUDE as int {
      MulMonotone(1, step as int, r.step as int);
      StridePiece(r, firstLocal as int, step as int, count as int, newStart, newEnd, ns as i64);
      pieces := [IntRange(newStart, newEnd, ns as i64)];
    } else {
      WideStride(r, firstLocal as int, step as int, count as int);
      assert count == 2;
      TwoPieces(newStart, newEnd);
      pieces := [IntRange(newStart, newStart, 1), IntRange(newEnd, newEnd, 1)];
    }
  }

  // ---- The whole expression ----

  function Min(a: int, b: int): int {
    if a < b then a else b
  }

  /** What one chunk contributes: selected indices of [cumStart, cumStart + Count(r)) below `stop`. */
  ghost function ChunkCount(r: IntRange, cumStart: int, start: int, stop: int, step: int): nat
    requires Valid(r) && step > 0
  {
    SelectCount(FirstIndex(start, cumStart, step), Min(stop, cumStart + Count(r)), step)
  }

  ghost function FirstIndex(start: int, cumStart: int, step: int): int
    requires step > 0
  {
    At(start, step, SelectCount(start, cumStart, step))
  }

  lemma ChunkFits(r: IntRange, cumStart: nat, start: nat, stop: nat, step: nat)
    requires Valid(r) && step > 0
    ensures FirstIndex(start, cumStart, step) >= cumStart
    ensures Fits(r, FirstIndex(start, cumStart, step) - cumStart, step, ChunkCount(r, cumStart, start, stop, step))
  {
    var first := FirstIndex(start, cumStart, step);
    var count := ChunkCount(r, cumStart, start, stop, step);
    SelectIndex(start, cumStart, step, SelectCount(start, cumStart, step));
    if count > 0 {
      SelectIndex(first, Min(stop, cumStart + Count(r)), step, count - 1);
    }
  }

  ghost function ChunkPart(r: IntRange, cumStart: nat, start: nat, stop: nat, step: nat): seq<int>
    requires Valid(r) && step > 0
  {
    ChunkFits(r, cumStart, start, stop, step);
    Stride(r, FirstIndex(start, cumStart, step) - cumStart, step, ChunkCount(r, cumStart, start, stop, step))
  }

  lemma LastIndex(first: nat, stop: nat, step: nat)
    requires first < stop && step > 0
    ensures 0 <= (stop - first - 1) / step <= stop - first - 1
    ensures 0 <= ((stop - first - 1) / step) * step <= stop - first - 1
  {
    DivBounds(stop - first - 1, step);
    MulMonotone(0, (stop - first - 1) / step, step);
  }

  method SliceChunk(r: IntRange, cumStart: u64, start: u64, stop: u64, step: u64) returns (pieces: seq<IntRange>)
    requires Valid(r) && cumStart as int + Count(r) < 0x8000_0000_0000_0000
    requires start < stop < 0x8000_0000_0000_0000 && 0 < step < 0x8000_0000_0000_0000
    ensures Ordered(pieces) && Within(pieces, r)
    ensures Flatten(pieces) == ChunkPart(r, cumStart as int, start as int, stop as int, step as int)
    ensures |pieces| <= 2
    ensures |pieces| == 2 ==> ChunkCount(r, cumStart as int, start as int, stop as int, step as int) == 2
  {
    var cumEnd := cumStart + LenU64(r);
    var firstGlobal := FirstGlobal(start, cumStart, step);
    var rangeStop := if stop < cumEnd then stop else cumEnd;
    ChunkFits(r, cumStart as int, start as int, stop as int, step as int);
    if firstGlobal >= rangeStop {
      return [];
    }
    var firstLocal := firstGlobal - cumStart;
    LastIndex(firstGlobal as int, rangeStop as int, step as int);
    var count := (rangeStop - firstGlobal - 1) / step + 1;
    var lastLocal := firstLocal + (count - 1) * step;
    pieces := StridePieces(r, firstLocal, lastLocal, step, count);
  }

  /** Adding one chunk's part extends the selection to the end of that chunk. */
  lemma SelectedChunk(s: seq<int>, r: IntRange, cumStart: nat, start: nat, stop: nat, step: nat)
    requires Valid(r) && step > 0 && stop <= |s| && cumStart + Count(r) <= |s|
    requires forall k :: 0 <= k < Count(r) ==> s[cumStart + k] == Elements(r)[k]
    ensures Selected(s, start, Min(stop, cumStart + Count(r)), step)
            == Selected(s, start, Min(stop, cumStart), step) + ChunkPart(r, cumStart, start, stop, step)
  {
    var m1, m2 := Min(stop, cumStart), Min(stop, cumStart + Count(r));
    var first := FirstIndex(start, cumStart, step);
    var part := ChunkPart(r, cumStart, start, stop, step);
    ChunkFits(r, cumStart, start, stop, step);
    if stop >= cumStart {
      SelectedSplit(s, start, m1, m2, step);
      FitsAt(r, first - cumStart, step, |part|);
      var rest := Selected(s, first, m2, step);
      forall j | 0 <= j < |part| ensures part[j] == rest[j] {
        assert s[cumStart + At(first - cumStart, step, j)] == Elements(r)[At(first - cumStart, step, j)];
      }
    }
  }

  lemma {:induction false} FlattenAppend(a: seq<IntRange>, b: seq<IntRange>)
    requires AllValid(a) && AllValid(b)
    ensures Flatten(a + b) == Flatten(a) + Flatten(b)
  {
    if b == [] {
      assert a + b == a;
    } else {
      var n := |b| - 1;
      var front := b[..n];
      FlattenAppend(a, front);
      FlattenPush(a + front, b[n]);
      assert a + b == (a + front) + [b[n]];
      assert Flatten(b) == Flatten(front) + Elements(b[n]);
    }
  }

  lemma OrderedAppend(a: seq<IntRange>, b: seq<IntRange>)
    requires Ordered(a) && Ordered(b) && (a != [] && b != [] ==> a[|a| - 1].end < b[0].start)
    ensures Ordered(a + b)
  {
    var s := a + b;
    forall i | 0 < i < |s| ensures s[i - 1].end < s[i].start {
      if i > |a| { assert s[i - 1] == b[i - 1 - |a|] && s[i] == b[i - |a|]; }
    }
  }

  function Clamp(v: i64, hi: i64): (r: u64)
    requires hi >= 0
  {
    (if v < 0 then 0 else if v > hi then hi else v) as u64
  }

  /** Position `k` of a list is in the slice from `start0` below `stop0`, every `step0`th from where it begins. */
  ghost predicate InSlice(start0: i64, stop0: i64, step0: i64, k: nat)
    requires step0 > 0
  {
    start0 as int <= k < stop0 as int && (k - if start0 < 0 then 0 else start0 as int) % step0 as int == 0
  }

  lemma StepsTo(start: nat, step: int, k: nat, j: nat)
    requires step > 0 && k == At(start, step, j)
    ensures k >= start && (k - start) % step == 0
  {
    MulMonotone(0, j, step);
    DivUnique(k - start, step, j, 0);
  }

  lemma ReachedBy(start: nat, step: int, k: nat) returns (j: nat)
    requires step > 0 && k >= start && (k - start) % step == 0
    ensures k == At(start, step, j)
  {
    DivBounds(k - start, step);
    j := (k - start) / step;
  }

  /** The elements selected are those at the slice's positions. */
  lemma SelectedExactly(list: seq<int>, start0: i64, stop0: i64, step0: i64, k: nat)
    requires StrictlyAscending(list) && k < |list| < 0x8000_0000_0000_0000 && step0 > 0
    ensures var n := |list| as i64;
            list[k] in Selected(list, Clamp(start0, n) as int, Clamp(stop0, n) as int, step0 as int) <==>
            InSlice(start0, stop0, step0, k)
  {
    var n := |list| as i64;
    var start, stop, step := Clamp(start0, n) as int, Clamp(stop0, n) as int, step0 as int;
    var r := Selected(list, start, stop, step);
    if list[k] in r {
      var j :| 0 <= j < |r| && r[j] == list[k];
      SelectIndex(start, stop, step, j);
      assert At(start, step, j) == k;
      StepsTo(start, step, k, j);
    }
    if InSlice(start0, stop0, step0, k) {
      var j := ReachedBy(start, step, k);
      SelectIndex(start, stop, step, j);
      assert r[j] == list[k];
    }
  }

  /** `RangeExpr::slice`: exactly the elements at indices start, start + step, ... below stop
      (clamped to the list), again well formed. */
  method Slice(e: RangeExpr, start0: i64, stop0: i64, step0: i64) returns (r: Result<RangeExpr, RangeError>)
    requires ValidExpr(e)
    ensures r.Ok? <==> step0 > 0
    ensures r.Ok? ==> ValidExpr(r.value) && !IsContiguous(r.value)
    ensures r.Ok? ==> Flatten(r.value.ranges)
                      == Selected(Flatten(e.ranges), Clamp(start0, Len(e) as i64) as int,
                          Clamp(stop0, Len(e) as i64) as int, step0 as int)
    ensures r.Ok? ==> forall k :: 0 <= k < |Flatten(e.ranges)| ==>
                        (Flatten(e.ranges)[k] in Flatten(r.value.ranges) <==> InSlice(start0, stop0, step0, k))
  {
    if step0 <= 0 {
      return Err(ParseError);
    }
    AllSliced(e, start0, stop0, step0);
    var totalLen := Len(e) as i64;
    var start, stop := Clamp(start0, totalLen), Clamp(stop0, totalLen);
    var maxStep := if totalLen > 1 then totalLen else 1;
    var step := (if step0 < maxStep then step0 else maxStep) as u64;
    if start >= stop {
      return Ok(EmptyExpr);
    }
    ghost var list := Flatten(e.ranges);
    ClampedStep(list, start as int, stop as int, step0 as int, step as int);
    var result := SliceChunks(e.ranges, start, stop, step);
    if result == [] {
      return Ok(EmptyExpr);
    }
    var length := SumLengths(result);
    var cumulative := BuildCumulative(result);
    PackedValid(result, cumulative, length);
    r := Ok(RangeExpr(result, cumulative, length));
  }

  lemma AllSliced(e: RangeExpr, start0: i64, stop0: i64, step0: i64)
    requires ValidExpr(e) && step0 > 0
    ensures forall k :: 0 <= k < |Flatten(e.ranges)| ==>
              (Flatten(e.ranges)[k] in Selected(Flatten(e.ranges), Clamp(start0, Len(e) as i64) as int,
                                                Clamp(stop0, Len(e) as i64) as int, step0 as int) <==>
               InSlice(start0, stop0, step0, k))
  {
    var list := Flatten(e.ranges);
    if e.ranges != [] { FlattenSorted(e.ranges); }
    forall k | 0 <= k < |list|
      ensures list[k] in Selected(list, Clamp(start0, Len(e) as i64) as int, Clamp(stop0, Len(e) as i64) as int,
                                  step0 as int) <==>
              InSlice(start0, stop0, step0, k)
    {
      SelectedExactly(list, start0, stop0, step0, k);
    }
  }

  method SliceChunks(ranges: seq<IntRange>, start: u64, stop: u64, step: u64) returns (result: seq<IntRange>)
    requires Ordered(ranges) && start < stop && 0 < step && stop as int <= |Flatten(ranges)|
            && step as int <= |Flatten(ranges)|
    ensures Ordered(result)
    ensures Flatten(result) == Selected(Flatten(ranges), start as int, stop as int, step as int)
  {
    FlattenCount(ranges);
    result := [];
    var cumStart: u64 := 0;
    for i := 0 to |ranges|
      invariant cumStart as int == |Flatten(ranges[..i])| <= |Flatten(ranges)|
      invariant Ordered(result) && EndsBy(result, ranges, i)
      invariant Flatten(result) ==
                Selected(Flatten(ranges), start as int, Min(stop as int, |Flatten(ranges[..i])|), step as int)
    {
      ChunkPlace(ranges, i);
      var pieces := SliceChunk(ranges[i], cumStart, start, stop, step);
      AppendSelected(ranges, i, start as int, stop as int, step as int, result, pieces);
      AppendOrder(ranges, i, result, pieces);
      result := result + pieces;
      cumStart := cumStart + LenU64(ranges[i]);
    }
    assert ranges[..|ranges|] == ranges;
  }

  /** `result` stays at or below the first i chunks. */
  ghost predicate EndsBy(result: seq<IntRange>, ranges: seq<IntRange>, i: nat)
    requires i <= |ranges|
  {
    result != [] ==> i > 0 && result[|result| - 1].end <= ranges[i - 1].end
  }

  lemma AppendOrder(ranges: seq<IntRange>, i: nat, result: seq<IntRange>, pieces: seq<IntRange>)
    requires Ordered(ranges) && i < |ranges|
    requires Ordered(result) && EndsBy(result, ranges, i)
    requires Ordered(pieces) && Within(pieces, ranges[i])
    ensures Ordered(result + pieces) && EndsBy(result + pieces, ranges, i + 1)
  {
    OrderedAppend(result, pieces);
    assert i > 0 ==> ranges[i - 1].end < ranges[i].start <= ranges[i].end;
  }

  lemma AppendSelected(rs: seq<IntRange>, i: nat, start: nat, stop: nat, step: nat, result: seq<IntRange>,
                       pieces: seq<IntRange>)
    requires Ordered(rs) && i < |rs| && step > 0 && stop <= |Flatten(rs)|
    requires |Flatten(rs[..i])| <= |Flatten(rs)|
    requires AllValid(result) && Flatten(result) == Selected(Flatten(rs), start, Min(stop, |Flatten(rs[..i])|), step)
    requires AllValid(pieces) && Flatten(pieces) == ChunkPart(rs[i], |Flatten(rs[..i])|, start, stop, step)
    ensures |Flatten(rs[..i + 1])| <= |Flatten(rs)|
    ensures Flatten(result + pieces) == Selected(Flatten(rs), start, Min(stop, |Flatten(rs[..i + 1])|), step)
  {
    var all, before, after := Flatten(rs), |Flatten(rs[..i])|, |Flatten(rs[..i + 1])|;
    ChunkPlace(rs, i);
    FlattenAppend(result, pieces);
    AppendTo(all, rs[i], before, after, start, stop, step, Flatten(result), Flatten(pieces), Flatten(result + pieces));
  }

  lemma AppendTo(all: seq<int>, r: IntRange, before: nat, after: nat, start: nat, stop: nat, step: nat,
                 front: seq<int>, part: seq<int>, whole: seq<int>)
    requires Valid(r) && step > 0 && stop <= |all| && after == before + Count(r) <= |all| && whole == front + part
    requires forall k :: 0 <= k < Count(r) ==> all[before + k] == Elements(r)[k]
    requires front == Selected(all, start, Min(stop, before), step) && part == ChunkPart(r, before, start, stop, step)
    ensures whole == Selected(all, start, Min(stop, after), step)
  {
    AppendPart(all, r, before, start, stop, step, front, part);
  }

  lemma AppendPart(all: seq<int>, r: IntRange, before: nat, start: nat, stop: nat, step: nat, front: seq<int>,
                   part: seq<int>)
    requires Valid(r) && step > 0 && stop <= |all| && before + Count(r) <= |all|
    requires forall k :: 0 <= k < Count(r) ==> all[before + k] == Elements(r)[k]
    requires front == Selected(all, start, Min(stop, before), step) && part == ChunkPart(r, before, start, stop, step)
    ensures front + part == Selected(all, start, Min(stop, before + Count(r)), step)
  {
    SelectedChunk(all, r, before, start, stop, step);
  }

  lemma ChunkPlace(rs: seq<IntRange>, i: nat)
    requires Ordered(rs) && i < |rs|
    ensures |Flatten(rs[..i + 1])| == |Flatten(rs[..i])| + Count(rs[i]) <= |Flatten(rs)|
    ensures forall k :: 0 <= k < Count(rs[i]) ==> Flatten(rs)[|Flatten(rs[..i])| + k] == Elements(rs[i])[k]
  {
    FlattenTake(rs, i);
    FlattenPrefix(rs, i + 1);
    forall k | 0 <= k < Count(rs[i])
      ensures Flatten(rs)[|Flatten(rs[..i])| + k] == Elements(rs[i])[k]
    {
      FlattenAt(rs, i, k);
    }
  }
}
