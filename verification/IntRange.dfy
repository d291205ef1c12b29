/** One chunk of a range expression: `start, start + step, ..., end`, on 64-bit integers.
    Every arithmetic expression on `i64` or `u64` below is checked not to overflow. */
module IntRanges {
  import opened Wrappers
  import opened Arithmetic

  newtype i64 = x: int | -0x8000_0000_0000_0000 <= x < 0x8000_0000_0000_0000
  newtype u64 = x: int | 0 <= x < 0x1_0000_0000_0000_0000

  /** 2^62, exclusive, for endpoints and steps. */
  const MAX_RANGE_VALUE_MAGNITUDE: i64 := 0x4000_0000_0000_0000

  datatype RangeError = ParseError | IntegerOverflow

  datatype IntRange = IntRange(start: i64, end: i64, step: i64)

  predicate InDomain(v: int) {
    -0x4000_0000_0000_0000 < v < 0x4000_0000_0000_0000
  }

  /** The construction invariant the source documents, plus: `end` is the last value reached. */
  predicate Valid(r: IntRange) {
    && InDomain(r.start as int) && InDomain(r.end as int) && InDomain(r.step as int)
    && r.start <= r.end && 0 < r.step
    && (r.end as int - r.start as int) % r.step as int == 0
  }

  /** The k-th member of an arithmetic progression. */
  function At(start: int, step: int, k: int): int {
    start + k * step
  }

  function Count(r: IntRange): (n: nat)
    requires Valid(r)
    ensures n >= 1
  {
    DivBounds(r.end as int - r.start as int, r.step as int);
    (r.end as int - r.start as int) / r.step as int + 1
  }

  /** The plain list a chunk stands for. */
  function Elements(r: IntRange): seq<int>
    requires Valid(r)
  {
    seq(Count(r), k => At(r.start as int, r.step as int, k))
  }

  lemma ElementsEndpoints(r: IntRange)
    requires Valid(r)
    ensures |Elements(r)| == Count(r)
    ensures Elements(r)[0] == r.start as int
    ensures Elements(r)[Count(r) - 1] == r.end as int == At(r.start as int, r.step as int, Count(r) - 1)
    ensures Count(r) <= r.end as int - r.start as int + 1
  {
    var span, d := r.end as int - r.start as int, r.step as int;
    assert span == (span / d) * d + span % d;
    DivBounds(span, d);
  }

  lemma ElementsAscending(r: IntRange, i: nat, j: nat)
    requires Valid(r) && i < j < Count(r)
    ensures Elements(r)[i] + r.step as int <= Elements(r)[j]
  {
    MulMonotone(i + 1, j, r.step as int);
  }

  lemma ElementsBounded(r: IntRange, i: nat)
    requires Valid(r) && i < Count(r)
    ensures r.start as int <= Elements(r)[i] <= r.end as int
  {
    ElementsEndpoints(r);
    if i > 0 { ElementsAscending(r, 0, i); }
    if i < Count(r) - 1 { ElementsAscending(r, i, Count(r) - 1); }
  }

  /** Membership by remainder is membership in the list. */
  lemma ElementsMember(r: IntRange, v: int)
    requires Valid(r)
    ensures v in Elements(r) <==>
            r.start as int <= v <= r.end as int && (v - r.start as int) % r.step as int == 0
  {
    var s, d := r.start as int, r.step as int;
    if v in Elements(r) {
      var i :| 0 <= i < |Elements(r)| && Elements(r)[i] == v;
      ElementsBounded(r, i);
      DivUnique(v - s, d, i, 0);
    }
    if s <= v <= r.end as int && (v - s) % d == 0 {
      ElementAt(r, v);
    }
  }

  lemma ElementAt(r: IntRange, v: int)
    requires Valid(r) && r.start as int <= v <= r.end as int && (v - r.start as int) % r.step as int == 0
    ensures v in Elements(r)
  {
    var s, d := r.start as int, r.step as int;
    var i := (v - s) / d;
    DivBounds(v - s, d);
    assert v - s == i * d + (v - s) % d;
    ElementsEndpoints(r);
    MulSub(Count(r), 1, d);
    if i > Count(r) - 1 { MulMonotone(Count(r), i, d); }
    assert Elements(r)[i] == v;
  }

  /** Two chunks of the same step that meet end to start are one chunk. */
  lemma ElementsJoin(a: IntRange, b: IntRange)
    requires Valid(a) && Valid(b) && a.step == b.step
    requires a.end as int + b.step as int == b.start as int
    ensures Valid(IntRange(a.start, b.end, a.step))
    ensures Elements(IntRange(a.start, b.end, a.step)) == Elements(a) + Elements(b)
  {
    var c := IntRange(a.start, b.end, a.step);
    JoinCount(a, b);
    forall k | Count(a) <= k < Count(c)
      ensures Elements(c)[k] == Elements(b)[k - Count(a)]
    {
      ElementsEndpoints(a);
      MulSub(k, Count(a), a.step as int);
      MulSub(Count(a), 1, a.step as int);
    }
  }

  lemma JoinCount(a: IntRange, b: IntRange)
    requires Valid(a) && Valid(b) && a.step == b.step
    requires a.end as int + b.step as int == b.start as int
    ensures Valid(IntRange(a.start, b.end, a.step))
    ensures Count(IntRange(a.start, b.end, a.step)) == Count(a) + Count(b)
  {
    var d := a.step as int;
    ElementsEndpoints(a);
    ElementsEndpoints(b);
    var q := Count(a) + Count(b) - 1;
    MulSub(q, Count(a), d);
    MulSub(Count(a), 1, d);
    DivUnique(b.end as int - a.start as int, d, q, 0);
  }

  /** The values the triple asks for, whichever way it runs: reach them from `start` by whole
      steps without passing `end`. */
  ghost predicate InProgression(v: int, start: int, end: int, step: int) {
    exists k: nat :: At(start, step, k) == v && if step > 0 then v <= end else end <= v
  }

  predicate Accepts(start: i64, end: i64, step: i64) {
    && step != 0 && InDomain(start as int) && InDomain(end as int) && InDomain(step as int)
    && (step > 0 ==> start <= end) && (step < 0 ==> end <= start)
  }

  function CheckRangeValue(v: i64): bool {
    v < MAX_RANGE_VALUE_MAGNITUDE && -MAX_RANGE_VALUE_MAGNITUDE < v
  }

  /** `IntRange::new`: the result is ascending whatever the direction of the request. */
  function New(start: i64, end: i64, step: i64): (r: Result<IntRange, RangeError>)
    ensures r.Ok? <==> Accepts(start, end, step)
    ensures r.Err? ==> (r.error.IntegerOverflow? <==>
                          step != 0 && !(InDomain(start as int) && InDomain(end as int) && InDomain(step as int)))
    ensures r.Ok? ==> Valid(r.value)
  {
    if step == 0 then Err(ParseError)
    else if !CheckRangeValue(start) || !CheckRangeValue(end) || !CheckRangeValue(step) then Err(IntegerOverflow)
    else if step > 0 && start > end then Err(ParseError)
    else if step < 0 && start < end then Err(ParseError)
    else if step < 0 then
      NewDescending(start, end, step);
      var count := (start - end) / (-step) + 1;
      var last := start + (count - 1) * step;
      Ok(IntRange(last, start, -step))
    else
      NewAscending(start, end, step);
      var count := (end - start) / step + 1;
      var actualEnd := start + (count - 1) * step;
      Ok(IntRange(start, actualEnd, step))
  }

  /** Normalizing loses nothing and adds nothing. */
  lemma NewHolds(start: i64, end: i64, step: i64)
    requires Accepts(start, end, step)
    ensures forall v :: v in Elements(New(start, end, step).value)
                        <==> InProgression(v, start as int, end as int, step as int)
  {
    if step < 0 { NewDescending(start, end, step); } else { NewAscending(start, end, step); }
  }

  lemma NewAscending(start: i64, end: i64, step: i64)
    requires Accepts(start, end, step) && step > 0
    ensures var q := (end as int - start as int) / step as int;
            && 0 <= q && 0 <= q * step as int <= end as int - start as int
            && var r := IntRange(start, (start as int + q * step as int) as i64, step);
            && Valid(r)
            && forall v :: v in Elements(r) <==> InProgression(v, start as int, end as int, step as int)
  {
    var s, e, d := start as int, end as int, step as int;
    var q := (e - s) / d;
    DivBounds(e - s, d);
    var r := IntRange(start, (s + q * d) as i64, step);
    DivUnique(q * d, d, q, 0);
    forall v
      ensures v in Elements(r) <==> InProgression(v, s, e, d)
    {
      AscendingMember(r, e, q, v);
    }
  }

  lemma AscendingMember(r: IntRange, e: int, q: nat, v: int)
    requires Valid(r) && Count(r) == q + 1
    requires r.end as int <= e < r.end as int + r.step as int
    ensures v in Elements(r) <==> InProgression(v, r.start as int, e, r.step as int)
  {
    var s, d := r.start as int, r.step as int;
    if InProgression(v, s, e, d) {
      var k: nat :| At(s, d, k) == v && if d > 0 then v <= e else e <= v;
      ElementsEndpoints(r);
      MulSub(q + 1, 1, d);
      if k > q { MulMonotone(q + 1, k, d); }
      assert Elements(r)[k] == v;
    }
    if v in Elements(r) {
      var k :| 0 <= k < |Elements(r)| && Elements(r)[k] == v;
      ElementsBounded(r, k);
      assert At(s, d, k) == v;
    }
  }

  lemma NewDescending(start: i64, end: i64, step: i64)
    requires Accepts(start, end, step) && step < 0
    ensures var q := (start as int - end as int) / (-(step as int));
            && 0 <= q && end as int - start as int <= q * step as int <= 0
            && var r := IntRange((start as int + q * step as int) as i64, start, -step);
            && Valid(r)
            && forall v :: v in Elements(r) <==> InProgression(v, start as int, end as int, step as int)
  {
    var s, e, d := start as int, end as int, -(step as int);
    var q := (s - e) / d;
    DivBounds(s - e, d);
    assert q * step as int == -(q * d);
    var r := IntRange((s - q * d) as i64, start, -step);
    DivUnique(q * d, d, q, 0);
    forall v
      ensures v in Elements(r) <==> InProgression(v, s, e, -d)
    {
      DescendingMember(r, e, q, v);
    }
  }

  /** Counted down from `end`, the k-th value is the element q - k. */
  lemma DescendingIndex(r: IntRange, q: nat, k: int)
    requires Valid(r) && Count(r) == q + 1
    ensures At(r.end as int, -(r.step as int), k) == At(r.start as int, r.step as int, q - k)
  {
    ElementsEndpoints(r);
    MulSub(q, k, r.step as int);
    MulSub(k, k, r.step as int);
  }

  lemma DescendingMember(r: IntRange, e: int, q: nat, v: int)
    requires Valid(r) && Count(r) == q + 1
    requires e <= r.start as int < e + r.step as int
    ensures v in Elements(r) <==> InProgression(v, r.end as int, e, -(r.step as int))
  {
    var s, d := r.end as int, r.step as int;
    if InProgression(v, s, e, -d) {
      var k: nat :| At(s, -d, k) == v && if -d > 0 then v <= e else e <= v;
      DescendingIndex(r, q, k);
      MulSub(0, k - q, d);
      if k > q { MulMonotone(1, k - q, d); }
      assert Elements(r)[q - k] == v;
    }
    if v in Elements(r) {
      var k :| 0 <= k < |Elements(r)| && Elements(r)[k] == v;
      DescendingIndex(r, q, q - k);
      ElementsBounded(r, k);
      assert At(s, -d, q - k) == v;
    }
  }

  function LenU64(r: IntRange): (n: u64)
    requires Valid(r)
    ensures n as int == |Elements(r)|
    ensures n < 0x8000_0000_0000_0000
  {
    ElementsEndpoints(r);
    ((r.end - r.start) / r.step + 1) as u64
  }

  function Contains(r: IntRange, value: i64): (b: bool)
    requires Valid(r)
    ensures b <==> value as int in Elements(r)
  {
    ElementsMember(r, value as int);
    if value < r.start || value > r.end then false else (value - r.start) % r.step == 0
  }

  function Nth(r: IntRange, k: u64): (v: i64)
    requires Valid(r) && k as int < Count(r)
    ensures v as int == Elements(r)[k as int]
  {
    ElementsBounded(r, k as int);
    MulMonotone(0, k as int, r.step as int);
    r.start + k as i64 * r.step
  }

  function ValueAt(r: IntRange, index: u64): (v: Option<i64>)
    requires Valid(r)
    ensures index as int < |Elements(r)| ==> v.Some? && v.value as int == Elements(r)[index as int]
    ensures index as int >= |Elements(r)| ==> v.None?
  {
    if index < LenU64(r) then Some(Nth(r, index)) else None
  }
}
