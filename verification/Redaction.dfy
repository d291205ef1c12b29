/** Masking recorded secrets in a line of output: `apply_redaction`. */
module Redaction {
  import opened Wrappers
  import opened Sequences
  import opened Sorting
  import opened CodePoints

  const STARS := "********"

  // ---- Occurrences ----

  predicate OccursAt(line: string, value: string, p: int) {
    0 <= p && p + |value| <= |line| && line[p..p + |value|] == value
  }

  ghost predicate Contains(line: string, value: string) {
    exists p :: 0 <= p <= |line| && OccursAt(line, value, p)
  }

  /** `find` from `start` on. */
  function FindFrom(line: string, value: string, start: nat): (r: Option<nat>)
    requires start <= |line|
    ensures r.Some? ==> start <= r.value && OccursAt(line, value, r.value)
    ensures forall p :: start <= p <= |line| && (r.Some? ==> p < r.value) ==> !OccursAt(line, value, p)
    decreases |line| - start
  {
    if OccursAt(line, value, start) then Some(start)
    else if start == |line| then None
    else FindFrom(line, value, start + 1)
  }

  /** Position `i` lies in an occurrence of a recorded value. */
  ghost predicate Covered(values: set<string>, line: string, i: int) {
    exists v, p :: v in values && OccursAt(line, v, p) && p <= i < p + |v|
  }

  // ---- What masking means ----

  /** Each maximal covered run becomes one mask; everything else stays. */
  ghost function MaskedFrom(line: string, cov: int -> bool, i: nat): string
    requires i <= |line|
    decreases |line| - i
  {
    if i == |line| then ""
    else if !cov(i) then [line[i]] + MaskedFrom(line, cov, i + 1)
    else (if i > 0 && cov(i - 1) then "" else STARS) + MaskedFrom(line, cov, i + 1)
  }

  ghost function Coverage(values: set<string>, line: string): int -> bool {
    i => Covered(values, line, i)
  }

  ghost function Masked(values: set<string>, line: string): string {
    MaskedFrom(line, Coverage(values, line), 0)
  }

  lemma {:induction false} MaskedKeeps(line: string, cov: int -> bool, i: nat, j: nat)
    requires i <= j <= |line| && forall k :: i <= k < j ==> !cov(k)
    ensures MaskedFrom(line, cov, i) == line[i..j] + MaskedFrom(line, cov, j)
    decreases j - i
  {
    if i < j {
      MaskedKeeps(line, cov, i + 1, j);
      assert !cov(i);
      HeadOfSlice(line, i, j);
      Assoc([line[i]], line[i + 1..j], MaskedFrom(line, cov, j));
    } else {
      assert line[i..j] + MaskedFrom(line, cov, j) == MaskedFrom(line, cov, j);
    }
  }

  lemma HeadOfSlice(s: string, i: nat, j: nat)
    requires i < j <= |s|
    ensures s[i..j] == [s[i]] + s[i + 1..j]
  {}

  lemma {:induction false} MaskedDrops(line: string, cov: int -> bool, i: nat, j: nat)
    requires 0 < i <= j <= |line| && forall k :: i - 1 <= k < j ==> cov(k)
    ensures MaskedFrom(line, cov, i) == MaskedFrom(line, cov, j)
    decreases j - i
  {
    if i < j {
      MaskedDrops(line, cov, i + 1, j);
      assert cov(i) && cov(i - 1);
      assert "" + MaskedFrom(line, cov, i + 1) == MaskedFrom(line, cov, i + 1);
    }
  }

  /** A maximal run is one mask. */
  lemma MaskedRun(line: string, cov: int -> bool, i: nat, j: nat)
    requires i < j <= |line| && (forall k :: i <= k < j ==> cov(k)) && (i > 0 ==> !cov(i - 1))
    ensures MaskedFrom(line, cov, i) == STARS + MaskedFrom(line, cov, j)
  {
    MaskedDrops(line, cov, i + 1, j);
  }

  // ---- Intervals ----

  type Interval = (nat, nat)

  predicate Le(a: Interval, b: Interval) {
    a.0 < b.0 || (a.0 == b.0 && a.1 <= b.1)
  }

  ghost predicate InSome(segs: seq<Interval>, i: int) {
    exists k :: 0 <= k < |segs| && segs[k].0 <= i < segs[k].1
  }

  ghost predicate Within(segs: seq<Interval>, n: nat) {
    forall k :: 0 <= k < |segs| ==> segs[k].0 < segs[k].1 <= n
  }

  /** Non-empty, in order and with a gap between neighbours. */
  ghost predicate Separated(segs: seq<Interval>) {
    && (forall k :: 0 <= k < |segs| ==> segs[k].0 < segs[k].1)
    && forall j, k :: 0 <= j < k < |segs| ==> segs[j].1 < segs[k].0
  }

  ghost predicate SameCover(a: seq<Interval>, b: seq<Interval>) {
    forall i :: InSome(a, i) <==> InSome(b, i)
  }

  /** The second loop of `apply_redaction`. */
  method MergeOverlapping(segs: seq<Interval>, n: nat) returns (merged: seq<Interval>)
    requires segs != [] && SortedBy(segs, Le) && Within(segs, n)
    ensures Separated(merged) && Within(merged, n) && SameCover(merged, segs)
  {
    merged := [segs[0]];
    assert segs[..1] == merged;
    for k := 1 to |segs|
      invariant merged != [] && Separated(merged) && Within(merged, n)
      invariant merged[|merged| - 1].0 <= segs[k - 1].0
      invariant SameCover(merged, segs[..k])
    {
      var (s, e) := segs[k];
      assert Le(segs[k - 1], segs[k]);
      var last := merged[|merged| - 1];
      TakeNext(segs, k);
      CoverAppend(merged, segs[..k], segs[k]);
      if s <= last.1 {
        merged := Widen(merged, s, e, n);
      } else {
        merged := merged + [(s, e)];
      }
    }
    assert segs[..|segs|] == segs;
  }

  /** The last interval takes in one that starts inside or right after it. */
  method Widen(merged: seq<Interval>, s: nat, e: nat, n: nat) returns (more: seq<Interval>)
    requires merged != [] && Separated(merged) && Within(merged, n)
    requires merged[|merged| - 1].0 <= s <= merged[|merged| - 1].1 && e <= n
    ensures |more| == |merged| && more[|more| - 1].0 == merged[|merged| - 1].0
    ensures Separated(more) && Within(more, n) && SameCover(more, merged + [(s, e)])
  {
    var last := merged[|merged| - 1];
    var end := if e > last.1 then e else last.1;
    more := merged[|merged| - 1 := (last.0, end)];
    Widened(merged, s, e, end, more);
  }

  lemma CoverAppend(a: seq<Interval>, b: seq<Interval>, x: Interval)
    requires SameCover(a, b)
    ensures SameCover(a + [x], b + [x])
  {
    Appended(a, x);
    Appended(b, x);
  }

  lemma Appended(segs: seq<Interval>, x: Interval)
    ensures forall i :: InSome(segs + [x], i) <==> InSome(segs, i) || x.0 <= i < x.1
  {
    var more := segs + [x];
    forall i ensures InSome(more, i) <==> InSome(segs, i) || x.0 <= i < x.1 {
      if j :| 0 <= j < |segs| && segs[j].0 <= i < segs[j].1 {
        assert more[j] == segs[j];
      }
      if x.0 <= i < x.1 {
        assert more[|segs|] == x;
      }
    }
  }

  lemma Widened(segs: seq<Interval>, s: nat, e: nat, end: nat, more: seq<Interval>)
    requires segs != [] && segs[|segs| - 1].0 <= s <= segs[|segs| - 1].1
    requires end == if e > segs[|segs| - 1].1 then e else segs[|segs| - 1].1
    requires more == segs[|segs| - 1 := (segs[|segs| - 1].0, end)]
    ensures SameCover(more, segs + [(s, e)])
  {
    var n := |segs| - 1;
    Appended(segs, (s, e));
    forall i ensures InSome(more, i) <==> InSome(segs, i) || s <= i < e {
      if j :| 0 <= j < |segs| && segs[j].0 <= i < segs[j].1 {
        assert j < n ==> more[j] == segs[j];
        assert j == n ==> more[n].0 <= i < more[n].1;
      }
      if s <= i < e {
        assert more[n].0 <= i < more[n].1;
      }
      if j :| 0 <= j < |more| && more[j].0 <= i < more[j].1 {
        assert j < n ==> more[j] == segs[j];
        assert j == n && !(s <= i < e) ==> segs[n].0 <= i < segs[n].1;
      }
    }
  }

  /** The third loop: masks are put in from the last one back, so earlier offsets stay right. */
  method ReplaceMerged(line: string, merged: seq<Interval>, ghost cov: int -> bool) returns (result: string)
    requires Separated(merged) && Within(merged, |line|)
    requires Covers(merged, cov, |line|)
    ensures result == MaskedFrom(line, cov, 0)
  {
    result := line;
    var k := |merged|;
    assert line[..|line|] + "" == line;
    while k > 0
      invariant 0 <= k <= |merged|
      invariant result == line[..Begin(merged, k, |line|)] + MaskedFrom(line, cov, Begin(merged, k, |line|))
    {
      k := k - 1;
      var (s, e) := merged[k];
      RunMasked(line, merged, k, cov);
      Splice(line, s, e, Begin(merged, k + 1, |line|), MaskedFrom(line, cov, Begin(merged, k + 1, |line|)));
      result := result[..s] + STARS + result[e..];
    }
    FirstKept(line, merged, cov);
  }

  function Begin(merged: seq<Interval>, k: nat, n: nat): nat
    requires k <= |merged|
  {
    if k == |merged| then n else merged[k].0
  }

  lemma Splice(line: string, s: nat, e: nat, b: nat, tail: string)
    requires s <= e <= b <= |line|
    ensures var r := line[..b] + tail;
            r[..s] + STARS + r[e..] == line[..s] + (STARS + (line[e..b] + tail))
  {}

  lemma BeginAfter(merged: seq<Interval>, k: nat, n: nat)
    requires k < |merged| && Separated(merged) && Within(merged, n)
    ensures merged[k].0 < merged[k].1 <= Begin(merged, k + 1, n) <= n
  {}

  lemma GapUncovered(merged: seq<Interval>, k: nat, n: nat, i: nat)
    requires k <= |merged| && Separated(merged)
    requires (k > 0 ==> merged[k - 1].1 <= i) && i < Begin(merged, k, n)
    ensures !InSome(merged, i)
  {
    forall j | 0 <= j < |merged| ensures !(merged[j].0 <= i < merged[j].1) {
      assert j < k - 1 ==> merged[j].1 < merged[k - 1].0;
      assert j > k ==> merged[k].1 < merged[j].0;
    }
  }

  lemma BeforeUncovered(merged: seq<Interval>, k: nat)
    requires k < |merged| && Separated(merged) && merged[k].0 > 0
    ensures !InSome(merged, merged[k].0 - 1)
  {
    forall j | 0 <= j < |merged| ensures !(merged[j].0 <= merged[k].0 - 1 < merged[j].1) {
      assert j < k ==> merged[j].1 < merged[k].0;
      assert j > k ==> merged[k].1 < merged[j].0;
    }
  }

  ghost predicate Covers(merged: seq<Interval>, cov: int -> bool, n: nat) {
    forall i :: 0 <= i < n ==> (cov(i) <==> InSome(merged, i))
  }

  lemma RunCovered(merged: seq<Interval>, k: nat, cov: int -> bool, n: nat)
    requires k < |merged| && Separated(merged) && Within(merged, n) && Covers(merged, cov, n)
    ensures forall i :: merged[k].0 <= i < merged[k].1 ==> cov(i)
    ensures merged[k].0 > 0 ==> !cov(merged[k].0 - 1)
    ensures forall i :: merged[k].1 <= i < Begin(merged, k + 1, n) ==> !cov(i)
  {
    BeginAfter(merged, k, n);
    forall i | merged[k].0 <= i < merged[k].1 ensures cov(i) {
      assert InSome(merged, i);
    }
    if merged[k].0 > 0 {
      BeforeUncovered(merged, k);
    }
    forall i | merged[k].1 <= i < Begin(merged, k + 1, n) ensures !cov(i) {
      GapUncovered(merged, k + 1, n, i);
    }
  }

  lemma RunMasked(line: string, merged: seq<Interval>, k: nat, cov: int -> bool)
    requires k < |merged| && Separated(merged) && Within(merged, |line|) && Covers(merged, cov, |line|)
    ensures var b := Begin(merged, k + 1, |line|);
            && merged[k].0 <= merged[k].1 <= b <= |line|
            && MaskedFrom(line, cov, merged[k].0) == STARS + (line[merged[k].1..b] + MaskedFrom(line, cov, b))
  {
    var (s, e) := merged[k];
    RunCovered(merged, k, cov, |line|);
    BeginAfter(merged, k, |line|);
    MaskedRun(line, cov, s, e);
    MaskedKeeps(line, cov, e, Begin(merged, k + 1, |line|));
  }

  lemma FirstKept(line: string, merged: seq<Interval>, cov: int -> bool)
    requires Separated(merged) && Within(merged, |line|)
    requires Covers(merged, cov, |line|)
    ensures var b := Begin(merged, 0, |line|);
            b <= |line| && line[..b] + MaskedFrom(line, cov, b) == MaskedFrom(line, cov, 0)
  {
    var b := Begin(merged, 0, |line|);
    forall i | 0 <= i < b ensures !cov(i) {
      GapUncovered(merged, 0, |line|, i);
    }
    MaskedKeeps(line, cov, 0, b);
    assert line[0..b] == line[..b];
  }

  // ---- Collecting ----

  /** Stepping one byte on from an occurrence leaves a character boundary only if its first character
      is one byte long; otherwise the source panics. */
  ghost predicate Panics(values: set<string>, line: string) {
    exists v :: v in values && v != "" && CharSize(v[0]) > 1 && Contains(line, v)
  }

  /** The intervals of one value's occurrences, or None for the panic. */
  method Occurrences(line: string, value: string) returns (r: Option<seq<Interval>>)
    requires value != ""
    ensures r.None? <==> CharSize(value[0]) > 1 && Contains(line, value)
    ensures r.Some? ==> forall x :: x in r.value <==> OccursAt(line, value, x.0) && x.1 == x.0 + |value|
  {
    var segs: seq<Interval> := [];
    var start := 0;
    while true
      invariant 0 <= start <= |line|
      invariant forall x :: x in segs <==> x.0 < start && OccursAt(line, value, x.0) && x.1 == x.0 + |value|
      invariant start > 0 ==> CharSize(value[0]) == 1
      decreases |line| - start
    {
      var pos := FindFrom(line, value, start);
      if pos.None? {
        return Some(segs);
      }
      var at := pos.value;
      assert line[at] == line[at..at + |value|][0] == value[0];
      segs := segs + [(at, at + |value|)];
      if CharSize(line[at]) > 1 { return None; }
      start := at + 1;
    }
  }

  ghost predicate Exactly(segs: seq<Interval>, line: string, values: set<string>) {
    forall x :: x in segs <==> exists v :: v in values && v != "" && OccursAt(line, v, x.0) && x.1 == x.0 + |v|
  }

  /** All of them, whatever order the set is walked in. */
  method AllOccurrences(line: string, values: set<string>) returns (r: Option<seq<Interval>>)
    ensures r.None? <==> Panics(values, line)
    ensures r.Some? ==> Exactly(r.value, line, values)
  {
    var segs: seq<Interval> := [];
    var rest := values;
    while rest != {}
      invariant rest <= values
      invariant !Panics(values - rest, line) && Exactly(segs, line, values - rest)
      decreases |rest|
    {
      var value :| value in rest;
      if value != "" {
        var found := Occurrences(line, value);
        if found.None? {
          return None;
        }
        ExactlyMore(segs, found.value, line, values - rest, value);
        segs := segs + found.value;
      }
      assert values - (rest - {value}) == (values - rest) + {value};
      rest := rest - {value};
    }
    assert values - {} == values;
    return Some(segs);
  }

  lemma ExactlyMore(a: seq<Interval>, b: seq<Interval>, line: string, values: set<string>, v: string)
    requires Exactly(a, line, values) && v != ""
    requires forall x :: x in b <==> OccursAt(line, v, x.0) && x.1 == x.0 + |v|
    ensures Exactly(a + b, line, values + {v})
  {
    forall x ensures x in a + b <==>
        exists w :: w in values + {v} && w != "" && OccursAt(line, w, x.0) && x.1 == x.0 + |w|
    {
      if x in b {
        assert v in values + {v};
      }
    }
  }

  lemma ExactlyCovers(segs: seq<Interval>, line: string, values: set<string>)
    requires Exactly(segs, line, values)
    ensures Within(segs, |line|)
    ensures Covers(segs, Coverage(values, line), |line|)
  {
    forall k | 0 <= k < |segs| ensures segs[k].0 < segs[k].1 <= |line| {
      assert segs[k] in segs;
    }
    forall i | 0 <= i < |line| ensures Covered(values, line, i) <==> InSome(segs, i) {
      if Covered(values, line, i) {
        var v, p :| v in values && OccursAt(line, v, p) && p <= i < p + |v|;
        var x: Interval := (p, p + |v|);
        assert x in segs;
        var k :| 0 <= k < |segs| && segs[k] == x;
      }
      if InSome(segs, i) {
        var k :| 0 <= k < |segs| && segs[k].0 <= i < segs[k].1;
        assert segs[k] in segs;
      }
    }
  }

  lemma LeOrder()
    ensures TotalPreorder(Le)
  {}

  lemma PermutedCover(a: seq<Interval>, b: seq<Interval>, n: nat)
    requires multiset(a) == multiset(b) && Within(a, n)
    ensures Within(b, n) && SameCover(a, b)
  {
    forall k | 0 <= k < |b| ensures b[k].0 < b[k].1 <= n {
      PermutationMember(a, b, b[k]);
      var j :| 0 <= j < |a| && a[j] == b[k];
    }
    forall i ensures InSome(a, i) <==> InSome(b, i) {
      if k :| 0 <= k < |a| && a[k].0 <= i < a[k].1 {
        PermutationMember(a, b, a[k]);
        var j :| 0 <= j < |b| && b[j] == a[k];
      }
      if k :| 0 <= k < |b| && b[k].0 <= i < b[k].1 {
        PermutationMember(a, b, b[k]);
        var j :| 0 <= j < |a| && a[j] == b[k];
      }
    }
  }

  /** What a line becomes: nothing if the source panics. */
  ghost function Redacted(values: set<string>, lines: set<string>, message: string): Option<string> {
    if message in lines then Some(STARS)
    else if Panics(values, message) then None
    else Some(Masked(values, message))
  }

  /** It happens: a value of one two-byte character, in the line that is that character. */
  lemma TwoByteValuePanics()
    ensures var v := [0xE9 as char]; Redacted({v}, {}, v) == None
  {
    var v := [0xE9 as char];
    assert v[0..|v|] == v;
    assert OccursAt(v, v, 0);
    assert Contains(v, v);
  }

  /** `apply_redaction`. */
  method ApplyRedaction(values: set<string>, lines: set<string>, message: string) returns (r: Option<string>)
    ensures r == Redacted(values, lines, message)
  {
    if values == {} && lines == {} {
      NothingMasked(values, message);
      return Some(message);
    }
    if message in lines {
      return Some(STARS);
    }
    var found := AllOccurrences(message, values);
    if found.None? {
      return None;
    }
    var segs := found.value;
    ExactlyCovers(segs, message, values);
    if segs == [] {
      assert forall i :: !InSome(segs, i);
      NothingMasked(values, message);
      return Some(message);
    }
    LeOrder();
    SortSorted(segs, Le);
    var sorted := Sort(segs, Le);
    PermutedCover(segs, sorted, |message|);
    var merged := MergeOverlapping(sorted, |message|);
    var result := ReplaceMerged(message, merged, Coverage(values, message));
    return Some(result);
  }

  lemma NothingMasked(values: set<string>, message: string)
    requires forall i :: 0 <= i < |message| ==> !Coverage(values, message)(i)
    ensures Masked(values, message) == message
  {
    MaskedKeeps(message, Coverage(values, message), 0, |message|);
    assert message[0..|message|] + "" == message;
  }

  // ---- No secret is left ----

  /** Neither starts nor ends with `*`, and holds no mask. */
  ghost predicate Hideable(v: string) {
    v != "" && v[0] != '*' && v[|v| - 1] != '*' && !Contains(v, STARS)
  }

  predicate AllStars(s: string) {
    forall i :: 0 <= i < |s| ==> s[i] == '*'
  }

  lemma ContainsTail(c: char, s: string, v: string)
    requires Contains(s, v)
    ensures Contains([c] + s, v)
  {
    var p :| 0 <= p <= |s| && OccursAt(s, v, p);
    assert ([c] + s)[p + 1..p + 1 + |v|] == s[p..p + |v|];
    assert OccursAt([c] + s, v, p + 1);
  }

  lemma ContainsFront(v: string, tail: string)
    ensures Contains(v + tail, v)
  {
    assert (v + tail)[0..|v|] == v;
    assert OccursAt(v + tail, v, 0);
  }

  /** The front of a line that starts with a mask is part of the mask, or holds it. */
  lemma StarsInFront(v: string, tail: string)
    requires v != "" && v <= STARS + tail && !Contains(v, STARS)
    ensures v[|v| - 1] == '*'
  {
    var m := STARS + tail;
    assert forall i :: 0 <= i < |v| ==> v[i] == m[i];
    if |v| >= |STARS| {
      assert v == STARS + v[|STARS|..];
      ContainsFront(STARS, v[|STARS|..]);
    } else {
      assert m[|v| - 1] == STARS[|v| - 1];
      assert AllStars(STARS);
    }
  }

  /** Text without a mask that does not end with `*`, at the front of a masked line, is uncovered text of
      the line. */
  lemma {:induction false} PrefixKept(line: string, cov: int -> bool, i: nat, v: string)
    requires i <= |line| && (i > 0 ==> !cov(i - 1)) && v <= MaskedFrom(line, cov, i)
    requires !Contains(v, STARS) && (v != "" ==> v[|v| - 1] != '*')
    ensures OccursAt(line, v, i) && forall k :: i <= k < i + |v| ==> !cov(k)
    decreases |v|
  {
    if v == "" {
    } else {
      var tail := MaskedFrom(line, cov, i + 1);
      if cov(i) { StarsInFront(v, tail); }
      HeadKept(line[i], tail, v);
      PrefixKept(line, cov, i + 1, v[1..]);
      HeadOfSlice(line, i, i + |v|);
    }
  }

  lemma HeadKept(c: char, tail: string, v: string)
    requires v != "" && v <= [c] + tail && !Contains(v, STARS)
    ensures v == [c] + v[1..] && v[1..] <= tail && !Contains(v[1..], STARS)
  {
    assert ([c] + tail)[1..] == tail;
    assert v[0] == ([c] + tail)[0] && v[1..] == ([c] + tail)[1..|v|];
    if Contains(v[1..], STARS) { ContainsTail(c, v[1..], STARS); }
  }

  lemma TailOccurs(head: string, tail: string, v: string, p: int)
    requires OccursAt(head + tail, v, p) && p >= |head|
    ensures OccursAt(tail, v, p - |head|)
  {
    var q := p - |head|;
    assert (head + tail)[p..p + |v|] == tail[q..q + |v|];
  }

  lemma StarsHide(tail: string, v: string, p: int)
    requires OccursAt(STARS + tail, v, p) && v != "" && v[0] != '*'
    ensures p >= |STARS|
  {
    var m := STARS + tail;
    assert m[p] == m[p..p + |v|][0] == v[0];
    assert AllStars(STARS);
  }

  lemma OnlyStars(v: string)
    requires v != "" && v[0] != '*'
    ensures !Contains(STARS, v)
  {
    var m := STARS + "";
    assert m == STARS;
    forall p ensures !OccursAt(m, v, p) {
      if OccursAt(m, v, p) {
        StarsHide("", v, p);
      }
    }
  }

  lemma {:induction false} OccurrenceKept(line: string, cov: int -> bool, i: nat, v: string, p: int) returns (q: nat)
    requires i <= |line| && Hideable(v) && OccursAt(MaskedFrom(line, cov, i), v, p)
    ensures OccursAt(line, v, q) && forall k :: q <= k < q + |v| ==> !cov(k)
    decreases |line| - i
  {
    var tail := MaskedFrom(line, cov, i + 1);
    if cov(i) {
      var head := if i > 0 && cov(i - 1) then "" else STARS;
      if head == STARS { StarsHide(tail, v, p); }
      TailOccurs(head, tail, v, p);
      q := OccurrenceKept(line, cov, i + 1, v, p - |head|);
    } else if p > 0 {
      TailOccurs([line[i]], tail, v, p);
      q := OccurrenceKept(line, cov, i + 1, v, p - 1);
    } else {
      FrontOccurs([line[i]] + tail, v);
      HeadKept(line[i], tail, v);
      PrefixKept(line, cov, i + 1, v[1..]);
      HeadOfSlice(line, i, i + |v|);
      q := i;
    }
  }

  lemma FrontOccurs(line: string, v: string)
    requires OccursAt(line, v, 0)
    ensures v <= line
  {
    assert line[0..|v|] == line[..|v|];
  }

  /** No hideable recorded value is left in a masked line. */
  lemma MaskedHides(values: set<string>, line: string, v: string)
    requires v in values && Hideable(v)
    ensures !Contains(Masked(values, line), v)
  {
    var m := Masked(values, line);
    forall q | OccursAt(line, v, q) ensures Coverage(values, line)(q) {
      assert Covered(values, line, q);
    }
    if Contains(m, v) {
      var p :| 0 <= p <= |m| && OccursAt(m, v, p);
      var _ := OccurrenceKept(line, Coverage(values, line), 0, v, p);
    }
  }

  /** A masked line without a mask in it is the line. */
  lemma {:induction false} WholeKept(line: string, cov: int -> bool, i: nat)
    requires i <= |line| && (i > 0 ==> !cov(i - 1)) && !Contains(MaskedFrom(line, cov, i), STARS)
    ensures MaskedFrom(line, cov, i) == line[i..]
    decreases |line| - i
  {
    if i == |line| {
    } else {
      var tail := MaskedFrom(line, cov, i + 1);
      if cov(i) { ContainsFront(STARS, tail); }
      if Contains(tail, STARS) { ContainsTail(line[i], tail, STARS); }
      WholeKept(line, cov, i + 1);
      HeadOfSlice(line, i, |line|);
    }
  }

  /** A line that is a recorded value does not come out as it is. */
  lemma ValueMasked(values: set<string>, v: string)
    requires v in values && v != ""
    ensures Contains(Masked(values, v), STARS)
  {
    assert v[0..|v|] == v;
    assert OccursAt(v, v, 0);
    assert Coverage(values, v)(0) by { assert Covered(values, v, 0); }
    ContainsFront(STARS, MaskedFrom(v, Coverage(values, v), 1));
  }

  /** Nor is any recorded value left after `apply_redaction`, nor does a recorded line or value without a
      mask in it come out as a line. */
  lemma RedactedHides(values: set<string>, lines: set<string>, message: string, v: string)
    requires Redacted(values, lines, message).Some?
    ensures v in values && Hideable(v) ==> !Contains(Redacted(values, lines, message).value, v)
    ensures (v in lines || (v in values && v != "")) && !Contains(v, STARS) ==>
              Redacted(values, lines, message).value != v
  {
    if message in lines {
      if Hideable(v) { OnlyStars(v); }
      ContainsFront(STARS, "");
      assert STARS + "" == STARS;
    } else {
      if v in values && Hideable(v) {
        MaskedHides(values, message, v);
      }
      if Masked(values, message) == v && !Contains(v, STARS) {
        WholeKept(message, Coverage(values, message), 0);
        assert message[0..] == message;
        if v in values && v != "" { ValueMasked(values, v); }
      }
    }
  }

  /** A line that is not recorded and in which no recorded value occurs comes out as it is. */
  lemma NothingToHide(values: set<string>, lines: set<string>, message: string)
    requires message !in lines && forall v :: v in values && v != "" ==> !Contains(message, v)
    ensures Redacted(values, lines, message) == Some(message)
  {
    var cov := Coverage(values, message);
    forall v, p | v in values && v != "" ensures !OccursAt(message, v, p) {
      if OccursAt(message, v, p) { assert Contains(message, v); }
    }
    forall k ensures !cov(k) {
      assert !Covered(values, message, k);
    }
    MaskedKeeps(message, cov, 0, |message|);
    assert message[0..|message|] + "" == message;
  }

  // ---- And nothing less is hidden ----

  /** Text that no other text of at most `n` characters around it can be taken for. */
  function Marker(n: nat): string {
    "a" + seq(n, _ => 'b')
  }

  lemma MarkerAt(x: string, y: string, n: nat, k: nat)
    requires k < |Marker(n)|
    ensures (x + Marker(n) + y)[|x| + k] == Marker(n)[k] == if k == 0 then 'a' else 'b'
  {}

  lemma MarkerOnce(x: string, y: string, n: nat, q: int)
    requires |x| < n && |y| < n && q != |x|
    ensures !OccursAt(x + Marker(n) + y, Marker(n), q)
  {
    var line, z := x + Marker(n) + y, Marker(n);
    if 0 <= q && q + |z| <= |line| {
      var k := if q < |x| then |x| - q else 0;
      MarkerAt(x, y, n, q + k - |x|);
      assert line[q..q + |z|][k] == line[q + k] != z[k];
    }
  }

  /** With its stars replaced by a marker, the value does not occur. */
  lemma StarsGone(x: string, s: string, y: string, n: nat, p: int)
    requires s != "" && AllStars(s) && |s| <= n
    ensures !OccursAt(x + Marker(n) + y, x + s + y, p)
  {
    var line, v := x + Marker(n) + y, x + s + y;
    if 0 <= p && p + |v| <= |line| {
      MarkerAt(x, y, n, p);
      assert v[|x|] == s[0] == '*';
      assert line[p..p + |v|][|x|] == line[p + |x|] != v[|x|];
    }
  }

  lemma MarkerCovered(x: string, s: string, y: string, n: nat, i: int)
    requires s != "" && AllStars(s) && |s| <= n && |x| < n && |y| < n
    ensures Covered({x + s + y, Marker(n)}, x + Marker(n) + y, i) <==> |x| <= i < |x| + |Marker(n)|
  {
    var line, v, z := x + Marker(n) + y, x + s + y, Marker(n);
    if |x| <= i < |x| + |z| {
      assert line[|x|..|x| + |z|] == z;
      assert z in {v, z} && OccursAt(line, z, |x|);
    }
    if Covered({v, z}, line, i) {
      var w, p :| w in {v, z} && OccursAt(line, w, p) && p <= i < p + |w|;
      StarsGone(x, s, y, n, p);
      if p != |x| { MarkerOnce(x, y, n, p); }
    }
  }

  /** The marker alone is masked. */
  lemma MarkerMasked(x: string, s: string, y: string, n: nat)
    requires s != "" && AllStars(s) && |s| <= n && |x| < n && |y| < n
    ensures Masked({x + s + y, Marker(n)}, x + Marker(n) + y) == x + STARS + y
  {
    var line, values := x + Marker(n) + y, {x + s + y, Marker(n)};
    forall i ensures Coverage(values, line)(i) <==> |x| <= i < |x| + |Marker(n)| {
      MarkerCovered(x, s, y, n, i);
    }
    RunReplaced(line, Coverage(values, line), |x|, |x| + |Marker(n)|);
    assert line[..|x|] == x && line[|x| + |Marker(n)|..] == y;
  }

  lemma RunReplaced(line: string, cov: int -> bool, b: nat, e: nat)
    requires b < e <= |line| && forall i :: cov(i) <==> b <= i < e
    ensures MaskedFrom(line, cov, 0) == line[..b] + STARS + line[e..]
  {
    MaskedKeeps(line, cov, 0, b);
    MaskedRun(line, cov, b, e);
    RestKept(line, cov, e);
    var rest := line[e..];
    assert line[0..b] == line[..b];
    Assoc(line[..b], STARS, rest);
  }

  lemma RestKept(line: string, cov: int -> bool, e: nat)
    requires e <= |line| && forall i :: e <= i < |line| ==> !cov(i)
    ensures MaskedFrom(line, cov, e) == line[e..]
  {
    MaskedKeeps(line, cov, e, |line|);
    assert line[e..|line|] + "" == line[e..];
  }

  lemma MarkerAlone(x: string, s: string, y: string, n: nat)
    requires s != "" && AllStars(s) && |s| <= n && |x| < n && |y| < n
    ensures Masked({Marker(n)}, x + Marker(n) + y) == x + STARS + y
  {
    var line, z := x + Marker(n) + y, Marker(n);
    forall i ensures Coverage({z}, line)(i) <==> |x| <= i < |x| + |z| {
      if |x| <= i < |x| + |z| {
        assert line[|x|..|x| + |z|] == z;
        assert z in {z} && OccursAt(line, z, |x|);
      }
      if Covered({z}, line, i) {
        var w, p :| w in {z} && OccursAt(line, w, p) && p <= i < p + |w|;
        if p != |x| { MarkerOnce(x, y, n, p); }
      }
    }
    RunReplaced(line, Coverage({z}, line), |x|, |x| + |z|);
    assert line[..|x|] == x && line[|x| + |z|..] == y;
  }

  lemma MarkerPlain(n: nat)
    ensures Marker(n) != "" && CharSize(Marker(n)[0]) == 1
  {}

  /** What comes out when the marker is recorded next to the value, or next to the line. */
  lemma Exposed(x: string, s: string, y: string, n: nat)
    requires s != "" && AllStars(s) && |s| <= n && |x| < n && |y| < n
    ensures Redacted({x + s + y, Marker(n)}, {}, x + Marker(n) + y) == Some(x + STARS + y)
    ensures Redacted({Marker(n)}, {x + STARS + y}, x + Marker(n) + y) == Some(x + STARS + y)
  {
    var line, v := x + Marker(n) + y, x + s + y;
    MarkerPlain(n);
    forall p ensures !OccursAt(line, v, p) { StarsGone(x, s, y, n, p); }
    MarkerMasked(x, s, y, n);
    MarkerAlone(x, s, y, n);
    assert line[|x|] == 'a' && (x + STARS + y)[|x|] == '*';
  }

  /** Whatever else is recorded, the value is not in what comes out. */
  ghost predicate AlwaysHidden(v: string) {
    forall values, lines, message ::
      v in values && Redacted(values, lines, message).Some? ==> !Contains(Redacted(values, lines, message).value, v)
  }

  ghost predicate LineAlwaysHidden(v: string) {
    forall values, lines, message ::
      v in lines && Redacted(values, lines, message).Some? ==> Redacted(values, lines, message).value != v
  }

  lemma Unhidden(x: string, s: string, y: string, v: string)
    requires s != "" && AllStars(s) && v == x + s + y && Contains(x + STARS + y, v)
    ensures !AlwaysHidden(v)
  {
    var n := |v| + 1;
    Exposed(x, s, y, n);
    assert v in {v, Marker(n)};
  }

  /** A recorded value is hidden in every line, whatever else is recorded, if and only if it neither starts
      nor ends with `*` and holds no mask. */
  lemma HiddenExactly(v: string)
    requires v != ""
    ensures AlwaysHidden(v) <==> Hideable(v)
  {
    if Hideable(v) {
      forall values, lines, message | v in values && Redacted(values, lines, message).Some?
        ensures !Contains(Redacted(values, lines, message).value, v)
      {
        RedactedHides(values, lines, message, v);
      }
    } else if v[0] == '*' {
      StarFirst(v);
    } else if v[|v| - 1] == '*' {
      StarLast(v);
    } else {
      MaskInside(v);
    }
  }

  lemma StarFirst(v: string)
    requires v != "" && v[0] == '*'
    ensures !AlwaysHidden(v)
  {
    var y := v[1..];
    var m := "" + STARS + y;
    assert v == "" + "*" + y;
    assert m[|STARS| - 1..|STARS| - 1 + |v|] == v;
    assert OccursAt(m, v, |STARS| - 1);
    Unhidden("", "*", y, v);
  }

  lemma StarLast(v: string)
    requires v != "" && v[|v| - 1] == '*'
    ensures !AlwaysHidden(v)
  {
    var x := v[..|v| - 1];
    var m := x + STARS + "";
    assert v == x + "*" + "";
    assert m[0..|v|] == v;
    assert OccursAt(m, v, 0);
    Unhidden(x, "*", "", v);
  }

  lemma MaskSplit(v: string) returns (x: string, y: string)
    requires Contains(v, STARS)
    ensures v == x + STARS + y
  {
    var p :| 0 <= p <= |v| && OccursAt(v, STARS, p);
    x, y := v[..p], v[p + |STARS|..];
    assert v == v[..p] + v[p..p + |STARS|] + v[p + |STARS|..];
  }

  lemma MaskInside(v: string)
    requires Contains(v, STARS)
    ensures !AlwaysHidden(v)
  {
    var x, y := MaskSplit(v);
    assert v[0..|v|] == v;
    assert OccursAt(v, v, 0);
    Unhidden(x, STARS, y, v);
  }

  /** A recorded line never comes out as a line if and only if it holds no mask. */
  lemma LineHiddenExactly(v: string)
    ensures LineAlwaysHidden(v) <==> !Contains(v, STARS)
  {
    if !Contains(v, STARS) {
      forall values, lines, message | v in lines && Redacted(values, lines, message).Some?
        ensures Redacted(values, lines, message).value != v
      {
        RedactedHides(values, lines, message, v);
      }
    } else {
      var x, y := MaskSplit(v);
      Exposed(x, STARS, y, |v| + 1);
      assert v in {v};
    }
  }
}
