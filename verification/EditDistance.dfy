/** The two-row edit distance and the "did you mean" suggestions built on it. */
module EditDistance {
  import opened Strings
  import opened Sorting

  const MAX_SUGGESTION_DISTANCE: nat := 5

  // ---- The distance ----

  function Min(a: nat, b: nat): nat {
    if a <= b then a else b
  }

  function Cost(x: char, y: char): nat {
    if x == y then 0 else 1
  }

  /** The recursive Levenshtein distance between the first i characters of a and the first j of b. */
  function Lev(a: string, i: nat, b: string, j: nat): nat
    requires i <= |a| && j <= |b|
    decreases i, j, 1
  {
    if i == 0 then j else if j == 0 then i else Cell(a, i, b, j)
  }

  /** Delete, insert or substitute the last character, whichever is cheapest. */
  function Cell(a: string, i: nat, b: string, j: nat): nat
    requires 0 < i <= |a| && 0 < j <= |b|
    decreases i, j, 0
  {
    Min(Min(Lev(a, i - 1, b, j) + 1, Lev(a, i, b, j - 1) + 1),
        Lev(a, i - 1, b, j - 1) + Cost(a[i - 1], b[j - 1]))
  }

  function Distance(a: string, b: string): nat {
    Lev(a, |a|, b, |b|)
  }

  /** A row the source keeps: distances from one prefix of s1 to the prefixes of s2. */
  ghost predicate IsRow(row: seq<nat>, s1: string, i: nat, s2: string, n: nat)
    requires i <= |s1| && n <= |s2| < |row|
  {
    forall j :: 0 <= j <= n ==> row[j] == Lev(s1, i, s2, j)
  }

  /** One pass of the inner loop. */
  method FillRow(prev: array<nat>, curr: array<nat>, s1: string, i: nat, s2: string)
    requires prev != curr && prev.Length == curr.Length == |s2| + 1 && i < |s1|
    requires IsRow(prev[..], s1, i, s2, |s2|)
    modifies curr
    ensures IsRow(curr[..], s1, i + 1, s2, |s2|)
  {
    curr[0] := i + 1;
    for j := 0 to |s2|
      invariant forall k :: 0 <= k <= j ==> curr[k] == Lev(s1, i + 1, s2, k)
    {
      assert prev[j + 1] == prev[..][j + 1] && prev[j] == prev[..][j];
      var del := prev[j + 1] + 1;
      var ins := curr[j] + 1;
      var sub := prev[j] + if s1[i] == s2[j] then 0 else 1;
      curr[j + 1] := Min(Min(del, ins), sub);
    }
  }

  /** `edit_distance`: two rows, filled in turn and swapped. */
  method ComputeDistance(s1: string, s2: string) returns (d: nat)
    ensures d == Distance(s1, s2)
  {
    if s1 == "" { return |s2|; }
    if s2 == "" { return |s1|; }
    var prev := new nat[|s2| + 1](k => k);
    var curr := new nat[|s2| + 1](_ => 0);
    for i := 0 to |s1|
      invariant prev != curr && fresh(prev) && fresh(curr)
      invariant prev.Length == curr.Length == |s2| + 1
      invariant IsRow(prev[..], s1, i, s2, |s2|)
    {
      FillRow(prev, curr, s1, i, s2);
      prev, curr := curr, prev;
    }
    return prev[..][|s2|];
  }

  // ---- It is a metric ----

  lemma {:induction false} LevSymmetric(a: string, i: nat, b: string, j: nat)
    requires i <= |a| && j <= |b|
    ensures Lev(a, i, b, j) == Lev(b, j, a, i)
  {
    if i > 0 && j > 0 {
      LevSymmetric(a, i - 1, b, j);
      LevSymmetric(a, i, b, j - 1);
      LevSymmetric(a, i - 1, b, j - 1);
    }
  }

  lemma {:induction false} LevLengths(a: string, i: nat, b: string, j: nat)
    requires i <= |a| && j <= |b|
    ensures i - j <= Lev(a, i, b, j) && j - i <= Lev(a, i, b, j)
    ensures Lev(a, i, b, j) <= if i >= j then i else j
  {
    if i > 0 && j > 0 {
      LevLengths(a, i - 1, b, j);
      LevLengths(a, i, b, j - 1);
      LevLengths(a, i - 1, b, j - 1);
    }
  }

  lemma {:induction false} LevZero(a: string, i: nat, b: string, j: nat)
    requires i <= |a| && j <= |b|
    ensures Lev(a, i, b, j) == 0 <==> a[..i] == b[..j]
  {
    if i > 0 && j > 0 {
      LevZero(a, i - 1, b, j - 1);
      assert a[..i] == a[..i - 1] + [a[i - 1]] && b[..j] == b[..j - 1] + [b[j - 1]];
    }
  }

  lemma {:induction false} LevTriangle(a: string, i: nat, b: string, j: nat, c: string, k: nat)
    requires i <= |a| && j <= |b| && k <= |c|
    ensures Lev(a, i, c, k) <= Lev(a, i, b, j) + Lev(b, j, c, k)
    decreases i + j + k
  {
    if i > 0 && j > 0 && k > 0 {
      if Lev(a, i, b, j) == Lev(a, i - 1, b, j) + 1 {
        LevTriangle(a, i - 1, b, j, c, k);
      } else if Lev(b, j, c, k) == Lev(b, j, c, k - 1) + 1 {
        LevTriangle(a, i, b, j, c, k - 1);
      } else if Lev(a, i, b, j) == Lev(a, i, b, j - 1) + 1 {
        LevTriangle(a, i, b, j - 1, c, if Lev(b, j, c, k) == Lev(b, j - 1, c, k) + 1 then k else k - 1);
      } else {
        LevTriangle(a, i - 1, b, j - 1, c, if Lev(b, j, c, k) == Lev(b, j - 1, c, k) + 1 then k else k - 1);
      }
    } else {
      LevLengths(a, i, b, j);
      LevLengths(b, j, c, k);
      LevLengths(a, i, c, k);
    }
  }

  /** Symmetric, zero exactly on equal strings, and within the triangle inequality; at least the
      difference of the lengths and at most the greater of them. */
  lemma DistanceMetric(a: string, b: string, c: string)
    ensures Distance(a, b) == Distance(b, a)
    ensures Distance(a, b) == 0 <==> a == b
    ensures Distance(a, c) <= Distance(a, b) + Distance(b, c)
    ensures |a| - |b| <= Distance(a, b) <= if |a| >= |b| then |a| else |b|
  {
    LevSymmetric(a, |a|, b, |b|);
    LevZero(a, |a|, b, |b|);
    assert a[..|a|] == a && b[..|b|] == b;
    LevTriangle(a, |a|, b, |b|, c, |c|);
    LevLengths(a, |a|, b, |b|);
  }

  // ---- It is the least number of single-character edits ----

  ghost predicate Inserted(a: string, b: string) {
    exists k :: 0 <= k < |b| && a == b[..k] + b[k + 1..]
  }

  ghost predicate Substituted(a: string, b: string) {
    |a| == |b| && exists k :: 0 <= k < |a| && b == a[k := b[k]]
  }

  ghost predicate OneEdit(a: string, b: string) {
    Inserted(a, b) || Inserted(b, a) || Substituted(a, b)
  }

  ghost predicate Reaches(a: string, b: string, n: nat)
    decreases n
  {
    if n == 0 then a == b
    else exists m: string {:trigger OneEdit(a, m)} :: OneEdit(a, m) && Reaches(m, b, n - 1)
  }

  lemma {:induction false} ReachesThen(a: string, m: string, b: string, n: nat)
    requires Reaches(a, m, n) && OneEdit(m, b)
    ensures Reaches(a, b, n + 1)
    decreases n
  {
    if n == 0 {
      assert Reaches(b, b, 0);
    } else {
      var k :| OneEdit(a, k) && Reaches(k, m, n - 1);
      ReachesThen(k, m, b, n - 1);
    }
  }

  lemma EditAppended(a: string, b: string, x: char)
    requires OneEdit(a, b)
    ensures OneEdit(a + [x], b + [x])
  {
    if Inserted(a, b) {
      InsertAppended(a, b, x);
    } else if Inserted(b, a) {
      InsertAppended(b, a, x);
    } else {
      var k :| 0 <= k < |a| && b == a[k := b[k]];
      assert b + [x] == (a + [x])[k := (b + [x])[k]];
    }
  }

  lemma InsertAppended(a: string, b: string, x: char)
    requires Inserted(a, b)
    ensures Inserted(a + [x], b + [x])
  {
    var k :| 0 <= k < |b| && a == b[..k] + b[k + 1..];
    assert a + [x] == (b + [x])[..k] + (b + [x])[k + 1..];
  }

  lemma ReachesFirst(a: string, m: string, b: string, n: nat)
    requires OneEdit(a, m) && Reaches(m, b, n)
    ensures Reaches(a, b, n + 1)
  {}

  lemma {:induction false} ReachesAppended(a: string, b: string, x: char, n: nat)
    requires Reaches(a, b, n)
    ensures Reaches(a + [x], b + [x], n)
    decreases n
  {
    if n == 0 {
    } else {
      var m :| OneEdit(a, m) && Reaches(m, b, n - 1);
      ReachesAppended(m, b, x, n - 1);
      StepAppended(a, m, b + [x], x, n - 1);
    }
  }

  lemma StepAppended(a: string, m: string, b: string, x: char, n: nat)
    requires OneEdit(a, m) && Reaches(m + [x], b, n)
    ensures Reaches(a + [x], b, n + 1)
  {
    EditAppended(a, m, x);
    ReachesFirst(a + [x], m + [x], b, n);
  }

  lemma TakeTake(s: string, i: nat)
    requires 0 < i <= |s|
    ensures |s[..i]| == i && s[..i][..i - 1] == s[..i - 1]
  {}

  lemma {:induction false} ReachesLev(a: string, i: nat, b: string, j: nat)
    requires i <= |a| && j <= |b|
    ensures Reaches(a[..i], b[..j], Lev(a, i, b, j))
  {
    if i == 0 && j == 0 {
      assert a[..i] == b[..j];
    } else if j > 0 && Lev(a, i, b, j) == Lev(a, i, b, j - 1) + 1 {
      ReachesLev(a, i, b, j - 1);
      PrefixInsert(a[..i], b, j, Lev(a, i, b, j - 1));
    } else if i > 0 && Lev(a, i, b, j) == Lev(a, i - 1, b, j) + 1 {
      ReachesLev(a, i - 1, b, j);
      PrefixDelete(a, i, b[..j], Lev(a, i - 1, b, j));
    } else {
      ReachesLev(a, i - 1, b, j - 1);
      PrefixMatch(a, i, b, j, Lev(a, i - 1, b, j - 1));
      ByMatch(a, i, b, j);
    }
  }

  lemma PrefixInsert(a: string, b: string, j: nat, n: nat)
    requires 0 < j <= |b| && Reaches(a, b[..j - 1], n)
    ensures Reaches(a, b[..j], n + 1)
  {
    TakeTake(b, j);
    ViaInsert(a, b[..j], n);
  }

  lemma PrefixDelete(a: string, i: nat, b: string, n: nat)
    requires 0 < i <= |a| && Reaches(a[..i - 1], b, n)
    ensures Reaches(a[..i], b, n + 1)
  {
    TakeTake(a, i);
    ViaDelete(a[..i], b, n);
  }

  lemma PrefixMatch(a: string, i: nat, b: string, j: nat, n: nat)
    requires 0 < i <= |a| && 0 < j <= |b| && Reaches(a[..i - 1], b[..j - 1], n)
    ensures Reaches(a[..i], b[..j], n + Cost(a[i - 1], b[j - 1]))
  {
    TakeTake(a, i);
    TakeTake(b, j);
    ViaMatch(a[..i], b[..j], n);
  }

  lemma ByMatch(a: string, i: nat, b: string, j: nat)
    requires 0 < i <= |a| && 0 < j <= |b|
    requires Lev(a, i, b, j) != Lev(a, i, b, j - 1) + 1 && Lev(a, i, b, j) != Lev(a, i - 1, b, j) + 1
    ensures Lev(a, i, b, j) == Lev(a, i - 1, b, j - 1) + Cost(a[i - 1], b[j - 1])
  {
    assert Lev(a, i, b, j) == Cell(a, i, b, j);
  }

  lemma ViaInsert(a: string, b: string, n: nat)
    requires b != "" && Reaches(a, b[..|b| - 1], n)
    ensures Reaches(a, b, n + 1)
  {
    assert b[..|b| - 1] == b[..|b| - 1] + b[|b|..];
    ReachesThen(a, b[..|b| - 1], b, n);
  }

  lemma ViaDelete(a: string, b: string, n: nat)
    requires a != "" && Reaches(a[..|a| - 1], b, n)
    ensures Reaches(a, b, n + 1)
  {
    assert a[..|a| - 1] == a[..|a| - 1] + a[|a|..];
    assert OneEdit(a, a[..|a| - 1]);
  }

  lemma ViaMatch(a: string, b: string, n: nat)
    requires a != "" && b != "" && Reaches(a[..|a| - 1], b[..|b| - 1], n)
    ensures Reaches(a, b, n + Cost(a[|a| - 1], b[|b| - 1]))
  {
    var x := a[|a| - 1];
    var m := b[..|b| - 1] + [x];
    ReachesAppended(a[..|a| - 1], b[..|b| - 1], x, n);
    assert a == a[..|a| - 1] + [x];
    if x == b[|b| - 1] {
      assert m == b;
    } else {
      assert b == m[|b| - 1 := b[|b| - 1]];
      assert Substituted(m, b);
      ReachesThen(a, m, b, n);
    }
  }

  /** Equal characters cost nothing. */
  lemma {:induction false} SameTail(a: string, i: nat, b: string, j: nat, n: nat)
    requires i + n <= |a| && j + n <= |b|
    requires forall t :: i <= t < i + n ==> a[t] == b[j - i + t]
    ensures Lev(a, i + n, b, j + n) <= Lev(a, i, b, j)
  {
    if n == 0 {
    } else {
      SameTail(a, i, b, j, n - 1);
      assert a[i + n - 1] == b[j + n - 1];
    }
  }

  lemma AroundInserted(a: string, b: string, k: nat)
    requires k < |b| && a == b[..k] + b[k + 1..]
    ensures |a| == |b| - 1 && a[..k] == b[..k]
    ensures forall t :: k <= t < |a| ==> a[t] == b[1 + t]
  {}

  lemma InsertedDistance(a: string, b: string)
    requires Inserted(a, b)
    ensures Distance(a, b) <= 1
  {
    var k :| 0 <= k < |b| && a == b[..k] + b[k + 1..];
    AroundInserted(a, b, k);
    OneInserted(a, b, k);
  }

  lemma OneInserted(a: string, b: string, k: nat)
    requires |a| == |b| - 1 && k <= |a| && a[..k] == b[..k]
    requires forall t :: k <= t < |a| ==> a[t] == b[1 + t]
    ensures Distance(a, b) <= 1
  {
    LevZero(a, k, b, k);
    SameTail(a, k, b, k + 1, |a| - k);
    InsertionStep(a, k, b, k);
  }

  lemma InsertionStep(a: string, i: nat, b: string, j: nat)
    requires i <= |a| && j < |b|
    ensures Lev(a, i, b, j + 1) <= Lev(a, i, b, j) + 1
  {}

  lemma EditDistanceOne(a: string, b: string)
    requires OneEdit(a, b)
    ensures Distance(a, b) <= 1
  {
    if Inserted(a, b) {
      InsertedDistance(a, b);
    } else if Inserted(b, a) {
      InsertedDistance(b, a);
      LevSymmetric(a, |a|, b, |b|);
    } else {
      var k :| 0 <= k < |a| && b == a[k := b[k]];
      assert a[..k] == b[..k];
      LevZero(a, k, b, k);
      SameTail(a, k + 1, b, k + 1, |a| - k - 1);
    }
  }

  lemma {:induction false} ReachesAtLeast(a: string, b: string, n: nat)
    requires Reaches(a, b, n)
    ensures Distance(a, b) <= n
    decreases n
  {
    if n == 0 {
      LevZero(a, |a|, b, |b|);
    } else {
      var m :| OneEdit(a, m) && Reaches(m, b, n - 1);
      EditDistanceOne(a, m);
      ReachesAtLeast(m, b, n - 1);
      LevTriangle(a, |a|, m, |m|, b, |b|);
    }
  }

  /** The distance is the length of a shortest sequence of single-character edits. */
  lemma DistanceLeast(a: string, b: string, n: nat)
    ensures Reaches(a, b, Distance(a, b))
    ensures Reaches(a, b, n) ==> Distance(a, b) <= n
  {
    ReachesLev(a, |a|, b, |b|);
    assert a[..|a|] == a && b[..|b|] == b;
    if Reaches(a, b, n) {
      ReachesAtLeast(a, b, n);
    }
  }

  // ---- Suggestions ----

  /** Within the length skip of the source. */
  predicate Kept(name: string, sym: string) {
    |name| < |sym| + MAX_SUGGESTION_DISTANCE && |sym| < |name| + MAX_SUGGESTION_DISTANCE
  }

  /** A symbol is worth suggesting when it is kept, at distance at most 5, and no kept symbol is
      nearer. */
  ghost predicate IsClosest(name: string, available: seq<string>, sym: string) {
    && Kept(name, sym)
    && Distance(sym, name) <= MAX_SUGGESTION_DISTANCE
    && forall i :: 0 <= i < |available| && Kept(name, available[i]) ==>
                     Distance(sym, name) <= Distance(available[i], name)
  }

  /** The subsequence of `available` that is worth suggesting, in order. */
  ghost function Closest(name: string, available: seq<string>, among: seq<string>): (r: seq<string>)
    ensures forall x :: x in r <==> x in available && IsClosest(name, among, x)
    ensures multiset(r) <= multiset(available)
  {
    if available == [] then []
    else
      var front := available[..|available| - 1];
      assert available == front + [available[|available| - 1]];
      Closest(name, front, among) +
      if IsClosest(name, among, available[|available| - 1]) then [available[|available| - 1]] else []
  }

  function Message(names: seq<string>): string {
    if names == [] then ""
    else if |names| == 1 then " Did you mean: " + names[0]
    else " Did you mean one of: " + Join(", ", Sort(names, StringLe))
  }

  /** The best distance so far: 5 until a nearer kept symbol is seen. */
  ghost predicate BestSoFar(name: string, seen: seq<string>, best: nat) {
    && best <= MAX_SUGGESTION_DISTANCE
    && (forall i :: 0 <= i < |seen| && Kept(name, seen[i]) ==> best <= Distance(seen[i], name))
    && (best < MAX_SUGGESTION_DISTANCE ==>
          exists i :: 0 <= i < |seen| && Kept(name, seen[i]) && Distance(seen[i], name) == best)
  }

  ghost function AtDistance(name: string, seen: seq<string>, d: nat): (r: seq<string>)
  {
    if seen == [] then []
    else
      var x := seen[|seen| - 1];
      AtDistance(name, seen[..|seen| - 1], d) + if Kept(name, x) && Distance(x, name) == d then [x] else []
  }

  lemma {:induction false} NoneAt(name: string, seen: seq<string>, d: nat)
    requires forall i :: 0 <= i < |seen| && Kept(name, seen[i]) ==> d < Distance(seen[i], name)
    ensures AtDistance(name, seen, d) == []
  {
    if seen == [] {
    } else {
      NoneAt(name, seen[..|seen| - 1], d);
    }
  }

  /** Once everything has been seen, being at the best distance is being closest. */
  lemma {:induction false} AtBestIsClosest(name: string, seen: seq<string>, among: seq<string>, best: nat)
    requires BestSoFar(name, among, best) && forall x :: x in seen ==> x in among
    ensures AtDistance(name, seen, best) == Closest(name, seen, among)
  {
    if seen == [] {
    } else {
      var x := seen[|seen| - 1];
      AtBestIsClosest(name, seen[..|seen| - 1], among, best);
      assert x in seen;
      var i :| 0 <= i < |among| && among[i] == x;
      assert IsClosest(name, among, x) <==> Kept(name, x) && Distance(x, name) == best;
    }
  }

  function Nearer(name: string, x: string, best: nat): nat {
    if Kept(name, x) && Distance(x, name) < best then Distance(x, name) else best
  }

  lemma BestOneMore(name: string, seen: seq<string>, x: string, best: nat)
    requires BestSoFar(name, seen, best)
    ensures BestSoFar(name, seen + [x], Nearer(name, x, best))
  {
    var more := seen + [x];
    if Nearer(name, x, best) < best {
      assert more[|seen|] == x;
    } else if best < MAX_SUGGESTION_DISTANCE {
      var k :| 0 <= k < |seen| && Kept(name, seen[k]) && Distance(seen[k], name) == best;
      assert more[k] == seen[k];
    }
  }

  lemma AtOneMore(name: string, seen: seq<string>, x: string, best: nat)
    requires BestSoFar(name, seen, best)
    ensures AtDistance(name, seen + [x], Nearer(name, x, best)) ==
            if Nearer(name, x, best) < best then [x]
            else AtDistance(name, seen, best) + if Kept(name, x) && Distance(x, name) == best then [x] else []
  {
    var more := seen + [x];
    assert more[..|more| - 1] == seen && more[|more| - 1] == x;
    if Nearer(name, x, best) < best {
      NoneAt(name, seen, Distance(x, name));
    }
  }

  function NamesWith(name: string, x: string, best: nat, names: seq<string>): seq<string> {
    if Nearer(name, x, best) < best then [x]
    else if Kept(name, x) && Distance(x, name) == best then names + [x]
    else names
  }

  lemma OneMoreSeen(name: string, available: seq<string>, i: nat, best: nat, names: seq<string>)
    requires i < |available| && BestSoFar(name, available[..i], best) && names == AtDistance(name, available[..i], best)
    ensures BestSoFar(name, available[..i + 1], Nearer(name, available[i], best))
    ensures AtDistance(name, available[..i + 1], Nearer(name, available[i], best))
            == NamesWith(name, available[i], best, names)
  {
    var seen, x := available[..i], available[i];
    assert seen + [x] == available[..i + 1];
    BestOneMore(name, seen, x, best);
    AtOneMore(name, seen, x, best);
    NamesMore(name, x, best, names);
  }

  lemma NamesMore(name: string, x: string, best: nat, names: seq<string>)
    ensures NamesWith(name, x, best, names) ==
            if Nearer(name, x, best) < best then [x]
            else names + if Kept(name, x) && Distance(x, name) == best then [x] else []
  {}

  /** One turn of the loop over the symbols. */
  method Consider(name: string, sym: string, bestDist: nat, best: seq<string>) returns (d: nat, names: seq<string>)
    ensures d == Nearer(name, sym, bestDist) && names == NamesWith(name, sym, bestDist, best)
  {
    d, names := bestDist, best;
    if Kept(name, sym) {
      var dist := ComputeDistance(sym, name);
      if dist < bestDist {
        d, names := dist, [sym];
      } else if dist == bestDist {
        names := best + [sym];
      }
    }
  }

  /** `suggest_closest`. */
  method SuggestClosest(name: string, available: seq<string>) returns (message: string)
    ensures message == Message(Closest(name, available, available))
  {
    var bestDist := MAX_SUGGESTION_DISTANCE;
    var best: seq<string> := [];
    for i := 0 to |available|
      invariant BestSoFar(name, available[..i], bestDist)
      invariant best == AtDistance(name, available[..i], bestDist)
    {
      OneMoreSeen(name, available, i, bestDist, best);
      bestDist, best := Consider(name, available[i], bestDist, best);
    }
    assert available[..|available|] == available;
    AtBestIsClosest(name, available, available, bestDist);
    message := Message(best);
  }

  /** The length skip never costs a suggestion: a symbol nearer than 5 is always kept, so whenever
      some symbol is nearer than 5 the names are exactly the nearest of all available symbols. */
  lemma SkipIsHarmless(name: string, available: seq<string>, x: string)
    requires x in available
    requires exists y :: y in available && Distance(y, name) < MAX_SUGGESTION_DISTANCE
    ensures x in Closest(name, available, available) <==>
            forall y :: y in available ==> Distance(x, name) <= Distance(y, name)
  {
    var y :| y in available && Distance(y, name) < MAX_SUGGESTION_DISTANCE;
    forall z | z in available && Distance(z, name) < MAX_SUGGESTION_DISTANCE ensures Kept(name, z) {
      LevLengths(z, |z|, name, |name|);
    }
    var i :| 0 <= i < |available| && available[i] == y;
    if IsClosest(name, available, x) {
      forall z | z in available ensures Distance(x, name) <= Distance(z, name) {
        if Distance(z, name) < MAX_SUGGESTION_DISTANCE {
          var k :| 0 <= k < |available| && available[k] == z;
        }
      }
    }
  }
}
