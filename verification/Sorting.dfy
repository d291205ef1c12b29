/** Stable sorting by an order given as a predicate: what `sort`, `sort_by_key` and
    `sort_unstable` compute in the source. */
module Sorting {
  ghost predicate SortedBy<T>(s: seq<T>, le: (T, T) -> bool) {
    forall i, j :: 0 <= i < j < |s| ==> le(s[i], s[j])
  }

  ghost predicate TotalPreorder<T(!new)>(le: (T, T) -> bool) {
    && (forall x, y :: le(x, y) || le(y, x))
    && forall x, y, z :: le(x, y) && le(y, z) ==> le(x, z)
  }

  function Insert<T>(x: T, s: seq<T>, le: (T, T) -> bool): (r: seq<T>)
    ensures multiset(r) == multiset(s) + multiset{x}
  {
    if s == [] || le(x, s[0]) then
      [x] + s
    else
      assert s == [s[0]] + s[1..];
      [s[0]] + Insert(x, s[1..], le)
  }

  function Sort<T>(s: seq<T>, le: (T, T) -> bool): (r: seq<T>)
    ensures multiset(r) == multiset(s)
    ensures |r| == |s|
  {
    if s == [] then [] else
      assert s == [s[0]] + s[1..];
      var r := Insert(s[0], Sort(s[1..], le), le);
      assert |r| == |multiset(r)| == |multiset(s)| == |s|;
      r
  }

  lemma {:induction false} InsertSorted<T(!new)>(x: T, s: seq<T>, le: (T, T) -> bool)
    requires TotalPreorder(le) && SortedBy(s, le)
    ensures SortedBy(Insert(x, s, le), le)
  {
    if s != [] && !le(x, s[0]) {
      InsertSorted(x, s[1..], le);
      var tail := Insert(x, s[1..], le);
      forall j | 0 <= j < |tail|
        ensures le(s[0], tail[j])
      {
        assert tail[j] in multiset(tail);
      }
    }
  }

  lemma {:induction false} SortSorted<T(!new)>(s: seq<T>, le: (T, T) -> bool)
    requires TotalPreorder(le)
    ensures SortedBy(Sort(s, le), le)
  {
    if s == [] {
    } else {
      SortSorted(s[1..], le);
      InsertSorted(s[0], Sort(s[1..], le), le);
    }
  }

  // ---- Equals keep their order ----

  /** First by `le`, and by `tie` among equals. */
  ghost predicate Then<T>(le: (T, T) -> bool, tie: (T, T) -> bool, x: T, y: T) {
    le(x, y) && (le(y, x) ==> tie(x, y))
  }

  ghost predicate StablySorted<T>(s: seq<T>, le: (T, T) -> bool, tie: (T, T) -> bool) {
    forall i, j :: 0 <= i < j < |s| ==> Then(le, tie, s[i], s[j])
  }

  lemma {:induction false} InsertStable<T(!new)>(x: T, s: seq<T>, le: (T, T) -> bool, tie: (T, T) -> bool)
    requires TotalPreorder(le) && StablySorted(s, le, tie) && forall y :: y in s ==> tie(x, y)
    ensures StablySorted(Insert(x, s, le), le, tie)
  {
    if s == [] {
    } else if le(x, s[0]) {
      forall j | 0 <= j < |s| ensures Then(le, tie, x, s[j]) {
        assert j > 0 ==> Then(le, tie, s[0], s[j]);
      }
    } else {
      InsertStable(x, s[1..], le, tie);
      var tail := Insert(x, s[1..], le);
      forall j | 0 <= j < |tail| ensures Then(le, tie, s[0], tail[j]) {
        assert tail[j] in multiset(tail);
        assert tail[j] == x || tail[j] in s[1..];
      }
    }
  }

  lemma {:induction false} SortStable<T(!new)>(s: seq<T>, le: (T, T) -> bool, tie: (T, T) -> bool)
    requires TotalPreorder(le) && SortedBy(s, tie)
    ensures StablySorted(Sort(s, le), le, tie)
  {
    if s == [] {
    } else {
      SortStable(s[1..], le, tie);
      forall y | y in Sort(s[1..], le) ensures tie(s[0], y) {
        PermutationMember(Sort(s[1..], le), s[1..], y);
      }
      InsertStable(s[0], Sort(s[1..], le), le, tie);
    }
  }

  // ---- Dropping repeats ----

  /** Drops repeats of the previous element, as `Vec::dedup` does. */
  function Dedup<T(==)>(s: seq<T>): seq<T> {
    if |s| <= 1 then s
    else if s[0] == s[1] then Dedup(s[1..])
    else [s[0]] + Dedup(s[1..])
  }

  lemma {:induction false} DedupMember<T>(s: seq<T>, x: T)
    ensures x in Dedup(s) <==> x in s
  {
    if |s| <= 1 {
    } else {
      DedupMember(s[1..], x);
      assert s == [s[0]] + s[1..];
    }
  }

  lemma PermutationMember<T>(a: seq<T>, b: seq<T>, x: T)
    requires multiset(a) == multiset(b)
    ensures x in a <==> x in b
  {
    assert x in a <==> x in multiset(a);
    assert x in b <==> x in multiset(b);
  }

  // ---- Pairwise properties survive permutation ----

  ghost predicate Pairwise<T>(s: seq<T>, r: (T, T) -> bool) {
    forall i, j :: 0 <= i < j < |s| ==> r(s[i], s[j])
  }

  lemma PairInMultiset<T>(s: seq<T>, i: nat, j: nat)
    requires i < j < |s|
    ensures multiset{s[i], s[j]} <= multiset(s)
  {
    assert s == s[..i] + [s[i]] + s[i + 1..j] + [s[j]] + s[j + 1..];
  }

  lemma RemoveAt<T>(s: seq<T>, i: nat)
    requires i < |s|
    ensures multiset(s[..i] + s[i + 1..]) == multiset(s) - multiset{s[i]}
  {
    assert s == s[..i] + [s[i]] + s[i + 1..];
  }

  lemma PairFromMultiset<T>(s: seq<T>, x: T, y: T) returns (i: nat, j: nat)
    requires multiset{x, y} <= multiset(s)
    ensures i < |s| && j < |s| && i != j && s[i] == x && s[j] == y
  {
    i := IndexOf(s, x);
    RemoveAt(s, i);
    var rest := s[..i] + s[i + 1..];
    assert multiset{x, y} - multiset{x} <= multiset(s) - multiset{x};
    assert multiset{y} == multiset{x, y} - multiset{x};
    var k := IndexOf(rest, y);
    j := if k < i then k else k + 1;
  }

  lemma IndexOf<T>(s: seq<T>, x: T) returns (i: nat)
    requires multiset{x} <= multiset(s)
    ensures i < |s| && s[i] == x
  {
    assert multiset{x}[x] == 1;
    assert x in multiset(s);
    i :| 0 <= i < |s| && s[i] == x;
  }

  lemma PairwisePermuted<T(!new)>(a: seq<T>, b: seq<T>, r: (T, T) -> bool)
    requires multiset(a) == multiset(b)
    requires forall x, y :: r(x, y) == r(y, x)
    requires Pairwise(a, r)
    ensures Pairwise(b, r)
  {
    forall i, j | 0 <= i < j < |b|
      ensures r(b[i], b[j])
    {
      PairInMultiset(b, i, j);
      var k, l := PairFromMultiset(a, b[i], b[j]);
      assert if k < l then r(a[k], a[l]) else r(a[l], a[k]);
    }
  }

  /** Elements of `s` that precede each other are the same. */
  ghost predicate AntisymmetricOn<T>(s: seq<T>, le: (T, T) -> bool) {
    forall x, y :: x in s && y in s && le(x, y) && le(y, x) ==> x == y
  }

  lemma SortedHeads<T>(a: seq<T>, b: seq<T>, le: (T, T) -> bool)
    requires multiset(a) == multiset(b) && SortedBy(a, le) && SortedBy(b, le)
    requires AntisymmetricOn(a, le)
    requires a != [] && b != []
    ensures a[0] == b[0]
  {
    PermutationMember(a, b, a[0]);
    PermutationMember(a, b, b[0]);
    var i :| 0 <= i < |b| && b[i] == a[0];
    var j :| 0 <= j < |a| && a[j] == b[0];
    assert i > 0 ==> le(b[0], b[i]);
    assert j > 0 ==> le(a[0], a[j]);
  }

  lemma MultisetTail<T>(s: seq<T>)
    requires s != []
    ensures multiset(s[1..]) == multiset(s) - multiset{s[0]}
  {
    assert s == [s[0]] + s[1..];
  }

  lemma SameTails<T>(a: seq<T>, b: seq<T>, le: (T, T) -> bool)
    requires multiset(a) == multiset(b) && SortedBy(a, le) && SortedBy(b, le)
    requires AntisymmetricOn(a, le) && a != [] && b != []
    ensures a[0] == b[0] && multiset(a[1..]) == multiset(b[1..])
    ensures SortedBy(a[1..], le) && SortedBy(b[1..], le) && AntisymmetricOn(a[1..], le)
  {
    SortedHeads(a, b, le);
    MultisetTail(a);
    MultisetTail(b);
    assert forall x :: x in a[1..] ==> x in a;
  }

  /** An antisymmetric order leaves one sorted arrangement of a multiset. */
  lemma {:induction false} SortedUnique<T>(a: seq<T>, b: seq<T>, le: (T, T) -> bool)
    requires multiset(a) == multiset(b) && SortedBy(a, le) && SortedBy(b, le)
    requires AntisymmetricOn(a, le)
    ensures a == b
    decreases |a|
  {
    assert |a| == |multiset(a)| && |b| == |multiset(b)|;
    if a == [] {
    } else {
      SameTails(a, b, le);
      SortedUnique(a[1..], b[1..], le);
      assert a == [a[0]] + a[1..] && b == [b[0]] + b[1..];
    }
  }

  // ---- Lexicographic order on strings ----

  predicate StringLe(a: string, b: string) {
    a == "" || (b != "" && (a[0] < b[0] || (a[0] == b[0] && StringLe(a[1..], b[1..]))))
  }

  lemma {:induction false} StringLeTotal(a: string, b: string)
    ensures StringLe(a, b) || StringLe(b, a)
  {
    if a != "" && b != "" { StringLeTotal(a[1..], b[1..]); }
  }

  lemma {:induction false} StringLeAntisymmetric(a: string, b: string)
    requires StringLe(a, b) && StringLe(b, a)
    ensures a == b
  {
    if a != "" && b != "" {
      StringLeAntisymmetric(a[1..], b[1..]);
      assert a == [a[0]] + a[1..] && b == [b[0]] + b[1..];
    }
  }

  lemma {:induction false} StringLeTransitive(a: string, b: string, c: string)
    requires StringLe(a, b) && StringLe(b, c)
    ensures StringLe(a, c)
  {
    if a != "" && a[0] == b[0] == c[0] { StringLeTransitive(a[1..], b[1..], c[1..]); }
  }

  lemma StringLeOrder(s: seq<string>)
    ensures TotalPreorder(StringLe) && AntisymmetricOn(s, StringLe)
  {
    forall a, b ensures StringLe(a, b) || StringLe(b, a) {
      StringLeTotal(a, b);
    }
    forall a, b, c | StringLe(a, b) && StringLe(b, c) ensures StringLe(a, c) {
      StringLeTransitive(a, b, c);
    }
    forall a, b | a in s && b in s && StringLe(a, b) && StringLe(b, a) ensures a == b {
      StringLeAntisymmetric(a, b);
    }
  }
}
