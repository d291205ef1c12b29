/** Printing then parsing returns the same type, so printing is injective. */
module TypeRoundTrip {
  import opened Wrappers
  import opened Strings
  import opened Sorting
  import opened ExprTypes
  import opened TypeText

  // ---- Text that the union splitter passes over ----

  /** The bracket depth after `s`, or None if a space is met outside brackets. */
  ghost function Scan(s: string, depth: int): Option<int> {
    if s == "" then Some(depth)
    else if depth == 0 && s[0] == ' ' then None
    else Scan(s[1..], DepthAfter(s[0], depth))
  }

  lemma {:induction false} ScanAppend(a: string, b: string, depth: int)
    requires Scan(a, depth).Some?
    ensures Scan(a + b, depth) == Scan(b, Scan(a, depth).value)
  {
    if a == "" {
      assert a + b == b;
    } else {
      assert (a + b)[1..] == a[1..] + b;
      ScanAppend(a[1..], b, DepthAfter(a[0], depth));
    }
  }

  /** Text the scanner accepts joins the current part whole. */
  lemma {:induction false} SplitScan(s: string, rest: string, current: string, depth: int)
    requires Scan(s, depth).Some?
    ensures SplitFrom(s + rest, current, depth) == SplitFrom(rest, current + s, Scan(s, depth).value)
    decreases |s|
  {
    if s == "" {
      assert s + rest == rest && current + s == current;
    } else {
      assert (s + rest)[0] == s[0] && (s + rest)[1..] == s[1..] + rest;
      assert !(depth == 0 && AtBar(s + rest));
      SplitScan(s[1..], rest, current + [s[0]], DepthAfter(s[0], depth));
      assert current + [s[0]] + s[1..] == current + s;
    }
  }

  predicate Letters(s: string) {
    forall c :: c in s ==> c != ' ' && c != '[' && c != ']' && c != '(' && c != ')'
  }

  lemma {:induction false} ScanLetters(s: string, depth: int)
    requires Letters(s)
    ensures Scan(s, depth) == Some(depth)
  {
    if s == "" {
    } else {
      assert s[0] in s;
      assert forall c :: c in s[1..] ==> c in s;
      ScanLetters(s[1..], depth);
    }
  }

  /** Passed over at any depth, and printed without a leading parenthesis. */
  ghost predicate Solid(s: string) {
    s != "" && s[0] != '(' && forall d: nat :: Scan(s, d) == Some(d)
  }

  /** Passed over inside brackets. */
  ghost predicate Inside(s: string) {
    s != "" && s[0] != '(' && forall d: nat :: d > 0 ==> Scan(s, d) == Some(d)
  }

  lemma SolidLetters(s: string)
    requires s != "" && Letters(s)
    ensures Solid(s)
  {
    assert s[0] in s;
    forall d: nat ensures Scan(s, d) == Some(d) { ScanLetters(s, d); }
  }

  lemma SolidBracket(open: string, s: string)
    requires |open| >= 2 && open[|open| - 1] == '[' && Letters(open[..|open| - 1]) && Inside(s)
    ensures Solid(open + s + "]")
  {
    var prefix := open[..|open| - 1];
    var t := open + s + "]";
    assert prefix[0] in prefix;
    assert t == prefix + ("[" + (s + "]"));
    forall d: nat ensures Scan(t, d) == Some(d) {
      ScanLetters(prefix, d);
      ScanAppend(prefix, "[" + (s + "]"), d);
      assert ("[" + (s + "]"))[1..] == s + "]";
      ScanAppend(s, "]", d + 1);
    }
  }

  lemma ListSolid(s: string)
    requires Inside(s)
    ensures Solid("list[" + s + "]")
  {
    assert "list["[..4] == "list";
    SolidBracket("list[", s);
  }

  lemma UnresolvedSolid(s: string)
    requires Inside(s)
    ensures Solid("unresolved[" + s + "]")
  {
    assert "unresolved["[..10] == "unresolved";
    SolidBracket("unresolved[", s);
  }

  lemma UnresolvedLetters()
    ensures Solid("unresolved")
  {
    SolidLetters("unresolved");
  }

  lemma SolidQuestion(s: string)
    requires Solid(s)
    ensures Solid(s + "?")
  {
    forall d: nat ensures Scan(s + "?", d) == Some(d) {
      ScanAppend(s, "?", d);
    }
  }

  lemma InsideBar(a: string, b: string)
    requires Inside(a) && Inside(b)
    ensures Inside(a + " | " + b)
  {
    forall d: nat | d > 0 ensures Scan(a + " | " + b, d) == Some(d) {
      assert a + " | " + b == a + ([' '] + (['|'] + ([' '] + b)));
      ScanAppend(a, [' '] + (['|'] + ([' '] + b)), d);
      ScanAppend([' '], ['|'] + ([' '] + b), d);
      ScanAppend(['|'], [' '] + b, d);
      ScanAppend([' '], b, d);
    }
  }

  ghost predicate AllSolid(parts: seq<string>) {
    forall i :: 0 <= i < |parts| ==> Solid(parts[i])
  }

  lemma {:induction false} InsideJoin(parts: seq<string>)
    requires parts != [] && AllSolid(parts)
    ensures Inside(Join(" | ", parts))
  {
    assert Solid(parts[0]);
    if |parts| > 1 {
      InsideJoin(parts[1..]);
      InsideBar(parts[0], Join(" | ", parts[1..]));
    }
  }

  /** Splitting a join of solid parts gives the parts. */
  lemma {:induction false} SplitJoin(parts: seq<string>)
    requires parts != [] && AllSolid(parts)
    ensures SplitUnion(Join(" | ", parts)) == parts
  {
    var head := parts[0];
    assert Solid(head);
    if |parts| == 1 {
      SplitScan(head, "", "", 0);
      assert head + "" == head && "" + head == head;
    } else {
      var rest := Join(" | ", parts[1..]);
      SplitJoin(parts[1..]);
      var tail := " | " + rest;
      assert Join(" | ", parts) == head + tail;
      SplitScan(head, tail, "", 0);
      assert "" + head == head;
      assert AtBar(tail) && tail[3..] == rest;
    }
  }

  lemma SplitSolid(s: string)
    requires Solid(s)
    ensures SplitUnion(s) == [s]
  {
    SplitJoin([s]);
  }

  // ---- How unions print ----

  /** Members in the order they are printed: null last. */
  ghost function Displayed(ms: seq<ExprType>): seq<ExprType> {
    NonNullParts(ms, ms) + if NullType in ms then [NullType] else []
  }

  lemma {:induction false} NonNullShow(ms: seq<ExprType>)
    ensures NonNullParts(ms, ShowAll(ms)) == ShowAll(NonNullParts(ms, ms))
  {
    if ms == [] {
    } else {
      NonNullShow(ms[1..]);
      assert ShowAll(ms)[1..] == ShowAll(ms[1..]);
    }
  }

  lemma {:induction false} NonNullMultiset(ms: seq<ExprType>)
    ensures multiset(NonNullParts(ms, ms)) == multiset(ms)[NullType := 0]
    ensures |NonNullParts(ms, ms)| <= |ms|
    ensures |NonNullParts(ms, ms)| == |ms| <==> NullType !in ms
  {
    if ms == [] {
    } else {
      NonNullMultiset(ms[1..]);
      assert ms == [ms[0]] + ms[1..];
    }
  }

  lemma SortedDistinct(ms: seq<ExprType>)
    requires CanonicalOrder(ms)
    ensures SortedBy(ms, TextLe) && AntisymmetricOn(ms, TextLe)
    ensures Dedup(ms) == ms
  {
    forall x, y | x in ms && y in ms && TextLe(x, y) && TextLe(y, x)
      ensures x == y
    {
      StringLeAntisymmetric(Show(x), Show(y));
    }
    DedupDistinct(ms);
  }

  lemma {:induction false} DedupDistinct(ms: seq<ExprType>)
    requires forall i, j :: 0 <= i < j < |ms| ==> ms[i] != ms[j]
    ensures Dedup(ms) == ms
  {
    if |ms| > 1 {
      assert ms[0] != ms[1];
      DedupDistinct(ms[1..]);
    }
  }

  lemma DisplayedPermutes(ms: seq<ExprType>)
    requires CanonicalOrder(ms)
    ensures multiset(Displayed(ms)) == multiset(ms)
  {
    NonNullMultiset(ms);
    if multiset(ms)[NullType] >= 2 {
      assert multiset{NullType, NullType} <= multiset(ms);
      var i, j := PairFromMultiset(ms, NullType, NullType);
      assert false;
    }
    if NullType in ms {
      assert multiset(ms)[NullType] == 1;
      assert multiset(ms) == multiset(ms)[NullType := 0] + multiset{NullType};
    }
  }

  lemma {:induction false} FlattenAtoms(ds: seq<ExprType>)
    requires forall i :: 0 <= i < |ds| ==> IsAtom(ds[i])
    ensures Flatten(ds) == ds && Constraints(ds) == [] && Any !in ds
  {
    if ds == [] {
    } else {
      FlattenAtoms(ds[1..]);
      assert ds == [ds[0]] + ds[1..];
      assert IsAtom(ds[0]);
    }
  }

  /** Rebuilding a normalized union from its members in any order gives it back. */
  lemma RebuildUnion(ms: seq<ExprType>, ds: seq<ExprType>)
    requires |ms| >= 2 && CanonicalOrder(ms) && AllRooted(ds) && multiset(ds) == multiset(ms)
    ensures MakeUnion(ds) == Union(ms)
  {
    forall i | 0 <= i < |ds| ensures IsAtom(ds[i]) {
      PermutationMember(ds, ms, ds[i]);
    }
    FlattenAtoms(ds);
    TextOrder();
    SortSorted(ds, TextLe);
    SortedDistinct(ms);
    SortedUnique(ms, Sort(ds, TextLe), TextLe);
  }

  // ---- The depth at which a printed type is parsed ----

  /** Nesting levels `parse_inner` enters to read the printed type. */
  ghost function Depth(t: ExprType): nat
    decreases t, 1
  {
    match t
    case List(e) => 1 + Depth(e)
    case Unresolved(c) => if c.Any? then 0 else 1 + Depth(c)
    case Union(ms) => 1 + MaxDepth(ms)
    case _ => 0
  }

  ghost function MaxDepth(ms: seq<ExprType>): nat
    decreases ms, 0
  {
    if ms == [] then 0
    else
      var rest := MaxDepth(ms[1..]);
      if Depth(ms[0]) > rest then Depth(ms[0]) else rest
  }

  lemma {:induction false} MaxDepthBound(ms: seq<ExprType>, k: nat)
    ensures MaxDepth(ms) <= k <==> forall x :: x in ms ==> Depth(x) <= k
  {
    if ms == [] {
    } else {
      MaxDepthBound(ms[1..], k);
      var head := ms[0];
      assert head in ms;
      assert forall x :: x in ms <==> x == head || x in ms[1..];
    }
  }

  // ---- Printed types are solid ----

  ghost predicate Optional(ms: seq<ExprType>) {
    NullType in ms && |NonNullParts(ms, ms)| == 1
  }

  lemma ShowUnionParts(ms: seq<ExprType>)
    ensures Show(Union(ms)) ==
            if Optional(ms) then Show(NonNullParts(ms, ms)[0]) + "?" else Join(" | ", ShowAll(Displayed(ms)))
  {
    NonNullShow(ms);
    NonNullMultiset(ms);
    assert Show(Union(ms)) == ShowUnion(ms, ShowAll(ms));
    var nn := NonNullParts(ms, ms);
    if NullType in ms {
      assert ShowAll(Displayed(ms)) == ShowAll(nn) + ["nulltype"];
    } else {
      assert Displayed(ms) == nn;
    }
  }

  lemma NonNullMember(ms: seq<ExprType>, x: ExprType)
    ensures x in NonNullParts(ms, ms) <==> x in ms && !x.NullType?
  {
    NonNullMultiset(ms);
    assert x in NonNullParts(ms, ms) <==> x in multiset(NonNullParts(ms, ms));
    assert x in ms <==> x in multiset(ms);
  }

  lemma {:induction false} ShowSolid(t: ExprType)
    requires Normal(t)
    ensures Inside(Show(t))
    ensures !t.Union? ==> Solid(Show(t))
    decreases t
  {
    match t
    case List(e) =>
      ShowSolid(e);
      ListSolid(Show(e));
    case Unresolved(c) =>
      if c.Any? {
        UnresolvedLetters();
      } else {
        ShowSolid(c);
        UnresolvedSolid(Show(c));
      }
    case Union(ms) =>
      forall x | x in ms ensures Solid(Show(x)) {
        var i :| 0 <= i < |ms| && ms[i] == x;
        assert IsAtom(ms[i]) && Normal(ms[i]);
        ShowSolid(ms[i]);
      }
      UnionInside(ms);
    case _ =>
      BaseLetters(t);
      SolidLetters(Show(t));
  }

  lemma BaseLetters(t: ExprType)
    requires !t.List? && !t.Union? && !t.Unresolved?
    ensures Show(t) != "" && Letters(Show(t))
  {}

  lemma DisplayedMember(ms: seq<ExprType>, x: ExprType)
    ensures x in Displayed(ms) <==> x in ms
  {
    NonNullMember(ms, x);
  }

  lemma UnionInside(ms: seq<ExprType>)
    requires |ms| >= 2 && forall x :: x in ms ==> Solid(Show(x))
    ensures Inside(Show(Union(ms)))
  {
    ShowUnionParts(ms);
    if Optional(ms) {
      var x := NonNullParts(ms, ms)[0];
      NonNullMember(ms, x);
      SolidQuestion(Show(x));
    } else {
      var ds := Displayed(ms);
      DisplayedMember(ms, ms[0]);
      forall i | 0 <= i < |ds| ensures Solid(ShowAll(ds)[i]) {
        DisplayedMember(ms, ds[i]);
      }
      InsideJoin(ShowAll(ds));
    }
  }

  // ---- Parsing each printed shape ----

  lemma BaseTypeEnd(s: string)
    requires BaseType(s).Some?
    ensures s != "" && s[|s| - 1] != ']' && s[|s| - 1] != '?'
  {}

  lemma BaseReads(t: ExprType)
    requires !t.List? && !t.Union? && !t.Unresolved? && !t.Var?
    ensures BaseType(Show(t)) == Some(t)
  {}

  lemma VarReads(v: TypeVar, depth: nat, limit: nat)
    ensures Parse(ShowVar(v), depth, limit) == if depth > limit then None else Some(Var(v))
  {
    var s := ShowVar(v);
    BaseLetters(Var(v));
    SolidLetters(s);
    SplitSolid(s);
    assert s[0] == 'T';
    assert BaseType(s).None?;
    assert VarType(s) == Some(Var(v));
  }

  /** Where the text is one solid part and no base type, the suffix rules decide. */
  lemma ParseSolid(s: string, depth: nat, limit: nat)
    requires Solid(s) && depth <= limit
    requires s[|s| - 1] == ']' || s[|s| - 1] == '?'
    ensures Parse(s, depth, limit) == ParseSuffixed(s, depth, limit)
  {
    SplitSolid(s);
    if BaseType(s).Some? { BaseTypeEnd(s); }
  }

  ghost function Lift(r: Option<ExprType>, f: ExprType --> ExprType): Option<ExprType>
    requires r.Some? ==> f.requires(r.value)
  {
    match r case None => None case Some(t) => Some(f(t))
  }

  lemma ParseList(s: string, depth: nat, limit: nat)
    requires Inside(s)
    ensures Parse("list[" + s + "]", depth, limit)
            == if depth > limit then None else Lift(Parse(s, depth + 1, limit), MakeList)
  {
    var text := "list[" + s + "]";
    if depth <= limit {
      ListSolid(s);
      ParseSolid(text, depth, limit);
      assert Bracketed(text, "list[") == Some(s);
    }
  }

  lemma ParseUnresolved(s: string, depth: nat, limit: nat)
    requires Inside(s)
    ensures Parse("unresolved[" + s + "]", depth, limit)
            == if depth > limit then None else Lift(Parse(s, depth + 1, limit), MakeUnresolved)
  {
    var text := "unresolved[" + s + "]";
    if depth <= limit {
      UnresolvedSolid(s);
      ParseSolid(text, depth, limit);
      assert Bracketed(text, "unresolved[") == Some(s);
      assert text[0] == 'u';
      assert Bracketed(text, "list[").None?;
    }
  }

  lemma ParseOptional(s: string, depth: nat, limit: nat)
    requires Solid(s)
    ensures Parse(s + "?", depth, limit)
            == if depth > limit then None
               else match Parse(s, depth + 1, limit) case None => None case Some(t) => Some(MakeUnion([t, NullType]))
  {
    if depth <= limit {
      SolidQuestion(s);
      ParseSolid(s + "?", depth, limit);
      assert (s + "?")[..|s|] == s;
    }
  }

  lemma ParseBars(parts: seq<string>, depth: nat, limit: nat)
    requires |parts| >= 2 && AllSolid(parts)
    ensures Parse(Join(" | ", parts), depth, limit)
            == if depth > limit then None
               else match ParseAll(parts, depth + 1, limit) case None => None case Some(ts) => Some(MakeUnion(ts))
  {
    SplitJoin(parts);
    assert Solid(parts[0]);
    assert Join(" | ", parts)[0] == parts[0][0];
  }

  /** A type whose printed form parses back at this depth exactly when the limit allows it. */
  ghost predicate ReadsBack(t: ExprType, depth: nat, limit: nat) {
    Parse(Show(t), depth, limit) == if depth + Depth(t) <= limit then Some(t) else None
  }

  ghost predicate AllFit(ds: seq<ExprType>, depth: nat, limit: nat) {
    forall x :: x in ds ==> depth + Depth(x) <= limit
  }

  lemma {:induction false} ParseAllBack(ds: seq<ExprType>, depth: nat, limit: nat)
    requires AllRooted(ds) && forall i :: 0 <= i < |ds| ==> ReadsBack(ds[i], depth, limit)
    ensures ParseAll(ShowAll(ds), depth, limit)
            == if AllFit(ds, depth, limit) then Some(ds) else None
  {
    if ds == [] {
    } else {
      var head := ds[0];
      assert head in ds && ReadsBack(head, depth, limit);
      assert ShowAll(ds)[1..] == ShowAll(ds[1..]);
      assert forall x :: x in ds <==> x == head || x in ds[1..];
      ParseAllBack(ds[1..], depth, limit);
      assert [head] + ds[1..] == ds;
    }
  }

  /** The members of `ds` are solid, rooted and read back. */
  ghost predicate AllReadBack(ds: seq<ExprType>, depth: nat, limit: nat) {
    && AllRooted(ds)
    && (forall i :: 0 <= i < |ds| ==> ReadsBack(ds[i], depth, limit))
    && forall i :: 0 <= i < |ds| ==> Solid(Show(ds[i]))
  }

  lemma AllReadBackPermuted(ms: seq<ExprType>, ds: seq<ExprType>, depth: nat, limit: nat)
    requires AllReadBack(ms, depth, limit) && multiset(ms) == multiset(ds)
    ensures AllReadBack(ds, depth, limit)
  {
    forall i | 0 <= i < |ds|
      ensures Rooted(ds[i]) && ReadsBack(ds[i], depth, limit) && Solid(Show(ds[i]))
    {
      PermutationMember(ms, ds, ds[i]);
      var k :| 0 <= k < |ms| && ms[k] == ds[i];
      assert Rooted(ms[k]) && ReadsBack(ms[k], depth, limit) && Solid(Show(ms[k]));
    }
  }

  lemma SolidParts(ds: seq<ExprType>, depth: nat, limit: nat)
    requires AllReadBack(ds, depth, limit)
    ensures AllSolid(ShowAll(ds))
  {
    forall i | 0 <= i < |ds| ensures Solid(ShowAll(ds)[i]) {
      assert Solid(Show(ds[i]));
    }
  }

  /** Reading the joined members back gives their union. */
  lemma BarsBack(ds: seq<ExprType>, depth: nat, limit: nat)
    requires |ds| >= 2 && AllReadBack(ds, depth + 1, limit)
    ensures Parse(Join(" | ", ShowAll(ds)), depth, limit)
            == if depth <= limit && AllFit(ds, depth + 1, limit) then Some(MakeUnion(ds)) else None
  {
    var parts := ShowAll(ds);
    assert AllSolid(parts) by { SolidParts(ds, depth + 1, limit); }
    assert ParseAll(parts, depth + 1, limit) == if AllFit(ds, depth + 1, limit) then Some(ds) else None by {
      ParseAllBack(ds, depth + 1, limit);
    }
    ParseBars(parts, depth, limit);
  }

  lemma BarsRead(ms: seq<ExprType>, depth: nat, limit: nat)
    requires |ms| >= 2 && CanonicalOrder(ms) && !Optional(ms) && AllReadBack(ms, depth + 1, limit)
    ensures ReadsBack(Union(ms), depth, limit)
  {
    var ds := Displayed(ms);
    DisplayedPermutes(ms);
    assert |ds| == |multiset(ds)| == |multiset(ms)| == |ms|;
    AllReadBackPermuted(ms, ds, depth + 1, limit);
    BarsBack(ds, depth, limit);
    RebuildUnion(ms, ds);
    DepthOfUnion(ms, ds, depth, limit);
    ShowUnionParts(ms);
  }

  lemma OptionalBack(x: ExprType, depth: nat, limit: nat)
    requires Solid(Show(x)) && Rooted(x) && ReadsBack(x, depth + 1, limit)
    ensures Parse(Show(x) + "?", depth, limit)
            == if depth <= limit && AllFit([x, NullType], depth + 1, limit)
               then Some(MakeUnion([x, NullType])) else None
  {
    ParseOptional(Show(x), depth, limit);
    assert x in [x, NullType];
  }

  lemma OptionalRead(ms: seq<ExprType>, depth: nat, limit: nat)
    requires |ms| >= 2 && CanonicalOrder(ms) && Optional(ms) && AllReadBack(ms, depth + 1, limit)
    ensures ReadsBack(Union(ms), depth, limit)
  {
    var ds := Displayed(ms);
    DisplayedPermutes(ms);
    AllReadBackPermuted(ms, ds, depth + 1, limit);
    OptionalShape(ms);
    assert Rooted(ds[0]) && ReadsBack(ds[0], depth + 1, limit) && Solid(Show(ds[0]));
    OptionalBack(ds[0], depth, limit);
    RebuildUnion(ms, ds);
    DepthOfUnion(ms, ds, depth, limit);
  }

  lemma OptionalShape(ms: seq<ExprType>)
    requires Optional(ms)
    ensures Displayed(ms) == [NonNullParts(ms, ms)[0], NullType]
    ensures Show(Union(ms)) == Show(Displayed(ms)[0]) + "?"
  {
    ShowUnionParts(ms);
  }

  lemma DepthOfUnion(ms: seq<ExprType>, ds: seq<ExprType>, depth: nat, limit: nat)
    requires ms != [] && multiset(ms) == multiset(ds)
    ensures depth + Depth(Union(ms)) <= limit <==> depth <= limit && AllFit(ds, depth + 1, limit)
  {
    var head := ms[0];
    PermutationMember(ms, ds, head);
    if depth < limit {
      MaxDepthBound(ms, limit - depth - 1);
      forall x ensures x in ds <==> x in ms { PermutationMember(ms, ds, x); }
    }
  }

  lemma ListRead(e: ExprType, depth: nat, limit: nat)
    requires !e.Unresolved? && Inside(Show(e)) && ReadsBack(e, depth + 1, limit)
    ensures ReadsBack(List(e), depth, limit)
  {
    ParseList(Show(e), depth, limit);
  }

  lemma UnresolvedRead(c: ExprType, depth: nat, limit: nat)
    requires !c.Unresolved? && !c.Any? && Inside(Show(c)) && ReadsBack(c, depth + 1, limit)
    ensures ReadsBack(Unresolved(c), depth, limit)
  {
    ParseUnresolved(Show(c), depth, limit);
  }

  lemma BaseRead(t: ExprType, depth: nat, limit: nat)
    requires !t.List? && !t.Union? && !t.Unresolved? && !t.Var?
    ensures ReadsBack(t, depth, limit)
  {
    BaseLetters(t);
    SolidLetters(Show(t));
    SplitSolid(Show(t));
    BaseReads(t);
  }

  lemma UnresolvedAnyRead(depth: nat, limit: nat)
    ensures ReadsBack(Unresolved(Any), depth, limit)
  {
    UnresolvedLetters();
    SplitSolid("unresolved");
    UnresolvedBase();
  }

  lemma UnresolvedBase()
    ensures Show(Unresolved(Any)) == "unresolved" && BaseType("unresolved") == Some(Unresolved(Any))
  {}

  /** Round trip: the printed form of a normalized type parses back to that type exactly when
      its nesting stays within the limit, and fails otherwise. */
  lemma {:induction false} PrintParse(t: ExprType, depth: nat, limit: nat)
    requires Normal(t)
    ensures ReadsBack(t, depth, limit)
    decreases t, 0
  {
    match t
    case List(e) => PrintParseList(e, depth, limit);
    case Unresolved(c) => PrintParseUnresolved(c, depth, limit);
    case Union(ms) => PrintParseUnion(ms, depth, limit);
    case Var(v) => VarReads(v, depth, limit);
    case _ => BaseRead(t, depth, limit);
  }

  lemma {:induction false} PrintParseList(e: ExprType, depth: nat, limit: nat)
    requires Normal(e) && !e.Unresolved?
    ensures ReadsBack(List(e), depth, limit)
    decreases e, 1
  {
    ShowSolid(e);
    PrintParse(e, depth + 1, limit);
    ListRead(e, depth, limit);
  }

  lemma {:induction false} PrintParseUnresolved(c: ExprType, depth: nat, limit: nat)
    requires Normal(c) && !c.Unresolved?
    ensures ReadsBack(Unresolved(c), depth, limit)
    decreases c, 1
  {
    if c.Any? {
      UnresolvedAnyRead(depth, limit);
    } else {
      ShowSolid(c);
      PrintParse(c, depth + 1, limit);
      UnresolvedRead(c, depth, limit);
    }
  }

  lemma {:induction false} PrintParseUnion(ms: seq<ExprType>, depth: nat, limit: nat)
    requires |ms| >= 2 && CanonicalOrder(ms) && AllNormal(ms)
    ensures ReadsBack(Union(ms), depth, limit)
    decreases ms, 1
  {
    forall i | 0 <= i < |ms|
      ensures Rooted(ms[i]) && ReadsBack(ms[i], depth + 1, limit) && Solid(Show(ms[i]))
    {
      PrintParseMember(ms[i], depth + 1, limit);
    }
    if Optional(ms) { OptionalRead(ms, depth, limit); } else { BarsRead(ms, depth, limit); }
  }

  lemma {:induction false} PrintParseMember(m: ExprType, depth: nat, limit: nat)
    requires Normal(m) && IsAtom(m)
    ensures Rooted(m) && ReadsBack(m, depth, limit) && Solid(Show(m))
    decreases m, 1
  {
    NormalRooted(m);
    ShowSolid(m);
    PrintParse(m, depth, limit);
  }

  /** `ExprType::parse` on printed text. */
  lemma ParseShown(t: ExprType)
    requires Normal(t)
    ensures Parse(Show(t), 0, MAX_PARSE_DEPTH) == if Depth(t) <= MAX_PARSE_DEPTH then Some(t) else None
  {
    PrintParse(t, 0, MAX_PARSE_DEPTH);
  }

  const NAMES: map<string, ExprType> :=
    map["nulltype" := NullType, "bool" := Bool, "int" := Int, "float" := Float, "string" := String, "path" := Path,
        "range_expr" := RangeExpr, "any" := Any, "noreturn" := NoReturn, "unresolved" := Unresolved(Any),
        "T" := Var(T), "T1" := Var(T1), "T2" := Var(T2), "T3" := Var(T3)]

  /** The names types are written with; a list is written around its element type's text. */
  lemma NamesRead(name: string, e: ExprType)
    requires name in NAMES && Normal(e) && !e.Unresolved? && Depth(e) < MAX_PARSE_DEPTH
    ensures Show(NAMES[name]) == name && Parse(name, 0, MAX_PARSE_DEPTH) == Some(NAMES[name])
    ensures Parse("list[" + Show(e) + "]", 0, MAX_PARSE_DEPTH) == Some(List(e))
  {
    NameShown(name);
    ParseShown(NAMES[name]);
    ParseShown(List(e));
  }

  lemma NameShown(name: string)
    requires name in NAMES
    ensures Show(NAMES[name]) == name && Normal(NAMES[name]) && Depth(NAMES[name]) == 0
  {}

  /** Hence normalized types print differently, whatever their depth. */
  lemma ShowInjective(t: ExprType, u: ExprType)
    requires Normal(t) && Normal(u) && Show(t) == Show(u)
    ensures t == u
  {
    var limit := Depth(t) + Depth(u);
    PrintParse(t, 0, limit);
    PrintParse(u, 0, limit);
  }
}
