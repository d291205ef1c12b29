/** The hierarchical symbol table: dotted keys over nested tables. */
module SymbolTables {
  import opened Wrappers
  import opened Strings
  import opened Sequences
  import opened Sorting

  datatype Entry<V> = Table(entries: map<string, Entry<V>>) | Value(value: V)

  type Entries<V> = map<string, Entry<V>>

  datatype SetError = SetError(key: string, conflict: string)

  // ---- Dotted keys ----

  ghost predicate DotFree(parts: seq<string>) {
    forall i :: 0 <= i < |parts| ==> '.' !in parts[i]
  }

  lemma JoinAfter(x: string, rest: seq<string>)
    requires rest != []
    ensures Join(".", [x] + rest) == x + "." + Join(".", rest)
  {
    assert ([x] + rest)[1..] == rest;
  }

  /** One more character at the front of the first component. */
  lemma JoinLonger(c: char, rest: seq<string>)
    requires rest != []
    ensures Join(".", [[c] + rest[0]] + rest[1..]) == [c] + Join(".", rest)
  {
    if |rest| == 1 {
      assert [[c] + rest[0]] + rest[1..] == [[c] + rest[0]];
    } else {
      JoinAfter([c] + rest[0], rest[1..]);
      Assoc([c], rest[0], ".");
      Assoc([c], rest[0] + ".", Join(".", rest[1..]));
    }
  }

  lemma {:induction false} JoinSplit(s: string)
    ensures Join(".", Split('.', s)) == s && DotFree(Split('.', s))
  {
    if s == "" {
    } else {
      var rest := Split('.', s[1..]);
      JoinSplit(s[1..]);
      HeadTail(s);
      if s[0] == '.' {
        JoinAfter("", rest);
      } else {
        JoinLonger(s[0], rest);
        DotFreeLonger(s[0], rest);
      }
    }
  }

  lemma DotFreeLonger(c: char, rest: seq<string>)
    requires rest != [] && DotFree(rest) && c != '.'
    ensures DotFree([[c] + rest[0]] + rest[1..])
  {
    var parts := [[c] + rest[0]] + rest[1..];
    forall i | 0 <= i < |parts| ensures '.' !in parts[i] {
      assert i > 0 ==> parts[i] == rest[i];
    }
  }

  lemma {:induction false} SplitPlain(s: string)
    requires '.' !in s
    ensures Split('.', s) == [s]
  {
    if s == "" {
    } else {
      assert s[0] in s && forall c :: c in s[1..] ==> c in s;
      SplitPlain(s[1..]);
      assert s == [s[0]] + s[1..];
    }
  }

  lemma {:induction false} SplitDotted(s: string, t: string)
    requires '.' !in s
    ensures Split('.', s + "." + t) == [s] + Split('.', t)
  {
    var u := s + "." + t;
    if s == "" {
      assert u[1..] == t;
    } else {
      assert s[0] in s && forall c :: c in s[1..] ==> c in s;
      SplitDotted(s[1..], t);
      assert u[0] == s[0] && u[1..] == s[1..] + "." + t;
      assert s == [s[0]] + s[1..];
    }
  }

  /** Keys and dot-free component paths are the same thing. */
  lemma {:induction false} SplitJoin(parts: seq<string>)
    requires parts != [] && DotFree(parts)
    ensures Split('.', Join(".", parts)) == parts
  {
    assert '.' !in parts[0];
    if |parts| == 1 {
      SplitPlain(parts[0]);
    } else {
      assert DotFree(parts[1..]) by {
        forall i | 0 <= i < |parts[1..]| ensures '.' !in parts[1..][i] {
          assert parts[1..][i] == parts[i + 1];
        }
      }
      SplitJoin(parts[1..]);
      SplitDotted(parts[0], Join(".", parts[1..]));
      assert parts == [parts[0]] + parts[1..];
    }
  }

  // ---- Lookups ----

  function Lookup<V>(t: Entries<V>, p: seq<string>): Option<Entry<V>>
    requires p != []
    decreases p
  {
    if p[0] !in t then None
    else if |p| == 1 then Some(t[p[0]])
    else if t[p[0]].Table? then Lookup(t[p[0]].entries, p[1..])
    else None
  }

  function ValueAt<V>(t: Entries<V>, p: seq<string>): Option<V>
    requires p != []
  {
    match Lookup(t, p) case Some(Value(v)) => Some(v) case _ => None
  }

  predicate TableAt<V>(t: Entries<V>, p: seq<string>)
    requires p != []
  {
    Lookup(t, p).Some? && Lookup(t, p).value.Table?
  }

  // ---- Setting ----

  function SubEntries<V>(t: Entries<V>, key: string): Entries<V>
    requires key in t ==> t[key].Table?
  {
    if key in t then t[key].entries else map[]
  }

  /** The table with one path set, or the component in the way. */
  function SetIn<V>(t: Entries<V>, p: seq<string>, v: V): Result<Entries<V>, string>
    requires p != []
    decreases p
  {
    if |p| == 1 then
      if p[0] in t && t[p[0]].Table? then Err(p[0]) else Ok(t[p[0] := Value(v)])
    else if p[0] in t && t[p[0]].Value? then Err(p[0])
    else
      match SetIn(SubEntries(t, p[0]), p[1..], v)
      case Ok(sub) => Ok(t[p[0] := Table(sub)])
      case Err(e) => Err(e)
  }

  /** A path can be set unless it is a table or runs through a value. */
  ghost predicate Settable<V>(t: Entries<V>, p: seq<string>)
    requires p != []
  {
    !TableAt(t, p) && forall k :: 0 < k < |p| ==> ValueAt(t, p[..k]).None?
  }

  lemma {:induction false} SetSucceeds<V>(t: Entries<V>, p: seq<string>, v: V)
    requires p != []
    ensures SetIn(t, p, v).Ok? <==> Settable(t, p)
    decreases p
  {
    if |p| > 1 {
      if p[0] in t && t[p[0]].Value? {
        assert ValueAt(t, p[..1]).Some?;
      } else {
        var sub, q := SubEntries(t, p[0]), p[1..];
        SetSucceeds(sub, q, v);
        assert ValueAt(t, p[..1]).None?;
        forall k | 1 < k < |p| ensures ValueAt(t, p[..k]) == ValueAt(sub, q[..k - 1]) {
          assert p[..k][1..] == q[..k - 1] && p[..k][0] == p[0];
        }
        if Settable(t, p) {
          forall k | 0 < k < |q| ensures ValueAt(sub, q[..k]).None? {
            assert ValueAt(t, p[..k + 1]) == ValueAt(sub, q[..k + 1 - 1]);
          }
        }
      }
    }
  }

  /** Setting a path changes the value there and nowhere else. */
  lemma {:induction false} SetChangesOnlyThere<V>(t: Entries<V>, p: seq<string>, v: V, q: seq<string>)
    requires p != [] && q != [] && SetIn(t, p, v).Ok?
    ensures ValueAt(SetIn(t, p, v).value, q) == if q == p then Some(v) else ValueAt(t, q)
    decreases p
  {
    assert p == [p[0]] + p[1..] && q == [q[0]] + q[1..];
    if p[0] == q[0] && |p| > 1 {
      var sub := SubEntries(t, p[0]);
      if |q| > 1 {
        SetChangesOnlyThere(sub, p[1..], v, q[1..]);
        assert p == q <==> p[1..] == q[1..];
        assert p[0] !in t ==> ValueAt(sub, q[1..]).None?;
      }
    }
  }

  // ---- Merging ----

  /** `merge_from`: the other table wins, table by table. */
  function Merge<V>(a: Entry<V>, b: Entry<V>): (r: Entry<V>)
    requires a.Table? && b.Table?
    ensures r.Table?
    decreases b
  {
    Table(map k | k in a.entries.Keys + b.entries.Keys ::
            if k !in b.entries then a.entries[k]
            else if b.entries[k].Table? && k in a.entries && a.entries[k].Table?
            then Merge(a.entries[k], b.entries[k])
            else b.entries[k])
  }

  /** The other table has its say about `q`: it has a value at a proper prefix of it, or something
      at `q` itself. */
  ghost predicate Decides<V>(b: Entries<V>, q: seq<string>)
    requires q != []
  {
    Lookup(b, q).Some? || exists k :: 0 < k < |q| && ValueAt(b, q[..k]).Some?
  }

  lemma {:induction false} MergeLookup<V>(a: Entry<V>, b: Entry<V>, q: seq<string>)
    requires a.Table? && b.Table? && q != []
    ensures ValueAt(Merge(a, b).entries, q) ==
            if Decides(b.entries, q) then ValueAt(b.entries, q) else ValueAt(a.entries, q)
    decreases q
  {
    var x := q[0];
    if |q| > 1 && x in b.entries {
      assert q[..1][0] == x;
      if b.entries[x].Value? {
        assert ValueAt(b.entries, q[..1]).Some?;
      } else {
        assert ValueAt(b.entries, q[..1]).None?;
        DecidesBelow(b.entries, q);
        if x in a.entries && a.entries[x].Table? {
          MergeLookup(a.entries[x], b.entries[x], q[1..]);
        }
      }
    } else if |q| > 1 {
      forall k | 0 < k < |q| ensures ValueAt(b.entries, q[..k]).None? {
        assert q[..k][0] == x;
      }
    }
  }

  lemma DecidesBelow<V>(b: Entries<V>, q: seq<string>)
    requires |q| > 1 && q[0] in b && b[q[0]].Table?
    ensures Decides(b, q) <==> Decides(b[q[0]].entries, q[1..])
    ensures !Decides(b, q) ==> ValueAt(b, q).None?
  {
    var sub, r := b[q[0]].entries, q[1..];
    forall k | 1 < k < |q| ensures ValueAt(b, q[..k]) == ValueAt(sub, r[..k - 1]) {
      assert q[..k][1..] == r[..k - 1] && q[..k][0] == q[0];
    }
    assert ValueAt(b, q[..1]).None?;
    if k :| 0 < k < |r| && ValueAt(sub, r[..k]).Some? {
      assert ValueAt(b, q[..k + 1]) == ValueAt(sub, r[..k + 1 - 1]);
    }
  }

  // ---- Listing the leaves ----

  function Extend(prefix: string, key: string): string {
    if prefix == "" then key else prefix + "." + key
  }

  /** What one entry contributes to `collect_paths`. */
  ghost function EntryPaths<V>(e: Entry<V>, path: string): multiset<string>
    decreases e, 1
  {
    match e
    case Value(_) => multiset{path}
    case Table(t) => KeyPaths(e, t.Keys, path)
  }

  ghost function KeyPaths<V>(e: Entry<V>, keys: set<string>, prefix: string): multiset<string>
    requires e.Table? && keys <= e.entries.Keys
    decreases e, 0, |keys|
  {
    if keys == {} then multiset{}
    else
      var k :| k in keys;
      EntryPaths(e.entries[k], Extend(prefix, k)) + KeyPaths(e, keys - {k}, prefix)
  }

  /** The order in which the map is walked does not matter. */
  lemma {:induction false} KeyPathsAny<V>(e: Entry<V>, keys: set<string>, prefix: string, k: string)
    requires e.Table? && keys <= e.entries.Keys && k in keys
    ensures KeyPaths(e, keys, prefix) ==
            EntryPaths(e.entries[k], Extend(prefix, k)) + KeyPaths(e, keys - {k}, prefix)
    decreases |keys|
  {
    var first :| first in keys && KeyPaths(e, keys, prefix) ==
            EntryPaths(e.entries[first], Extend(prefix, first)) + KeyPaths(e, keys - {first}, prefix);
    if first != k {
      KeyPathsAny(e, keys - {first}, prefix, k);
      KeyPathsAny(e, keys - {k}, prefix, first);
      assert keys - {first} - {k} == keys - {k} - {first};
    }
  }

  /** The text `collect_paths` builds for a leaf. */
  function Text(prefix: string, q: seq<string>): string
    requires q != []
    decreases q
  {
    if |q| == 1 then Extend(prefix, q[0]) else Text(Extend(prefix, q[0]), q[1..])
  }

  lemma {:induction false} LeafListed<V>(e: Entry<V>, prefix: string, q: seq<string>)
    requires e.Table? && q != [] && ValueAt(e.entries, q).Some?
    ensures Text(prefix, q) in EntryPaths(e, prefix)
    decreases q
  {
    var k := q[0];
    KeyPathsAny(e, e.entries.Keys, prefix, k);
    if |q| > 1 {
      LeafListed(e.entries[k], Extend(prefix, k), q[1..]);
    }
  }

  lemma {:induction false} ListedLeaf<V>(e: Entry<V>, keys: set<string>, prefix: string, path: string)
    returns (q: seq<string>)
    requires e.Table? && keys <= e.entries.Keys && path in KeyPaths(e, keys, prefix)
    ensures q != [] && ValueAt(e.entries, q).Some? && Text(prefix, q) == path
    decreases e, |keys|
  {
    var k :| k in keys && KeyPaths(e, keys, prefix) ==
            EntryPaths(e.entries[k], Extend(prefix, k)) + KeyPaths(e, keys - {k}, prefix);
    var sub := e.entries[k];
    var here, rest := EntryPaths(sub, Extend(prefix, k)), KeyPaths(e, keys - {k}, prefix);
    assert path in here + rest;
    if path in rest {
      q := ListedLeaf(e, keys - {k}, prefix, path);
    } else if sub.Value? {
      assert EntryPaths(sub, Extend(prefix, k)) == multiset{Extend(prefix, k)};
      assert path == Extend(prefix, k);
      q := [k];
    } else {
      assert EntryPaths(sub, Extend(prefix, k)) == KeyPaths(sub, sub.entries.Keys, Extend(prefix, k));
      var r := ListedLeaf(sub, sub.entries.Keys, Extend(prefix, k), path);
      LeafBelow(e, k, prefix, r);
      q := [k] + r;
    }
  }

  lemma LeafBelow<V>(e: Entry<V>, k: string, prefix: string, r: seq<string>)
    requires e.Table? && k in e.entries && e.entries[k].Table? && r != [] && ValueAt(e.entries[k].entries, r).Some?
    ensures ValueAt(e.entries, [k] + r).Some? && Text(prefix, [k] + r) == Text(Extend(prefix, k), r)
  {
    assert ([k] + r)[1..] == r;
  }

  // ---- What the listing says about a leaf ----

  /** A leaf's components with leading empty ones dropped, as long as more follow. */
  function Stripped(q: seq<string>): (r: seq<string>)
    requires q != []
    ensures r != [] && (|r| == 1 || r[0] != "")
    ensures r == q <==> |q| == 1 || q[0] != ""
    ensures |r| <= |q|
  {
    if |q| > 1 && q[0] == "" then Stripped(q[1..]) else q
  }

  lemma {:induction false} TextExtended(prefix: string, q: seq<string>)
    requires q != [] && prefix != ""
    ensures Text(prefix, q) == prefix + "." + Join(".", q)
    decreases q
  {
    if |q| > 1 {
      TextExtended(prefix + "." + q[0], q[1..]);
      assert prefix + "." + Join(".", q) == prefix + "." + q[0] + "." + Join(".", q[1..]);
    }
  }

  lemma {:induction false} TextStripped(q: seq<string>)
    requires q != []
    ensures Text("", q) == Join(".", Stripped(q))
  {
    if |q| > 1 {
      if q[0] == "" {
        TextStripped(q[1..]);
      } else {
        TextExtended(q[0], q[1..]);
      }
    }
  }

  lemma {:induction false} StrippedDotFree(q: seq<string>)
    requires q != [] && DotFree(q)
    ensures DotFree(Stripped(q))
  {
    if |q| > 1 && q[0] == "" {
      assert DotFree(q[1..]) by {
        forall i | 0 <= i < |q[1..]| ensures '.' !in q[1..][i] {
          assert q[1..][i] == q[i + 1];
        }
      }
      StrippedDotFree(q[1..]);
    }
  }

  // ---- Building a table from its leaves ----

  /** `from_pairs`, continued from a table. */
  function SetAll<V>(t: Entries<V>, pairs: seq<(string, V)>): Result<Entries<V>, SetError>
    decreases pairs
  {
    if pairs == [] then Ok(t)
    else
      match SetIn(t, Split('.', pairs[0].0), pairs[0].1)
      case Err(c) => Err(SetError(pairs[0].0, c))
      case Ok(next) => SetAll(next, pairs[1..])
  }

  /** Everything `cur` has, `t` has. */
  ghost predicate Within<V(!new)>(cur: Entries<V>, t: Entries<V>) {
    forall q: seq<string> :: q != [] ==>
      && (ValueAt(cur, q).Some? ==> ValueAt(cur, q) == ValueAt(t, q))
      && (TableAt(cur, q) ==> TableAt(t, q))
  }

  lemma {:induction false} AboveLeaf<V>(t: Entries<V>, p: seq<string>, k: nat)
    requires p != [] && ValueAt(t, p).Some? && 0 < k < |p|
    ensures TableAt(t, p[..k])
    decreases p
  {
    if k > 1 {
      AboveLeaf(t[p[0]].entries, p[1..], k - 1);
      assert p[..k][1..] == p[1..][..k - 1] && p[..k][0] == p[0];
    }
  }

  ghost predicate ProperPrefix(q: seq<string>, p: seq<string>) {
    q < p
  }

  /** Setting creates tables only above the path. */
  lemma {:induction false} SetTables<V>(t: Entries<V>, p: seq<string>, v: V, q: seq<string>)
    requires p != [] && q != [] && SetIn(t, p, v).Ok? && TableAt(SetIn(t, p, v).value, q)
    ensures TableAt(t, q) || ProperPrefix(q, p)
    decreases p
  {
    assert p == [p[0]] + p[1..] && q == [q[0]] + q[1..];
    if p[0] == q[0] && |p| > 1 && |q| > 1 {
      SetTables(SubEntries(t, p[0]), p[1..], v, q[1..]);
    }
  }

  lemma WithinSet<V(!new)>(cur: Entries<V>, t: Entries<V>, p: seq<string>, v: V)
    requires Within(cur, t) && p != [] && ValueAt(t, p) == Some(v)
    ensures SetIn(cur, p, v).Ok? && Within(SetIn(cur, p, v).value, t)
  {
    forall k | 0 < k < |p| ensures ValueAt(cur, p[..k]).None? {
      AboveLeaf(t, p, k);
    }
    SetSucceeds(cur, p, v);
    var next := SetIn(cur, p, v).value;
    forall q: seq<string> | q != []
      ensures ValueAt(next, q).Some? ==> ValueAt(next, q) == ValueAt(t, q)
      ensures TableAt(next, q) ==> TableAt(t, q)
    {
      SetChangesOnlyThere(cur, p, v, q);
      if TableAt(next, q) {
        SetTables(cur, p, v, q);
        if ProperPrefix(q, p) {
          AboveLeaf(t, p, |q|);
          assert p[..|q|] == q;
        }
      }
    }
  }

  ghost predicate Lists<V>(pairs: seq<(string, V)>, q: seq<string>) {
    exists i :: 0 <= i < |pairs| && Split('.', pairs[i].0) == q
  }

  ghost predicate PairsFrom<V>(pairs: seq<(string, V)>, t: Entries<V>) {
    forall i :: 0 <= i < |pairs| ==> ValueAt(t, Split('.', pairs[i].0)) == Some(pairs[i].1)
  }

  /** Re-setting leaves of a table never conflicts and gives back exactly the ones listed. */
  lemma {:induction false} SetLeaves<V(!new)>(cur: Entries<V>, t: Entries<V>, pairs: seq<(string, V)>, q: seq<string>)
    requires Within(cur, t) && PairsFrom(pairs, t) && q != []
    ensures SetAll(cur, pairs).Ok?
    ensures ValueAt(SetAll(cur, pairs).value, q) == if Lists(pairs, q) then ValueAt(t, q) else ValueAt(cur, q)
    decreases pairs
  {
    if pairs == [] {
    } else {
      var p, v := Split('.', pairs[0].0), pairs[0].1;
      WithinSet(cur, t, p, v);
      var next := SetIn(cur, p, v).value;
      SetChangesOnlyThere(cur, p, v, q);
      SetLeaves(next, t, pairs[1..], q);
      assert Lists(pairs, q) <==> p == q || Lists(pairs[1..], q) by {
        if i :| 0 <= i < |pairs[1..]| && Split('.', pairs[1..][i].0) == q {
          assert pairs[i + 1] == pairs[1..][i];
        }
        if i :| 0 < i < |pairs| && Split('.', pairs[i].0) == q {
          assert pairs[1..][i - 1] == pairs[i];
        }
      }
    }
  }

  ghost predicate LeavesDotFree<V(!new)>(t: Entries<V>) {
    forall q: seq<string> :: q != [] && ValueAt(t, q).Some? ==> DotFree(q)
  }

  /** Some leaf has an empty first component and more after it. */
  ghost predicate LeadingEmpty<V(!new)>(t: Entries<V>) {
    exists q: seq<string> :: |q| > 1 && q[0] == "" && ValueAt(t, q).Some?
  }

  /** The listed paths with the values found under them, as serialization pairs them up. */
  function Pairs<V>(t: Entries<V>, paths: seq<string>): (r: seq<(string, V)>)
    ensures PairsFrom(r, t)
    ensures forall q :: Lists(r, q) <==> ListedText(t, paths, q)
  {
    if paths == [] then []
    else
      var rest := Pairs(t, paths[1..]);
      assert forall q :: ListedText(t, paths, q) <==>
               (Split('.', paths[0]) == q && ValueAt(t, q).Some?) || ListedText(t, paths[1..], q) by {
        forall q ensures ListedText(t, paths, q) <==>
               (Split('.', paths[0]) == q && ValueAt(t, q).Some?) || ListedText(t, paths[1..], q)
        {
          ListedTail(t, paths, q);
        }
      }
      match ValueAt(t, Split('.', paths[0]))
      case Some(v) =>
        PrependPair((paths[0], v), rest);
        [(paths[0], v)] + rest
      case None => rest
  }

  ghost predicate ListedText<V>(t: Entries<V>, paths: seq<string>, q: seq<string>) {
    q != [] && ValueAt(t, q).Some? && exists i :: 0 <= i < |paths| && Split('.', paths[i]) == q
  }

  lemma ListedTail<V>(t: Entries<V>, paths: seq<string>, q: seq<string>)
    requires paths != []
    ensures ListedText(t, paths, q) <==>
            (Split('.', paths[0]) == q && ValueAt(t, q).Some?) || ListedText(t, paths[1..], q)
  {
    if ListedText(t, paths[1..], q) {
      var i :| 0 <= i < |paths[1..]| && Split('.', paths[1..][i]) == q;
      assert paths[i + 1] == paths[1..][i];
    }
    if ListedText(t, paths, q) {
      var i :| 0 <= i < |paths| && Split('.', paths[i]) == q;
      assert i > 0 ==> paths[1..][i - 1] == paths[i];
    }
  }

  lemma PrependPair<V>(x: (string, V), rest: seq<(string, V)>)
    ensures forall q :: Lists([x] + rest, q) <==> Split('.', x.0) == q || Lists(rest, q)
  {
    var all := [x] + rest;
    forall q ensures Lists(all, q) <==> Split('.', x.0) == q || Lists(rest, q) {
      if i :| 0 <= i < |rest| && Split('.', rest[i].0) == q {
        assert all[i + 1] == rest[i];
      }
      if Split('.', x.0) == q {
        assert all[0] == x;
      }
    }
  }

  /** The listing names a leaf exactly when the leaf does not start with an empty component. */
  lemma LeafNamed<V(!new)>(t: Entries<V>, paths: seq<string>, q: seq<string>)
    requires multiset(paths) == EntryPaths(Table(t), "") && LeavesDotFree(t)
    requires q != [] && ValueAt(t, q).Some?
    ensures ListedText(t, paths, q) <==> |q| == 1 || q[0] != ""
  {
    if |q| == 1 || q[0] != "" {
      LeafListed(Table(t), "", q);
      TextStripped(q);
      assert Join(".", q) in multiset(paths);
      var i :| 0 <= i < |paths| && paths[i] == Join(".", q);
      SplitJoin(q);
    } else if i :| 0 <= i < |paths| && Split('.', paths[i]) == q {
      assert paths[i] in multiset(paths);
      var r := ListedLeaf(Table(t), t.Keys, "", paths[i]);
      TextStripped(r);
      StrippedDotFree(r);
      SplitJoin(Stripped(r));
      assert false;
    }
  }

  /** Re-setting the listed leaves in an empty table always succeeds, and it reproduces every
      lookup if and only if no leaf of two or more components starts with an empty one: the
      listing drops leading empty components. */
  lemma RebuildReproduces<V(!new)>(t: Entries<V>, paths: seq<string>)
    requires multiset(paths) == EntryPaths(Table(t), "") && LeavesDotFree(t)
    ensures SetAll(map[], Pairs(t, paths)).Ok?
    ensures (forall q: seq<string> :: q != [] ==> ValueAt(SetAll(map[], Pairs(t, paths)).value, q) == ValueAt(t, q))
            <==> !LeadingEmpty(t)
  {
    var empty: Entries<V> := map[];
    assert Within(empty, t);
    var pairs := Pairs(t, paths);
    forall q: seq<string> | q != []
      ensures SetAll(empty, pairs).Ok?
      ensures ValueAt(SetAll(empty, pairs).value, q) == ValueAt(t, q) <==>
              (ValueAt(t, q).Some? ==> |q| == 1 || q[0] != "")
    {
      SetLeaves(empty, t, pairs, q);
      if ValueAt(t, q).Some? {
        LeafNamed(t, paths, q);
      }
    }
    assert ["x"] != [];
    assert SetAll(empty, pairs).Ok?;
  }

  // ---- The same for any table, by key ----

  /** Re-setting listed values always succeeds, and the lookup of a key is reproduced if and only if the key,
      when it has a value, is itself listed. */
  lemma KeyReproduced<V(!new)>(t: Entries<V>, paths: seq<string>, key: string)
    ensures SetAll(map[], Pairs(t, paths)).Ok?
    ensures ValueAt(SetAll(map[], Pairs(t, paths)).value, Split('.', key)) == ValueAt(t, Split('.', key)) <==>
            (ValueAt(t, Split('.', key)).Some? ==> key in paths)
  {
    var empty: Entries<V> := map[];
    assert Within(empty, t);
    var pairs, q := Pairs(t, paths), Split('.', key);
    SetLeaves(empty, t, pairs, q);
    KeyIn(paths, key);
    assert Lists(pairs, q) <==> ListedText(t, paths, q);
  }

  lemma KeyIn(paths: seq<string>, key: string)
    ensures key in paths <==> exists i :: 0 <= i < |paths| && Split('.', paths[i]) == Split('.', key)
  {
    JoinSplit(key);
    forall i | 0 <= i < |paths| ensures Split('.', paths[i]) == Split('.', key) ==> paths[i] == key {
      JoinSplit(paths[i]);
    }
  }

  /** The leaf `r` is listed under `key`. */
  ghost predicate ListedAs<V>(t: Entries<V>, r: seq<string>, key: string) {
    r != [] && ValueAt(t, r).Some? && Text("", r) == key
  }

  lemma KeyListed<V(!new)>(t: Entries<V>, paths: seq<string>, key: string)
    requires multiset(paths) == EntryPaths(Table(t), "")
    ensures key in paths <==> exists r :: ListedAs(t, r, key)
  {
    assert key in paths <==> key in multiset(paths);
    if key in paths {
      var r := ListedLeaf(Table(t), t.Keys, "", key);
      assert ListedAs(t, r, key);
    }
    if r :| ListedAs(t, r, key) {
      LeafListed(Table(t), "", r);
    }
  }

  /** A key that starts with a dot: its first component is empty, and another follows. */
  predicate Leading(key: string) {
    |Split('.', key)| > 1 && Split('.', key)[0] == ""
  }

  /** The listing of any table names a key with a value, unless the key starts with a dot and no other leaf is
      listed under it. */
  lemma ValueListed<V(!new)>(t: Entries<V>, paths: seq<string>, key: string)
    requires multiset(paths) == EntryPaths(Table(t), "") && ValueAt(t, Split('.', key)).Some?
    ensures key in paths <==> !Leading(key) || exists r :: ListedAs(t, r, key)
  {
    var q := Split('.', key);
    KeyListed(t, paths, key);
    if !Leading(key) {
      TextStripped(q);
      JoinSplit(key);
      assert ListedAs(t, q, key);
    }
  }

  ghost predicate SameLookups<V(!new)>(a: Entries<V>, b: Entries<V>) {
    forall key :: ValueAt(a, Split('.', key)) == ValueAt(b, Split('.', key))
  }

  /** Rebuilding any table from its listing reproduces the lookup of every key if and only if each key that
      starts with a dot and has a value is what some leaf is listed under. */
  lemma RebuildKeys<V(!new)>(t: Entries<V>, paths: seq<string>)
    requires multiset(paths) == EntryPaths(Table(t), "")
    ensures SetAll(map[], Pairs(t, paths)).Ok?
    ensures SameLookups(SetAll(map[], Pairs(t, paths)).value, t) <==>
            forall key :: Leading(key) && ValueAt(t, Split('.', key)).Some? ==> exists r :: ListedAs(t, r, key)
  {
    KeyReproduced(t, paths, "");
    var built := SetAll(map[], Pairs(t, paths)).value;
    forall key
      ensures ValueAt(built, Split('.', key)) == ValueAt(t, Split('.', key)) <==>
              (Leading(key) && ValueAt(t, Split('.', key)).Some? ==> exists r :: ListedAs(t, r, key))
    {
      KeyReproduced(t, paths, key);
      if ValueAt(t, Split('.', key)).Some? { ValueListed(t, paths, key); }
    }
  }

  /** It does lose leaves: the one of a table under the empty key. */
  lemma RebuildLoses<V(!new)>(v: V, t: Entries<V>, paths: seq<string>)
    requires t == map["" := Table(map["a" := Value(v)])] && multiset(paths) == EntryPaths(Table(t), "")
    ensures SetAll(map[], Pairs(t, paths)).Ok?
    ensures !forall q: seq<string> :: q != [] ==> ValueAt(SetAll(map[], Pairs(t, paths)).value, q) == ValueAt(t, q)
  {
    var leaf := ["", "a"];
    assert leaf[1..] == ["a"];
    assert ValueAt(t, leaf) == Some(v);
    forall q: seq<string> | q != [] && ValueAt(t, q).Some? ensures DotFree(q) {
      var inner: Entries<V> := map["a" := Value(v)];
      assert q[0] == "" && |q| > 1 && Lookup(t, q) == Lookup(inner, q[1..]);
      assert q[1..][0] == "a" && |q[1..]| == 1;
      assert q == leaf;
    }
    RebuildReproduces(t, paths);
  }

  // ---- The table object ----

  /** Writing a table back under the tables it was reached through. */
  ghost function WriteBack<V>(above: seq<Entries<V>>, path: seq<string>, current: Entries<V>): Entries<V>
    requires |above| == |path|
    decreases above
  {
    if above == [] then current
    else
      var n := |above| - 1;
      WriteBack(above[..n], path[..n], above[n][path[n] := Table(current)])
  }

  lemma WriteBackLast<V>(above: seq<Entries<V>>, path: seq<string>, t: Entries<V>, key: string, current: Entries<V>)
    requires |above| == |path|
    ensures WriteBack(above + [t], path + [key], current) == WriteBack(above, path, t[key := Table(current)])
  {
    assert (above + [t])[..|above|] == above && (path + [key])[..|path|] == path;
  }

  class SymbolTable<V(!new)> {
    var table: Entries<V>

    constructor ()
      ensures table == map[]
    {
      table := map[];
    }

    method Get(key: string) returns (r: Option<Entry<V>>)
      ensures r == Lookup(table, Split('.', key))
    {
      var parts := Split('.', key);
      var current := table;
      for i := 0 to |parts|
        invariant i < |parts| ==> Lookup(current, parts[i..]) == Lookup(table, parts)
        invariant i < |parts|
      {
        assert parts[i..][0] == parts[i] && parts[i..][1..] == parts[i + 1..];
        if parts[i] !in current { return None; }
        if i == |parts| - 1 { return Some(current[parts[i]]); }
        if current[parts[i]].Value? { return None; }
        current := current[parts[i]].entries;
      }
      return None;
    }

    method SetValue(key: string, value: V) returns (r: Result<(), SetError>)
      modifies this
      ensures r.Ok? <==> Settable(old(table), Split('.', key))
      ensures r.Ok? ==> SetIn(old(table), Split('.', key), value) == Ok(table)
      ensures r.Err? ==> table == old(table)
      ensures r.Err? ==> r.error.key == key && SetIn(old(table), Split('.', key), value) == Err(r.error.conflict)
    {
      var parts := Split('.', key);
      SetSucceeds(table, parts, value);
      var above, current, blocked := WalkDown(table, parts, value);
      var last := parts[|above|];
      assert parts[|above|..][0] == last;
      if blocked || (last in current && current[last].Table?) {
        r := Err(SetError(key, last));
      } else {
        current := current[last := Value(value)];
        r := Ok(());
      }
      table := StoreBack(above, parts, current);
    }

    method MergeFrom(other: SymbolTable<V>)
      modifies this
      ensures table == Merge(Table(old(table)), Table(old(other.table))).entries
    {
      var merged := MergeEntries(Table(table), Table(other.table));
      table := merged.entries;
    }

    /** `all_paths`: sorted, so independent of the order the maps are walked in. */
    method AllPaths(prefix: string) returns (out: seq<string>)
      ensures multiset(out) == EntryPaths(Table(table), prefix)
      ensures SortedBy(out, StringLe)
    {
      var found := CollectPaths(Table(table), prefix, []);
      StringLeOrder(found);
      SortSorted(found, StringLe);
      out := Sort(found, StringLe);
    }
  }

  /** `from_pairs`. */
  method FromPairs<V(!new)>(pairs: seq<(string, V)>) returns (st: SymbolTable<V>, r: Result<(), SetError>)
    ensures fresh(st)
    ensures match SetAll(map[], pairs) case Ok(t) => r.Ok? && st.table == t case Err(e) => r == Err(e)
  {
    st := new SymbolTable();
    for i := 0 to |pairs|
      invariant fresh(st)
      invariant SetAll(st.table, pairs[i..]) == SetAll(map[], pairs)
    {
      assert pairs[i..][0] == pairs[i] && pairs[i..][1..] == pairs[i + 1..];
      r := st.SetValue(pairs[i].0, pairs[i].1);
      if r.Err? { return; }
    }
    r := Ok(());
  }

  lemma MergedKey<V>(a: Entry<V>, b: Entry<V>, key: string, target: Entries<V>)
    requires a.Table? && b.Table? && key in b.entries && target == Merge(a, b).entries
    ensures key in target
    ensures target[key] ==
            if b.entries[key].Table? && key in a.entries && a.entries[key].Table?
            then Merge(a.entries[key], b.entries[key]) else b.entries[key]
  {}

  lemma MergedBounds<V>(a: Entry<V>, b: Entry<V>, target: Entries<V>)
    requires a.Table? && b.Table? && target == Merge(a, b).entries
    ensures MergedExcept(a.entries, a.entries, b.entries, target, b.entries.Keys)
  {}

  lemma MergedAll<V>(merged: Entries<V>, a: Entries<V>, b: Entries<V>, target: Entries<V>)
    requires MergedExcept(merged, a, b, target, {})
    requires forall k :: k in a && k !in b && k in target ==> target[k] == a[k]
    ensures merged == target
  {}

  lemma MergedRest<V>(a: Entry<V>, b: Entry<V>, target: Entries<V>)
    requires a.Table? && b.Table? && target == Merge(a, b).entries
    ensures forall k :: k in a.entries && k !in b.entries && k in target ==> target[k] == a.entries[k]
  {}

  /** Part way through the loop: keys of `b` still in `rest` have not been merged. */
  ghost predicate MergedExcept<V>(merged: Entries<V>, a: Entries<V>, b: Entries<V>, target: Entries<V>,
                                  rest: set<string>) {
    && merged.Keys == a.Keys + (b.Keys - rest)
    && target.Keys == a.Keys + b.Keys
    && forall k :: k in merged ==> merged[k] == if k in b && k !in rest then target[k] else a[k]
  }

  method MergeEntries<V>(a: Entry<V>, b: Entry<V>) returns (r: Entry<V>)
    requires a.Table? && b.Table?
    ensures r == Merge(a, b)
    decreases b, 1
  {
    var merged := a.entries;
    var rest := b.entries.Keys;
    ghost var target := Merge(a, b).entries;
    MergedBounds(a, b, target);
    MergedRest(a, b, target);
    while rest != {}
      invariant rest <= b.entries.Keys
      invariant MergedExcept(merged, a.entries, b.entries, target, rest)
      decreases |rest|
    {
      var key :| key in rest;
      NotYetMerged(merged, a.entries, b.entries, target, rest, key);
      var entry := MergeOne(a, merged, b, key, target);
      MergedOneMore(merged, a.entries, b.entries, target, rest, key);
      merged := merged[key := entry];
      rest := rest - {key};
    }
    MergedAll(merged, a.entries, b.entries, target);
    r := Table(merged);
  }

  /** One turn of the loop: two tables are merged, anything else is replaced. */
  method MergeOne<V>(ghost a: Entry<V>, merged: Entries<V>, b: Entry<V>, key: string, ghost target: Entries<V>)
      returns (entry: Entry<V>)
    requires a.Table? && b.Table? && key in b.entries && target == Merge(a, b).entries
    requires (key in merged <==> key in a.entries) && (key in merged ==> merged[key] == a.entries[key])
    ensures key in target && entry == target[key]
    decreases b, 0
  {
    entry := b.entries[key];
    MergedKey(a, b, key, target);
    if entry.Table? && key in merged && merged[key].Table? {
      entry := MergeEntries(merged[key], entry);
    }
  }

  lemma NotYetMerged<V>(merged: Entries<V>, a: Entries<V>, b: Entries<V>, target: Entries<V>, rest: set<string>,
                        key: string)
    requires MergedExcept(merged, a, b, target, rest) && rest <= b.Keys && key in rest
    ensures (key in merged <==> key in a) && (key in merged ==> merged[key] == a[key])
  {}

  lemma MergedOneMore<V>(merged: Entries<V>, a: Entries<V>, b: Entries<V>, target: Entries<V>, rest: set<string>,
                         key: string)
    requires MergedExcept(merged, a, b, target, rest) && rest <= b.Keys && key in rest
    ensures MergedExcept(merged[key := target[key]], a, b, target, rest - {key})
  {}

  method CollectPaths<V>(e: Entry<V>, prefix: string, before: seq<string>) returns (out: seq<string>)
    requires e.Table?
    ensures multiset(out) == multiset(before) + EntryPaths(e, prefix)
    decreases e
  {
    out := before;
    var rest := e.entries.Keys;
    assert EntryPaths(e, prefix) == KeyPaths(e, rest, prefix);
    while rest != {}
      invariant rest <= e.entries.Keys
      invariant multiset(out) + KeyPaths(e, rest, prefix) == multiset(before) + EntryPaths(e, prefix)
      decreases |rest|
    {
      var key :| key in rest;
      KeyPathsAny(e, rest, prefix, key);
      var path := if prefix == "" then key else prefix + "." + key;
      if e.entries[key].Value? {
        assert EntryPaths(e.entries[key], path) == multiset{path};
        out := out + [path];
      } else {
        out := CollectPaths(e.entries[key], path, out);
      }
      rest := rest - {key};
    }
  }

  /** Setting and merging keep every leaf path free of dots inside components. */
  lemma DotFreeKept<V(!new)>(t: Entries<V>, u: Entries<V>, key: string, v: V)
    requires LeavesDotFree(t) && LeavesDotFree(u)
    ensures SetIn(t, Split('.', key), v).Ok? ==> LeavesDotFree(SetIn(t, Split('.', key), v).value)
    ensures LeavesDotFree(Merge(Table(t), Table(u)).entries)
  {
    forall q: seq<string> | q != []
      ensures ValueAt(Merge(Table(t), Table(u)).entries, q).Some? ==> DotFree(q)
    {
      MergeLookup(Table(t), Table(u), q);
    }
    if SetIn(t, Split('.', key), v).Ok? {
      JoinSplit(key);
      forall q: seq<string> | q != [] && ValueAt(SetIn(t, Split('.', key), v).value, q).Some? ensures DotFree(q) {
        SetChangesOnlyThere(t, Split('.', key), v, q);
      }
    }
  }

  /** In terms of keys: a successful `set` changes `get_value` at its own key only. */
  lemma SetKeyOnly<V>(t: Entries<V>, key: string, v: V, other: string)
    requires SetIn(t, Split('.', key), v).Ok?
    ensures ValueAt(SetIn(t, Split('.', key), v).value, Split('.', other)) ==
            if other == key then Some(v) else ValueAt(t, Split('.', other))
  {
    SetChangesOnlyThere(t, Split('.', key), v, Split('.', other));
    JoinSplit(key);
    JoinSplit(other);
  }

  /** The loop of `set_value`: walks down to the last component, creating missing tables on the way,
      and stops where a value is in the way. `above` holds the tables passed through. */
  method WalkDown<V>(t: Entries<V>, parts: seq<string>, ghost value: V)
    returns (above: seq<Entries<V>>, current: Entries<V>, blocked: bool)
    requires parts != []
    ensures |above| < |parts| && (blocked || |above| == |parts| - 1)
    ensures blocked ==> |above| < |parts| - 1 && parts[|above|] in current && current[parts[|above|]].Value?
    ensures current == map[] || WriteBack(above, parts[..|above|], current) == t
    ensures Continues(t, parts, above, current, value)
  {
    current, above, blocked := t, [], false;
    ghost var created := false;
    assert parts[0..] == parts && parts[..0] == [];
    while |above| < |parts| - 1 && !blocked
      invariant |above| < |parts|
      invariant if created then current == map[] else WriteBack(above, parts[..|above|], current) == t
      invariant blocked ==> |above| < |parts| - 1 && parts[|above|] in current && current[parts[|above|]].Value?
      invariant Continues(t, parts, above, current, value)
      decreases |parts| - |above|, !blocked
    {
      var i := |above|;
      if parts[i] in current && current[parts[i]].Value? {
        blocked := true;
      } else {
        var next := SubEntries(current, parts[i]);
        Descended(above, parts[..i], current, parts[i], next);
        ContinuesBelow(t, parts, above, current, value);
        assert parts[..i + 1] == parts[..i] + [parts[i]];
        if parts[i] !in current { created := true; }
        above, current := above + [current], next;
      }
    }
  }

  method StoreBack<V>(above: seq<Entries<V>>, parts: seq<string>, bottom: Entries<V>) returns (current: Entries<V>)
    requires |above| <= |parts|
    ensures current == WriteBack(above, parts[..|above|], bottom)
  {
    current := bottom;
    var i := |above|;
    assert above[..i] == above;
    while i > 0
      invariant 0 <= i <= |above|
      invariant WriteBack(above[..i], parts[..i], current) == WriteBack(above, parts[..|above|], bottom)
    {
      i := i - 1;
      assert above[..i + 1][..i] == above[..i] && parts[..i + 1][..i] == parts[..i];
      current := above[i][parts[i] := Table(current)];
    }
  }

  /** What is left to set from `current` on decides the whole. */
  ghost predicate Continues<V>(t: Entries<V>, parts: seq<string>, above: seq<Entries<V>>, current: Entries<V>, value: V)
    requires |above| < |parts|
  {
    SetIn(t, parts, value) ==
    match SetIn(current, parts[|above|..], value)
    case Ok(c) => Ok(WriteBack(above, parts[..|above|], c))
    case Err(e) => Err(e)
  }

  lemma ContinuesBelow<V>(t: Entries<V>, parts: seq<string>, above: seq<Entries<V>>, current: Entries<V>, value: V)
    requires |above| + 1 < |parts| && Continues(t, parts, above, current, value)
    requires parts[|above|] in current ==> current[parts[|above|]].Table?
    ensures Continues(t, parts, above + [current], SubEntries(current, parts[|above|]), value)
  {
    var i := |above|;
    var next := SubEntries(current, parts[i]);
    assert parts[i..][0] == parts[i] && parts[i..][1..] == parts[i + 1..];
    assert parts[..i + 1] == parts[..i] + [parts[i]];
    match SetIn(next, parts[i + 1..], value)
    case Ok(c) => WriteBackLast(above, parts[..i], current, parts[i], c);
    case Err(_) =>
  }

  /** Walking into a table that is there leaves the write-back what it was. */
  lemma Descended<V>(above: seq<Entries<V>>, path: seq<string>, t: Entries<V>, key: string, next: Entries<V>)
    requires |above| == |path| && (key in t ==> t[key] == Table(next))
    ensures key in t ==> WriteBack(above + [t], path + [key], next) == WriteBack(above, path, t)
  {
    if key in t {
      WriteBackLast(above, path, t, key, next);
      assert t[key := Table(next)] == t;
    }
  }
}
