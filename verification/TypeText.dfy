/** Parsing type text, and the round trip with printing. */
module TypeText {
  import opened Wrappers
  import opened ExprTypes

  const MAX_PARSE_DEPTH: nat := 10

  // ---- Splitting on " | " outside brackets ----

  function DepthAfter(c: char, depth: int): int {
    if c == '[' || c == '(' then depth + 1 else if c == ']' || c == ')' then depth - 1 else depth
  }

  predicate AtBar(s: string) {
    |s| >= 3 && s[0] == ' ' && s[1] == '|' && s[2] == ' '
  }

  /** The parts of `s`, the first of which continues `current`. */
  function SplitFrom(s: string, current: string, depth: int): (parts: seq<string>)
    ensures parts != []
    decreases |s|
  {
    if s == "" then [current]
    else if depth == 0 && AtBar(s) then [current] + SplitFrom(s[3..], "", depth)
    else SplitFrom(s[1..], current + [s[0]], DepthAfter(s[0], depth))
  }

  function SplitUnion(s: string): seq<string> {
    SplitFrom(s, "", 0)
  }

  /** The loop of `split_union`: a cursor, the start of the current part and the bracket depth. */
  method SplitUnionLoop(s: string) returns (parts: seq<string>)
    ensures parts == SplitUnion(s)
  {
    parts := [];
    var start, depth, i := 0, 0, 0;
    assert s[0..0] == "" && s[0..] == s;
    while i < |s|
      invariant 0 <= start <= i <= |s|
      invariant parts + SplitFrom(s[i..], s[start..i], depth) == SplitUnion(s)
    {
      if s[i] == ' ' && depth == 0 && i + 2 < |s| && s[i + 1] == '|' && s[i + 2] == ' ' {
        assert s[i..][3..] == s[i + 3..] && s[i + 3..i + 3] == "";
        assert (parts + [s[start..i]]) + SplitFrom(s[i + 3..], "", 0) ==
            parts + ([s[start..i]] + SplitFrom(s[i + 3..], "", 0));
        parts := parts + [s[start..i]];
        i := i + 3;
        start := i;
      } else {
        depth := DepthAfter(s[i], depth);
        assert s[i..][1..] == s[i + 1..] && s[start..i] + [s[i]] == s[start..i + 1];
        i := i + 1;
      }
    }
    parts := parts + [s[start..]];
    assert s[start..] == s[start..i];
  }

  // ---- Parsing ----

  function BaseType(s: string): Option<ExprType> {
    if s == "bool" then Some(Bool)
    else if s == "int" then Some(Int)
    else if s == "float" then Some(Float)
    else if s == "string" then Some(String)
    else if s == "path" then Some(Path)
    else if s == "range_expr" then Some(RangeExpr)
    else if s == "nulltype" then Some(NullType)
    else if s == "noreturn" then Some(NoReturn)
    else if s == "any" then Some(Any)
    else if s == "unresolved" then Some(Unresolved(Any))
    else None
  }

  function VarType(s: string): Option<ExprType> {
    if s == "T" then Some(Var(T))
    else if s == "T1" then Some(Var(T1))
    else if s == "T2" then Some(Var(T2))
    else if s == "T3" then Some(Var(T3))
    else None
  }

  /** What stands between `prefix` and a final `]`. */
  function Bracketed(s: string, prefix: string): Option<string> {
    if prefix <= s && |s| > |prefix| && s[|s| - 1] == ']' then Some(s[|prefix|..|s| - 1]) else None
  }

  /** Every part parsed, or the first failure. */
  function ParseAll(parts: seq<string>, depth: nat, limit: nat): (r: Option<seq<ExprType>>)
    ensures r.Some? ==> AllRooted(r.value) && |r.value| == |parts|
    decreases limit + 1 - depth, 2, |parts|
  {
    if parts == [] then Some([])
    else
      match Parse(parts[0], depth, limit)
      case None => None
      case Some(t) =>
        match ParseAll(parts[1..], depth, limit)
        case None => None
        case Some(rest) => Some([t] + rest)
  }

  /** `parse_inner` on signature-free text, for any depth limit. */
  function Parse(s: string, depth: nat, limit: nat): (r: Option<ExprType>)
    ensures r.Some? ==> Rooted(r.value)
    decreases limit + 1 - depth, 1
  {
    if depth > limit || (s != "" && s[0] == '(') then None
    else if |SplitUnion(s)| > 1 then
      match ParseAll(SplitUnion(s), depth + 1, limit)
      case None => None
      case Some(ts) => Some(MakeUnion(ts))
    else if BaseType(s).Some? then BaseType(s)
    else ParseSuffixed(s, depth, limit)
  }

  /** Optional, list, unresolved and type-variable text. */
  function ParseSuffixed(s: string, depth: nat, limit: nat): (r: Option<ExprType>)
    requires depth <= limit
    ensures r.Some? ==> Rooted(r.value)
    decreases limit + 1 - depth, 0
  {
    if s != "" && s[|s| - 1] == '?' then
      match Parse(s[..|s| - 1], depth + 1, limit)
      case None => None
      case Some(t) => Some(MakeUnion([t, NullType]))
    else if Bracketed(s, "list[").Some? then
      match Parse(Bracketed(s, "list[").value, depth + 1, limit)
      case None => None
      case Some(t) => Some(MakeList(t))
    else if Bracketed(s, "unresolved[").Some? then
      match Parse(Bracketed(s, "unresolved[").value, depth + 1, limit)
      case None => None
      case Some(t) => Some(MakeUnresolved(t))
    else VarType(s)
  }
}
