/** Printing a range expression and parsing it back. */
module RangeText {
  import opened Wrappers
  import opened Whitespace
  import opened Strings
  import opened IntRanges
  import opened RangeExprs
  import opened RangeBuild
  import opened Decimal
  import opened Sorting

  // ---- Printing ----

  function ShowChunk(r: IntRange): string
    requires Valid(r)
  {
    var len := LenU64(r);
    if len == 1 then IntText(r.start as int)
    else if len == 2 then IntText(r.start as int) + "," + IntText(r.end as int)
    else if r.step == 1 then IntText(r.start as int) + "-" + IntText(r.end as int)
    else IntText(r.start as int) + "-" + IntText(r.end as int) + ":" + IntText(r.step as int)
  }

  function ShowChunks(rs: seq<IntRange>): (parts: seq<string>)
    requires AllValid(rs)
    ensures |parts| == |rs|
  {
    seq(|rs|, i requires 0 <= i < |rs| => ShowChunk(rs[i]))
  }

  /** The chunk a contiguous expression prints as "start-end", even for one value. */
  function ContiguousSpan(e: RangeExpr): Option<IntRange>
    requires ValidExpr(e)
  {
    if !IsContiguous(e) then None
    else if |e.ranges| == 1 && e.ranges[0].step == 1 then Some(e.ranges[0])
    else if Len(e) == 1 then
      assert e.ranges != [];
      Some(IntRange(e.ranges[0].start, e.ranges[0].start, 1))
    else None
  }

  function Show(e: RangeExpr): string
    requires ValidExpr(e)
  {
    match ContiguousSpan(e)
    case Some(r) => IntText(r.start as int) + "-" + IntText(r.end as int)
    case None => Join(",", ShowChunks(e.ranges))
  }

  // ---- Parsing ----

  predicate IsAsciiBlank(c: char) {
    c == ' ' || c == '\t' || c == '\n' || c == '\r' || c == 12 as char
  }

  function SkipBlank(t: string): (u: string)
    ensures |u| <= |t|
    ensures u == "" || !IsAsciiBlank(u[0])
  {
    if t != "" && IsAsciiBlank(t[0]) then SkipBlank(t[1..]) else t
  }

  /** One integer at the front of `t`, and what follows it. */
  function ReadInt(t: string): (r: Option<(i64, string)>)
    ensures r.Some? ==> |r.value.1| < |t|
  {
    if t == "" then None
    else
      var negative := t[0] == '-';
      var u := if negative then t[1..] else t;
      if u == "" || !IsDigit(u[0]) then None
      else
        var k := DigitSpan(u);
        var value := ToNat(u[..k]);
        assert k > 0;
        if value >= 0x8000_0000_0000_0000 then None
        else Some((if negative then -(value as i64) else value as i64, u[k..]))
  }

  predicate AtSeparator(t: string) {
    t == "" || t[0] == ','
  }

  function AfterSeparator(t: string): string
    requires AtSeparator(t)
  {
    if t == "" then t else t[1..]
  }

  function NewChunk(start: i64, end: i64, step: i64, rest: string): Option<(IntRange, string)> {
    match New(start, end, step) case Ok(r) => Some((r, rest)) case Err(_) => None
  }

  /** One sub-range at the front of `t`, and what follows its separator. */
  function ReadPiece(t: string): (r: Option<(IntRange, string)>)
    ensures r.Some? ==> |r.value.1| < |t|
  {
    match ReadInt(t)
    case None => None
    case Some((start, t1)) => ReadEnd(start, SkipBlank(t1))
  }

  /** What may follow the first integer: a separator, or `-end`. */
  function ReadEnd(start: i64, u: string): (r: Option<(IntRange, string)>)
    ensures r.Some? ==> |r.value.1| <= |u|
  {
    if AtSeparator(u) then NewChunk(start, start, 1, AfterSeparator(u))
    else if u[0] != '-' then None
    else match ReadInt(SkipBlank(u[1..]))
      case None => None
      case Some((end, t2)) => ReadStep(start, end, SkipBlank(t2))
  }

  /** What may follow the second integer: a separator, or `:step`. */
  function ReadStep(start: i64, end: i64, u: string): (r: Option<(IntRange, string)>)
    ensures r.Some? ==> |r.value.1| <= |u|
  {
    if AtSeparator(u) then
      if start <= end then NewChunk(start, end, 1, AfterSeparator(u)) else None
    else if u[0] != ':' then None
    else match ReadInt(SkipBlank(u[1..]))
      case None => None
      case Some((step, t3)) =>
        var u3 := SkipBlank(t3);
        if step == 0 || !AtSeparator(u3) then None else NewChunk(start, end, step, AfterSeparator(u3))
  }

  /** All sub-ranges of `t`, after those already read. */
  function ReadAll(t: string, read: seq<IntRange>, endsInComma: bool): (r: Option<seq<IntRange>>)
    decreases |t|
  {
    if |read| > MAX_RANGE_EXPR_CHUNKS then None
    else
      var u := SkipBlank(t);
      if u == "" then
        if read != [] && endsInComma then None else Some(read)
      else match ReadPiece(u)
        case None => None
        case Some((r, rest)) => ReadAll(rest, read + [r], endsInComma)
  }

  /** The sub-ranges a text spells, or None where the source reports an error. */
  function ReadText(text: string): Option<seq<IntRange>> {
    var expr := Trim(text);
    if expr == "" then None else ReadAll(expr, [], expr[|expr| - 1] == ',')
  }

  // ---- The parser as the source runs it: a cursor over the text ----

  method SkipBlanks(expr: string, from: nat) returns (pos: nat)
    requires from <= |expr|
    ensures from <= pos <= |expr| && expr[pos..] == SkipBlank(expr[from..])
  {
    pos := from;
    while pos < |expr| && IsAsciiBlank(expr[pos])
      invariant from <= pos <= |expr|
      invariant SkipBlank(expr[pos..]) == SkipBlank(expr[from..])
    {
      assert expr[pos..][1..] == expr[pos + 1..];
      pos := pos + 1;
    }
  }

  method ScanDigits(expr: string, from: nat) returns (pos: nat)
    requires from <= |expr|
    ensures from <= pos <= |expr| && DigitSpan(expr[from..]) == pos - from
  {
    pos := from;
    while pos < |expr| && IsDigit(expr[pos])
      invariant from <= pos <= |expr|
      invariant DigitSpan(expr[from..]) == (pos - from) + DigitSpan(expr[pos..])
    {
      assert expr[pos..][1..] == expr[pos + 1..];
      pos := pos + 1;
    }
  }

  method ParseInteger(expr: string, from: nat) returns (r: Result<i64, RangeError>, pos: nat)
    requires from <= |expr|
    ensures r.Ok? <==> ReadInt(expr[from..]).Some?
    ensures from <= pos <= |expr|
    ensures r.Ok? ==> ReadInt(expr[from..]) == Some((r.value, expr[pos..])) && from < pos
  {
    if from >= |expr| {
      return Err(ParseError), from;
    }
    var negative := expr[from] == '-';
    var start := if negative then from + 1 else from;
    assert expr[start..] == if negative then expr[from..][1..] else expr[from..];
    if start >= |expr| || !IsDigit(expr[start]) {
      return Err(ParseError), start;
    }
    pos := ScanDigits(expr, start);
    assert expr[start..][..pos - start] == expr[start..pos] && expr[start..][pos - start..] == expr[pos..];
    var value := ToNat(expr[start..pos]);
    if value >= 0x8000_0000_0000_0000 {
      return Err(ParseError), pos;
    }
    return Ok(if negative then -(value as i64) else value as i64), pos;
  }

  method ParsePiece(expr: string, from: nat) returns (r: Result<IntRange, RangeError>, pos: nat)
    requires from <= |expr|
    ensures r.Ok? <==> ReadPiece(expr[from..]).Some?
    ensures from <= pos <= |expr|
    ensures r.Ok? ==> ReadPiece(expr[from..]) == Some((r.value, expr[pos..])) && from < pos
  {
    var start;
    start, pos := ParseInteger(expr, from);
    if start.Err? {
      return Err(start.error), pos;
    }
    pos := SkipBlanks(expr, pos);
    r, pos := ParseEnd(start.value, expr, pos);
  }

  method ParseEnd(start: i64, expr: string, from: nat) returns (r: Result<IntRange, RangeError>, pos: nat)
    requires from <= |expr|
    ensures r.Ok? <==> ReadEnd(start, expr[from..]).Some?
    ensures from <= pos <= |expr|
    ensures r.Ok? ==> ReadEnd(start, expr[from..]) == Some((r.value, expr[pos..]))
  {
    if from >= |expr| || expr[from] == ',' {
      return New(start, start, 1), Advance(expr, from);
    }
    if expr[from] != '-' {
      return Err(ParseError), from;
    }
    assert expr[from..][1..] == expr[from + 1..];
    pos := SkipBlanks(expr, from + 1);
    var end;
    end, pos := ParseInteger(expr, pos);
    if end.Err? {
      return Err(end.error), pos;
    }
    pos := SkipBlanks(expr, pos);
    r, pos := ParseStep(start, end.value, expr, pos);
  }

  method ParseStep(start: i64, end: i64, expr: string, from: nat) returns (r: Result<IntRange, RangeError>, pos: nat)
    requires from <= |expr|
    ensures r.Ok? <==> ReadStep(start, end, expr[from..]).Some?
    ensures from <= pos <= |expr|
    ensures r.Ok? ==> ReadStep(start, end, expr[from..]) == Some((r.value, expr[pos..]))
  {
    if from >= |expr| || expr[from] == ',' {
      return if start <= end then New(start, end, 1) else Err(ParseError), Advance(expr, from);
    }
    if expr[from] != ':' {
      return Err(ParseError), from;
    }
    assert expr[from..][1..] == expr[from + 1..];
    pos := SkipBlanks(expr, from + 1);
    var step;
    step, pos := ParseInteger(expr, pos);
    if step.Err? {
      return Err(step.error), pos;
    }
    r, pos := FinishStep(start, end, step.value, expr, pos);
  }

  method FinishStep(start: i64, end: i64, step: i64, expr: string, from: nat)
      returns (r: Result<IntRange, RangeError>, pos: nat)
    requires from <= |expr|
    ensures var u := SkipBlank(expr[from..]);
            r.Ok? <==> step != 0 && AtSeparator(u) && New(start, end, step).Ok?
    ensures from <= pos <= |expr|
    ensures r.Ok? ==> r == New(start, end, step) && expr[pos..] == AfterSeparator(SkipBlank(expr[from..]))
  {
    pos := from;
    if step == 0 {
      return Err(ParseError), pos;
    }
    r := New(start, end, step);
    if r.Err? {
      return;
    }
    pos := SkipBlanks(expr, pos);
    if pos < |expr| && expr[pos] != ',' {
      return Err(ParseError), pos;
    }
    pos := Advance(expr, pos);
  }

  /** Past the comma, if there is one. */
  function Advance(expr: string, pos: nat): (p: nat)
    requires pos <= |expr| && AtSeparator(expr[pos..])
    ensures pos <= p <= |expr| && expr[p..] == AfterSeparator(expr[pos..])
  {
    if pos < |expr| then pos + 1 else pos
  }

  method ParseChunks(expr: string) returns (r: Result<seq<IntRange>, RangeError>)
    requires expr != ""
    ensures r.Ok? <==> ReadAll(expr, [], expr[|expr| - 1] == ',').Some?
    ensures r.Ok? ==> ReadAll(expr, [], expr[|expr| - 1] == ',') == Some(r.value)
  {
    var ranges, pos := [], 0;
    ghost var comma := expr[|expr| - 1] == ',';
    ghost var goal := ReadAll(expr, [], comma);
    assert expr[0..] == expr;
    while true
      invariant 0 <= pos <= |expr|
      invariant ReadAll(expr[pos..], ranges, comma) == goal
      decreases |expr| - pos
    {
      if |ranges| > MAX_RANGE_EXPR_CHUNKS {
        return Err(ParseError);
      }
      pos := SkipBlanks(expr, pos);
      if pos >= |expr| {
        if ranges != [] && pos > 0 && expr[|expr| - 1] == ',' {
          return Err(ParseError);
        }
        return Ok(ranges);
      }
      var piece;
      piece, pos := ParsePiece(expr, pos);
      if piece.Err? {
        return Err(piece.error);
      }
      ranges := ranges + [piece.value];
    }
  }

  /** The chunk lists `from_ranges` accepts. */
  ghost predicate Buildable(chunks: seq<IntRange>) {
    1 <= |chunks| <= MAX_RANGE_EXPR_CHUNKS && AllAccepted(chunks) && Pairwise(NormalizeAll(chunks), Apart)
  }

  ghost predicate Parseable(text: string) {
    ReadText(text).Some? && Buildable(ReadText(text).value)
  }

  /** `list` is the ascending list of the values `text` asks for. */
  ghost predicate Denotes(text: string, list: seq<int>) {
    && Parseable(text) && StrictlyAscending(list)
    && forall v :: v in list <==> exists i :: 0 <= i < |ReadText(text).value| && Asks(ReadText(text).value[i], v)
  }

  method ParseRangeExpr(text: string) returns (r: Result<RangeExpr, RangeError>)
    ensures r.Ok? <==> Parseable(text)
    ensures r.Ok? ==> ValidExpr(r.value) && Denotes(text, Flatten(r.value.ranges))
  {
    var expr := Trim(text);
    if expr == "" {
      return Err(ParseError);
    }
    var chunks := ParseChunks(expr);
    if chunks.Err? {
      return Err(chunks.error);
    }
    if chunks.value == [] {
      return Err(ParseError);
    }
    r := FromRanges(chunks.value);
    if r.Ok? {
      FlattenCount(r.value.ranges);
    }
  }
}
