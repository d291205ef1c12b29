/** Format strings: splitting into segments, and escaping. */
module FormatStrings {
  import opened Wrappers
  import opened Sequences
  import opened Whitespace
  import opened CodePoints

  const MAX_FORMAT_STRING_LEN := 1024 * 1024
  const MAX_FORMAT_STRING_SEGMENTS := 1_000

  /** An expression segment keeps its trimmed source text in place of the parsed tree. Positions
      count characters. */
  datatype Segment =
    | Literal(text: string)
    | Expression(start: nat, end: nat, source: string)

  datatype ParseError =
    | TooLong
    | TooManySegments
    | MissingOpening(at: nat)
    | BracesMismatch(at: nat)
    | EmptyExpression(start: nat, end: nat)
    | BadExpression(start: nat, end: nat)

  // ---- Finding a doubled brace ----

  predicate PairAt(t: string, i: nat, c: char) {
    i + 1 < |t| && t[i] == c && t[i + 1] == c
  }

  predicate NoPairBefore(t: string, c: char, k: nat) {
    forall i :: 0 <= i < k ==> !PairAt(t, i, c)
  }

  predicate NoPair(t: string, c: char) {
    NoPairBefore(t, c, |t|)
  }

  /** `find`: the first place where `c` is doubled. */
  function FindPair(t: string, c: char): (r: Option<nat>)
    ensures r.None? <==> NoPair(t, c)
    ensures r.Some? ==> PairAt(t, r.value, c) && NoPairBefore(t, c, r.value)
  {
    FindPairFrom(t, 0, c)
  }

  function FindPairFrom(t: string, k: nat, c: char): (r: Option<nat>)
    requires k <= |t| && NoPairBefore(t, c, k)
    ensures r.None? <==> NoPair(t, c)
    ensures r.Some? ==> PairAt(t, r.value, c) && NoPairBefore(t, c, r.value)
    decreases |t| - k
  {
    if k == |t| then None else if PairAt(t, k, c) then Some(k) else FindPairFrom(t, k + 1, c)
  }

  lemma FirstPair(t: string, c: char, k: nat)
    requires PairAt(t, k, c) && NoPairBefore(t, c, k)
    ensures FindPair(t, c) == Some(k)
  {}

  // ---- Splitting ----

  /** What an interpolation opening at `op` amounts to: its end and its expression text. */
  function ReadInterpolation(accepts: string -> bool, input: string, op: nat): (r: Result<(nat, string), ParseError>)
    requires PairAt(input, op, '{')
    ensures r.Ok? ==> op + 4 <= r.value.0 <= |input|
  {
    match FindPair(input[op + 2..], '}')
    case None => Err(BracesMismatch(op))
    case Some(co) =>
      var source := Trim(input[op + 2..op + 2 + co]);
      if source == "" then Err(EmptyExpression(op, op + co + 4))
      else if !accepts(source) then Err(BadExpression(op, op + co + 4))
      else Ok((op + co + 4, source))
  }

  datatype Step =
    | Last(text: string)
    | Next(segs: seq<Segment>, be: nat)
    | Fail(error: ParseError)

  /** The literal, if any, and the interpolation that start at `pos`. */
  function StepAt(accepts: string -> bool, input: string, pos: nat): (r: Step)
    requires pos < |input|
    ensures r.Next? ==> pos < r.be <= |input|
  {
    StepFrom(accepts, input, pos, FindPair(input[pos..], '{'), FindPair(input[pos..], '}'))
  }

  /** The same with the first opening and the first closing pair found. */
  function StepFrom(accepts: string -> bool, input: string, pos: nat, open: Option<nat>, close: Option<nat>): (r: Step)
    requires pos < |input| && (open.Some? ==> PairAt(input[pos..], open.value, '{'))
    ensures r.Next? ==> pos < r.be <= |input|
  {
    if open.None? then
      if close.Some? then Fail(MissingOpening(pos + close.value)) else Last(input[pos..])
    else if close.Some? && close.value < open.value then Fail(BracesMismatch(pos + close.value))
    else
      var op := pos + open.value;
      match ReadInterpolation(accepts, input, op)
      case Err(e) => Fail(e)
      case Ok((be, source)) => Next(Run(input[pos..op]) + [Expression(op, be, source)], be)
  }

  function Run(lit: string): seq<Segment> {
    if lit == "" then [] else [Literal(lit)]
  }

  /** The segments from `pos` on. */
  function Segments(accepts: string -> bool, input: string, pos: nat): (r: Result<seq<Segment>, ParseError>)
    requires pos <= |input|
    decreases |input| - pos
  {
    if pos == |input| then Ok([])
    else
      match StepAt(accepts, input, pos)
      case Fail(e) => Err(e)
      case Last(text) => Ok([Literal(text)])
      case Next(segs, be) => Prepend(segs, Segments(accepts, input, be))
  }

  function Prepend(segs: seq<Segment>, r: Result<seq<Segment>, ParseError>): Result<seq<Segment>, ParseError> {
    match r case Ok(rest) => Ok(segs + rest) case Err(e) => Err(e)
  }

  lemma PrependTwice(a: seq<Segment>, b: seq<Segment>, r: Result<seq<Segment>, ParseError>)
    ensures Prepend(a, Prepend(b, r)) == Prepend(a + b, r)
  {
    if r.Ok? {
      assert a + (b + r.value) == (a + b) + r.value;
    }
  }

  /** One turn of the loop of `parse_segments`. */
  method ReadStep(accepts: string -> bool, input: string, pos: nat) returns (r: Step)
    requires pos < |input|
    ensures r == StepAt(accepts, input, pos)
  {
    var open := FindPair(input[pos..], '{');
    var close := FindPair(input[pos..], '}');
    if open.None? {
      return if close.Some? then Fail(MissingOpening(pos + close.value)) else Last(input[pos..]);
    }
    var op := pos + open.value;
    if close.Some? && pos + close.value < op { return Fail(BracesMismatch(pos + close.value)); }
    var here: seq<Segment> := [];
    if op > pos { here := here + [Literal(input[pos..op])]; }
    var interpolation := ReadInterpolation(accepts, input, op);
    if interpolation.Err? { return Fail(interpolation.error); }
    here := here + [Expression(op, interpolation.value.0, interpolation.value.1)];
    return Next(here, interpolation.value.0);
  }

  /** `parse_segments`. */
  method ParseSegments(accepts: string -> bool, input: string) returns (r: Result<seq<Segment>, ParseError>)
    ensures r == Segments(accepts, input, 0)
  {
    var segments: seq<Segment> := [];
    var pos := 0;
    PrependNone(Segments(accepts, input, 0));
    while pos < |input|
      invariant 0 <= pos <= |input|
      invariant Segments(accepts, input, 0) == Prepend(segments, Segments(accepts, input, pos))
      decreases |input| - pos
    {
      var step := ReadStep(accepts, input, pos);
      match step {
        case Fail(e) => return Err(e);
        case Last(text) => return Ok(segments + [Literal(text)]);
        case Next(here, be) =>
          PrependTwice(segments, here, Segments(accepts, input, be));
          segments, pos := segments + here, be;
      }
    }
    assert segments + [] == segments;
    return Ok(segments);
  }

  lemma PrependNone(r: Result<seq<Segment>, ParseError>)
    ensures Prepend([], r) == r
  {
    if r.Ok? {
      assert [] + r.value == r.value;
    }
  }

  /** `FormatString::with_profile`. */
  method ParseFormat(accepts: string -> bool, input: string) returns (r: Result<seq<Segment>, ParseError>)
    ensures r == Format(accepts, input)
  {
    if Utf8Len(input) > MAX_FORMAT_STRING_LEN { return Err(TooLong); }
    r := ParseSegments(accepts, input);
    if r.Ok? && |r.value| > MAX_FORMAT_STRING_SEGMENTS { return Err(TooManySegments); }
  }

  function Format(accepts: string -> bool, input: string): Result<seq<Segment>, ParseError> {
    if Utf8Len(input) > MAX_FORMAT_STRING_LEN then Err(TooLong)
    else
      match Segments(accepts, input, 0)
      case Err(e) => Err(e)
      case Ok(segs) => if |segs| > MAX_FORMAT_STRING_SEGMENTS then Err(TooManySegments) else Ok(segs)
  }

  // ---- The segments tile the input ----

  /** The stretch of input a segment at `pos` covers. */
  function Width(s: Segment): nat {
    match s case Literal(t) => |t| case Expression(b, e, _) => if b <= e then e - b else 0
  }

  /** A segment that stands at `pos` and is what it says it is. */
  ghost predicate Faithful(accepts: string -> bool, input: string, s: Segment, pos: nat) {
    match s
    case Literal(t) =>
      && t != "" && pos + |t| <= |input| && input[pos..pos + |t|] == t && NoPair(t, '{') && NoPair(t, '}')
    case Expression(b, e, source) =>
      && b == pos && b + 4 <= e <= |input|
      && input[b..b + 2] == "{{" && input[e - 2..e] == "}}" && NoPair(input[b + 2..e - 1], '}')
      && source == Trim(input[b + 2..e - 2]) && source != "" && accepts(source)
  }

  /** A literal is followed by an interpolation, and does not run into its braces. */
  predicate Meets(text: string, next: Segment) {
    next.Expression? && (text != "" ==> text[|text| - 1] != '{')
  }

  ghost predicate Tiled(fits: (Segment, nat) -> bool, segs: seq<Segment>, pos: nat, end: nat)
    decreases |segs|
  {
    if segs == [] then pos == end
    else
      && fits(segs[0], pos)
      && (segs[0].Literal? && |segs| > 1 ==> Meets(segs[0].text, segs[1]))
      && Tiled(fits, segs[1..], pos + Width(segs[0]), end)
  }

  ghost function Fit(accepts: string -> bool, input: string): (Segment, nat) -> bool {
    (s: Segment, pos: nat) => Faithful(accepts, input, s, pos)
  }

  /** The segments cover the input from `pos` on, one after the other. */
  ghost predicate Tiles(accepts: string -> bool, input: string, segs: seq<Segment>, pos: nat) {
    Tiled(Fit(accepts, input), segs, pos, |input|)
  }

  lemma TiledCons(fits: (Segment, nat) -> bool, seg: Segment, here: seq<Segment>, pos: nat, end: nat)
    requires fits(seg, pos) && Tiled(fits, here, pos + Width(seg), end)
    requires seg.Literal? && here != [] ==> Meets(seg.text, here[0])
    ensures Tiled(fits, [seg] + here, pos, end)
  {
    assert ([seg] + here)[1..] == here;
  }

  lemma NoPairWithin(t: string, c: char, k: nat)
    requires k <= |t| && NoPairBefore(t, c, k)
    ensures NoPair(t[..k], c)
  {
    forall i | 0 <= i < k ensures !PairAt(t[..k], i, c) {
      assert !PairAt(t, i, c);
    }
  }

  lemma InterpolationFaithful(accepts: string -> bool, input: string, op: nat)
    requires PairAt(input, op, '{') && ReadInterpolation(accepts, input, op).Ok?
    ensures var (be, source) := ReadInterpolation(accepts, input, op).value;
            Faithful(accepts, input, Expression(op, be, source), op)
  {
    var (be, source) := ReadInterpolation(accepts, input, op).value;
    var inner := input[op + 2..];
    var co := FindPair(inner, '}').value;
    assert be == op + 2 + co + 2;
    assert inner[co] == input[op + 2 + co] && inner[co + 1] == input[op + 2 + co + 1];
    assert input[op..op + 2] == "{{" && input[be - 2..be] == "}}";
    NoPairTo(inner, '}', co);
    assert inner[..co + 1] == input[op + 2..be - 1];
  }

  /** Up to and including the first half of the first pair there is no pair. */
  lemma NoPairTo(t: string, c: char, k: nat)
    requires k < |t| && NoPairBefore(t, c, k)
    ensures NoPair(t[..k + 1], c)
  {
    var u := t[..k + 1];
    forall i | 0 <= i < |u| ensures !PairAt(u, i, c) {
      if i < k {
        assert !PairAt(t, i, c);
      }
    }
  }

  lemma LiteralFaithful(accepts: string -> bool, input: string, pos: nat, n: nat)
    requires pos + n <= |input| && n > 0
    requires NoPairBefore(input[pos..], '{', n) && NoPairBefore(input[pos..], '}', n)
    ensures Faithful(accepts, input, Literal(input[pos..pos + n]), pos)
  {
    NoPairWithin(input[pos..], '{', n);
    NoPairWithin(input[pos..], '}', n);
    assert input[pos..][..n] == input[pos..pos + n];
  }

  lemma TiledRun(fits: (Segment, nat) -> bool, lit: string, here: seq<Segment>, pos: nat, end: nat)
    requires lit != "" ==> fits(Literal(lit), pos)
    requires Tiled(fits, here, pos + |lit|, end) && (here != [] ==> Meets(lit, here[0]))
    ensures Tiled(fits, Run(lit) + here, pos, end)
  {
    if lit == "" {
      assert Run(lit) + here == here;
    } else {
      TiledCons(fits, Literal(lit), here, pos, end);
    }
  }

  lemma TiledStep(fits: (Segment, nat) -> bool, lit: string, e: Segment, rest: seq<Segment>, pos: nat, end: nat)
    requires lit != "" ==> fits(Literal(lit), pos) && lit[|lit| - 1] != '{'
    requires e.Expression? && fits(e, pos + |lit|) && Tiled(fits, rest, pos + |lit| + Width(e), end)
    ensures Tiled(fits, Run(lit) + [e] + rest, pos, end)
  {
    TiledCons(fits, e, rest, pos + |lit|, end);
    TiledRun(fits, lit, [e] + rest, pos, end);
    Assoc(Run(lit), [e], rest);
  }

  /** What one step found stands where it should. */
  lemma StepFaithful(accepts: string -> bool, input: string, pos: nat, open: nat)
    requires pos < |input| && PairAt(input[pos..], open, '{')
    requires NoPairBefore(input[pos..], '{', open) && NoPairBefore(input[pos..], '}', open)
    requires ReadInterpolation(accepts, input, pos + open).Ok?
    ensures open > 0 ==> Faithful(accepts, input, Literal(input[pos..pos + open]), pos) && input[pos + open - 1] != '{'
    ensures var (be, source) := ReadInterpolation(accepts, input, pos + open).value;
            Faithful(accepts, input, Expression(pos + open, be, source), pos + open)
  {
    if open > 0 {
      LiteralFaithful(accepts, input, pos, open);
      assert !PairAt(input[pos..], open - 1, '{');
    }
    InterpolationFaithful(accepts, input, pos + open);
  }

  function StepWith(input: string, pos: nat, open: nat, read: Result<(nat, string), ParseError>): Step
    requires pos + open <= |input|
  {
    match read
    case Err(e) => Fail(e)
    case Ok((be, source)) => Next(Run(input[pos..pos + open]) + [Expression(pos + open, be, source)], be)
  }

  lemma StepOf(accepts: string -> bool, input: string, pos: nat, open: nat, read: Result<(nat, string), ParseError>)
    requires pos < |input| && FindPair(input[pos..], '{') == Some(open)
    requires FindPair(input[pos..], '}').Some? ==> open <= FindPair(input[pos..], '}').value
    requires read == ReadInterpolation(accepts, input, pos + open)
    ensures StepAt(accepts, input, pos) == StepWith(input, pos, open, read)
  {}

  lemma StepFound(accepts: string -> bool, input: string, pos: nat)
      returns (open: nat, read: Result<(nat, string), ParseError>)
    requires pos < |input| && StepAt(accepts, input, pos).Next?
    ensures PairAt(input[pos..], open, '{') && pos + open <= |input| && PairAt(input, pos + open, '{')
    ensures NoPairBefore(input[pos..], '{', open) && NoPairBefore(input[pos..], '}', open)
    ensures read == ReadInterpolation(accepts, input, pos + open) && read.Ok?
    ensures StepAt(accepts, input, pos) == StepWith(input, pos, open, read)
  {
    open := FindPair(input[pos..], '{').value;
    read := ReadInterpolation(accepts, input, pos + open);
  }

  lemma StepTiles(accepts: string -> bool, input: string, pos: nat, step: Step, rest: seq<Segment>)
    requires pos < |input| && step == StepAt(accepts, input, pos) && step.Next?
    requires Tiles(accepts, input, rest, step.be)
    ensures Tiles(accepts, input, step.segs + rest, pos)
  {
    var open, read := StepFound(accepts, input, pos);
    StepFaithful(accepts, input, pos, open);
    FoundTiles(Fit(accepts, input), input, pos, open, read, rest);
  }

  lemma FoundTiles(fits: (Segment, nat) -> bool, input: string, pos: nat, open: nat,
                   read: Result<(nat, string), ParseError>, rest: seq<Segment>)
    requires pos + open <= |input| && read.Ok? && pos + open <= read.value.0
    requires open > 0 ==> fits(Literal(input[pos..pos + open]), pos) && input[pos + open - 1] != '{'
    requires fits(Expression(pos + open, read.value.0, read.value.1), pos + open)
    requires Tiled(fits, rest, read.value.0, |input|)
    ensures Tiled(fits, StepWith(input, pos, open, read).segs + rest, pos, |input|)
  {
    var lit := input[pos..pos + open];
    TiledStep(fits, lit, Expression(pos + open, read.value.0, read.value.1), rest, pos, |input|);
  }

  lemma LastTiles(accepts: string -> bool, input: string, pos: nat)
    requires pos < |input| && NoPair(input[pos..], '{') && NoPair(input[pos..], '}')
    ensures Tiles(accepts, input, [Literal(input[pos..])], pos)
  {
    LiteralFaithful(accepts, input, pos, |input| - pos);
    assert input[pos..pos + (|input| - pos)] == input[pos..];
    TiledCons(Fit(accepts, input), Literal(input[pos..]), [], pos, |input|);
    assert [Literal(input[pos..])] + [] == [Literal(input[pos..])];
  }

  /** For every accepted input the segments cover it exactly, in order; literals hold no doubled
      brace and are never adjacent, and an interpolation runs to the first closing pair. */
  lemma {:induction false} SegmentsTile(accepts: string -> bool, input: string, pos: nat)
    requires pos <= |input| && Segments(accepts, input, pos).Ok?
    ensures Tiles(accepts, input, Segments(accepts, input, pos).value, pos)
    decreases |input| - pos
  {
    if pos < |input| {
      match StepAt(accepts, input, pos) {
        case Last(_) =>
          LastTiles(accepts, input, pos);
        case Next(segs, be) =>
          SegmentsTile(accepts, input, be);
          StepTiles(accepts, input, pos, StepAt(accepts, input, pos), Segments(accepts, input, be).value);
        case Fail(_) =>
      }
    }
  }

  // ---- Nothing else tiles it ----

  /** Past a faithful interpolation, reading stops where it says. */
  lemma FaithfulReads(accepts: string -> bool, input: string, e: Segment)
    requires e.Expression? && Faithful(accepts, input, e, e.start)
    ensures PairAt(input, e.start, '{') && ReadInterpolation(accepts, input, e.start) == Ok((e.end, e.source))
  {
    var b := e.start;
    var inner := input[b + 2..];
    var k := e.end - b - 4;
    assert input[b..b + 2][0] == input[b] && input[b..b + 2][1] == input[b + 1];
    assert input[e.end - 2..e.end][0] == inner[k] && input[e.end - 2..e.end][1] == inner[k + 1];
    var upTo := input[b + 2..e.end - 1];
    forall i | 0 <= i < k ensures !PairAt(inner, i, '}') {
      assert !PairAt(upTo, i, '}');
    }
    FirstPair(inner, '}', k);
  }

  /** A literal run up to `op` puts the first opening pair there. */
  lemma RunBefore(input: string, pos: nat, lit: string, op: nat)
    requires op == pos + |lit| <= |input| && input[pos..op] == lit && PairAt(input, op, '{')
    requires NoPair(lit, '{') && NoPair(lit, '}') && (lit != "" ==> lit[|lit| - 1] != '{')
    ensures FindPair(input[pos..], '{') == Some(|lit|)
    ensures FindPair(input[pos..], '}').Some? ==> |lit| <= FindPair(input[pos..], '}').value
  {
    assert input[pos..] == lit + input[op..];
    assert PairAt(input[op..], 0, '{');
    RunThenToken(lit, input[op..]);
  }

  lemma RunText(accepts: string -> bool, input: string, pos: nat, lit: string)
    requires pos <= |input| && (lit != "" ==> Faithful(accepts, input, Literal(lit), pos))
    ensures pos + |lit| <= |input| && input[pos..pos + |lit|] == lit && NoPair(lit, '{') && NoPair(lit, '}')
  {}

  lemma ExpressionReadsBack(accepts: string -> bool, input: string, pos: nat, lit: string, e: Segment)
    requires e.Expression? && e.start == pos + |lit| <= |input| && Faithful(accepts, input, e, e.start)
    requires input[pos..e.start] == lit
    requires NoPair(lit, '{') && NoPair(lit, '}') && (lit != "" ==> lit[|lit| - 1] != '{')
    ensures pos < |input| && StepAt(accepts, input, pos) == Next(Run(lit) + [e], e.end)
  {
    FaithfulReads(accepts, input, e);
    RunBefore(input, pos, lit, e.start);
    assert pos < |input| by { assert PairAt(input, e.start, '{'); }
    StepOf(accepts, input, pos, |lit|, Ok((e.end, e.source)));
    StepWithLiteral(input, pos, lit, e);
  }

  lemma StepWithLiteral(input: string, pos: nat, lit: string, e: Segment)
    requires e.Expression? && e.start == pos + |lit| <= |input| && input[pos..pos + |lit|] == lit
    ensures StepWith(input, pos, |lit|, Ok((e.end, e.source))) == Next(Run(lit) + [e], e.end)
  {}

  lemma StepReadsBack(accepts: string -> bool, input: string, pos: nat, lit: string, e: Segment)
    requires pos <= |input| && (lit != "" ==> Faithful(accepts, input, Literal(lit), pos)) && Meets(lit, e)
    requires Faithful(accepts, input, e, pos + |lit|)
    ensures pos < |input| && StepAt(accepts, input, pos) == Next(Run(lit) + [e], e.end)
    ensures e.end == pos + |lit| + Width(e) <= |input|
  {
    RunText(accepts, input, pos, lit);
    ExpressionReadsBack(accepts, input, pos, lit, e);
  }

  lemma LastReadsBack(accepts: string -> bool, input: string, pos: nat, text: string)
    requires pos + |text| == |input| && Faithful(accepts, input, Literal(text), pos)
    ensures Segments(accepts, input, pos) == Ok([Literal(text)])
  {
    assert input[pos..pos + |text|] == input[pos..];
  }

  /** The literal run in front, if any, and what follows it. */
  lemma RunInFront(accepts: string -> bool, input: string, segs: seq<Segment>, pos: nat)
      returns (lit: string, tail: seq<Segment>)
    requires segs != [] && Tiles(accepts, input, segs, pos)
    ensures segs == Run(lit) + tail && (lit != "" ==> Faithful(accepts, input, Literal(lit), pos))
    ensures tail == [] ==> lit != "" && pos + |lit| == |input|
    ensures tail != [] ==> Meets(lit, tail[0]) && Tiles(accepts, input, tail, pos + |lit|)
  {
    TilesHead(accepts, input, segs, pos);
    if segs[0].Expression? {
      lit, tail := "", segs;
    } else {
      lit, tail := segs[0].text, segs[1..];
    }
  }

  lemma TilesHead(accepts: string -> bool, input: string, segs: seq<Segment>, pos: nat)
    requires segs != [] && Tiles(accepts, input, segs, pos)
    ensures Faithful(accepts, input, segs[0], pos) && Tiles(accepts, input, segs[1..], pos + Width(segs[0]))
  {}

  /** Segments that tile the input are the ones found: an input is rejected exactly when nothing tiles it. */
  lemma {:induction false} TilesParse(accepts: string -> bool, input: string, segs: seq<Segment>, pos: nat)
    requires pos <= |input| && Tiles(accepts, input, segs, pos)
    ensures Segments(accepts, input, pos) == Ok(segs)
    decreases |segs|, 1
  {
    if segs == [] {
      assert pos == |input|;
    } else {
      var lit, tail := RunInFront(accepts, input, segs, pos);
      if tail == [] {
        assert segs == [Literal(lit)];
        LastReadsBack(accepts, input, pos, lit);
      } else {
        TilesAfter(accepts, input, pos, lit, tail);
      }
    }
  }

  lemma RunThenRest(lit: string, tail: seq<Segment>)
    requires tail != []
    ensures Run(lit) + tail == Run(lit) + [tail[0]] + tail[1..]
  {}

  lemma {:induction false} TilesAfter(accepts: string -> bool, input: string, pos: nat, lit: string,
                                      tail: seq<Segment>)
    requires pos <= |input| && (lit != "" ==> Faithful(accepts, input, Literal(lit), pos))
    requires tail != [] && Meets(lit, tail[0]) && Tiles(accepts, input, tail, pos + |lit|)
    ensures Segments(accepts, input, pos) == Ok(Run(lit) + tail)
    decreases |tail|, 0
  {
    var e, rest := tail[0], tail[1..];
    HeadReadsBack(accepts, input, pos, lit, e, tail);
    TilesParse(accepts, input, rest, e.end);
    SegmentsThen(accepts, input, pos, Run(lit) + [e], e.end, rest);
    RunThenRest(lit, tail);
  }

  lemma HeadReadsBack(accepts: string -> bool, input: string, pos: nat, lit: string, e: Segment, tail: seq<Segment>)
    requires pos <= |input| && (lit != "" ==> Faithful(accepts, input, Literal(lit), pos))
    requires tail != [] && tail[0] == e && Meets(lit, e) && Tiles(accepts, input, tail, pos + |lit|)
    ensures pos < |input| && StepAt(accepts, input, pos) == Next(Run(lit) + [e], e.end)
    ensures e.end <= |input| && Tiles(accepts, input, tail[1..], e.end)
  {
    TilesHead(accepts, input, tail, pos + |lit|);
    StepReadsBack(accepts, input, pos, lit, e);
  }

  lemma SegmentsThen(accepts: string -> bool, input: string, pos: nat, here: seq<Segment>, be: nat, rest: seq<Segment>)
    requires pos < |input| && be <= |input| && StepAt(accepts, input, pos) == Next(here, be)
    requires Segments(accepts, input, be) == Ok(rest)
    ensures Segments(accepts, input, pos) == Ok(here + rest)
  {}

  // ---- Escaping ----

  /** `escape_format_string` with the interpolations it writes for a doubled brace left open. */
  function EscapeWith(open: string, close: string, s: string): string {
    if s == "" then ""
    else if PairAt(s, 0, '{') then open + EscapeWith(open, close, s[2..])
    else if PairAt(s, 0, '}') then close + EscapeWith(open, close, s[2..])
    else [s[0]] + EscapeWith(open, close, s[1..])
  }

  method Escaping(open: string, close: string, value: string) returns (result: string)
    ensures result == EscapeWith(open, close, value)
  {
    result := "";
    var i := 0;
    while i < |value|
      invariant 0 <= i <= |value|
      invariant result + EscapeWith(open, close, value[i..]) == EscapeWith(open, close, value)
    {
      var piece, n := EscapeOne(open, close, value, i);
      Assoc(result, piece, EscapeWith(open, close, value[i + n..]));
      result, i := result + piece, i + n;
    }
  }

  /** One turn of the loop: what is written, and for how many characters. */
  method EscapeOne(open: string, close: string, value: string, i: nat) returns (piece: string, n: nat)
    requires i < |value|
    ensures 0 < n && i + n <= |value|
    ensures EscapeWith(open, close, value[i..]) == piece + EscapeWith(open, close, value[i + n..])
  {
    EscapeFrom(open, close, value, i);
    if value[i] == '{' && i + 1 < |value| && value[i + 1] == '{' {
      return open, 2;
    } else if value[i] == '}' && i + 1 < |value| && value[i + 1] == '}' {
      return close, 2;
    }
    return [value[i]], 1;
  }

  lemma EscapeFrom(open: string, close: string, value: string, i: nat)
    requires i < |value|
    ensures EscapeWith(open, close, value[i..]) ==
            if PairAt(value, i, '{') then open + EscapeWith(open, close, value[i + 2..])
            else if PairAt(value, i, '}') then close + EscapeWith(open, close, value[i + 2..])
            else [value[i]] + EscapeWith(open, close, value[i + 1..])
  {
    var left := value[i..];
    assert left[1..] == value[i + 1..];
    assert i + 1 < |value| ==> left[2..] == value[i + 2..];
  }

  /** Reading the string from the left in pairs of braces, some `{` left over stands directly before
      a `}}`: an odd run of `{` followed by two `}`. */
  predicate LoneBeforeClose(s: string) {
    if s == "" then false
    else if PairAt(s, 0, '{') || PairAt(s, 0, '}') then LoneBeforeClose(s[2..])
    else (s[0] == '{' && PairAt(s, 1, '}')) || LoneBeforeClose(s[1..])
  }

  /** No doubled brace before `k`, and one there unless the string ends. */
  ghost predicate FirstDoubled(s: string, k: nat) {
    && k <= |s|
    && NoPairBefore(s, '{', k) && NoPairBefore(s, '}', k)
    && (k < |s| ==> PairAt(s, k, '{') || PairAt(s, k, '}'))
  }

  function FindDoubled(s: string): (k: nat)
    ensures FirstDoubled(s, k)
  {
    match (FindPair(s, '{'), FindPair(s, '}'))
    case (Some(i), Some(j)) => if i <= j then i else j
    case (Some(i), None) => i
    case (None, Some(j)) => j
    case (None, None) => |s|
  }

  lemma FirstDoubledTail(s: string, k: nat)
    requires FirstDoubled(s, k) && k > 0
    ensures FirstDoubled(s[1..], k - 1)
  {
    forall i | 0 <= i < k - 1 ensures !PairAt(s[1..], i, '{') && !PairAt(s[1..], i, '}') {
      assert !PairAt(s, i + 1, '{') && !PairAt(s, i + 1, '}');
    }
  }

  lemma {:induction false} EscapeSplit(open: string, close: string, s: string, k: nat)
    requires FirstDoubled(s, k)
    ensures EscapeWith(open, close, s) ==
            if k == |s| then s
            else s[..k] + ((if s[k] == '{' then open else close) + EscapeWith(open, close, s[k + 2..]))
  {
    if k == 0 {
      assert s != "" ==> s[..0] == "";
    } else {
      assert !PairAt(s, 0, '{') && !PairAt(s, 0, '}');
      FirstDoubledTail(s, k);
      EscapeSplit(open, close, s[1..], k - 1);
      HeadTail(s);
      if k < |s| {
        TailSplit(s, k, (if s[k] == '{' then open else close) + EscapeWith(open, close, s[k + 2..]));
      }
    }
  }

  lemma TailSplit(s: string, k: nat, rest: string)
    requires 0 < k && k + 2 <= |s|
    ensures s[1..][k + 1..] == s[k + 2..]
    ensures [s[0]] + (s[1..][..k - 1] + rest) == s[..k] + rest
  {
    assert [s[0]] + s[1..][..k - 1] == s[..k];
    Assoc([s[0]], s[1..][..k - 1], rest);
  }

  lemma {:induction false} LoneSplit(s: string, k: nat)
    requires FirstDoubled(s, k)
    ensures LoneBeforeClose(s) <==>
            k < |s| && ((k > 0 && s[k - 1] == '{' && s[k] == '}') || LoneBeforeClose(s[k + 2..]))
  {
    if k == 0 {
    } else {
      assert !PairAt(s, 0, '{') && !PairAt(s, 0, '}');
      FirstDoubledTail(s, k);
      LoneSplit(s[1..], k - 1);
      assert k < |s| ==> s[1..][k + 1..] == s[k + 2..];
      assert k > 1 ==> !PairAt(s, 1, '}');
    }
  }

  // ---- Reading the escapes back ----

  /** An interpolation written out in full: no closing pair before its end. */
  ghost predicate IsToken(tok: string, source: string) {
    && |tok| > 4 && PairAt(tok, 0, '{') && PairAt(tok, |tok| - 2, '}')
    && NoPair(tok[2..|tok| - 1], '}')
    && Trim(tok[2..|tok| - 2]) == source && source != ""
  }

  function TokenRead(accepts: string -> bool, op: nat, be: nat, source: string): Result<(nat, string), ParseError> {
    if accepts(source) then Ok((be, source)) else Err(BadExpression(op, be))
  }

  lemma TokenReads(accepts: string -> bool, pre: string, tok: string, source: string, rest: string)
    requires IsToken(tok, source)
    ensures PairAt(pre + (tok + rest), |pre|, '{')
    ensures ReadInterpolation(accepts, pre + (tok + rest), |pre|) ==
            TokenRead(accepts, |pre|, |pre| + |tok|, source)
  {
    var input := pre + (tok + rest);
    var inner := input[|pre| + 2..];
    var k := |tok| - 4;
    DropInto(pre, tok, rest, 2);
    assert inner == tok[2..] + rest;
    assert PairAt(inner, k, '}');
    forall i | 0 <= i < k ensures !PairAt(inner, i, '}') {
      assert !PairAt(tok[2..|tok| - 1], i, '}');
    }
    FirstPair(inner, '}', k);
    assert input[|pre| + 2..|pre| + 2 + k] == tok[2..|tok| - 2];
  }

  lemma DropInto(a: string, b: string, c: string, n: nat)
    requires n <= |b|
    ensures (a + (b + c))[|a| + n..] == b[n..] + c
  {}

  /** After a literal run without doubled braces the first pair is the token's. */
  lemma RunThenToken(lit: string, tail: string)
    requires NoPair(lit, '{') && NoPair(lit, '}') && (lit != "" ==> lit[|lit| - 1] != '{')
    requires PairAt(tail, 0, '{')
    ensures FindPair(lit + tail, '{') == Some(|lit|)
    ensures FindPair(lit + tail, '}').Some? ==> |lit| <= FindPair(lit + tail, '}').value
  {
    var t := lit + tail;
    assert PairAt(t, |lit|, '{');
    forall i | 0 <= i < |lit| ensures !PairAt(t, i, '{') && !PairAt(t, i, '}') {
      assert !PairAt(lit, i, '{') && !PairAt(lit, i, '}');
    }
    FirstPair(t, '{', |lit|);
  }

  lemma StepReadsAt(accepts: string -> bool, input: string, pos: nat, lit: string, be: nat, source: string)
    requires pos + |lit| < |input| && input[pos..pos + |lit|] == lit
    requires FindPair(input[pos..], '{') == Some(|lit|)
    requires FindPair(input[pos..], '}').Some? ==> |lit| <= FindPair(input[pos..], '}').value
    requires PairAt(input, pos + |lit|, '{')
    requires ReadInterpolation(accepts, input, pos + |lit|) == TokenRead(accepts, pos + |lit|, be, source)
    ensures StepAt(accepts, input, pos) == TokenStep(accepts, pos, lit, be, source)
  {
    StepOf(accepts, input, pos, |lit|, TokenRead(accepts, pos + |lit|, be, source));
  }

  /** A literal run, then a token. */
  lemma StepReads(accepts: string -> bool, pre: string, lit: string, tok: string, source: string, rest: string,
                  input: string)
    requires IsToken(tok, source) && input == pre + (lit + (tok + rest))
    requires NoPair(lit, '{') && NoPair(lit, '}') && (lit != "" ==> lit[|lit| - 1] != '{')
    ensures |pre| < |input|
    ensures StepAt(accepts, input, |pre|) == TokenStep(accepts, |pre|, lit, |pre| + |lit| + |tok|, source)
  {
    assert PairAt(tok + rest, 0, '{');
    RunFound(pre, lit, tok + rest, input);
    TokenFound(accepts, pre, lit, tok, source, rest, input);
    StepReadsAt(accepts, input, |pre|, lit, |pre| + |lit| + |tok|, source);
  }

  lemma RunFound(pre: string, lit: string, tail: string, input: string)
    requires input == pre + (lit + tail) && PairAt(tail, 0, '{')
    requires NoPair(lit, '{') && NoPair(lit, '}') && (lit != "" ==> lit[|lit| - 1] != '{')
    ensures |pre| + |lit| < |input| && input[|pre|..|pre| + |lit|] == lit
    ensures FindPair(input[|pre|..], '{') == Some(|lit|)
    ensures FindPair(input[|pre|..], '}').Some? ==> |lit| <= FindPair(input[|pre|..], '}').value
  {
    DropAppend(pre, lit + tail);
    RunThenToken(lit, tail);
    Middle(pre, lit, tail);
  }

  lemma TokenFound(accepts: string -> bool, pre: string, lit: string, tok: string, source: string, rest: string,
                   input: string)
    requires IsToken(tok, source) && input == pre + (lit + (tok + rest))
    ensures PairAt(input, |pre| + |lit|, '{')
    ensures ReadInterpolation(accepts, input, |pre| + |lit|) ==
            TokenRead(accepts, |pre| + |lit|, |pre| + |lit| + |tok|, source)
  {
    Assoc(pre, lit, tok + rest);
    TokenReads(accepts, pre + lit, tok, source, rest);
  }

  function TokenStep(accepts: string -> bool, pos: nat, lit: string, be: nat, source: string): Step {
    if accepts(source) then Next(Run(lit) + [Expression(pos + |lit|, be, source)], be)
    else Fail(BadExpression(pos + |lit|, be))
  }

  lemma Middle(a: string, b: string, c: string)
    ensures (a + (b + c))[|a|..|a| + |b|] == b
  {}

  // ---- Rendering ----

  /** The text of the segments, `eval` giving that of an expression. */
  function Rendered(eval: string -> string, segs: seq<Segment>): string {
    if segs == [] then "" else SegmentText(eval, segs[0]) + Rendered(eval, segs[1..])
  }

  function SegmentText(eval: string -> string, seg: Segment): string {
    match seg case Literal(t) => t case Expression(_, _, source) => eval(source)
  }

  lemma RenderedCons(eval: string -> string, a: seq<Segment>, b: seq<Segment>)
    requires a != []
    ensures Rendered(eval, a + b) == SegmentText(eval, a[0]) + Rendered(eval, a[1..] + b)
  {
    TailAppend(a, b);
  }

  lemma {:induction false} RenderedJoin(eval: string -> string, a: seq<Segment>, b: seq<Segment>)
    ensures Rendered(eval, a + b) == Rendered(eval, a) + Rendered(eval, b)
  {
    if a == [] {
      assert a + b == b;
    } else {
      RenderedJoin(eval, a[1..], b);
      RenderedCons(eval, a, b);
      Assoc(SegmentText(eval, a[0]), Rendered(eval, a[1..]), Rendered(eval, b));
    }
  }

  /** The interpolations an escaper writes: both read back as expressions that give the braces they
      stand for, while a `{` run into the second one does not parse. */
  ghost predicate Escapes(accepts: string -> bool, eval: string -> string,
                          open: string, close: string, o: string, c: string, bad: string)
  {
    && IsToken(open, o) && accepts(o) && eval(o) == "{{"
    && IsToken(close, c) && accepts(c) && eval(c) == "}}"
    && IsToken("{" + close, bad) && !accepts(bad)
  }

  lemma RunOf(s: string, k: nat, n: nat)
    requires FirstDoubled(s, k) && n <= k
    ensures NoPair(s[..n], '{') && NoPair(s[..n], '}')
  {
    NoPairWithin(s, '{', n);
    NoPairWithin(s, '}', n);
  }

  /** A string without doubled braces is one literal. */
  lemma PlainReads(accepts: string -> bool, pre: string, s: string, input: string)
    requires input == pre + s && NoPair(s, '{') && NoPair(s, '}')
    ensures Segments(accepts, input, |pre|) == Ok(Run(s))
  {
    DropAppend(pre, s);
  }

  lemma SegmentsAfter(accepts: string -> bool, input: string, pos: nat, step: Step)
    requires pos < |input| && step == StepAt(accepts, input, pos)
    ensures step.Fail? ==> Segments(accepts, input, pos).Err?
    ensures step.Next? ==> Segments(accepts, input, pos) == Prepend(step.segs, Segments(accepts, input, step.be))
  {}

  lemma TokenFails(accepts: string -> bool, pre: string, lit: string, tok: string, source: string, rest: string,
                   input: string)
    requires IsToken(tok, source) && !accepts(source) && input == pre + (lit + (tok + rest))
    requires NoPair(lit, '{') && NoPair(lit, '}') && (lit != "" ==> lit[|lit| - 1] != '{')
    ensures |pre| <= |input| && Segments(accepts, input, |pre|).Err?
  {
    StepReads(accepts, pre, lit, tok, source, rest, input);
    SegmentsAfter(accepts, input, |pre|, TokenStep(accepts, |pre|, lit, |pre| + |lit| + |tok|, source));
  }

  lemma Regroup(lit: string, close: string, rest: string)
    ensures (lit + "{") + (close + rest) == lit + (("{" + close) + rest)
  {}

  /** A left-over `{` runs into the closing token and spoils it. */
  lemma LoneFails(accepts: string -> bool, stuck: string, close: string, bad: string,
                  pre: string, lit: string, rest: string, input: string)
    requires stuck == "{" + close && IsToken(stuck, bad) && !accepts(bad)
    requires NoPair(lit, '{') && NoPair(lit, '}') && (lit != "" ==> lit[|lit| - 1] != '{')
    requires input == pre + ((lit + "{") + (close + rest))
    ensures |pre| <= |input| && Segments(accepts, input, |pre|).Err?
  {
    Regroup(lit, close, rest);
    TokenFails(accepts, pre, lit, stuck, bad, rest, input);
  }

  lemma LoneRun(s: string, k: nat)
    requires FirstDoubled(s, k) && 0 < k < |s| && s[k - 1] == '{'
    ensures s[k] == '}'
    ensures NoPair(s[..k - 1], '{') && NoPair(s[..k - 1], '}') && (k > 1 ==> s[k - 2] != '{')
    ensures s[..k] == s[..k - 1] + "{"
  {
    assert !PairAt(s, k - 1, '{');
    RunOf(s, k, k - 1);
    assert k > 1 ==> !PairAt(s, k - 2, '{');
  }

  lemma TokenRendered(eval: string -> string, lit: string, e: Segment, rest: seq<Segment>)
    requires e.Expression?
    ensures Rendered(eval, Run(lit) + [e] + rest) == lit + (eval(e.source) + Rendered(eval, rest))
  {
    RenderedJoin(eval, Run(lit) + [e], rest);
    RenderedJoin(eval, Run(lit), [e]);
    assert [e][1..] == [] && (lit != "" ==> Run(lit)[1..] == []);
    assert Rendered(eval, [e]) == eval(e.source) && Rendered(eval, Run(lit)) == lit;
    Assoc(lit, eval(e.source), Rendered(eval, rest));
  }

  /** A literal run and a token read back, and reading goes on after the token. */
  lemma TokenGoesOn(accepts: string -> bool, pre: string, lit: string, tok: string, source: string, rest: string,
                    input: string)
    requires IsToken(tok, source) && accepts(source) && input == pre + (lit + (tok + rest))
    requires NoPair(lit, '{') && NoPair(lit, '}') && (lit != "" ==> lit[|lit| - 1] != '{')
    ensures |pre| <= |input| && input == (pre + (lit + tok)) + rest
    ensures Segments(accepts, input, |pre|) ==
            Prepend(Run(lit) + [Expression(|pre| + |lit|, |pre| + |lit| + |tok|, source)],
                    Segments(accepts, input, |pre + (lit + tok)|))
  {
    StepReads(accepts, pre, lit, tok, source, rest, input);
    SegmentsAfter(accepts, input, |pre|, TokenStep(accepts, |pre|, lit, |pre| + |lit| + |tok|, source));
    Assoc(lit, tok, rest);
    Assoc(pre, lit + tok, rest);
  }

  /** The same, rendered. */
  lemma TokenRound(accepts: string -> bool, eval: string -> string, pre: string, lit: string, tok: string,
                   source: string, rest: string, input: string)
    requires IsToken(tok, source) && accepts(source) && input == pre + (lit + (tok + rest))
    requires NoPair(lit, '{') && NoPair(lit, '}') && (lit != "" ==> lit[|lit| - 1] != '{')
    ensures |pre| <= |input| && input == (pre + (lit + tok)) + rest
    ensures var r, after := Segments(accepts, input, |pre|), Segments(accepts, input, |pre + (lit + tok)|);
            (after.Ok? ==> r.Ok? && Rendered(eval, r.value) == lit + (eval(source) + Rendered(eval, after.value)))
            && (after.Err? ==> r.Err?)
  {
    TokenGoesOn(accepts, pre, lit, tok, source, rest, input);
    var after := Segments(accepts, input, |pre + (lit + tok)|);
    if after.Ok? {
      TokenRendered(eval, lit, Expression(|pre| + |lit|, |pre| + |lit| + |tok|, source), after.value);
    }
  }

  /** What escaping, parsing and rendering come to. */
  ghost predicate GivesBack(accepts: string -> bool, eval: string -> string, input: string, pos: nat, s: string)
    requires pos <= |input|
  {
    var r := Segments(accepts, input, pos);
    if LoneBeforeClose(s) then r.Err? else r.Ok? && Rendered(eval, r.value) == s
  }

  lemma GivesBackToken(accepts: string -> bool, eval: string -> string, pre: string, lit: string, tok: string,
                       source: string, s: string, left: string, rest: string, input: string)
    requires NoPair(lit, '{') && NoPair(lit, '}') && (lit != "" ==> lit[|lit| - 1] != '{')
    requires IsToken(tok, source) && accepts(source)
    requires s == lit + (eval(source) + left) && LoneBeforeClose(s) == LoneBeforeClose(left)
    requires input == pre + (lit + (tok + rest))
    requires |pre + (lit + tok)| <= |input| && GivesBack(accepts, eval, input, |pre + (lit + tok)|, left)
    ensures |pre| <= |input| && GivesBack(accepts, eval, input, |pre|, s)
  {
    TokenRound(accepts, eval, pre, lit, tok, source, rest, input);
  }

  lemma GivesBackPlain(accepts: string -> bool, eval: string -> string, pre: string, s: string, input: string)
    requires FirstDoubled(s, |s|) && input == pre + s
    ensures GivesBack(accepts, eval, input, |pre|, s)
  {
    LoneSplit(s, |s|);
    PlainReads(accepts, pre, s, input);
    assert s != "" ==> Run(s)[1..] == [];
  }

  lemma GivesBackLone(accepts: string -> bool, eval: string -> string, stuck: string, close: string, bad: string,
                      pre: string, s: string, k: nat, rest: string, input: string)
    requires stuck == "{" + close && IsToken(stuck, bad) && !accepts(bad)
    requires FirstDoubled(s, k) && 0 < k < |s| && s[k - 1] == '{'
    requires input == pre + (s[..k] + (close + rest))
    ensures |pre| <= |input| && GivesBack(accepts, eval, input, |pre|, s)
  {
    LoneRun(s, k);
    LoneSplit(s, k);
    LoneFails(accepts, stuck, close, bad, pre, s[..k - 1], rest, input);
  }

  lemma Around(s: string, k: nat)
    requires k + 1 < |s| && s[k] == s[k + 1]
    ensures s == s[..k] + ([s[k], s[k]] + s[k + 2..])
  {}

  lemma GivesBackPair(accepts: string -> bool, eval: string -> string, tok: string, source: string,
                      pre: string, s: string, k: nat, rest: string, input: string)
    requires IsToken(tok, source) && accepts(source)
    requires FirstDoubled(s, k) && k < |s| && (k > 0 ==> s[k - 1] != '{') && eval(source) == [s[k], s[k]]
    requires input == pre + (s[..k] + (tok + rest))
    requires |pre + (s[..k] + tok)| <= |input| && GivesBack(accepts, eval, input, |pre + (s[..k] + tok)|, s[k + 2..])
    ensures |pre| <= |input| && GivesBack(accepts, eval, input, |pre|, s)
  {
    var lit, left := s[..k], s[k + 2..];
    PairSplit(s, k);
    assert s == lit + (eval(source) + left);
    GivesBackToken(accepts, eval, pre, lit, tok, source, s, left, rest, input);
  }

  lemma PairSplit(s: string, k: nat)
    requires FirstDoubled(s, k) && k < |s| && (k > 0 ==> s[k - 1] != '{')
    ensures NoPair(s[..k], '{') && NoPair(s[..k], '}') && (s[..k] != "" ==> s[..k][k - 1] != '{')
    ensures k + 2 <= |s| && s == s[..k] + ([s[k], s[k]] + s[k + 2..])
    ensures LoneBeforeClose(s) == LoneBeforeClose(s[k + 2..])
  {
    LoneSplit(s, k);
    RunOf(s, k, k);
    Around(s, k);
  }

  lemma {:induction false} EscapeReadsBack(accepts: string -> bool, eval: string -> string,
                                           open: string, close: string, o: string, c: string, bad: string,
                                           pre: string, s: string, input: string)
    requires Escapes(accepts, eval, open, close, o, c, bad)
    requires input == pre + EscapeWith(open, close, s)
    ensures GivesBack(accepts, eval, input, |pre|, s)
    decreases |s|
  {
    var k := FindDoubled(s);
    EscapeSplit(open, close, s, k);
    if k == |s| {
      GivesBackPlain(accepts, eval, pre, s, input);
    } else {
      var rest := EscapeWith(open, close, s[k + 2..]);
      if k > 0 && s[k - 1] == '{' {
        assert s[k] == '}' by { LoneRun(s, k); }
        GivesBackLone(accepts, eval, "{" + close, close, bad, pre, s, k, rest, input);
      } else {
        var tok, source := if s[k] == '{' then open else close, if s[k] == '{' then o else c;
        Assoc(s[..k], tok, rest);
        Assoc(pre, s[..k] + tok, rest);
        EscapeReadsBack(accepts, eval, open, close, o, c, bad, pre + (s[..k] + tok), s[k + 2..], input);
        GivesBackPair(accepts, eval, tok, source, pre, s, k, rest, input);
      }
    }
  }

  // ---- The escapes the source writes ----

  /** Evaluates to two opening braces. */
  const OPEN_SOURCE := "\"{{\""
  /** Evaluates to two closing braces, without holding a pair of them. */
  const CLOSE_SOURCE := "\"}\" + \"}\""

  function Interpolation(inner: string): string {
    "{{" + inner + "}}"
  }

  function Escape(s: string): string {
    EscapeWith(Interpolation(" " + OPEN_SOURCE + " "), Interpolation(" " + CLOSE_SOURCE + " "), s)
  }

  /** `escape_format_string`. */
  method EscapeFormatString(value: string) returns (result: string)
    ensures result == Escape(value)
  {
    assert "{{ \"{{\" }}" == Interpolation(" " + OPEN_SOURCE + " ");
    assert "{{ \"}\" + \"}\" }}" == Interpolation(" " + CLOSE_SOURCE + " ");
    result := Escaping("{{ \"{{\" }}", "{{ \"}\" + \"}\" }}", value);
  }

  lemma InterpolationToken(inner: string)
    requires NoPair(inner, '}') && Trim(inner) != "" && inner != "" && inner[|inner| - 1] != '}'
    ensures IsToken(Interpolation(inner), Trim(inner))
  {
    var tok := Interpolation(inner);
    assert tok[2..|tok| - 2] == inner;
    var upTo := tok[2..|tok| - 1];
    assert upTo == inner + "}";
    forall i | 0 <= i < |upTo| ensures !PairAt(upTo, i, '}') {
      if i < |inner| {
        assert !PairAt(inner, i, '}');
      }
    }
  }

  lemma TrimEnds(x: string)
    requires x != "" && !IsWhiteSpace(x[0]) && !IsWhiteSpace(x[|x| - 1])
    ensures Trim(" " + x + " ") == x && Trim(x + " ") == x
  {
    var t := " " + x + " ";
    var u := x + " ";
    assert t[1..] == u && u[0] == x[0] && u[..|u| - 1] == x;
    assert TrimStart(t) == TrimStart(u) == u;
    assert TrimEnd(u) == TrimEnd(x) == x;
  }

  ghost predicate PlainSource(src: string) {
    && src != "" && !IsWhiteSpace(src[0]) && !IsWhiteSpace(src[|src| - 1])
    && NoPair(src, '}')
  }

  lemma SpacedNoPair(src: string)
    requires NoPair(src, '}')
    ensures NoPair(src + " ", '}') && NoPair(" " + src + " ", '}')
  {
    var t, u := src + " ", " " + src + " ";
    forall i | 0 <= i < |t| ensures !PairAt(t, i, '}') {
      assert i < |src| ==> !PairAt(src, i, '}');
    }
    forall i | 0 <= i < |u| ensures !PairAt(u, i, '}') {
      assert 0 < i <= |src| ==> !PairAt(src, i - 1, '}');
    }
  }

  lemma SourceToken(src: string)
    requires PlainSource(src)
    ensures IsToken(Interpolation(" " + src + " "), src) && IsToken(Interpolation(src + " "), src)
  {
    TrimEnds(src);
    SpacedNoPair(src);
    InterpolationToken(" " + src + " ");
    InterpolationToken(src + " ");
  }

  lemma StuckToken(src: string)
    requires PlainSource(src)
    ensures IsToken("{" + Interpolation(" " + src + " "), "{ " + src)
  {
    var stuck := "{ " + src;
    forall i | 0 <= i < |stuck| ensures !PairAt(stuck, i, '}') {
      assert i >= 2 ==> !PairAt(src, i - 2, '}');
    }
    SourceToken(stuck);
    StuckText(src);
  }

  lemma StuckText(src: string)
    ensures Interpolation(("{ " + src) + " ") == "{" + Interpolation(" " + src + " ")
  {}

  lemma SourceEscapes(accepts: string -> bool, eval: string -> string)
    requires accepts(OPEN_SOURCE) && eval(OPEN_SOURCE) == "{{"
    requires accepts(CLOSE_SOURCE) && eval(CLOSE_SOURCE) == "}}"
    requires !accepts("{ " + CLOSE_SOURCE)
    ensures Escapes(accepts, eval, Interpolation(" " + OPEN_SOURCE + " "), Interpolation(" " + CLOSE_SOURCE + " "),
                    OPEN_SOURCE, CLOSE_SOURCE, "{ " + CLOSE_SOURCE)
  {
    SourceToken(OPEN_SOURCE);
    SourceToken(CLOSE_SOURCE);
    StuckToken(CLOSE_SOURCE);
  }

  // ---- The shape of escaped text ----

  /** The expressions among the segments, in order. */
  function Sources(segs: seq<Segment>): seq<string> {
    if segs == [] then []
    else
      var last := segs[|segs| - 1];
      Sources(segs[..|segs| - 1]) + if last.Expression? then [last.source] else []
  }

  lemma {:induction false} SourcesJoin(a: seq<Segment>, b: seq<Segment>)
    ensures Sources(a + b) == Sources(a) + Sources(b)
  {
    if b == [] {
      assert a + b == a;
    } else {
      var n := |b| - 1;
      SourcesJoin(a, b[..n]);
      assert (a + b)[..|a| + n] == a + b[..n];
      assert (a + b)[|a + b| - 1] == b[n];
    }
  }

  /** What is written for each doubled brace of `s`. */
  function EscapedSources(o: string, c: string, s: string): seq<string>
    decreases |s|
  {
    var k := FindDoubled(s);
    if k == |s| then [] else [if s[k] == '{' then o else c] + EscapedSources(o, c, s[k + 2..])
  }

  /** The doubled braces of `s`, read from the left. */
  function Doubled(s: string): nat
    decreases |s|
  {
    var k := FindDoubled(s);
    if k == |s| then 0 else 1 + Doubled(s[k + 2..])
  }

  /** The segments of the escaped text: its doubled braces and the runs between them. */
  function EscapedCount(s: string): nat
    decreases |s|
  {
    var k := FindDoubled(s);
    var run := if k > 0 then 1 else 0;
    if k == |s| then run else run + 1 + EscapedCount(s[k + 2..])
  }

  lemma {:induction false} OneEach(o: string, c: string, s: string)
    ensures |EscapedSources(o, c, s)| == Doubled(s)
    ensures forall x :: x in EscapedSources(o, c, s) ==> x == o || x == c
    decreases |s|
  {
    var k := FindDoubled(s);
    if k == |s| {
    } else {
      OneEach(o, c, s[k + 2..]);
    }
  }

  /** How the escaped text of `s` is cut up. */
  ghost predicate Shaped(r: Result<seq<Segment>, ParseError>, o: string, c: string, s: string) {
    r.Ok? && |r.value| == EscapedCount(s) && Sources(r.value) == EscapedSources(o, c, s)
  }

  lemma ShapedNext(lit: string, e: Segment, r: Result<seq<Segment>, ParseError>, o: string, c: string, s: string,
                   k: nat)
    requires k == FindDoubled(s) && k < |s| && lit == s[..k] && e.Expression?
            && e.source == (if s[k] == '{' then o else c)
    requires Shaped(r, o, c, s[k + 2..])
    ensures Shaped(Prepend(Run(lit) + [e], r), o, c, s)
  {
    SourcesJoin(Run(lit) + [e], r.value);
    SourcesJoin(Run(lit), [e]);
    assert [e][..0] == [] && (lit != "" ==> Run(lit)[..0] == []);
    assert Sources([e]) == [e.source] && Sources(Run(lit)) == [];
  }

  lemma ShapedLast(s: string, o: string, c: string)
    requires FindDoubled(s) == |s|
    ensures Shaped(Ok(Run(s)), o, c, s)
  {
    assert s != "" ==> Run(s)[..0] == [];
  }

  lemma {:induction false} EscapeShapes(accepts: string -> bool, open: string, close: string, o: string, c: string,
                                        pre: string, s: string, input: string)
    requires IsToken(open, o) && accepts(o) && IsToken(close, c) && accepts(c) && !LoneBeforeClose(s)
    requires input == pre + EscapeWith(open, close, s)
    ensures Shaped(Segments(accepts, input, |pre|), o, c, s)
    decreases |s|
  {
    var k := FindDoubled(s);
    EscapeSplit(open, close, s, k);
    LoneSplit(s, k);
    if k == |s| {
      PlainReads(accepts, pre, s, input);
      ShapedLast(s, o, c);
    } else {
      var lit, left := s[..k], s[k + 2..];
      var tok, source := if s[k] == '{' then open else close, if s[k] == '{' then o else c;
      var rest := EscapeWith(open, close, left);
      RunClear(s, k);
      TokenGoesOn(accepts, pre, lit, tok, source, rest, input);
      EscapeShapes(accepts, open, close, o, c, pre + (lit + tok), left, input);
      ShapedNext(lit, Expression(|pre| + |lit|, |pre| + |lit| + |tok|, source),
                 Segments(accepts, input, |pre + (lit + tok)|), o, c, s, k);
    }
  }

  lemma RunClear(s: string, k: nat)
    requires FirstDoubled(s, k) && k < |s| && !(k > 0 && s[k - 1] == '{' && s[k] == '}')
    ensures NoPair(s[..k], '{') && NoPair(s[..k], '}') && (s[..k] != "" ==> s[..k][k - 1] != '{')
  {
    RunOf(s, k, k);
    if k > 0 && s[k - 1] == '{' { LoneRun(s, k); }
  }

  /** The escaped text of a string without a lone `{` before a `}}` has one expression for each doubled
      brace. */
  lemma EscapeShape(accepts: string -> bool, eval: string -> string, s: string)
    requires accepts(OPEN_SOURCE) && eval(OPEN_SOURCE) == "{{"
    requires accepts(CLOSE_SOURCE) && eval(CLOSE_SOURCE) == "}}"
    requires !accepts("{ " + CLOSE_SOURCE) && !LoneBeforeClose(s)
    ensures var r := Segments(accepts, Escape(s), 0);
            && r.Ok? && |r.value| == EscapedCount(s) && |Sources(r.value)| == Doubled(s)
            && forall x :: x in Sources(r.value) ==> x == OPEN_SOURCE || x == CLOSE_SOURCE
  {
    SourceEscapes(accepts, eval);
    ShapeOf(accepts, eval, Interpolation(" " + OPEN_SOURCE + " "), Interpolation(" " + CLOSE_SOURCE + " "),
            OPEN_SOURCE, CLOSE_SOURCE, "{ " + CLOSE_SOURCE, s);
  }

  lemma ShapeOf(accepts: string -> bool, eval: string -> string, open: string, close: string, o: string, c: string,
                bad: string, s: string)
    requires Escapes(accepts, eval, open, close, o, c, bad) && !LoneBeforeClose(s)
    ensures var r := Segments(accepts, EscapeWith(open, close, s), 0);
            && r.Ok? && |r.value| == EscapedCount(s) && |Sources(r.value)| == Doubled(s)
            && forall x :: x in Sources(r.value) ==> x == o || x == c
  {
    var input := EscapeWith(open, close, s);
    assert input == "" + input;
    EscapeShapes(accepts, open, close, o, c, "", s, input);
    OneEach(o, c, s);
  }

  lemma EscapeGivesBack(accepts: string -> bool, eval: string -> string, s: string)
    requires accepts(OPEN_SOURCE) && eval(OPEN_SOURCE) == "{{"
    requires accepts(CLOSE_SOURCE) && eval(CLOSE_SOURCE) == "}}"
    requires !accepts("{ " + CLOSE_SOURCE)
    ensures GivesBack(accepts, eval, Escape(s), 0, s)
  {
    SourceEscapes(accepts, eval);
    assert Escape(s) == "" + Escape(s);
    EscapeReadsBack(accepts, eval, Interpolation(" " + OPEN_SOURCE + " "), Interpolation(" " + CLOSE_SOURCE + " "),
                    OPEN_SOURCE, CLOSE_SOURCE, "{ " + CLOSE_SOURCE, "", s, Escape(s));
  }

  /** Under an evaluator that takes the two escapes for the braces they spell and rejects the
      unbalanced text a stray `{` makes of the second, escaping and parsing succeed if and only if no
      lone `{` stands directly before a `}}` and the escaped text is within the caps; the segments then
      render as the string. */
  lemma EscapeRoundTrip(accepts: string -> bool, eval: string -> string, s: string)
    requires accepts(OPEN_SOURCE) && eval(OPEN_SOURCE) == "{{"
    requires accepts(CLOSE_SOURCE) && eval(CLOSE_SOURCE) == "}}"
    requires !accepts("{ " + CLOSE_SOURCE)
    ensures var r := Format(accepts, Escape(s));
            && (r.Ok? <==> && !LoneBeforeClose(s) && Utf8Len(Escape(s)) <= MAX_FORMAT_STRING_LEN
                           && EscapedCount(s) <= MAX_FORMAT_STRING_SEGMENTS)
            && (r.Ok? ==> r == Segments(accepts, Escape(s), 0) && Rendered(eval, r.value) == s)
  {
    EscapeGivesBack(accepts, eval, s);
    if !LoneBeforeClose(s) { EscapeShape(accepts, eval, s); }
  }

  /** It fails for `{}}`. */
  lemma EscapeFails(accepts: string -> bool, eval: string -> string)
    requires accepts(OPEN_SOURCE) && eval(OPEN_SOURCE) == "{{"
    requires accepts(CLOSE_SOURCE) && eval(CLOSE_SOURCE) == "}}"
    requires !accepts("{ " + CLOSE_SOURCE)
    ensures Format(accepts, Escape("{}}")).Err?
  {
    var s := "{}}";
    assert LoneBeforeClose(s) by { assert s[0] == '{' && PairAt(s, 1, '}'); }
    EscapeRoundTrip(accepts, eval, s);
  }
}
