/** Resolving format strings, and validating them before every symbol is known. */
module FormatResolution {
  import opened Wrappers
  import opened Sequences
  import opened CodePoints
  import opened FormatStrings
  import opened ExprTypes
  import opened ExprValues

  const USIZE_MAX := 0xFFFF_FFFF_FFFF_FFFF
  const MAX_STATIC_RESOLVED_VALUE_LEN := 10 * 1024 * 1024

  function Saturated(n: nat): nat {
    if n > USIZE_MAX then USIZE_MAX else n
  }

  /** Evaluating an expression against one symbol table, with or without the target type. */
  type Evaluator = (string, bool) -> Result<Value, string>

  datatype ResolveError = EvalFailed(reason: string) | MemoryLimitExceeded(used: nat, limit: nat)

  /** Null interpolates as nothing. */
  function Piece(h: Host, v: Value): string {
    if v.Null? then "" else Display(h, v)
  }

  // ---- What a symbol table makes of the segments ----

  function TextOf(h: Host, eval: Evaluator): string -> string {
    source => match eval(source, false) case Ok(v) => Piece(h, v) case Err(_) => ""
  }

  /** Bytes resolution charges a segment for: those an expression renders to. */
  function SpentOf(h: Host, eval: Evaluator, seg: Segment): nat {
    match seg
    case Literal(_) => 0
    case Expression(_, _, source) =>
      match eval(source, false) case Ok(v) => Utf8Len(Piece(h, v)) case Err(_) => 0
  }

  /** Bytes validation charges a segment for: those of an expression whose value is known. */
  function ChargeOf(h: Host, eval: Evaluator, target: bool, seg: Segment): nat {
    match seg
    case Literal(_) => 0
    case Expression(_, _, source) =>
      match eval(source, target)
      case Ok(v) => if v.UnresolvedValue? then 0 else Utf8Len(Piece(h, v))
      case Err(_) => 0
  }

  /** Characters a segment is certain to contribute. */
  function LengthOf(h: Host, eval: Evaluator, target: bool, seg: Segment): nat {
    match seg
    case Literal(t) => |t|
    case Expression(_, _, source) =>
      match eval(source, target)
      case Ok(v) => if v.UnresolvedValue? then 0 else |Piece(h, v)|
      case Err(_) => 0
  }

  function Sum(f: Segment -> nat, segs: seq<Segment>): nat {
    if segs == [] then 0 else Sum(f, segs[..|segs| - 1]) + f(segs[|segs| - 1])
  }

  function Spent(h: Host, eval: Evaluator, segs: seq<Segment>): nat {
    Sum(seg => SpentOf(h, eval, seg), segs)
  }

  function Charge(h: Host, eval: Evaluator, target: bool, segs: seq<Segment>): nat {
    Sum(seg => ChargeOf(h, eval, target, seg), segs)
  }

  function MinLength(h: Host, eval: Evaluator, target: bool, segs: seq<Segment>): nat {
    Sum(seg => LengthOf(h, eval, target, seg), segs)
  }

  predicate Evaluates(eval: Evaluator, target: bool, seg: Segment) {
    seg.Expression? ==> eval(seg.source, target).Ok?
  }

  predicate AllEvaluate(eval: Evaluator, target: bool, segs: seq<Segment>) {
    forall i :: 0 <= i < |segs| ==> Evaluates(eval, target, segs[i])
  }

  predicate Known(eval: Evaluator, target: bool, seg: Segment) {
    seg.Expression? && eval(seg.source, target).Ok? ==> !eval(seg.source, target).value.UnresolvedValue?
  }

  predicate AllKnown(eval: Evaluator, target: bool, segs: seq<Segment>) {
    forall i :: 0 <= i < |segs| ==> Known(eval, target, segs[i])
  }

  // ---- Resolving ----

  /** `resolve_string_with`. */
  method ResolveString(h: Host, eval: Evaluator, segs: seq<Segment>, limit: nat)
      returns (r: Result<string, ResolveError>)
    requires limit <= USIZE_MAX
    ensures r.Ok? <==> Resolvable(h, eval, segs, limit)
    ensures r.Ok? ==> r.value == Rendered(TextOf(h, eval), segs)
  {
    var result := "";
    var charged := 0;
    for i := 0 to |segs|
      invariant SoFar(h, eval, segs[..i], result, charged, limit)
    {
      var step := AddSegment(h, eval, segs[i], result, charged, limit);
      SoFarNext(h, eval, segs, i, result, charged, limit);
      if step.Err? {
        return Err(step.error);
      }
      result, charged := step.value.0, step.value.1;
    }
    assert segs[..|segs|] == segs;
    return Ok(result);
  }

  ghost predicate Resolvable(h: Host, eval: Evaluator, segs: seq<Segment>, limit: nat) {
    AllEvaluate(eval, false, segs) && Saturated(Spent(h, eval, segs)) <= limit
  }

  ghost predicate SoFar(h: Host, eval: Evaluator, segs: seq<Segment>, result: string, charged: nat, limit: nat) {
    && Resolvable(h, eval, segs, limit)
    && result == Rendered(TextOf(h, eval), segs)
    && charged == Saturated(Spent(h, eval, segs))
  }

  lemma SoFarNext(h: Host, eval: Evaluator, segs: seq<Segment>, i: nat, result: string, charged: nat, limit: nat)
    requires i < |segs| && SoFar(h, eval, segs[..i], result, charged, limit)
    ensures if Evaluates(eval, false, segs[i]) && Saturated(charged + SpentOf(h, eval, segs[i])) <= limit
            then SoFar(h, eval, segs[..i + 1], result + SegmentText(TextOf(h, eval), segs[i]),
                       Saturated(charged + SpentOf(h, eval, segs[i])), limit)
            else !Resolvable(h, eval, segs, limit)
  {
    RenderedOneMore(TextOf(h, eval), segs, i);
    SpentBounds(h, eval, segs, i);
  }

  /** One turn of the loop. */
  method AddSegment(h: Host, eval: Evaluator, seg: Segment, result: string, charged: nat, limit: nat)
    returns (r: Result<(string, nat), ResolveError>)
    requires charged <= limit <= USIZE_MAX
    ensures r.Ok? <==> Evaluates(eval, false, seg) && Saturated(charged + SpentOf(h, eval, seg)) <= limit
    ensures r.Ok? ==>
            r.value == (result + SegmentText(TextOf(h, eval), seg), Saturated(charged + SpentOf(h, eval, seg)))
  {
    match seg {
      case Literal(t) =>
        return Ok((result + t, charged));
      case Expression(_, _, source) =>
        var val := eval(source, false);
        if val.Err? { return Err(EvalFailed(val.error)); }
        var longer, spent := result, charged;
        if !val.value.Null? {
          longer := result + Display(h, val.value);
          spent := Saturated(charged + Utf8Len(Display(h, val.value)));
        } else {
          assert result + "" == result;
        }
        if spent > limit { return Err(MemoryLimitExceeded(spent, limit)); }
        return Ok((longer, spent));
    }
  }

  /** What the next segment adds; the whole costs at least as much. */
  lemma SpentBounds(h: Host, eval: Evaluator, segs: seq<Segment>, i: nat)
    requires i < |segs|
    ensures Spent(h, eval, segs[..i + 1]) == Spent(h, eval, segs[..i]) + SpentOf(h, eval, segs[i])
    ensures Spent(h, eval, segs[..i + 1]) <= Spent(h, eval, segs)
  {
    SumOneMore(seg => SpentOf(h, eval, seg), segs, i);
    SumGrows(seg => SpentOf(h, eval, seg), segs, i + 1);
  }

  lemma RenderedOneMore(text: string -> string, segs: seq<Segment>, i: nat)
    requires i < |segs|
    ensures Rendered(text, segs[..i + 1]) == Rendered(text, segs[..i]) + SegmentText(text, segs[i])
  {
    TakeNext(segs, i);
    RenderedJoin(text, segs[..i], [segs[i]]);
    assert [segs[i]][1..] == [];
    assert Rendered(text, [segs[i]]) == SegmentText(text, segs[i]) + "";
  }

  lemma SumOneMore(f: Segment -> nat, segs: seq<Segment>, i: nat)
    requires i < |segs|
    ensures Sum(f, segs[..i + 1]) == Sum(f, segs[..i]) + f(segs[i])
  {
    var more := segs[..i + 1];
    assert more[..|more| - 1] == segs[..i];
  }

  lemma {:induction false} SumGrows(f: Segment -> nat, segs: seq<Segment>, k: nat)
    requires k <= |segs|
    ensures Sum(f, segs[..k]) <= Sum(f, segs)
  {
    if k < |segs| {
      var front := segs[..|segs| - 1];
      assert front[..k] == segs[..k];
      SumGrows(f, front, k);
    } else {
      assert segs[..k] == segs;
    }
  }

  // ---- Validating ----

  /** What a format string is known to resolve to before every symbol is. */
  datatype StaticResolution = StaticResolution(minLength: nat, value: Option<Value>, resolvedType: ExprType)

  datatype ValidationError =
    | BadEvaluation(start: nat, end: nat, reason: string)
    | ChargeExceeded(start: nat, end: nat, used: nat)

  predicate IsSingle(segs: seq<Segment>) {
    |segs| == 1 && segs[0].Expression?
  }

  /** `unresolved[T]` is read through to T. */
  function Constraint(t: ExprType): ExprType {
    if t.Unresolved? then t.constraint else t
  }

  /** Nothing fails to evaluate and the known values stay within the budget. */
  ghost predicate Passes(h: Host, eval: Evaluator, target: bool, segs: seq<Segment>, limit: nat) {
    AllEvaluate(eval, target, segs) && Saturated(Charge(h, eval, target, segs)) <= limit
  }

  /** The value that is fully determined, if one is. */
  function StaticValue(h: Host, eval: Evaluator, segs: seq<Segment>): Option<Value> {
    if !AllKnown(eval, IsSingle(segs), segs) then None
    else if IsSingle(segs) then
      (match eval(segs[0].source, true) case Ok(v) => Some(v) case Err(_) => None)
    else
      var text := Rendered(TextOf(h, eval), segs);
      if Utf8Len(text) > MAX_STATIC_RESOLVED_VALUE_LEN then None else Some(StringValue(text))
  }

  function StaticType(eval: Evaluator, segs: seq<Segment>): ExprType {
    if !IsSingle(segs) then String
    else match eval(segs[0].source, true) case Ok(v) => Constraint(TypeOf(v)) case Err(_) => String
  }

  /** The running state of `validate_expressions`. */
  datatype Progress = Progress(minLength: nat, allConcrete: bool, charged: nat, concat: string, building: bool,
                               capped: bool, single: Option<Value>, resolvedType: ExprType)

  function StopBuilding(p: Progress): Progress {
    p.(building := false, concat := "")
  }

  /** The concatenation: complete while it is being built, given up past the cap or for good once
      something is unknown. */
  ghost predicate Builds(text: string, p: Progress) {
    && (p.building ==> p.allConcrete && p.concat == text && !p.capped && Utf8Len(text) <= MAX_STATIC_RESOLVED_VALUE_LEN)
    && (!p.building ==> p.concat == "" && (p.allConcrete ==> p.capped && Utf8Len(text) > MAX_STATIC_RESOLVED_VALUE_LEN))
  }

  /** More text for the concatenation, if there still is one. */
  method Append(text: string, p: Progress, ghost before: string) returns (q: Progress)
    requires Builds(before, p)
    ensures Builds(before + text, q)
    ensures q == p.(concat := q.concat, building := q.building, capped := q.capped)
  {
    Utf8LenJoin(before, text);
    q := p;
    if q.building {
      q := q.(concat := q.concat + text);
      if Utf8Len(q.concat) > MAX_STATIC_RESOLVED_VALUE_LEN {
        q := StopBuilding(q.(capped := true));
      }
    }
  }

  /** The single expression's own value and type. */
  ghost predicate Passthrough(eval: Evaluator, seen: seq<Segment>, p: Progress) {
    && p.concat == "" && !p.building && !p.capped
    && (seen == [] ==> p.single.None? && p.resolvedType == String)
    && (seen != [] && seen[0].Expression? && eval(seen[0].source, true).Ok? ==>
          var v := eval(seen[0].source, true).value;
          p.resolvedType == Constraint(TypeOf(v)) && p.single == if v.UnresolvedValue? then None else Some(v))
  }

  /** What the state says about the segments seen. */
  ghost predicate Tracks(h: Host, eval: Evaluator, single: bool, seen: seq<Segment>, p: Progress, limit: nat) {
    && Passes(h, eval, single, seen, limit)
    && p.minLength == Saturated(MinLength(h, eval, single, seen))
    && p.charged == Saturated(Charge(h, eval, single, seen))
    && (p.allConcrete <==> AllKnown(eval, single, seen))
    && if single then Passthrough(eval, seen, p)
       else p.resolvedType == String && Builds(Rendered(TextOf(h, eval), seen), p)
  }

  lemma TracksNext(h: Host, eval: Evaluator, single: bool, segs: seq<Segment>, i: nat, p: Progress, q: Progress,
                   limit: nat)
    requires i < |segs| && Tracks(h, eval, single, segs[..i], p, limit) && Evaluates(eval, single, segs[i])
    requires q.minLength == Saturated(p.minLength + LengthOf(h, eval, single, segs[i]))
    requires q.charged == Saturated(p.charged + ChargeOf(h, eval, single, segs[i])) && q.charged <= limit
    requires q.allConcrete <==> p.allConcrete && Known(eval, single, segs[i])
    requires if single then Passthrough(eval, segs[..i + 1], q)
             else q.resolvedType == String
                  && Builds(Rendered(TextOf(h, eval), segs[..i]) + SegmentText(TextOf(h, eval), segs[i]), q)
    ensures Tracks(h, eval, single, segs[..i + 1], q, limit)
  {
    RenderedOneMore(TextOf(h, eval), segs, i);
    TotalsOneMore(h, eval, single, segs, i);
    KnownOneMore(eval, single, segs, i);
  }

  lemma TotalsOneMore(h: Host, eval: Evaluator, target: bool, segs: seq<Segment>, i: nat)
    requires i < |segs|
    ensures Charge(h, eval, target, segs[..i + 1]) ==
            Charge(h, eval, target, segs[..i]) + ChargeOf(h, eval, target, segs[i])
    ensures MinLength(h, eval, target, segs[..i + 1]) ==
            MinLength(h, eval, target, segs[..i]) + LengthOf(h, eval, target, segs[i])
  {
    SumOneMore(seg => ChargeOf(h, eval, target, seg), segs, i);
    SumOneMore(seg => LengthOf(h, eval, target, seg), segs, i);
  }

  lemma KnownOneMore(eval: Evaluator, target: bool, segs: seq<Segment>, i: nat)
    requires i < |segs|
    ensures AllEvaluate(eval, target, segs[..i + 1]) <==>
            AllEvaluate(eval, target, segs[..i]) && Evaluates(eval, target, segs[i])
    ensures AllKnown(eval, target, segs[..i + 1]) <==> AllKnown(eval, target, segs[..i]) && Known(eval, target, segs[i])
  {
    var more, seen := segs[..i + 1], segs[..i];
    assert more[i] == segs[i] && forall k :: 0 <= k < i ==> more[k] == seen[k];
    if AllEvaluate(eval, target, seen) && Evaluates(eval, target, segs[i]) {
      forall k | 0 <= k < |more| ensures Evaluates(eval, target, more[k]) {
        assert k < i ==> Evaluates(eval, target, seen[k]);
      }
    }
    if AllKnown(eval, target, seen) && Known(eval, target, segs[i]) {
      forall k | 0 <= k < |more| ensures Known(eval, target, more[k]) {
        assert k < i ==> Known(eval, target, seen[k]);
      }
    }
    forall k | 0 <= k < i ensures Evaluates(eval, target, more[k]) ==> Evaluates(eval, target, seen[k]) {}
    forall k | 0 <= k < i ensures Known(eval, target, more[k]) ==> Known(eval, target, seen[k]) {}
  }

  lemma ChargeStops(h: Host, eval: Evaluator, single: bool, segs: seq<Segment>, i: nat, limit: nat)
    requires i < |segs|
    requires !Evaluates(eval, single, segs[i])
             || Saturated(Saturated(Charge(h, eval, single, segs[..i])) + ChargeOf(h, eval, single, segs[i])) > limit
    ensures !Passes(h, eval, single, segs, limit)
    ensures Evaluates(eval, single, segs[i]) ==> Saturated(Charge(h, eval, single, segs[..i + 1])) > limit
  {
    SumOneMore(seg => ChargeOf(h, eval, single, seg), segs, i);
    SumGrows(seg => ChargeOf(h, eval, single, seg), segs, i + 1);
  }

  method ValidateValue(h: Host, eval: Evaluator, single: bool, segs: seq<Segment>, i: nat, p: Progress, limit: nat)
    returns (r: Result<Progress, nat>)
    requires i < |segs| && Tracks(h, eval, single, segs[..i], p, limit) && single == IsSingle(segs)
    requires segs[i].Expression? && eval(segs[i].source, single).Ok?
    ensures r.Ok? ==> Tracks(h, eval, single, segs[..i + 1], r.value, limit)
    ensures r.Err? ==> Saturated(Charge(h, eval, single, segs[..i + 1])) > limit
    ensures r.Err? ==> !Passes(h, eval, single, segs, limit)
  {
    var val := eval(segs[i].source, single).value;
    var q := p;
    if single { q := q.(resolvedType := Constraint(TypeOf(val))); }
    if val.UnresolvedValue? {
      q := StopBuilding(q.(allConcrete := false));
    } else if val.Null? {
      if single { q := q.(single := Some(val)); }
      assert Rendered(TextOf(h, eval), segs[..i]) + "" == Rendered(TextOf(h, eval), segs[..i]);
    } else {
      var text := Display(h, val);
      q := q.(minLength := Saturated(q.minLength + |text|), charged := Saturated(q.charged + Utf8Len(text)));
      if q.charged > limit {
        ChargeStops(h, eval, single, segs, i, limit);
        return Err(q.charged);
      }
      if single {
        q := q.(single := Some(val));
      } else {
        q := Append(text, q, Rendered(TextOf(h, eval), segs[..i]));
      }
    }
    TracksNext(h, eval, single, segs, i, p, q, limit);
    return Ok(q);
  }

  method ValidateLiteral(h: Host, eval: Evaluator, segs: seq<Segment>, i: nat, p: Progress, limit: nat)
      returns (q: Progress)
    requires i < |segs| && Tracks(h, eval, false, segs[..i], p, limit) && segs[i].Literal?
    ensures Tracks(h, eval, false, segs[..i + 1], q, limit)
  {
    var text := segs[i].text;
    q := p.(minLength := Saturated(p.minLength + |text|));
    q := Append(text, q, Rendered(TextOf(h, eval), segs[..i]));
    TracksNext(h, eval, false, segs, i, p, q, limit);
  }

  /** `validate_expressions`. */
  method Validate(h: Host, eval: Evaluator, segs: seq<Segment>, limit: nat)
      returns (r: Result<StaticResolution, ValidationError>)
    requires limit <= USIZE_MAX
    ensures r.Ok? <==> Passes(h, eval, IsSingle(segs), segs, limit)
    ensures r.Ok? ==> r.value == Determined(h, eval, segs)
    ensures r.Err? && r.error.ChargeExceeded? ==> OverCharged(h, eval, IsSingle(segs), segs, limit)
  {
    var single := IsSingle(segs);
    var p := Progress(0, true, 0, "", !single, false, None, String);
    for i := 0 to |segs|
      invariant Tracks(h, eval, single, segs[..i], p, limit)
    {
      match segs[i] {
        case Literal(_) =>
          p := ValidateLiteral(h, eval, segs, i, p, limit);
        case Expression(start, end, source) =>
          var val := eval(source, single);
          if val.Err? {
            ChargeStops(h, eval, single, segs, i, limit);
            return Err(BadEvaluation(start, end, val.error));
          }
          var step := ValidateValue(h, eval, single, segs, i, p, limit);
          if step.Err? {
            KnownOneMore(eval, single, segs, i);
            return Err(ChargeExceeded(start, end, step.error));
          }
          p := step.value;
      }
    }
    assert segs[..|segs|] == segs;
    var value := if !p.allConcrete || p.capped then None else if single then p.single else Some(StringValue(p.concat));
    return Ok(StaticResolution(p.minLength, value, p.resolvedType));
  }

  function Determined(h: Host, eval: Evaluator, segs: seq<Segment>): StaticResolution {
    StaticResolution(Saturated(MinLength(h, eval, IsSingle(segs), segs)), StaticValue(h, eval, segs),
        StaticType(eval, segs))
  }

  /** Some evaluable prefix is over budget. */
  ghost predicate OverCharged(h: Host, eval: Evaluator, target: bool, segs: seq<Segment>, limit: nat) {
    exists k :: 0 <= k <= |segs| && AllEvaluate(eval, target, segs[..k])
                && Saturated(Charge(h, eval, target, segs[..k])) > limit
  }

  // ---- Resolving to a value ----

  /** `resolve_with`: a lone expression keeps its typed value. */
  ghost function Resolution(h: Host, eval: Evaluator, segs: seq<Segment>, limit: nat): Option<Value> {
    if IsSingle(segs) then
      match eval(segs[0].source, true) case Ok(v) => Some(v) case Err(_) => None
    else if Resolvable(h, eval, segs, limit) then Some(StringValue(Rendered(TextOf(h, eval), segs)))
    else None
  }

  method Resolve(h: Host, eval: Evaluator, segs: seq<Segment>, limit: nat) returns (r: Result<Value, ResolveError>)
    requires limit <= USIZE_MAX
    ensures match Resolution(h, eval, segs, limit) case Some(v) => r == Ok(v) case None => r.Err?
  {
    if IsSingle(segs) {
      var val := eval(segs[0].source, true);
      return if val.Ok? then Ok(val.value) else Err(EvalFailed(val.error));
    }
    var text := ResolveString(h, eval, segs, limit);
    return if text.Ok? then Ok(StringValue(text.value)) else Err(text.error);
  }

  // ---- Validation foretells resolution ----

  /** Filling in unresolved symbols leaves every answer that was already concrete as it was. */
  ghost predicate FillsIn(s: Evaluator, d: Evaluator) {
    forall source, target {:trigger d(source, target)} ::
      s(source, target).Ok? && !s(source, target).value.UnresolvedValue? ==> d(source, target) == s(source, target)
  }

  lemma SegmentFilled(h: Host, s: Evaluator, d: Evaluator, seg: Segment)
    requires FillsIn(s, d) && Evaluates(s, false, seg) && Evaluates(d, false, seg)
    ensures LengthOf(h, s, false, seg) <= |SegmentText(TextOf(h, d), seg)|
    ensures ChargeOf(h, s, false, seg) <= SpentOf(h, d, seg)
    ensures Known(s, false, seg) ==> SegmentText(TextOf(h, s), seg) == SegmentText(TextOf(h, d), seg)
    ensures Known(s, false, seg) ==> ChargeOf(h, s, false, seg) == SpentOf(h, d, seg)
  {
    if seg.Expression? {
      var _ := d(seg.source, false);
    }
  }

  /** Segment by segment, resolution renders at least what validation counted, and exactly that where
      everything was known. */
  lemma {:induction false} PrefixFilled(h: Host, s: Evaluator, d: Evaluator, segs: seq<Segment>, i: nat)
    requires i <= |segs| && FillsIn(s, d)
    requires AllEvaluate(s, false, segs[..i]) && AllEvaluate(d, false, segs[..i])
    ensures MinLength(h, s, false, segs[..i]) <= |Rendered(TextOf(h, d), segs[..i])|
    ensures Charge(h, s, false, segs[..i]) <= Spent(h, d, segs[..i])
    ensures AllKnown(s, false, segs[..i]) ==>
              && Rendered(TextOf(h, s), segs[..i]) == Rendered(TextOf(h, d), segs[..i])
              && Charge(h, s, false, segs[..i]) == Spent(h, d, segs[..i])
  {
    if i == 0 {
    } else {
      KnownOneMore(s, false, segs, i - 1);
      KnownOneMore(d, false, segs, i - 1);
      PrefixFilled(h, s, d, segs, i - 1);
      SegmentFilled(h, s, d, segs[i - 1]);
      TotalsOneMore(h, s, false, segs, i - 1);
      SpentBounds(h, d, segs, i - 1);
      RenderedOneMore(TextOf(h, s), segs, i - 1);
      RenderedOneMore(TextOf(h, d), segs, i - 1);
    }
  }

  /** What evaluated to a known value evaluates again. */
  lemma KnownEvaluates(s: Evaluator, d: Evaluator, target: bool, segs: seq<Segment>)
    requires FillsIn(s, d) && AllEvaluate(s, target, segs) && AllKnown(s, target, segs)
    ensures AllEvaluate(d, target, segs)
  {
    forall i | 0 <= i < |segs| ensures Evaluates(d, target, segs[i]) {
      assert Evaluates(s, target, segs[i]) && Known(s, target, segs[i]);
    }
  }

  /** Whatever the unknown symbols turn out to be: a format string that passes validation never
      resolves to fewer characters than promised, and a promised value is exactly what resolution
      returns, of the promised type; text with literals in it is always a string, as promised. */
  lemma ValidationSound(h: Host, s: Evaluator, d: Evaluator, segs: seq<Segment>, limit: nat)
    requires limit <= USIZE_MAX && FillsIn(s, d) && Passes(h, s, IsSingle(segs), segs, limit)
    ensures var known, actual := Determined(h, s, segs), Resolution(h, d, segs, limit);
            && (actual.Some? ==> known.minLength <= |Piece(h, actual.value)|)
            && (known.value.Some? ==> actual == known.value)
            && (actual.Some? && (known.value.Some? || !IsSingle(segs)) ==>
                  Constraint(TypeOf(actual.value)) == known.resolvedType)
  {
    if IsSingle(segs) {
      SingleSound(h, s, d, segs);
    } else {
      assert segs[..|segs|] == segs;
      if AllEvaluate(d, false, segs) {
        PrefixFilled(h, s, d, segs, |segs|);
      }
      if AllKnown(s, false, segs) {
        KnownEvaluates(s, d, false, segs);
      }
    }
  }

  lemma SingleSound(h: Host, s: Evaluator, d: Evaluator, segs: seq<Segment>)
    requires IsSingle(segs) && FillsIn(s, d) && AllEvaluate(s, true, segs)
    ensures var v := s(segs[0].source, true).value;
            && s(segs[0].source, true).Ok?
            && MinLength(h, s, true, segs) == (if v.UnresolvedValue? then 0 else |Piece(h, v)|)
            && (!v.UnresolvedValue? ==> d(segs[0].source, true) == Ok(v))
            && (AllKnown(s, true, segs) <==> !v.UnresolvedValue?)
  {
    assert Evaluates(s, true, segs[0]);
    assert segs[..0] == [] && segs[..1] == segs;
    TotalsOneMore(h, s, true, segs, 0);
    KnownOneMore(s, true, segs, 0);
    var _ := d(segs[0].source, true);
  }

  /** Over budget at validation means over budget, or stuck, at resolution, for every string that is
      not a lone expression. */
  lemma ChargeForetold(h: Host, s: Evaluator, d: Evaluator, segs: seq<Segment>, limit: nat)
    requires FillsIn(s, d) && !IsSingle(segs) && OverCharged(h, s, false, segs, limit)
    ensures !Resolvable(h, d, segs, limit) && Resolution(h, d, segs, limit).None?
  {
    var k :| 0 <= k <= |segs| && AllEvaluate(s, false, segs[..k]) && Saturated(Charge(h, s, false, segs[..k])) > limit;
    if AllEvaluate(d, false, segs) {
      PrefixFilled(h, s, d, segs, k);
      SumGrows(seg => SpentOf(h, d, seg), segs, k);
    }
  }

  /** A lone expression is charged by validation but not by resolution: with a known value it always
      resolves, and it passes validation exactly when its text is within the budget. */
  lemma LoneExpressionCharged(h: Host, s: Evaluator, d: Evaluator, segs: seq<Segment>, limit: nat)
    requires IsSingle(segs) && FillsIn(s, d) && AllEvaluate(s, true, segs) && AllKnown(s, true, segs)
    ensures s(segs[0].source, true).Ok?
    ensures var v := s(segs[0].source, true).value;
            && Resolution(h, d, segs, limit) == Some(v)
            && (Passes(h, s, true, segs, limit) <==> Saturated(Utf8Len(Piece(h, v))) <= limit)
  {
    SingleSound(h, s, d, segs);
    TotalsOneMore(h, s, true, segs, 0);
    assert segs[..1] == segs && segs[..0] == [];
  }

  /** It happens: a lone expression whose text is one byte over the budget fails validation and resolves. */
  lemma LoneExpressionOverBudget(h: Host, source: string)
    ensures var eval: Evaluator := (_, _) => Ok(StringValue("a"));
            var segs := [Expression(0, 5, source)];
            && FillsIn(eval, eval) && IsSingle(segs)
            && !Passes(h, eval, true, segs, 0) && Resolution(h, eval, segs, 0) == Some(StringValue("a"))
  {
    var eval: Evaluator := (_, _) => Ok(StringValue("a"));
    var segs := [Expression(0, 5, source)];
    assert Utf8Len("a") == 1 + Utf8Len("");
    LoneExpressionCharged(h, eval, eval, segs, 0);
  }

  // ---- The bounds are attained ----

  /** Every unknown expression answered by the empty string. */
  function Emptied(s: Evaluator): Evaluator {
    (source, target) =>
      match s(source, target)
      case Ok(v) => Ok(if v.UnresolvedValue? then StringValue("") else v)
      case Err(e) => Err(e)
  }

  lemma EmptiedFills(s: Evaluator)
    ensures FillsIn(s, Emptied(s))
  {}

  lemma SegmentEmptied(h: Host, s: Evaluator, seg: Segment)
    ensures LengthOf(h, s, false, seg) == |SegmentText(TextOf(h, Emptied(s)), seg)|
    ensures ChargeOf(h, s, false, seg) == SpentOf(h, Emptied(s), seg)
  {
    if seg.Expression? {
      assert Utf8Len("") == 0;
      var _ := Emptied(s)(seg.source, false);
    }
  }

  lemma {:induction false} SumSame(f: Segment -> nat, g: Segment -> nat, segs: seq<Segment>)
    requires forall k :: 0 <= k < |segs| ==> f(segs[k]) == g(segs[k])
    ensures Sum(f, segs) == Sum(g, segs)
  {
    if segs != [] { SumSame(f, g, segs[..|segs| - 1]); }
  }

  lemma {:induction false} RenderedSums(text: string -> string, f: Segment -> nat, segs: seq<Segment>, i: nat)
    requires i <= |segs| && forall k :: 0 <= k < |segs| ==> f(segs[k]) == |SegmentText(text, segs[k])|
    ensures |Rendered(text, segs[..i])| == Sum(f, segs[..i])
  {
    if i > 0 {
      RenderedSums(text, f, segs, i - 1);
      RenderedOneMore(text, segs, i - 1);
      SumOneMore(f, segs, i - 1);
    }
  }

  lemma EmptiedEvaluates(s: Evaluator, target: bool, segs: seq<Segment>)
    ensures AllEvaluate(s, target, segs) <==> AllEvaluate(Emptied(s), target, segs)
  {
    forall i | 0 <= i < |segs| ensures Evaluates(s, target, segs[i]) <==> Evaluates(Emptied(s), target, segs[i]) {}
  }

  lemma EmptiedTotals(h: Host, s: Evaluator, segs: seq<Segment>)
    ensures MinLength(h, s, false, segs) == |Rendered(TextOf(h, Emptied(s)), segs)|
    ensures Charge(h, s, false, segs) == Spent(h, Emptied(s), segs)
  {
    forall k | 0 <= k < |segs|
      ensures LengthOf(h, s, false, segs[k]) == |SegmentText(TextOf(h, Emptied(s)), segs[k])|
      ensures ChargeOf(h, s, false, segs[k]) == SpentOf(h, Emptied(s), segs[k])
    {
      SegmentEmptied(h, s, segs[k]);
    }
    RenderedSums(TextOf(h, Emptied(s)), seg => LengthOf(h, s, false, seg), segs, |segs|);
    SumSame(seg => ChargeOf(h, s, false, seg), seg => SpentOf(h, Emptied(s), seg), segs);
    assert segs[..|segs|] == segs;
  }

  /** A string that is not a lone expression passes validation exactly when it would resolve with nothing
      in place of each unknown. */
  lemma PassesExactly(h: Host, s: Evaluator, segs: seq<Segment>, limit: nat)
    requires !IsSingle(segs)
    ensures Passes(h, s, false, segs, limit) <==> Resolvable(h, Emptied(s), segs, limit)
  {
    EmptiedEvaluates(s, false, segs);
    EmptiedTotals(h, s, segs);
  }

  /** A lone expression passes exactly when it evaluates and its text, if known, is within the budget. */
  lemma LonePasses(h: Host, s: Evaluator, segs: seq<Segment>, limit: nat)
    requires IsSingle(segs)
    ensures Passes(h, s, true, segs, limit) <==>
            match s(segs[0].source, true)
            case Ok(v) => v.UnresolvedValue? || Saturated(Utf8Len(Piece(h, v))) <= limit
            case Err(_) => false
  {
    assert AllEvaluate(s, true, segs) <==> Evaluates(s, true, segs[0]);
    assert segs[..1] == segs && segs[..0] == [];
    TotalsOneMore(h, s, true, segs, 0);
  }

  /** The promised length is the least possible: with nothing in place of each unknown the string resolves,
      to exactly that many characters. */
  lemma LengthAttained(h: Host, s: Evaluator, segs: seq<Segment>, limit: nat)
    requires limit <= USIZE_MAX && Passes(h, s, IsSingle(segs), segs, limit)
    ensures FillsIn(s, Emptied(s))
    ensures var actual := Resolution(h, Emptied(s), segs, limit);
            actual.Some? && Determined(h, s, segs).minLength == Saturated(|Piece(h, actual.value)|)
  {
    EmptiedFills(s);
    if IsSingle(segs) {
      SingleSound(h, s, Emptied(s), segs);
      var _ := Emptied(s)(segs[0].source, true);
    } else {
      PassesExactly(h, s, segs, limit);
      EmptiedTotals(h, s, segs);
    }
  }

  /** The expression evaluates, to a value that is known. */
  ghost predicate Settles(s: Evaluator, target: bool, seg: Segment) {
    seg.Expression? ==> s(seg.source, target).Ok? && !s(seg.source, target).value.UnresolvedValue?
  }

  /** A value is promised exactly when every expression settles and the text they make with the literals
      is no longer than ten mebibytes; a lone expression's value is promised whatever its length. */
  lemma ValueExactly(h: Host, s: Evaluator, segs: seq<Segment>, limit: nat)
    requires limit <= USIZE_MAX && Passes(h, s, IsSingle(segs), segs, limit)
    ensures Determined(h, s, segs).value.Some? <==>
            && (forall i :: 0 <= i < |segs| ==> Settles(s, IsSingle(segs), segs[i]))
            && (IsSingle(segs) || Utf8Len(Rendered(TextOf(h, s), segs)) <= 10_485_760)
  {
    var single := IsSingle(segs);
    forall i | 0 <= i < |segs| ensures Settles(s, single, segs[i]) <==> Known(s, single, segs[i]) {
      assert Evaluates(s, single, segs[i]);
    }
    assert AllKnown(s, single, segs) <==> forall i :: 0 <= i < |segs| ==> Settles(s, single, segs[i]);
    if single { assert Evaluates(s, true, segs[0]); }
  }

  /** Of a lone unknown expression the promised type is the one the unknown is constrained to. */
  lemma TypeForetold(h: Host, s: Evaluator, segs: seq<Segment>, t: ExprType)
    requires IsSingle(segs) && s(segs[0].source, true) == Ok(UnresolvedValue(t)) && !t.Unresolved?
    ensures Determined(h, s, segs).resolvedType == t && Determined(h, s, segs).value.None?
  {
    assert !Known(s, true, segs[0]);
  }

  // ---- What is charged ----

  function NoText(): string -> string {
    _ => ""
  }

  lemma SegmentCharge(h: Host, eval: Evaluator, seg: Segment)
    requires Evaluates(eval, false, seg)
    ensures Utf8Len(SegmentText(TextOf(h, eval), seg)) == Utf8Len(SegmentText(NoText(), seg)) + SpentOf(h, eval, seg)
  {
    assert Utf8Len("") == 0;
  }

  ghost predicate AddsUp(len: string -> nat) {
    len("") == 0 && forall a, b :: len(a + b) == len(a) + len(b)
  }

  /** Lengths of two renderings differ by what their segments differ by. */
  lemma {:induction false} CostsAddUp(len: string -> nat, text: string -> string, plain: string -> string,
                                      cost: Segment -> nat, segs: seq<Segment>, i: nat)
    requires i <= |segs| && AddsUp(len)
    requires forall k :: 0 <= k < |segs| ==>
               len(SegmentText(text, segs[k])) == len(SegmentText(plain, segs[k])) + cost(segs[k])
    ensures len(Rendered(text, segs[..i])) == len(Rendered(plain, segs[..i])) + Sum(cost, segs[..i])
  {
    if i == 0 {
    } else {
      CostsAddUp(len, text, plain, cost, segs, i - 1);
      RenderedOneMore(text, segs, i - 1);
      RenderedOneMore(plain, segs, i - 1);
      SumOneMore(cost, segs, i - 1);
    }
  }

  lemma BytesAddUp()
    ensures AddsUp(s => Utf8Len(s))
  {
    forall a, b ensures Utf8Len(a + b) == Utf8Len(a) + Utf8Len(b) { Utf8LenJoin(a, b); }
  }

  /** The budget is charged for the whole text but the literals. */
  lemma ChargedForText(h: Host, eval: Evaluator, segs: seq<Segment>)
    requires AllEvaluate(eval, false, segs)
    ensures Utf8Len(Rendered(TextOf(h, eval), segs)) == Utf8Len(Rendered(NoText(), segs)) + Spent(h, eval, segs)
  {
    forall k | 0 <= k < |segs|
      ensures Utf8Len(SegmentText(TextOf(h, eval), segs[k])) ==
              Utf8Len(SegmentText(NoText(), segs[k])) + SpentOf(h, eval, segs[k])
    {
      assert Evaluates(eval, false, segs[k]);
      SegmentCharge(h, eval, segs[k]);
    }
    BytesAddUp();
    CostsAddUp(s => Utf8Len(s), TextOf(h, eval), NoText(), seg => SpentOf(h, eval, seg), segs, |segs|);
    assert segs[..|segs|] == segs;
  }

  /** What an expression's value shows as, where the expression stood. */
  lemma ShownInPlace(h: Host, eval: Evaluator, before: seq<Segment>, e: Segment, rest: seq<Segment>, shown: string)
    requires e.Expression? && eval(e.source, false).Ok?
    requires match eval(e.source, false).value
             case Null => shown == ""
             case StringValue(t) => shown == t
             case PathValue(p, _) => shown == p
             case v => shown == h.showValue(v)
    ensures Rendered(TextOf(h, eval), before + [e] + rest) ==
            Rendered(TextOf(h, eval), before) + shown + Rendered(TextOf(h, eval), rest)
  {
    var text := TextOf(h, eval);
    assert before + [e] + rest == before + ([e] + rest);
    RenderedJoin(text, before, [e] + rest);
    RenderedJoin(text, [e], rest);
    assert [e][1..] == [];
    assert Rendered(text, [e]) == shown + "" == shown;
    Assoc(Rendered(text, before), shown, Rendered(text, rest));
  }

  // ---- Escaping, all the way ----

  /** The escapes evaluate to the braces they spell. */
  ghost predicate EvaluatesEscapes(eval: Evaluator) {
    eval(OPEN_SOURCE, false) == Ok(StringValue("{{")) && eval(CLOSE_SOURCE, false) == Ok(StringValue("}}"))
  }

  lemma {:induction false} EscapesCharged(h: Host, eval: Evaluator, segs: seq<Segment>)
    requires EvaluatesEscapes(eval)
    requires forall x :: x in Sources(segs) ==> x == OPEN_SOURCE || x == CLOSE_SOURCE
    ensures AllEvaluate(eval, false, segs) && Spent(h, eval, segs) == 2 * |Sources(segs)|
  {
    if segs == [] {
    } else {
      var n := |segs| - 1;
      assert forall x :: x in Sources(segs[..n]) ==> x in Sources(segs);
      EscapesCharged(h, eval, segs[..n]);
      assert segs == segs[..n] + [segs[n]];
      if segs[n].Expression? {
        assert segs[n].source in Sources(segs);
        BracesCost();
      }
      forall i | 0 <= i < |segs| ensures Evaluates(eval, false, segs[i]) {
        if i < n { assert Evaluates(eval, false, segs[..n][i]); }
      }
    }
  }

  lemma BracesCost()
    ensures Utf8Len("{{") == 2 && Utf8Len("}}") == 2
  {
    Utf8LenAscii("{{");
    Utf8LenAscii("}}");
  }

  /** Escaping, parsing and resolving, each as the source runs it, give the string back if and only if no
      lone `{` stands directly before a `}}`, the escaped text and its segments are within their caps,
      and two bytes for each doubled brace are within the budget. */
  method EscapeAndResolve(h: Host, accepts: string -> bool, eval: Evaluator, s: string, limit: nat)
      returns (r: Option<string>)
    requires accepts(OPEN_SOURCE) && accepts(CLOSE_SOURCE) && !accepts("{ " + CLOSE_SOURCE) && EvaluatesEscapes(eval)
    requires limit <= USIZE_MAX
    ensures r == Some(s) <==>
            && !LoneBeforeClose(s) && Utf8Len(Escape(s)) <= MAX_FORMAT_STRING_LEN
            && EscapedCount(s) <= MAX_FORMAT_STRING_SEGMENTS && Saturated(2 * Doubled(s)) <= limit
    ensures r.Some? ==> r == Some(s)
  {
    var escaped := EscapeFormatString(s);
    var segs := ParseFormat(accepts, escaped);
    EscapeRoundTrip(accepts, TextOf(h, eval), s);
    if segs.Err? { return None; }
    EscapeShape(accepts, TextOf(h, eval), s);
    EscapesCharged(h, eval, segs.value);
    var text := ResolveString(h, eval, segs.value, limit);
    return if text.Ok? then Some(text.value) else None;
  }
}
