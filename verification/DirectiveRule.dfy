/** What each line of output does to the filter, said of the characters of the line: the directives'
    spelling, what they call back, and exactly what is recorded, over every run. */
module DirectiveRules {
  import opened Wrappers
  import opened Strings
  import opened Sequences
  import opened Whitespace
  import opened Redaction
  import opened ActionFilters

  // ---- Spelling ----

  function NameOf(k: Kind): string {
    match k
    case Progress => "progress"
    case Status => "status"
    case Fail => "fail"
    case Env => "env"
    case RedactedEnv => "redacted_env"
    case UnsetEnv => "unset_env"
    case SessionRuntimeLoglevel => "session_runtime_loglevel"
  }

  lemma NameRead(k: Kind)
    ensures KindOf(NameOf(k)) == Some(k) && ':' !in NameOf(k)
  {}

  lemma ReadName(name: string)
    requires KindOf(name).Some?
    ensures NameOf(KindOf(name).value) == name
  {}

  lemma Spelled(m: string) returns (name: string)
    requires ParseDirective(m).Some?
    ensures var (k, payload) := ParseDirective(m).value;
            KindOf(name) == Some(k) && payload != "" && m == PREFIX + (name + (": " + payload))
  {
    var rest := m[|PREFIX|..];
    var colon := FindFrom(rest, ": ", 0).value;
    name := rest[..colon];
    Rejoin(rest, colon);
    SplitAt(m, |PREFIX|);
  }

  lemma SpelledAs(m: string, name: string, k: Kind, payload: string)
    requires KindOf(name) == Some(k) && payload != "" && m == PREFIX + (name + (": " + payload))
    ensures ParseDirective(m) == Some((k, payload))
  {
    ReadName(name);
    NameRead(k);
    NamedParses(name, payload);
  }

  /** A directive is `openjd_`, one of the seven names, a colon and a space, and a payload. */
  lemma DirectiveExactly(m: string, k: Kind, payload: string)
    ensures ParseDirective(m) == Some((k, payload)) <==>
            payload != "" && m == "openjd_" + (NameOf(k) + (": " + payload))
  {
    if ParseDirective(m) == Some((k, payload)) {
      var name := Spelled(m);
      ReadName(name);
    } else if payload != "" && m == "openjd_" + (NameOf(k) + (": " + payload)) {
      NameRead(k);
      SpelledAs(m, NameOf(k), k, payload);
    }
  }

  // ---- Assignments ----

  ghost predicate IsLetter(c: char) {
    'A' <= c <= 'Z' || 'a' <= c <= 'z' || c == '_'
  }

  /** A letter or underscore, then letters, digits and underscores. */
  ghost predicate VariableName(s: string) {
    s != "" && IsLetter(s[0]) && forall i :: 0 <= i < |s| ==> IsLetter(s[i]) || '0' <= s[i] <= '9'
  }

  lemma {:induction false} SpanIs(t: string, n: nat)
    ensures NameSpan(t) == n <==>
            && n <= |t| && (forall i :: 0 <= i < n ==> IsLetter(t[i]) || '0' <= t[i] <= '9')
            && (n < |t| ==> !(IsLetter(t[n]) || '0' <= t[n] <= '9'))
  {
    if t != "" && IsNameChar(t[0]) {
      if n > 0 {
        SpanIs(t[1..], n - 1);
        assert forall i :: 0 < i < |t| ==> t[i] == t[1..][i - 1];
      }
    }
  }

  /** `IsName` is the whole text being such a name. */
  lemma NameExactly(t: string)
    ensures IsName(t) <==> VariableName(t)
  {
    SpanIs(t, |t|);
  }

  ghost predicate Assigns(t: string, name: string, value: string) {
    t == name + ("=" + value) && VariableName(name)
  }

  lemma AssignedAt(t: string, n: nat)
    requires NameSpan(t) == n && 0 < n < |t| && IsNameStart(t[0]) && t[n] == '='
    ensures Assigns(t, t[..n], t[n + 1..]) && NoEquals(t[..n])
  {
    SpanIs(t, n);
    JoinedAt(t, n);
  }

  lemma JoinedAt(t: string, n: nat)
    requires n < |t| && t[n] == '='
    ensures t == t[..n] + ("=" + t[n + 1..])
  {}

  lemma AssignedSpan(t: string, name: string, value: string)
    requires Assigns(t, name, value)
    ensures NameSpan(t) == |name| && t[0] == name[0] && t[|name|] == '=' && t[..|name|] == name
    ensures t[|name| + 1..] == value && NoEquals(name)
  {
    SpanIs(t, |name|);
  }

  /** An assignment, after an optional quotation mark, is a name, `=`, and text on one line. */
  lemma AssignmentExactly(t: string)
    ensures IsAssignment(t) <==>
            var u := if t != "" && t[0] == '"' then t[1..] else t;
            exists name, value :: Assigns(u, name, value) && '\n' !in value
  {
    var u := if t != "" && t[0] == '"' then t[1..] else t;
    if IsAssignment(t) { AssignedAt(u, NameSpan(u)); }
    forall name, value | Assigns(u, name, value) && '\n' !in value ensures IsAssignment(t) {
      AssignedSpan(u, name, value);
    }
  }

  /** The text splits at its first `=`, and neither half holds a NUL. */
  ghost predicate SplitsInto(t: string, name: string, value: string) {
    t == name + ("=" + value) && NoEquals(name) && (0 as char) !in name && (0 as char) !in value
  }

  lemma PairExactly(t: string, name: string, value: string)
    ensures FromPair(SplitOnce(t)) == Ok((name, value)) <==> SplitsInto(t, name, value)
  {
    if FindFrom(t, "=", 0).Some? {
      FoundEquals(t);
      var k := FindFrom(t, "=", 0).value;
      JoinedAt(t, k);
    }
    if SplitsInto(t, name, value) {
      EqualsIndex(t, |name|);
      assert t[..|name|] == name && t[|name| + 1..] == value;
    }
  }

  lemma {:induction false} BlanksTrimmed(blanks: string, t: string)
    requires (forall i :: 0 <= i < |blanks| ==> IsWhiteSpace(blanks[i])) && (t != "" ==> !IsWhiteSpace(t[0]))
    ensures TrimStart(blanks + t) == t
  {
    if blanks == "" {
      assert blanks + t == t;
    } else {
      BlanksTrimmed(blanks[1..], t);
      assert (blanks + t)[1..] == blanks[1..] + t;
    }
  }

  /** What an assignment reads as, after any blanks: a name, `=` and a value on one line without NUL; or in
      quotation marks, what the text decodes to, split at its first `=`. */
  lemma ReadsExactly(h: Host, blanks: string, t: string, name: string, value: string)
    requires (forall i :: 0 <= i < |blanks| ==> IsWhiteSpace(blanks[i])) && (t != "" ==> !IsWhiteSpace(t[0]))
    ensures ParseEnvVariable(h, blanks + t) == Ok((name, value)) <==>
            if t != "" && t[0] == '"' then
              && (exists n, v :: Assigns(t[1..], n, v) && '\n' !in v)
              && h.decodeJson(t).Ok? && SplitsInto(h.decodeJson(t).value, name, value)
            else Assigns(t, name, value) && '\n' !in value && (0 as char) !in value
  {
    BlanksTrimmed(blanks, t);
    AssignmentExactly(t);
    if t != "" && t[0] == '"' {
      if h.decodeJson(t).Ok? { PairExactly(h.decodeJson(t).value, name, value); }
    } else {
      PlainReads(t, name, value);
    }
  }

  lemma PlainReads(t: string, name: string, value: string)
    ensures (exists n, v :: Assigns(t, n, v) && '\n' !in v) && FromPair(SplitOnce(t)) == Ok((name, value)) <==>
            Assigns(t, name, value) && '\n' !in value && (0 as char) !in value
  {
    PairExactly(t, name, value);
    if Assigns(t, name, value) {
      AssignedSpan(t, name, value);
    }
    forall n, v | Assigns(t, n, v) && SplitsInto(t, name, value) ensures n == name && v == value {
      AssignedSpan(t, n, v);
      EqualsIndex(t, |n|);
      EqualsIndex(t, |name|);
      assert t[..|name|] == name && t[|name| + 1..] == value;
    }
  }

  // ---- Callbacks ----

  /** A line of this session calls back `cbs`, and is shown as `shown`, masked. */
  ghost predicate Answers(h: Host, cfg: Config, st: State, m: string, cbs: seq<Callback>, pass: bool, shown: string) {
    Step(h, cfg, st, m, cfg.session).1 ==
    match Redacted(st.values, st.lines, shown) case Some(text) => Some(Outcome(cbs, pass, text)) case None => None
  }

  ghost function Line(k: Kind, payload: string): string {
    "openjd_" + (NameOf(k) + (": " + payload))
  }

  lemma Taken(h: Host, cfg: Config, st: State, k: Kind, p: string, m: string, cbs: seq<Callback>)
    requires p != "" && m == Line(k, p) && !k.RedactedEnv? && Read(h, k, p) == Ok(cbs)
    ensures Answers(h, cfg, st, m, cbs, cfg.echo, m)
    ensures Step(h, cfg, st, m, cfg.session).0 == st.(level := NextLevel(h, st.level, m))
    ensures ParseDirective(m) == Some((k, p))
  {
    DirectiveExactly(m, k, p);
  }

  lemma Refused(h: Host, cfg: Config, st: State, k: Kind, p: string, m: string, e: string, cbs: seq<Callback>,
                shown: string)
    requires p != "" && m == Line(k, p) && !k.RedactedEnv? && Read(h, k, p) == Err(e)
    requires cbs == Complaints(k, e) && shown == m + " -- ERROR: " + e
    ensures Answers(h, cfg, st, m, cbs, true, shown)
  {
    DirectiveExactly(m, k, p);
  }

  /** A status or a failure calls back under its own kind with its payload. */
  lemma TextAnswered(h: Host, cfg: Config, st: State, k: Kind, p: string, m: string)
    requires p != "" && (k.Status? || k.Fail?) && m == Line(k, p)
    ensures Answers(h, cfg, st, m, [Callback(k, Text(p), false)], cfg.echo, m)
  {
    Taken(h, cfg, st, k, p, m, [Callback(k, Text(p), false)]);
  }

  /** A progress calls back its number if that is between 0 and 100, and is otherwise shown as wrong. */
  lemma ProgressAnswered(h: Host, cfg: Config, st: State, p: string, m: string)
    requires p != "" && m == Line(Progress, p)
    ensures var x := h.parseFloat(Trim(p));
            if x.Some? && 0.0 <= x.value <= 100.0 then
              Answers(h, cfg, st, m, [Callback(Progress, Number(x.value), false)], cfg.echo, m)
            else Answers(h, cfg, st, m, [], true, m + " -- ERROR: " + BAD_PROGRESS)
  {
    var x := h.parseFloat(Trim(p));
    if x.Some? && 0.0 <= x.value <= 100.0 {
      Taken(h, cfg, st, Progress, p, m, [Callback(Progress, Number(x.value), false)]);
    } else {
      Refused(h, cfg, st, Progress, p, m, BAD_PROGRESS, [], m + " -- ERROR: " + BAD_PROGRESS);
    }
  }

  lemma EnvReads(h: Host, p: string)
    ensures match ParseEnvVariable(h, p)
            case Ok((name, value)) => Read(h, Env, p) == Ok([Callback(Env, EnvVar(name, value), false)])
            case Err(e) => Read(h, Env, p) == Err(e)
  {}

  /** An assignment calls back its name and value. */
  lemma EnvAnswered(h: Host, cfg: Config, st: State, p: string, m: string, name: string, value: string)
    requires p != "" && m == Line(Env, p) && ParseEnvVariable(h, p) == Ok((name, value))
    ensures Answers(h, cfg, st, m, [Callback(Env, EnvVar(name, value), false)], cfg.echo, m)
  {
    EnvReads(h, p);
    Taken(h, cfg, st, Env, p, m, [Callback(Env, EnvVar(name, value), false)]);
  }

  /** One that does not parse cancels the action with the reason. */
  lemma EnvRefused(h: Host, cfg: Config, st: State, p: string, m: string, e: string, shown: string)
    requires p != "" && m == Line(Env, p) && ParseEnvVariable(h, p) == Err(e) && shown == m + " -- ERROR: " + e
    ensures Answers(h, cfg, st, m, [Callback(Env, Text(e), true)], true, shown)
  {
    EnvReads(h, p);
    Refused(h, cfg, st, Env, p, m, e, [Callback(Env, Text(e), true)], shown);
  }

  /** An unset calls back the variable's name, or cancels the action. */
  lemma UnsetAnswered(h: Host, cfg: Config, st: State, p: string, m: string)
    requires p != "" && m == Line(UnsetEnv, p)
    ensures if VariableName(TrimStart(p)) then
              Answers(h, cfg, st, m, [Callback(UnsetEnv, Text(TrimStart(p)), false)], cfg.echo, m)
            else Answers(h, cfg, st, m, [Callback(UnsetEnv, Text(BAD_NAME), true)], true, m + " -- ERROR: " + BAD_NAME)
  {
    NameExactly(TrimStart(p));
    if VariableName(TrimStart(p)) {
      Taken(h, cfg, st, UnsetEnv, p, m, [Callback(UnsetEnv, Text(TrimStart(p)), false)]);
    } else {
      Refused(h, cfg, st, UnsetEnv, p, m, BAD_NAME, [Callback(UnsetEnv, Text(BAD_NAME), true)],
              m + " -- ERROR: " + BAD_NAME);
    }
  }

  const LEVELS: map<string, nat> := map["DEBUG" := 10, "INFO" := 20, "WARNING" := 30, "ERROR" := 40]

  lemma LevelIs(h: Host, p: string, name: string)
    requires name == h.toUpper(Trim(p))
    ensures LevelOf(h, p) == if name in LEVELS then Some(LEVELS[name]) else None
  {}

  lemma LevelReads(h: Host, cfg: Config, st: State, p: string, m: string, r: Option<nat>)
    requires p != "" && m == Line(SessionRuntimeLoglevel, p) && LevelOf(h, p) == r
    ensures match r
            case Some(n) =>
              && Answers(h, cfg, st, m, [Callback(SessionRuntimeLoglevel, LogLevel(n), false)], cfg.echo, m)
              && Step(h, cfg, st, m, cfg.session).0 == st.(level := n)
            case None => Answers(h, cfg, st, m, [], cfg.echo, m) && Step(h, cfg, st, m, cfg.session).0 == st
  {
    Taken(h, cfg, st, SessionRuntimeLoglevel, p, m,
          match r case Some(n) => [Callback(SessionRuntimeLoglevel, LogLevel(n), false)] case None => []);
  }

  /** A log level takes effect and is called back, if it is one of the four. */
  lemma LevelAnswered(h: Host, cfg: Config, st: State, p: string, m: string, name: string)
    requires p != "" && m == Line(SessionRuntimeLoglevel, p) && name == h.toUpper(Trim(p))
    ensures if name in LEVELS then
              && Answers(h, cfg, st, m, [Callback(SessionRuntimeLoglevel, LogLevel(LEVELS[name]), false)], cfg.echo, m)
              && Step(h, cfg, st, m, cfg.session).0 == st.(level := LEVELS[name])
            else Answers(h, cfg, st, m, [], cfg.echo, m) && Step(h, cfg, st, m, cfg.session).0 == st
  {
    LevelIs(h, p, name);
    LevelReads(h, cfg, st, p, m, if name in LEVELS then Some(LEVELS[name]) else None);
  }

  /** A redacted assignment calls back its name and value; one that does not parse cancels the action
      unless redactions are enabled. Its line is cut after the first `=`, or after the directive's name. */
  lemma RedactedAnswered(h: Host, cfg: Config, st: State, p: string, m: string)
    requires p != "" && m == Line(RedactedEnv, p)
    ensures ShownUpTo(m) <= |m|
    ensures Step(h, cfg, st, m, cfg.session).1 ==
            Some(Outcome(
                   match ParseEnvVariable(h, p)
                   case Ok((name, value)) => [Callback(RedactedEnv, EnvVar(name, value), false)]
                   case Err(_) => if cfg.redactions then [] else [Callback(Env, Text(BAD_ASSIGNMENT), true)],
                   cfg.echo, m[..ShownUpTo(m)] + STARS))
  {
    DirectiveExactly(m, RedactedEnv, p);
    ShownPrefix(m);
    TrimTwice(p);
  }

  lemma {:induction false} TrimTwice(p: string)
    ensures TrimStart(TrimStart(p)) == TrimStart(p)
  {
    if p != "" && IsWhiteSpace(p[0]) { TrimTwice(p[1..]); }
  }

  /** The text is one of the three commands, alone or before a colon or a space. */
  ghost predicate StartsCommand(lower: string) {
    exists name :: name in {"openjd_env", "openjd_redacted_env", "openjd_unset_env"}
      && name <= lower && (|lower| == |name| || lower[|name|] == ':' || lower[|name|] == ' ')
  }

  lemma NamedExactly(lower: string, name: string)
    ensures NamedCommand(lower, name) <==>
            name <= lower && (|lower| == |name| || lower[|name|] == ':' || lower[|name|] == ' ')
  {
    if name <= lower && |lower| > |name| {
      assert lower[..|name| + 1] == name + [lower[|name|]];
    }
  }

  lemma MalformedExactly(h: Host, m: string)
    ensures IsMalformed(h, m) <==> StartsCommand(h.toLower(TrimStart(m)))
  {
    var lower := h.toLower(TrimStart(m));
    NamedExactly(lower, "openjd_env");
    NamedExactly(lower, "openjd_redacted_env");
    NamedExactly(lower, "openjd_unset_env");
  }

  /** A line that is no directive is passed on as it is, masked. */
  lemma OtherPassed(h: Host, cfg: Config, st: State, m: string)
    requires ParseDirective(m).None? && !StartsCommand(h.toLower(TrimStart(m)))
    ensures Answers(h, cfg, st, m, [], true, m) && Step(h, cfg, st, m, cfg.session).0 == st
  {
    MalformedExactly(h, m);
  }

  /** Unless it looks like one of the environment commands, which cancels the action. */
  lemma OtherRefused(h: Host, cfg: Config, st: State, m: string, error: string, shown: string)
    requires ParseDirective(m).None? && StartsCommand(h.toLower(TrimStart(m)))
    requires error == MalformedText(m) && shown == m + " -- ERROR: " + error
    ensures Answers(h, cfg, st, m, [Callback(Fail, Text(error), true)], true, shown)
    ensures Step(h, cfg, st, m, cfg.session).0 == st
  {
    MalformedExactly(h, m);
  }

  // ---- What is recorded, over every run ----

  /** Only redacted_env directives of this session record anything, and lines of other sessions are left
      alone. */
  lemma NothingRecorded(h: Host, cfg: Config, st: State, m: string, session: string)
    requires session != cfg.session || !IsRedactedEnv(m)
    ensures var after := Step(h, cfg, st, m, session).0; after.values == st.values && after.lines == st.lines
    ensures session != cfg.session ==> Step(h, cfg, st, m, session) == (st, Some(Outcome([], true, m)))
  {}

  /** The state before and after the `i`th message of a run. */
  ghost predicate Between(h: Host, cfg: Config, st: State, events: seq<Event>, i: nat, m: string, was: State,
                          now: State)
  {
    && i < |events| && events[i] == Event(m, cfg.session)
    && was == StateAfter(h, cfg, st, events[..i]) && now == StateAfter(h, cfg, st, events[..i + 1])
  }

  lemma StepBetween(h: Host, cfg: Config, st: State, events: seq<Event>, i: nat, m: string, p: string, was: State,
                    now: State)
    requires Between(h, cfg, st, events, i, m, was, now) && p != "" && m == Line(RedactedEnv, p)
    ensures now == Record(h, was, p)
  {
    assert events[..i + 1][..i] == events[..i];
    DirectiveExactly(m, RedactedEnv, p);
  }

  lemma ValuesOf(value: string, parts: seq<string>, x: string)
    requires parts == Split('\n', value)
    ensures x in RecordedValues(value) <==> x != "" && (x == value || x == parts[0] || x == parts[|parts| - 1])
  {}

  lemma LinesOf(value: string, parts: seq<string>, x: string)
    requires parts == Split('\n', value)
    ensures x in RecordedLines(value) <==> x != "" && exists k :: 0 < k < |parts| - 1 && parts[k] == x
  {}

  lemma AssignmentRecorded(h: Host, was: State, p: string, name: string, value: string)
    requires ParseEnvVariable(h, p) == Ok((name, value))
    ensures Record(h, was, p) ==
            was.(values := was.values + RecordedValues(value), lines := was.lines + RecordedLines(value))
  {
    TrimTwice(p);
  }

  /** A redacted assignment records, beyond what was recorded, exactly its value with the value's first and
      last lines, and separately the lines between; nothing empty. */
  lemma RecordsExactly(h: Host, cfg: Config, st: State, events: seq<Event>, i: nat, m: string, p: string, name: string,
                       value: string, parts: seq<string>, was: State, now: State, x: string)
    requires Between(h, cfg, st, events, i, m, was, now) && p != "" && m == Line(RedactedEnv, p)
    requires ParseEnvVariable(h, p) == Ok((name, value)) && parts == Split('\n', value)
    ensures x in now.values <==>
            x in was.values || (x != "" && (x == value || x == parts[0] || x == parts[|parts| - 1]))
    ensures x in now.lines <==> x in was.lines || (x != "" && exists k :: 0 < k < |parts| - 1 && parts[k] == x)
  {
    StepBetween(h, cfg, st, events, i, m, p, was, now);
    AssignmentRecorded(h, was, p, name, value);
    ValuesOf(value, parts, x);
    LinesOf(value, parts, x);
  }

  /** The first character from `a` on that is not blank, if there is one. */
  ghost predicate BlankUpTo(m: string, a: nat, w: nat) {
    a <= w <= |m| && (forall k :: a <= k < w ==> IsWhiteSpace(m[k])) && (w < |m| ==> !IsWhiteSpace(m[w]))
  }

  /** Where the text starts that a payload which does not parse still records: after the line's first `=`, or
      without one at the payload's first character that is not blank. */
  ghost predicate SalvagedFrom(m: string, from: nat) {
    from <= |m| &&
    if '=' in m then from > 0 && m[from - 1] == '=' && forall k :: 0 <= k < from - 1 ==> m[k] != '='
    else BlankUpTo(m, |REDACTED_TOKEN|, from)
  }

  lemma AfterEquals(pre: string, t: string, m: string, from: nat)
    requires m == pre + t && NoEquals(pre) && 0 < from <= |m|
    requires m[from - 1] == '=' && forall k :: 0 <= k < from - 1 ==> m[k] != '='
    ensures SalvagedValues(t) == if m[from..] == "" then {} else {m[from..]}
  {
    EqualsIndex(m, from - 1);
    FirstEquals(pre, t);
    AfterPrefix(pre, t, from);
  }

  lemma AfterPrefix(pre: string, t: string, from: nat)
    requires |pre| <= from <= |pre + t|
    ensures (pre + t)[from..] == t[from - |pre|..]
  {}

  lemma WithoutEquals(pre: string, t: string, m: string)
    requires m == pre + t && NoEquals(m)
    ensures SalvagedValues(t) == if m[|pre|..] == "" then {} else {m[|pre|..]}
  {
    AfterPrefix(pre, t, |pre|);
    forall i | 0 <= i < |t| ensures t[i] != '=' { assert m[|pre| + i] == t[i]; }
    EqualsNone(t);
  }

  lemma SalvagedText(p: string, m: string, from: nat)
    requires m == REDACTED_TOKEN + p && SalvagedFrom(m, from)
    ensures SalvagedValues(TrimStart(p)) == if m[from..] == "" then {} else {m[from..]}
  {
    var w := TrimStartSkips(p);
    TrimmedFront(p);
    var pre, t := REDACTED_TOKEN + p[..w], p[w..];
    SplitAt(p, w);
    Assoc(REDACTED_TOKEN, p[..w], t);
    if '=' in m {
      AfterEquals(pre, t, m, from);
    } else {
      BlanksOnce(m, |REDACTED_TOKEN|, from, |pre|);
      WithoutEquals(pre, t, m);
    }
  }

  lemma BlanksOnce(m: string, a: nat, v: nat, w: nat)
    requires BlankUpTo(m, a, v) && BlankUpTo(m, a, w)
    ensures v == w
  {}

  lemma {:induction false} TrimmedFront(p: string)
    ensures TrimStart(p) != "" ==> !IsWhiteSpace(TrimStart(p)[0])
  {
    if p != "" && IsWhiteSpace(p[0]) { TrimmedFront(p[1..]); }
  }

  lemma UnparsedRecorded(h: Host, was: State, p: string)
    requires ParseEnvVariable(h, p).Err?
    ensures Record(h, was, p) == was.(values := was.values + SalvagedValues(TrimStart(p)))
  {
    TrimTwice(p);
  }

  lemma LineIsToken(p: string)
    ensures Line(RedactedEnv, p) == REDACTED_TOKEN + p
  {
    TokenText(p);
  }

  /** A redacted_env directive whose assignment does not parse records, beyond what was recorded, exactly the
      text after the line's first `=`, or the whole payload without its leading blanks; nothing empty. */
  lemma SalvagedExactly(h: Host, cfg: Config, st: State, events: seq<Event>, i: nat, m: string, p: string, from: nat,
                        was: State, now: State)
    requires Between(h, cfg, st, events, i, m, was, now) && p != "" && m == "openjd_redacted_env: " + p
    requires ParseEnvVariable(h, p).Err? && SalvagedFrom(m, from)
    ensures now == was.(values := was.values + if m[from..] == "" then {} else {m[from..]})
  {
    LineIsToken(p);
    StepBetween(h, cfg, st, events, i, m, p, was, now);
    UnparsedRecorded(h, was, p);
    SalvagedText(p, m, from);
  }

  /** So no later line of this session shows that text, if it can be hidden at all. */
  lemma SalvagedHidden(h: Host, cfg: Config, st: State, events: seq<Event>, i: nat, m: string, p: string, from: nat,
                       j: nat, o: Outcome)
    requires i < j < |events| && events[i] == Event(m, cfg.session) && p != "" && m == "openjd_redacted_env: " + p
    requires ParseEnvVariable(h, p).Err? && SalvagedFrom(m, from) && m[from..] != ""
    requires events[j].session == cfg.session && !IsRedactedEnv(events[j].message)
    requires OutcomeOf(h, cfg, st, events, j) == Some(o)
    ensures Hideable(m[from..]) ==> !Contains(o.message, m[from..])
    ensures !Contains(m[from..], STARS) ==> o.message != m[from..]
  {
    var was, now := StateAfter(h, cfg, st, events[..i]), StateAfter(h, cfg, st, events[..i + 1]);
    SalvagedExactly(h, cfg, st, events, i, m, p, from, was, now);
    NoSecretLater(h, cfg, st, events, i + 1, j, m[from..], o);
  }
}
