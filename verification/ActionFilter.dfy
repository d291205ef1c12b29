/** The stdout filter: it reads `openjd_` directives, records secrets and masks them from then on. */
module ActionFilters {
  import opened Wrappers
  import opened Strings
  import opened Sequences
  import opened Whitespace
  import opened Redaction

  datatype Kind = Progress | Status | Fail | Env | RedactedEnv | UnsetEnv | SessionRuntimeLoglevel

  datatype Payload = Number(x: real) | Text(s: string) | EnvVar(name: string, value: string) | LogLevel(level: nat)

  datatype Callback = Callback(kind: Kind, payload: Payload, cancel: bool)

  /** What the filter takes from libraries: number parsing, JSON decoding with its error text, and
      case folding. */
  datatype Host = Host(
    parseFloat: string -> Option<real>,
    decodeJson: string -> Result<string, string>,
    toLower: string -> string,
    toUpper: string -> string)

  // ---- Directives ----

  const PREFIX := "openjd_"
  const REDACTED_TOKEN := "openjd_redacted_env: "

  function KindOf(name: string): Option<Kind> {
    if name == "progress" then Some(Progress)
    else if name == "status" then Some(Status)
    else if name == "fail" then Some(Fail)
    else if name == "env" then Some(Env)
    else if name == "redacted_env" then Some(RedactedEnv)
    else if name == "unset_env" then Some(UnsetEnv)
    else if name == "session_runtime_loglevel" then Some(SessionRuntimeLoglevel)
    else None
  }

  function ParseDirective(line: string): Option<(Kind, string)> {
    if !(PREFIX <= line) then None
    else
      var rest := line[|PREFIX|..];
      match FindFrom(rest, ": ", 0)
      case None => None
      case Some(colon) =>
        var payload := rest[colon + 2..];
        if payload == "" then None
        else match KindOf(rest[..colon]) case Some(k) => Some((k, payload)) case None => None
  }

  predicate NamedCommand(lower: string, name: string) {
    name + ":" <= lower || name + " " <= lower || lower == name
  }

  predicate IsMalformed(h: Host, line: string) {
    var lower := h.toLower(TrimStart(line));
    || NamedCommand(lower, "openjd_env")
    || NamedCommand(lower, "openjd_redacted_env")
    || NamedCommand(lower, "openjd_unset_env")
  }

  // ---- Environment variables ----

  predicate IsNameStart(c: char) {
    'A' <= c <= 'Z' || 'a' <= c <= 'z' || c == '_'
  }

  predicate IsNameChar(c: char) {
    IsNameStart(c) || '0' <= c <= '9'
  }

  function NameSpan(t: string): (n: nat)
    ensures n <= |t|
  {
    if t == "" || !IsNameChar(t[0]) then 0 else 1 + NameSpan(t[1..])
  }

  predicate IsName(t: string) {
    t != "" && IsNameStart(t[0]) && NameSpan(t) == |t|
  }

  /** An optional quotation mark, a name, `=`, and no line break after it. */
  predicate IsAssignment(t: string) {
    var u := if t != "" && t[0] == '"' then t[1..] else t;
    var n := NameSpan(u);
    n > 0 && IsNameStart(u[0]) && n < |u| && u[n] == '=' && '\n' !in u[n + 1..]
  }

  const BAD_ASSIGNMENT := "Failed to parse environment variable assignment."

  function SplitOnce(t: string): Option<(string, string)> {
    match FindFrom(t, "=", 0) case Some(k) => Some((t[..k], t[k + 1..])) case None => None
  }

  function CheckNul(name: string, value: string): Result<(string, string), string> {
    if (0 as char) in name then Err("Environment variable name contains a NUL byte and cannot be set.")
    else if (0 as char) in value then
      Err("Environment variable '" + name + "' value contains a NUL byte and cannot be set.")
    else Ok((name, value))
  }

  function ParseEnvVariable(h: Host, message: string): Result<(string, string), string> {
    var trimmed := TrimStart(message);
    if !IsAssignment(trimmed) then Err(BAD_ASSIGNMENT)
    else if trimmed[0] == '"' then
      match h.decodeJson(trimmed)
      case Err(e) => Err("JSON decode error: " + e)
      case Ok(decoded) => FromPair(SplitOnce(decoded))
    else FromPair(SplitOnce(trimmed))
  }

  function FromPair(p: Option<(string, string)>): Result<(string, string), string> {
    match p case Some((name, value)) => CheckNul(name, value) case None => Err(BAD_ASSIGNMENT)
  }

  // ---- What a redacted_env directive records ----

  /** The whole value, and its first and last lines. */
  function RecordedValues(value: string): set<string> {
    if value == "" then {}
    else
      var parts := Split('\n', value);
      {value} + (set i | 0 <= i < |parts| && parts[i] != "" && (i == 0 || i == |parts| - 1) :: parts[i])
  }

  /** The lines between, which are masked only as whole lines. */
  function RecordedLines(value: string): set<string> {
    var parts := Split('\n', value);
    set i | 0 < i < |parts| - 1 && parts[i] != "" :: parts[i]
  }

  /** What a payload that does not parse still records. */
  function SalvagedValues(trimmed: string): set<string> {
    match FindFrom(trimmed, "=", 0)
    case Some(k) => if trimmed[k + 1..] == "" then {} else {trimmed[k + 1..]}
    case None => if trimmed == "" then {} else {trimmed}
  }

  /** The line shown for the directive: nothing after the first `=`, or after the directive's name. */
  function RedactEnvMessage(original: string, payload: string): string {
    match FindFrom(payload, "=", 0)
    case Some(eq) =>
      var at := match FindFrom(original, payload, 0) case Some(p) => p case None => 0;
      var end := at + eq + 1;
      (if end <= |original| then original[..end] else original) + STARS
    case None =>
      match FindFrom(original, REDACTED_TOKEN, 0)
      case Some(p) => original[..p + |REDACTED_TOKEN|] + STARS
      case None => REDACTED_TOKEN + STARS
  }

  // ---- One message ----

  datatype Config = Config(session: string, echo: bool, redactions: bool)

  datatype State = State(values: set<string>, lines: set<string>, level: nat)

  datatype Outcome = Outcome(callbacks: seq<Callback>, passThrough: bool, message: string)

  const BAD_PROGRESS := "Progress must be a floating point value between 0.0 and 100.0, inclusive."
  const BAD_NAME := "Failed to parse environment variable name."

  function Annotated(message: string, error: string): string {
    message + " -- ERROR: " + error
  }

  function LevelOf(h: Host, payload: string): Option<nat> {
    var name := h.toUpper(Trim(payload));
    if name == "DEBUG" then Some(10)
    else if name == "INFO" then Some(20)
    else if name == "WARNING" then Some(30)
    else if name == "ERROR" then Some(40)
    else None
  }

  /** What a directive other than redacted_env calls back, or why it is wrong. */
  function Read(h: Host, kind: Kind, payload: string): Result<seq<Callback>, string> {
    match kind
    case Progress =>
      (match h.parseFloat(Trim(payload))
       case Some(x) => if 0.0 <= x <= 100.0 then Ok([Callback(Progress, Number(x), false)]) else Err(BAD_PROGRESS)
       case None => Err(BAD_PROGRESS))
    case Status => Ok([Callback(Status, Text(payload), false)])
    case Fail => Ok([Callback(Fail, Text(payload), false)])
    case Env =>
      (match ParseEnvVariable(h, payload)
       case Ok((name, value)) => Ok([Callback(Env, EnvVar(name, value), false)])
       case Err(e) => Err(e))
    case UnsetEnv =>
      var trimmed := TrimStart(payload);
      if IsName(trimmed) then Ok([Callback(UnsetEnv, Text(trimmed), false)]) else Err(BAD_NAME)
    case SessionRuntimeLoglevel =>
      (match LevelOf(h, payload)
       case Some(n) => Ok([Callback(SessionRuntimeLoglevel, LogLevel(n), false)])
       case None => Ok([]))
    case RedactedEnv => Ok([])
  }

  /** Wrong env and unset_env directives cancel the action; a wrong progress does not. */
  function Complaints(kind: Kind, error: string): seq<Callback> {
    if kind.Env? || kind.UnsetEnv? then [Callback(kind, Text(error), true)] else []
  }

  function MalformedText(message: string): string {
    "Open Job Description: Incorrectly formatted openjd env command (" + message + ")"
  }

  /** Callbacks, pass-through and the text still to be masked, for all lines but redacted_env ones. */
  function Ordinary(h: Host, echo: bool, message: string): Outcome {
    match ParseDirective(message)
    case Some((kind, payload)) =>
      (match Read(h, kind, payload)
       case Ok(cbs) => Outcome(cbs, echo, message)
       case Err(e) => Outcome(Complaints(kind, e), true, Annotated(message, e)))
    case None =>
      if IsMalformed(h, message) then
        Outcome([Callback(Fail, Text(MalformedText(message)), true)], true, Annotated(message, MalformedText(message)))
      else Outcome([], true, message)
  }

  predicate IsRedactedEnv(message: string) {
    ParseDirective(message).Some? && ParseDirective(message).value.0.RedactedEnv?
  }

  /** The state after a redacted_env directive. */
  function Record(h: Host, st: State, payload: string): State {
    var trimmed := TrimStart(payload);
    match ParseEnvVariable(h, trimmed)
    case Ok((_, value)) => st.(values := st.values + RecordedValues(value), lines := st.lines + RecordedLines(value))
    case Err(_) => st.(values := st.values + SalvagedValues(trimmed))
  }

  function RedactedEnvCallbacks(h: Host, redactions: bool, payload: string): seq<Callback> {
    match ParseEnvVariable(h, TrimStart(payload))
    case Ok((name, value)) => [Callback(RedactedEnv, EnvVar(name, value), false)]
    case Err(_) => if redactions then [] else [Callback(Env, Text(BAD_ASSIGNMENT), true)]
  }

  function NextLevel(h: Host, level: nat, message: string): nat {
    match ParseDirective(message)
    case Some((SessionRuntimeLoglevel, payload)) => (match LevelOf(h, payload) case Some(n) => n case None => level)
    case _ => level
  }

  /** The whole effect of `filter_message`: the state after it and what it returns, None for a panic. */
  ghost function Step(h: Host, cfg: Config, st: State, message: string, session: string): (State, Option<Outcome>) {
    if session != cfg.session then (st, Some(Outcome([], true, message)))
    else if IsRedactedEnv(message) then
      var payload := ParseDirective(message).value.1;
      (Record(h, st, payload),
       Some(Outcome(RedactedEnvCallbacks(h, cfg.redactions, payload), cfg.echo,
                    RedactEnvMessage(message, TrimStart(payload)))))
    else
      var o := Ordinary(h, cfg.echo, message);
      (st.(level := NextLevel(h, st.level, message)),
       match Redacted(st.values, st.lines, o.message) case Some(m) => Some(o.(message := m)) case None => None)
  }

  class ActionFilter {
    const sessionId: string
    const echo: bool
    const redactionsEnabled: bool
    var redactedValues: set<string>
    var redactedLines: set<string>
    var logLevel: nat

    ghost function Settings(): Config {
      Config(sessionId, echo, redactionsEnabled)
    }

    ghost function Secrets(): State
      reads this
    {
      State(redactedValues, redactedLines, logLevel)
    }

    constructor (session: string, echoDirectives: bool, redactions: bool)
      ensures Settings() == Config(session, echoDirectives, redactions) && Secrets() == State({}, {}, 20)
    {
      sessionId, echo, redactionsEnabled := session, echoDirectives, redactions;
      redactedValues, redactedLines, logLevel := {}, {}, 20;
    }

    method AddRedactedValues(values: seq<string>)
      modifies this
      ensures Secrets() == old(Secrets()).(values := old(redactedValues) + set v | v in values && v != "")
    {
      for i := 0 to |values|
        invariant redactedLines == old(redactedLines) && logLevel == old(logLevel)
        invariant redactedValues == old(redactedValues) + set v | v in values[..i] && v != ""
      {
        assert values[..i + 1] == values[..i] + [values[i]];
        if values[i] != "" { redactedValues := redactedValues + {values[i]}; }
      }
      assert values[..|values|] == values;
    }

    /** `filter_message`. */
    method FilterMessage(h: Host, message: string, session: string) returns (r: Option<Outcome>)
      modifies this
      ensures (Secrets(), r) == Step(h, Settings(), old(Secrets()), message, session)
    {
      if session != sessionId { return Some(Outcome([], true, message)); }
      var directive := ParseDirective(message);
      if directive.Some? && directive.value.0.RedactedEnv? {
        var payload := directive.value.1;
        RecordSecrets(h, payload);
        var callbacks := RedactedEnvCallbacks(h, redactionsEnabled, payload);
        return Some(Outcome(callbacks, echo, RedactEnvMessage(message, TrimStart(payload))));
      }
      if directive.Some? && directive.value.0.SessionRuntimeLoglevel? {
        var level := LevelOf(h, directive.value.1);
        if level.Some? { logLevel := level.value; }
      }
      var o := Ordinary(h, echo, message);
      var shown := ApplyRedaction(redactedValues, redactedLines, o.message);
      return if shown.Some? then Some(o.(message := shown.value)) else None;
    }

    /** The recording half of `handle_redacted_env`. */
    method RecordSecrets(h: Host, payload: string)
      modifies this
      ensures Secrets() == Record(h, old(Secrets()), payload)
    {
      var trimmed := TrimStart(payload);
      match ParseEnvVariable(h, trimmed)
      case Ok((_, value)) => RecordValue(value);
      case Err(_) => Salvage(trimmed);
    }

    method RecordValue(value: string)
      modifies this
      ensures logLevel == old(logLevel)
      ensures redactedValues == old(redactedValues) + RecordedValues(value)
      ensures redactedLines == old(redactedLines) + RecordedLines(value)
    {
      if value != "" {
        redactedValues := redactedValues + {value};
        RecordParts(Split('\n', value));
      } else {
        assert RecordedLines("") == {};
      }
    }

    method Salvage(trimmed: string)
      modifies this`redactedValues
      ensures redactedValues == old(redactedValues) + SalvagedValues(trimmed)
    {
      var eq := FindFrom(trimmed, "=", 0);
      if eq.Some? {
        var tail := trimmed[eq.value + 1..];
        if tail != "" { redactedValues := redactedValues + {tail}; }
      } else if trimmed != "" {
        redactedValues := redactedValues + {trimmed};
      }
    }

    method RecordParts(parts: seq<string>)
      modifies this
      ensures logLevel == old(logLevel)
      ensures redactedValues == old(redactedValues)
                + set i | 0 <= i < |parts| && parts[i] != "" && (i == 0 || i == |parts| - 1) :: parts[i]
      ensures redactedLines == old(redactedLines) + set i | 0 < i < |parts| - 1 && parts[i] != "" :: parts[i]
    {
      for i := 0 to |parts|
        invariant logLevel == old(logLevel)
        invariant redactedValues == old(redactedValues)
                    + set k | 0 <= k < i && parts[k] != "" && (k == 0 || k == |parts| - 1) :: parts[k]
        invariant redactedLines == old(redactedLines)
                    + set k | 0 < k < i && k < |parts| - 1 && parts[k] != "" :: parts[k]
      {
        if parts[i] != "" {
          if i == 0 || i == |parts| - 1 {
            redactedValues := redactedValues + {parts[i]};
          } else {
            redactedLines := redactedLines + {parts[i]};
          }
        }
      }
    }
  }

  // ---- Whole runs ----

  datatype Event = Event(message: string, session: string)

  ghost function StateAfter(h: Host, cfg: Config, st: State, events: seq<Event>): State {
    if events == [] then st
    else
      var last := events[|events| - 1];
      Step(h, cfg, StateAfter(h, cfg, st, events[..|events| - 1]), last.message, last.session).0
  }

  /** What the j-th message of a run returned. */
  ghost function OutcomeOf(h: Host, cfg: Config, st: State, events: seq<Event>, j: nat): Option<Outcome>
    requires j < |events|
  {
    Step(h, cfg, StateAfter(h, cfg, st, events[..j]), events[j].message, events[j].session).1
  }

  /** Secrets are never forgotten. */
  lemma {:induction false} SecretsGrow(h: Host, cfg: Config, st: State, events: seq<Event>, i: nat, j: nat)
    requires i <= j <= |events|
    ensures StateAfter(h, cfg, st, events[..i]).values <= StateAfter(h, cfg, st, events[..j]).values
    ensures StateAfter(h, cfg, st, events[..i]).lines <= StateAfter(h, cfg, st, events[..j]).lines
    decreases j
  {
    if i < j {
      SecretsGrow(h, cfg, st, events, i, j - 1);
      assert events[..j][..j - 1] == events[..j - 1];
    }
  }

  /** Over every run: once recorded, a hideable secret is in no later line of this session, other than
      those of redacted_env directives; and a recorded line or value without a mask in it never comes out
      as a line. */
  lemma NoSecretLater(h: Host, cfg: Config, st: State, events: seq<Event>, i: nat, j: nat, v: string, o: Outcome)
    requires i <= j < |events|
    requires events[j].session == cfg.session && !IsRedactedEnv(events[j].message)
    requires OutcomeOf(h, cfg, st, events, j) == Some(o)
    ensures v in StateAfter(h, cfg, st, events[..i]).values && Hideable(v) ==> !Contains(o.message, v)
    ensures var earlier := StateAfter(h, cfg, st, events[..i]);
            (v in earlier.lines || (v in earlier.values && v != "")) && !Contains(v, STARS) ==> o.message != v
  {
    SecretsGrow(h, cfg, st, events, i, j);
    var now := StateAfter(h, cfg, st, events[..j]);
    RedactedHides(now.values, now.lines, Ordinary(h, cfg.echo, events[j].message).message, v);
  }

  // ---- The redacted_env lines themselves ----

  lemma {:induction false} TrimStartSkips(p: string) returns (w: nat)
    ensures w <= |p| && TrimStart(p) == p[w..] && forall i :: 0 <= i < w ==> IsWhiteSpace(p[i])
  {
    if p != "" && IsWhiteSpace(p[0]) {
      var n := TrimStartSkips(p[1..]);
      w := n + 1;
      DropDrop(p, 1, n);
      forall i | 0 <= i < w ensures IsWhiteSpace(p[i]) {
        assert i > 0 ==> p[i] == p[1..][i - 1];
      }
    } else {
      w := 0;
    }
  }

  lemma Rejoin(s: string, k: nat)
    requires k + 2 <= |s|
    ensures s == s[..k] + (s[k..k + 2] + s[k + 2..])
  {}

  lemma TokenText(payload: string)
    ensures PREFIX + ("redacted_env" + (": " + payload)) == REDACTED_TOKEN + payload
  {
    Assoc("redacted_env", ": ", payload);
    Assoc(PREFIX, "redacted_env" + ": ", payload);
    assert PREFIX + ("redacted_env" + ": ") == REDACTED_TOKEN;
  }

  /** Such a line is the directive's name and its payload. */
  lemma DirectiveText(m: string)
    requires IsRedactedEnv(m)
    ensures m == REDACTED_TOKEN + ParseDirective(m).value.1
  {
    var rest := m[|PREFIX|..];
    var colon := FindFrom(rest, ": ", 0).value;
    Rejoin(rest, colon);
    TokenText(rest[colon + 2..]);
    SplitAt(m, |PREFIX|);
  }

  /** Up to and including the first `=`, or the directive's name. */
  function ShownUpTo(m: string): nat {
    match FindFrom(m, "=", 0) case Some(eq) => eq + 1 case None => |REDACTED_TOKEN|
  }

  ghost predicate NoEquals(s: string) {
    forall i :: 0 <= i < |s| ==> s[i] != '='
  }

  lemma EqualsAt(m: string, p: int)
    ensures OccursAt(m, "=", p) <==> 0 <= p < |m| && m[p] == '='
  {
    if 0 <= p < |m| {
      assert m[p..p + 1] == [m[p]];
    }
  }

  lemma FirstFound(m: string, value: string, k: nat)
    requires OccursAt(m, value, k) && forall p :: 0 <= p < k ==> !OccursAt(m, value, p)
    ensures FindFrom(m, value, 0) == Some(k)
  {}

  lemma EqualsIndex(m: string, k: nat)
    requires k < |m| && m[k] == '=' && forall i :: 0 <= i < k ==> m[i] != '='
    ensures FindFrom(m, "=", 0) == Some(k)
  {
    forall p | 0 <= p <= k ensures OccursAt(m, "=", p) <==> p == k {
      EqualsAt(m, p);
    }
    FirstFound(m, "=", k);
  }

  lemma EqualsNone(m: string)
    ensures FindFrom(m, "=", 0).None? <==> NoEquals(m)
  {
    forall p ensures OccursAt(m, "=", p) <==> 0 <= p < |m| && m[p] == '=' {
      EqualsAt(m, p);
    }
  }

  lemma FirstEquals(pre: string, t: string)
    requires NoEquals(pre)
    ensures match FindFrom(t, "=", 0)
            case Some(eq) => FindFrom(pre + t, "=", 0) == Some(|pre| + eq)
            case None => FindFrom(pre + t, "=", 0).None?
  {
    EqualsNone(t);
    EqualsNone(pre + t);
    if FindFrom(t, "=", 0).Some? {
      FoundEquals(t);
      EqualsIndex(pre + t, |pre| + FindFrom(t, "=", 0).value);
    }
  }

  /** Text with an `=` in it is found first where its own `=` is the first one. */
  lemma FirstSuffix(pre: string, t: string, eq: nat)
    requires NoEquals(pre) && eq < |t| && t[eq] == '=' && forall i :: 0 <= i < eq ==> t[i] != '='
    ensures FindFrom(pre + t, t, 0) == Some(|pre|)
  {
    var m := pre + t;
    DropAppend(pre, t);
    assert m[|pre|..|pre| + |t|] == t;
    forall q | 0 <= q < |pre| ensures !OccursAt(m, t, q) {
      assert m[q + eq] != '=' by {
        assert m[q + eq] == if q + eq < |pre| then pre[q + eq] else t[q + eq - |pre|];
      }
      assert q + |t| <= |m| ==> m[q..q + |t|][eq] == m[q + eq];
    }
    FirstFound(m, t, |pre|);
  }

  lemma FoundEquals(t: string)
    requires FindFrom(t, "=", 0).Some?
    ensures var eq := FindFrom(t, "=", 0).value;
            eq < |t| && t[eq] == '=' && forall i :: 0 <= i < eq ==> t[i] != '='
  {
    var eq := FindFrom(t, "=", 0).value;
    EqualsAt(t, eq);
    forall i | 0 <= i < eq ensures t[i] != '=' {
      EqualsAt(t, i);
    }
  }

  /** The line shown for a redacted_env directive ends, masked, at the first `=`: nothing of the value
      after it is shown, whether or not the assignment parses. */
  lemma ShownPrefix(m: string)
    requires IsRedactedEnv(m)
    ensures ShownUpTo(m) <= |m|
    ensures RedactEnvMessage(m, TrimStart(ParseDirective(m).value.1)) == m[..ShownUpTo(m)] + STARS
  {
    var payload := ParseDirective(m).value.1;
    DirectiveText(m);
    var w := TrimStartSkips(payload);
    var pre, t := REDACTED_TOKEN + payload[..w], payload[w..];
    SplitAt(payload, w);
    Assoc(REDACTED_TOKEN, payload[..w], t);
    ShownOf(pre, t, m);
  }

  lemma ShownOf(pre: string, t: string, m: string)
    requires m == pre + t && NoEquals(pre) && REDACTED_TOKEN <= pre
    ensures ShownUpTo(m) <= |m| && RedactEnvMessage(m, t) == m[..ShownUpTo(m)] + STARS
  {
    FirstEquals(pre, t);
    if FindFrom(t, "=", 0).None? {
      FirstFound(m, REDACTED_TOKEN, 0);
    } else {
      FoundEquals(t);
      FirstSuffix(pre, t, FindFrom(t, "=", 0).value);
    }
  }

  /** The mask holds no part of a secret that does not end with `*`. */
  lemma MaskAddsNothing(shown: string, v: string)
    requires v != "" && v[|v| - 1] != '*'
    ensures Contains(shown + STARS, v) <==> Contains(shown, v)
  {
    var m := shown + STARS;
    if p :| 0 <= p <= |shown| && OccursAt(shown, v, p) {
      assert m[p..p + |v|] == shown[p..p + |v|];
      assert OccursAt(m, v, p);
    }
    forall p | OccursAt(m, v, p) ensures OccursAt(shown, v, p) {
      var last := p + |v| - 1;
      assert m[last] == m[p..p + |v|][|v| - 1] == v[|v| - 1];
      assert AllStars(STARS);
      assert m[p..p + |v|] == shown[p..p + |v|];
    }
  }

  /** Over every run: the line shown for a redacted_env directive of this session contains a secret
      exactly when the directive up to its first `=` does, whether or not it was recorded before. */
  lemma ShownSecrets(h: Host, cfg: Config, st: State, events: seq<Event>, j: nat, v: string, o: Outcome)
    requires j < |events| && v != "" && v[|v| - 1] != '*'
    requires events[j].session == cfg.session && IsRedactedEnv(events[j].message)
    requires OutcomeOf(h, cfg, st, events, j) == Some(o)
    ensures var m := events[j].message;
            ShownUpTo(m) <= |m| && (Contains(o.message, v) <==> Contains(m[..ShownUpTo(m)], v))
  {
    var m := events[j].message;
    ShownPrefix(m);
    MaskAddsNothing(m[..ShownUpTo(m)], v);
  }

  lemma DirectiveParses(payload: string)
    requires payload != ""
    ensures ParseDirective(REDACTED_TOKEN + payload) == Some((RedactedEnv, payload))
  {
    TokenText(payload);
    NamedParses("redacted_env", payload);
  }

  /** The name of a variable is shown, so a directive whose name contains a secret shows it. */
  lemma NameShown(h: Host, cfg: Config, st: State, events: seq<Event>, j: nat, name: string, value: string, v: string)
    requires j < |events| && events[j] == Event(REDACTED_TOKEN + (name + ("=" + value)), cfg.session)
    requires NoEquals(name) && Contains(name, v)
    ensures OutcomeOf(h, cfg, st, events, j).Some?
    ensures Contains(OutcomeOf(h, cfg, st, events, j).value.message, v)
  {
    DirectiveParses(name + ("=" + value));
    ShownName(name, value, events[j].message);
    ShownPrefix(events[j].message);
    ContainsWithin(REDACTED_TOKEN, name, "=" + STARS, v);
    Assoc(REDACTED_TOKEN + name, "=", STARS);
  }

  lemma ShownName(name: string, value: string, m: string)
    requires NoEquals(name) && m == REDACTED_TOKEN + (name + ("=" + value))
    ensures ShownUpTo(m) <= |m| && m[..ShownUpTo(m)] == REDACTED_TOKEN + name + "="
  {
    var pre := REDACTED_TOKEN + name;
    Assoc(REDACTED_TOKEN, name, "=" + value);
    assert m == pre + ("=" + value);
    assert NoEquals(pre);
    EqualsIndex(m, |pre|);
  }

  lemma ContainsWithin(a: string, b: string, c: string, v: string)
    requires Contains(b, v)
    ensures Contains(a + b + c, v)
  {
    var p :| 0 <= p <= |b| && OccursAt(b, v, p);
    var s := a + b + c;
    assert s[|a| + p..|a| + p + |v|] == b[p..p + |v|];
    assert OccursAt(s, v, |a| + p);
  }

  /** It happens: the value recorded by the first of these directives is the second one's name. */
  lemma EarlierSecretShown(h: Host, cfg: Config, st: State)
    ensures var events := [Event(REDACTED_TOKEN + "X=Y", cfg.session), Event(REDACTED_TOKEN + "Y=Z", cfg.session)];
            && "Y" in StateAfter(h, cfg, st, events[..1]).values
            && OutcomeOf(h, cfg, st, events, 1).Some?
            && Contains(OutcomeOf(h, cfg, st, events, 1).value.message, "Y")
  {
    var events := [Event(REDACTED_TOKEN + "X=Y", cfg.session), Event(REDACTED_TOKEN + "Y=Z", cfg.session)];
    FirstRecords(h, cfg, st, events);
    assert "Y" + ("=" + "Z") == "Y=Z";
    SelfContained("Y");
    NameShown(h, cfg, st, events, 1, "Y", "Z", "Y");
  }

  lemma FirstRecords(h: Host, cfg: Config, st: State, events: seq<Event>)
    requires events != [] && events[0] == Event(REDACTED_TOKEN + "X=Y", cfg.session)
    ensures "Y" in StateAfter(h, cfg, st, events[..1]).values
  {
    DirectiveParses("X=Y");
    AssignmentParses(h);
    ValueRecorded(h, cfg, st, events, 0, "X=Y", "X", "Y");
    assert "Y" in RecordedValues("Y");
  }

  lemma AssignmentParses(h: Host)
    ensures ParseEnvVariable(h, TrimStart("X=Y")) == Ok(("X", "Y"))
  {
    var t := "X=Y";
    assert TrimStart(t) == t;
    assert t[1..] == "=Y" && NameSpan("=Y") == 0 && NameSpan(t) == 1;
    EqualsIndex(t, 1);
    assert t[..1] == "X" && t[2..] == "Y";
  }

  // ---- What callbacks carry ----

  /** A secret in the text or the environment variable handed to a callback. */
  ghost predicate Carries(cb: Callback, v: string) {
    match cb.payload
    case Text(s) => Contains(s, v)
    case EnvVar(name, value) => Contains(name, v) || Contains(value, v)
    case _ => false
  }

  ghost predicate PairCarries(name: string, value: string, v: string) {
    Contains(name, v) || Contains(value, v)
  }

  /** What an assignment hands on: its name and value, or why it is wrong. */
  ghost predicate AssignmentCarries(read: Result<(string, string), string>, v: string) {
    match read case Ok((name, value)) => PairCarries(name, value, v) case Err(e) => Contains(e, v)
  }

  /** By directive: a status or failure hands on its payload; an environment variable its name and value, or
      the error; an unset its name, or the error; a malformed line the line inside an error. */
  ghost predicate HandsOn(h: Host, cfg: Config, m: string, v: string) {
    match ParseDirective(m)
    case Some((Status, p)) => Contains(p, v)
    case Some((Fail, p)) => Contains(p, v)
    case Some((Env, p)) => AssignmentCarries(ParseEnvVariable(h, p), v)
    case Some((RedactedEnv, p)) =>
      (match ParseEnvVariable(h, TrimStart(p))
       case Ok((name, value)) => PairCarries(name, value, v)
       case Err(_) => !cfg.redactions && Contains(BAD_ASSIGNMENT, v))
    case Some((UnsetEnv, p)) => Contains(if IsName(TrimStart(p)) then TrimStart(p) else BAD_NAME, v)
    case Some(_) => false
    case None => IsMalformed(h, m) && Contains(MalformedText(m), v)
  }

  ghost predicate SomeCarries(cbs: seq<Callback>, v: string) {
    exists i :: 0 <= i < |cbs| && Carries(cbs[i], v)
  }

  /** Callbacks are not masked: over every run, whatever has been recorded, one of a message's callbacks
      carries a secret exactly when the directive hands it on. */
  lemma SecretHandedOn(h: Host, cfg: Config, st: State, events: seq<Event>, j: nat, v: string, o: Outcome)
    requires j < |events| && events[j].session == cfg.session
    requires OutcomeOf(h, cfg, st, events, j) == Some(o)
    ensures SomeCarries(o.callbacks, v) <==> HandsOn(h, cfg, events[j].message, v)
  {
    if IsRedactedEnv(events[j].message) {
      EnvHandsOn(h, cfg, events[j].message, v);
    } else {
      OrdinaryHandsOn(h, cfg, events[j].message, v);
    }
  }

  lemma EnvHandsOn(h: Host, cfg: Config, m: string, v: string)
    requires IsRedactedEnv(m)
    ensures SomeCarries(RedactedEnvCallbacks(h, cfg.redactions, ParseDirective(m).value.1), v) <==>
            HandsOn(h, cfg, m, v)
  {
    var cbs := RedactedEnvCallbacks(h, cfg.redactions, ParseDirective(m).value.1);
    AtMostOne(cbs, v);
  }

  lemma OrdinaryHandsOn(h: Host, cfg: Config, m: string, v: string)
    requires !IsRedactedEnv(m)
    ensures SomeCarries(Ordinary(h, cfg.echo, m).callbacks, v) <==> HandsOn(h, cfg, m, v)
  {
    var cbs := Ordinary(h, cfg.echo, m).callbacks;
    match ParseDirective(m)
    case Some((kind, payload)) => DirectiveHandsOn(h, cfg, m, kind, payload, v, cbs);
    case None => AtMostOne(cbs, v);
  }

  lemma DirectiveHandsOn(h: Host, cfg: Config, m: string, kind: Kind, payload: string, v: string, cbs: seq<Callback>)
    requires ParseDirective(m) == Some((kind, payload)) && !kind.RedactedEnv?
    requires cbs == match Read(h, kind, payload) case Ok(made) => made case Err(e) => Complaints(kind, e)
    ensures SomeCarries(cbs, v) <==> HandsOn(h, cfg, m, v)
  {
    AtMostOne(cbs, v);
  }

  lemma AtMostOne(cbs: seq<Callback>, v: string)
    requires |cbs| <= 1
    ensures SomeCarries(cbs, v) <==> cbs != [] && Carries(cbs[0], v)
  {}

  lemma StatusParses(payload: string)
    requires payload != ""
    ensures ParseDirective(PREFIX + ("status" + (": " + payload))) == Some((Status, payload))
  {
    NamedParses("status", payload);
  }

  lemma NamedParses(name: string, payload: string)
    requires payload != "" && ':' !in name
    ensures ParseDirective(PREFIX + (name + (": " + payload))) ==
            match KindOf(name) case Some(k) => Some((k, payload)) case None => None
  {
    var rest := name + (": " + payload);
    DropAppend(PREFIX, rest);
    forall p | 0 <= p < |name| ensures !OccursAt(rest, ": ", p) {
      assert rest[p] == name[p] && name[p] in name;
      assert p + 2 <= |rest| ==> rest[p..p + 2][0] == rest[p];
    }
    assert rest[|name|..|name| + 2] == ": ";
    FirstFound(rest, ": ", |name|);
    assert rest[..|name|] == name && rest[|name| + 2..] == payload;
  }

  /** It happens: a status repeats the value recorded before it, and its callback is handed that value. */
  lemma StatusHandsOn(h: Host, cfg: Config, st: State, o: Outcome)
    requires var status := PREFIX + ("status" + (": " + "Y"));
             var events := [Event(REDACTED_TOKEN + "X=Y", cfg.session), Event(status, cfg.session)];
             OutcomeOf(h, cfg, st, events, 1) == Some(o)
    ensures o.callbacks == [Callback(Status, Text("Y"), false)] && !Contains(o.message, "Y")
  {
    var status := PREFIX + ("status" + (": " + "Y"));
    var events := [Event(REDACTED_TOKEN + "X=Y", cfg.session), Event(status, cfg.session)];
    StatusParses("Y");
    FirstRecords(h, cfg, st, events);
    assert Hideable("Y");
    NoSecretLater(h, cfg, st, events, 1, 1, "Y", o);
  }

  /** Once a value has been recorded whole, no later line of this session contains it, nor is any
      line of it when it spans several. */
  lemma ValueHidden(h: Host, cfg: Config, st: State, events: seq<Event>, i: nat, j: nat, value: string, line: string,
                    o: Outcome)
    requires i <= j < |events|
    requires RecordedValues(value) <= StateAfter(h, cfg, st, events[..i]).values
    requires RecordedLines(value) <= StateAfter(h, cfg, st, events[..i]).lines
    requires events[j].session == cfg.session && !IsRedactedEnv(events[j].message)
    requires OutcomeOf(h, cfg, st, events, j) == Some(o)
    ensures Hideable(value) ==> !Contains(o.message, value)
    ensures line in Split('\n', value) && line != "" && !Contains(line, STARS) ==> o.message != line
  {
    if Hideable(value) {
      NoSecretLater(h, cfg, st, events, i, j, value, o);
    }
    if line in Split('\n', value) && line != "" {
      LineRecorded(value, line);
      NoSecretLater(h, cfg, st, events, i, j, line, o);
    }
  }

  /** A redacted_env directive with a well-formed assignment records its value whole. */
  lemma ValueRecorded(h: Host, cfg: Config, st: State, events: seq<Event>, i: nat, payload: string, name: string,
                      value: string)
    requires i < |events| && events[i].session == cfg.session
    requires ParseDirective(events[i].message) == Some((RedactedEnv, payload))
    requires ParseEnvVariable(h, TrimStart(payload)) == Ok((name, value))
    ensures var now := StateAfter(h, cfg, st, events[..i + 1]);
            RecordedValues(value) <= now.values && RecordedLines(value) <= now.lines
  {
    assert events[..i + 1][..i] == events[..i];
  }

  lemma LineRecorded(value: string, line: string)
    requires line in Split('\n', value) && line != ""
    ensures line in RecordedValues(value) || line in RecordedLines(value)
    ensures value in RecordedValues(value)
  {
    var parts := Split('\n', value);
    assert value == "" ==> parts == [""];
    var k :| 0 <= k < |parts| && parts[k] == line;
  }

  lemma SelfContained(line: string)
    ensures Contains(line, line)
  {
    assert line[0..|line|] == line;
    assert OccursAt(line, line, 0);
  }
}
