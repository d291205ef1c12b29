/** Hexadecimal text and UTF-8 sizes, shared by the literal printers. */
module CodePoints {
  import opened Wrappers

  function HexDigit(d: int): (c: char)
    requires 0 <= d < 16
  {
    if d < 10 then ('0' as int + d) as char else ('a' as int + d - 10) as char
  }

  function HexDigitValue(c: char): Option<nat> {
    if '0' <= c <= '9' then Some(c as int - '0' as int)
    else if 'a' <= c <= 'f' then Some(c as int - 'a' as int + 10)
    else if 'A' <= c <= 'F' then Some(c as int - 'A' as int + 10)
    else None
  }

  function Pow16(width: nat): nat {
    if width == 0 then 1 else 16 * Pow16(width - 1)
  }

  /** `{n:0widthx}` for a number that fits. */
  function Hex(n: nat, width: nat): (s: string)
    requires n < Pow16(width)
    ensures |s| == width
    ensures forall i :: 0 <= i < |s| ==> HexDigitValue(s[i]).Some? && s[i] <= 'f'
  {
    if width == 0 then "" else Hex(n / 16, width - 1) + [HexDigit(n % 16)]
  }

  function HexValue(s: string): Option<nat> {
    if s == "" then Some(0)
    else
      match (HexValue(s[..|s| - 1]), HexDigitValue(s[|s| - 1]))
      case (Some(n), Some(d)) => Some(16 * n + d)
      case _ => None
  }

  lemma {:induction false} HexReadsBack(n: nat, width: nat)
    requires n < Pow16(width)
    ensures HexValue(Hex(n, width)) == Some(n)
  {
    if width == 0 {
    } else {
      HexReadsBack(n / 16, width - 1);
      assert Hex(n, width)[..width - 1] == Hex(n / 16, width - 1);
    }
  }

  lemma Pow16Values()
    ensures Pow16(2) == 0x100 && Pow16(4) == 0x1_0000 && Pow16(8) == 0x1_0000_0000
  {
    assert Pow16(1) == 16 && Pow16(3) == 0x1000;
    assert Pow16(5) == 0x10_0000 && Pow16(6) == 0x100_0000 && Pow16(7) == 0x1000_0000;
  }

  /** Every character of `s` written by `f`. */
  function Flat(f: char -> string, s: string): string {
    if s == "" then "" else f(s[0]) + Flat(f, s[1..])
  }

  lemma {:induction false} FlatNext(f: char -> string, s: string, c: char)
    ensures Flat(f, s + [c]) == Flat(f, s) + f(c)
  {
    if s == "" {
      assert s + [c] == [c] && [c][1..] == "";
    } else {
      FlatNext(f, s[1..], c);
      assert (s + [c])[1..] == s[1..] + [c];
    }
  }

  predicate IsScalar(n: int) {
    0 <= n < 0xD800 || 0xE000 <= n < 0x11_0000
  }

  function CharSize(c: char): (n: nat)
    ensures 1 <= n <= 4
  {
    if c as int < 0x80 then 1 else if c as int < 0x800 then 2 else if c as int < 0x1_0000 then 3 else 4
  }

  /** Length in bytes as UTF-8. */
  function Utf8Len(s: string): nat {
    if s == "" then 0 else CharSize(s[0]) + Utf8Len(s[1..])
  }

  lemma {:induction false} Utf8LenJoin(s: string, t: string)
    ensures Utf8Len(s + t) == Utf8Len(s) + Utf8Len(t)
  {
    if s == "" {
      assert s + t == t;
    } else {
      Utf8LenJoin(s[1..], t);
      assert (s + t)[1..] == s[1..] + t;
    }
  }

  ghost predicate AllAscii(s: string) {
    forall i :: 0 <= i < |s| ==> s[i] as int < 0x80
  }

  lemma {:induction false} Utf8LenAscii(s: string)
    requires AllAscii(s)
    ensures Utf8Len(s) == |s|
  {
    if s == "" {
    } else {
      Utf8LenAscii(s[1..]);
    }
  }
}

/** Python string literals, against section 2.4.1.1 of the Python 3.12 Language Reference. */
module PythonLiterals {
  import opened Wrappers
  import opened Sequences
  import opened CodePoints

  // ---- Printing ----

  predicate NonPrintable(table: char -> bool, c: char) {
    if c as int < 0x80 then c as int < 0x20 || c as int == 0x7f else table(c)
  }

  /** The narrowest numeric escape: two, four or eight digits. */
  function Width(c: char): (w: nat)
    ensures c as int < Pow16(w)
  {
    Pow16Values();
    if c as int <= 0xff then 2 else if c as int <= 0xffff then 4 else 8
  }

  function Lead(width: nat): char {
    if width == 2 then 'x' else if width == 4 then 'u' else 'U'
  }

  function CodePointEscape(c: char): string {
    ['\\', Lead(Width(c))] + Hex(c as int, Width(c))
  }

  function EscapeChar(table: char -> bool, c: char, quote: char): string {
    if c == '\\' then "\\\\"
    else if c == quote then ['\\', c]
    else if c == '\n' then "\\n"
    else if c == '\r' then "\\r"
    else if c == '\t' then "\\t"
    else if NonPrintable(table, c) then CodePointEscape(c)
    else [c]
  }

  function Escape(table: char -> bool, s: string, quote: char): string {
    Flat(c => EscapeChar(table, c, quote), s)
  }

  lemma EscapeStep(table: char -> bool, s: string, quote: char)
    ensures s == "" ==> Escape(table, s, quote) == ""
    ensures s != "" ==> Escape(table, s, quote) == EscapeChar(table, s[0], quote) + Escape(table, s[1..], quote)
  {}

  predicate IsQuote(c: char) {
    c == '\'' || c == '"'
  }

  method SelectQuote(value: string) returns (quote: char)
    ensures quote == if '\'' in value && '"' !in value then '"' else '\''
  {
    var hasSingle, hasDouble := false, false;
    for i := 0 to |value|
      invariant hasSingle <==> '\'' in value[..i]
      invariant hasDouble <==> '"' in value[..i]
    {
      if value[i] == '\'' { hasSingle := true; }
      else if value[i] == '"' { hasDouble := true; }
    }
    assert value[..|value|] == value;
    return if hasSingle && !hasDouble then '"' else '\'';
  }

  /** `write_py_string_literal`: the literal reads back as the value, wherever it is written. */
  method WriteLiteral(table: char -> bool, value: string, before: string) returns (buf: string)
    ensures before <= buf
    ensures Literal(buf[|before|..]) == Some(value)
    ensures Utf8Len(buf[|before|..]) <= 4 * Utf8Len(value) + 2
    ensures forall i :: |before| <= i < |buf| ==> !NonPrintable(table, buf[i])
    ensures Escapes(buf[|before|..]) ==>
            '\\' in value || ('\'' in value && '"' in value) || HasNonPrintable(table, value)
  {
    var quote := SelectQuote(value);
    buf := before + [quote];
    ghost var start := buf;
    for i := 0 to |value|
      invariant buf == start + Escape(table, value[..i], quote)
    {
      EscapeNext(table, value[..i], value[i], quote);
      assert value[..i + 1] == value[..i] + [value[i]];
      buf := WriteChar(table, value[i], quote, buf);
    }
    assert value[..|value|] == value;
    buf := buf + [quote];
    ghost var body := Escape(table, value, quote);
    assert buf[|before|..] == [quote] + body + [quote];
    LiteralReadsBack(table, value, quote);
    LiteralSize(table, value, quote);
    LiteralPrintable(table, value, quote);
    PlainUnescaped(table, value, quote);
  }

  method WriteChar(table: char -> bool, c: char, quote: char, before: string) returns (buf: string)
    ensures buf == before + EscapeChar(table, c, quote)
  {
    buf := before;
    if c == '\\' {
      buf := buf + "\\\\";
    } else if c == quote {
      buf := buf + "\\";
      buf := buf + [c];
    } else if c == '\n' {
      buf := buf + "\\n";
    } else if c == '\r' {
      buf := buf + "\\r";
    } else if c == '\t' {
      buf := buf + "\\t";
    } else if NonPrintable(table, c) {
      buf := buf + CodePointEscape(c);
    } else {
      buf := buf + [c];
    }
  }

  lemma EscapeNext(table: char -> bool, s: string, c: char, quote: char)
    ensures Escape(table, s + [c], quote) == Escape(table, s, quote) + EscapeChar(table, c, quote)
  {
    FlatNext(x => EscapeChar(table, x, quote), s, c);
  }

  // ---- Reading ----

  predicate IsOctal(c: char) {
    '0' <= c <= '7'
  }

  function OctalSpan(t: string): (n: nat)
    ensures n <= |t| && n <= 3 && forall i :: 0 <= i < n ==> IsOctal(t[i])
  {
    if |t| == 0 || !IsOctal(t[0]) then 0
    else if |t| == 1 || !IsOctal(t[1]) then 1
    else if |t| == 2 || !IsOctal(t[2]) then 2
    else 3
  }

  function OctalValue(s: string): (n: nat)
    requires |s| <= 3 && forall i :: 0 <= i < |s| ==> IsOctal(s[i])
    ensures n <= 0x1ff
  {
    if |s| == 0 then 0
    else if |s| == 1 then Octal(s[0])
    else if |s| == 2 then 8 * Octal(s[0]) + Octal(s[1])
    else 64 * Octal(s[0]) + 8 * Octal(s[1]) + Octal(s[2])
  }

  function Octal(c: char): (n: nat)
    requires IsOctal(c)
    ensures n < 8
  {
    c as int - '0' as int
  }

  /** A numeric escape of a fixed number of hexadecimal digits after the two-character lead. */
  function Numeric(t: string, digits: nat): Option<(string, nat)> {
    if |t| < 2 + digits then None
    else
      match HexValue(t[2..2 + digits])
      case Some(n) => if IsScalar(n) then Some(([n as char], 2 + digits)) else None
      case None => None
  }

  /** The escape sequence `t` starts with: what it stands for and how long it is. Names of
      characters are not modelled. */
  function ReadEscape(t: string): (r: Option<(string, nat)>)
    ensures r.Some? ==> 2 <= r.value.1 <= |t|
  {
    if |t| < 2 then None
    else
      var c := t[1];
      if c == '\n' then Some(("", 2))
      else if c == '\\' || IsQuote(c) then Some(([c], 2))
      else if c == 'a' then Some(([7 as char], 2))
      else if c == 'b' then Some(([8 as char], 2))
      else if c == 'f' then Some(([12 as char], 2))
      else if c == 'n' then Some(("\n", 2))
      else if c == 'r' then Some(("\r", 2))
      else if c == 't' then Some(("\t", 2))
      else if c == 'v' then Some(([11 as char], 2))
      else if IsOctal(c) then
        var n := OctalSpan(t[1..]);
        Some(([OctalValue(t[1..1 + n]) as char], 1 + n))
      else if c == 'x' then Numeric(t, 2)
      else if c == 'u' then Numeric(t, 4)
      else if c == 'U' then Numeric(t, 8)
      else if c == 'N' then None
      else Some(([t[0], c], 2))
  }

  function Prepend(s: string, r: Option<(string, string)>): Option<(string, string)> {
    match r case Some((v, rest)) => Some((s + v, rest)) case None => None
  }

  /** The value of a short literal from after its opening quote, and what follows its closing one. */
  function ReadBody(t: string, quote: char): Option<(string, string)>
    decreases |t|
  {
    if t == "" then None
    else if t[0] == quote then Some(("", t[1..]))
    else if t[0] == '\n' || t[0] == '\r' then None
    else if t[0] != '\\' then Prepend([t[0]], ReadBody(t[1..], quote))
    else
      match ReadEscape(t)
      case Some((s, n)) => Prepend(s, ReadBody(t[n..], quote))
      case None => None
  }

  /** A whole short string literal; three quotes would open a long one. */
  function Literal(t: string): Option<string> {
    if t == "" || !IsQuote(t[0]) || (|t| > 2 && t[1] == t[0] && t[2] == t[0]) then None
    else
      match ReadBody(t[1..], t[0])
      case Some((v, rest)) => if rest == "" then Some(v) else None
      case None => None
  }

  lemma CodePointReads(c: char, rest: string)
    ensures ReadEscape(CodePointEscape(c) + rest) == Some(([c], |CodePointEscape(c)|))
  {
    var w := Width(c);
    var t := CodePointEscape(c) + rest;
    HexReadsBack(c as int, w);
    assert t[2..2 + w] == Hex(c as int, w);
    assert t[1] == Lead(w);
    assert ReadEscape(t) == Numeric(t, w);
  }

  lemma CharReads(table: char -> bool, c: char, quote: char, rest: string)
    requires IsQuote(quote)
    ensures ReadBody(EscapeChar(table, c, quote) + rest, quote) == Prepend([c], ReadBody(rest, quote))
  {
    var e := EscapeChar(table, c, quote);
    assert (e + rest)[|e|..] == rest;
    if e == CodePointEscape(c) {
      CodePointReads(c, rest);
    }
  }

  lemma {:induction false} BodyReads(table: char -> bool, s: string, quote: char, rest: string)
    requires IsQuote(quote)
    ensures ReadBody(Escape(table, s, quote) + [quote] + rest, quote) == Some((s, rest))
  {
    EscapeStep(table, s, quote);
    if s == "" {
      assert "" + [quote] + rest == [quote] + rest;
      assert ([quote] + rest)[1..] == rest;
    } else {
      var tail := Escape(table, s[1..], quote) + [quote] + rest;
      BodyReads(table, s[1..], quote, rest);
      CharReads(table, s[0], quote, tail);
      Regrouped(EscapeChar(table, s[0], quote), Escape(table, s[1..], quote), [quote], rest);
      HeadTail(s);
    }
  }

  /** No character is written starting with the quote. */
  lemma EscapeHead(table: char -> bool, c: char, quote: char)
    requires IsQuote(quote)
    ensures EscapeChar(table, c, quote) != "" && EscapeChar(table, c, quote)[0] != quote
  {}

  lemma LiteralReadsBack(table: char -> bool, s: string, quote: char)
    requires IsQuote(quote)
    ensures Literal([quote] + Escape(table, s, quote) + [quote]) == Some(s)
  {
    EscapeStep(table, s, quote);
    var t := [quote] + Escape(table, s, quote) + [quote];
    BodyReads(table, s, quote, "");
    assert t[1..] == Escape(table, s, quote) + [quote] + "";
    if s != "" {
      EscapeHead(table, s[0], quote);
      assert t[1] == EscapeChar(table, s[0], quote)[0];
    }
  }

  lemma CharSizeBound(table: char -> bool, c: char, quote: char)
    requires IsQuote(quote)
    ensures Utf8Len(EscapeChar(table, c, quote)) <= 4 * CharSize(c)
  {
    var e := EscapeChar(table, c, quote);
    if e == [c] {
      assert e[1..] == "";
    } else {
      assert forall i :: 0 <= i < |e| ==> e[i] as int < 0x80;
      Utf8LenAscii(e);
    }
  }

  lemma {:induction false} BodySize(table: char -> bool, s: string, quote: char)
    requires IsQuote(quote)
    ensures Utf8Len(Escape(table, s, quote)) <= 4 * Utf8Len(s)
  {
    EscapeStep(table, s, quote);
    if s == "" {
    } else {
      CharSizeBound(table, s[0], quote);
      BodySize(table, s[1..], quote);
      Utf8LenJoin(EscapeChar(table, s[0], quote), Escape(table, s[1..], quote));
    }
  }

  lemma LiteralSize(table: char -> bool, s: string, quote: char)
    requires IsQuote(quote)
    ensures Utf8Len([quote] + Escape(table, s, quote) + [quote]) <= 4 * Utf8Len(s) + 2
  {
    var body := Escape(table, s, quote);
    BodySize(table, s, quote);
    Utf8LenJoin([quote] + body, [quote]);
    Utf8LenJoin([quote], body);
    assert [quote][1..] == "";
  }

  lemma CharPrintable(table: char -> bool, c: char, quote: char, i: nat)
    requires IsQuote(quote) && i < |EscapeChar(table, c, quote)|
    ensures !NonPrintable(table, EscapeChar(table, c, quote)[i])
  {
    var e := EscapeChar(table, c, quote);
    if e == CodePointEscape(c) && i >= 2 {
      assert HexDigitValue(e[i]).Some? && e[i] <= 'f';
    }
  }

  lemma {:induction false} BodyPrintable(table: char -> bool, s: string, quote: char, i: nat)
    requires IsQuote(quote) && i < |Escape(table, s, quote)|
    ensures !NonPrintable(table, Escape(table, s, quote)[i])
  {
    EscapeStep(table, s, quote);
    var e := EscapeChar(table, s[0], quote);
    if i < |e| {
      CharPrintable(table, s[0], quote, i);
    } else {
      BodyPrintable(table, s[1..], quote, i - |e|);
    }
  }

  lemma LiteralPrintable(table: char -> bool, s: string, quote: char)
    requires IsQuote(quote)
    ensures var t := [quote] + Escape(table, s, quote) + [quote];
            forall i :: 0 <= i < |t| ==> !NonPrintable(table, t[i])
  {
    var t := [quote] + Escape(table, s, quote) + [quote];
    forall i | 0 <= i < |t| ensures !NonPrintable(table, t[i]) {
      if 0 < i < |t| - 1 {
        BodyPrintable(table, s, quote, i - 1);
      }
    }
  }

  // ---- Nothing is escaped without need ----

  ghost predicate Escapes(t: string) {
    '\\' in t
  }

  ghost predicate HasNonPrintable(table: char -> bool, s: string) {
    exists i :: 0 <= i < |s| && NonPrintable(table, s[i])
  }

  lemma {:induction false} PlainUnescaped(table: char -> bool, s: string, quote: char)
    requires IsQuote(quote)
    ensures '\\' in Escape(table, s, quote) ==> '\\' in s || quote in s || HasNonPrintable(table, s)
  {
    EscapeStep(table, s, quote);
    if s == "" {
    } else {
      PlainUnescaped(table, s[1..], quote);
      var c := s[0];
      assert c in s && forall x :: x in s[1..] ==> x in s;
      if HasNonPrintable(table, s[1..]) {
        var i :| 0 <= i < |s[1..]| && NonPrintable(table, s[1..][i]);
        assert s[i + 1] == s[1..][i];
      }
      assert EscapeChar(table, c, quote) == [c] || c == '\\' || c == quote || NonPrintable(table, s[0]);
    }
  }
}

/** JSON string bodies, against section 7 of RFC 8259. */
module JsonLiterals {
  import opened Wrappers
  import opened Sequences
  import opened CodePoints

  // ---- Printing ----

  /** UTF-16 code units. */
  function Units(c: char): (u: seq<nat>)
    ensures forall i :: 0 <= i < |u| ==> u[i] < 0x1_0000
  {
    var n := c as int;
    if n < 0x1_0000 then [n]
    else [0xD800 + (n - 0x1_0000) / 0x400, 0xDC00 + (n - 0x1_0000) % 0x400]
  }

  function UnitEscape(u: nat): (s: string)
    requires u < 0x1_0000
    ensures |s| == 6 && forall i :: 0 <= i < |s| ==> s[i] as int < 0x80
  {
    Pow16Values();
    "\\u" + Hex(u, 4)
  }

  function UnitEscapes(us: seq<nat>): (s: string)
    requires forall i :: 0 <= i < |us| ==> us[i] < 0x1_0000
  {
    if us == [] then "" else UnitEscape(us[0]) + UnitEscapes(us[1..])
  }

  function EscapeChar(c: char, ensureAscii: bool): string {
    if c == '"' then "\\\""
    else if c == '\\' then "\\\\"
    else if c as int == 8 then "\\b"
    else if c as int == 12 then "\\f"
    else if c == '\n' then "\\n"
    else if c == '\r' then "\\r"
    else if c == '\t' then "\\t"
    else if c as int < 0x20 then UnitEscape(c as int)
    else if ensureAscii && c as int >= 0x80 then UnitEscapes(Units(c))
    else [c]
  }

  function Escape(s: string, ensureAscii: bool): string {
    Flat(c => EscapeChar(c, ensureAscii), s)
  }

  lemma EscapeStep(s: string, ensureAscii: bool)
    ensures s == "" ==> Escape(s, ensureAscii) == ""
    ensures s != "" ==> Escape(s, ensureAscii) == EscapeChar(s[0], ensureAscii) + Escape(s[1..], ensureAscii)
  {}

  lemma EscapeNext(s: string, c: char, ensureAscii: bool)
    ensures Escape(s + [c], ensureAscii) == Escape(s, ensureAscii) + EscapeChar(c, ensureAscii)
  {
    FlatNext(x => EscapeChar(x, ensureAscii), s, c);
  }

  /** `write_escaped_inner`: what it appends reads back as `s`. */
  method WriteEscaped(s: string, before: string, ensureAscii: bool) returns (buf: string)
    ensures before <= buf
    ensures forall rest :: ReadBody(buf[|before|..] + "\"" + rest) == Some((s, rest))
    ensures Utf8Len(buf[|before|..]) <= 6 * Utf8Len(s)
    ensures ensureAscii ==> AllAscii(buf[|before|..])
  {
    buf := before;
    for i := 0 to |s|
      invariant buf == before + Escape(s[..i], ensureAscii)
    {
      EscapeNext(s[..i], s[i], ensureAscii);
      assert s[..i + 1] == s[..i] + [s[i]];
      buf := WriteChar(s[i], buf, ensureAscii);
    }
    assert s[..|s|] == s;
    ghost var body := buf[|before|..];
    assert body == Escape(s, ensureAscii);
    EscapeHolds(s, ensureAscii, body);
  }

  lemma EscapeHolds(s: string, ensureAscii: bool, body: string)
    requires body == Escape(s, ensureAscii)
    ensures forall rest :: ReadBody(body + "\"" + rest) == Some((s, rest))
    ensures Utf8Len(body) <= 6 * Utf8Len(s)
    ensures ensureAscii ==> AllAscii(body)
  {
    forall rest ensures ReadBody(body + "\"" + rest) == Some((s, rest)) {
      BodyReads(s, ensureAscii, rest);
    }
    BodySize(s, ensureAscii);
    if ensureAscii {
      forall i | 0 <= i < |body| ensures body[i] as int < 0x80 {
        BodyAscii(s, i);
      }
    }
  }

  method WriteChar(c: char, before: string, ensureAscii: bool) returns (buf: string)
    ensures buf == before + EscapeChar(c, ensureAscii)
  {
    if c == '"' {
      buf := before + "\\\"";
    } else if c == '\\' {
      buf := before + "\\\\";
    } else if c as int == 8 {
      buf := before + "\\b";
    } else if c as int == 12 {
      buf := before + "\\f";
    } else if c == '\n' {
      buf := before + "\\n";
    } else if c == '\r' {
      buf := before + "\\r";
    } else if c == '\t' {
      buf := before + "\\t";
    } else if c as int < 0x20 {
      buf := before + UnitEscape(c as int);
    } else if ensureAscii && c as int >= 0x80 {
      buf := WriteUnits(Units(c), before);
    } else {
      buf := before + [c];
    }
  }

  method WriteUnits(us: seq<nat>, before: string) returns (buf: string)
    requires forall i :: 0 <= i < |us| ==> us[i] < 0x1_0000
    ensures buf == before + UnitEscapes(us)
  {
    buf := before;
    for i := 0 to |us|
      invariant buf + UnitEscapes(us[i..]) == before + UnitEscapes(us)
    {
      assert us[i..][0] == us[i] && us[i..][1..] == us[i + 1..];
      buf := buf + UnitEscape(us[i]);
    }
  }

  // ---- Reading ----

  /** One `\uXXXX` at the start of `t`. */
  function ReadUnit(t: string): (r: Option<nat>)
    ensures r.Some? ==> |t| >= 6
  {
    if |t| < 6 || t[0] != '\\' || t[1] != 'u' then None else HexValue(t[2..6])
  }

  /** An escape at the start of `t`: the character and its length. A surrogate must be the high half
      of a pair followed by the low half. */
  function ReadEscape(t: string): (r: Option<(char, nat)>)
    ensures r.Some? ==> 2 <= r.value.1 <= |t|
  {
    if |t| < 2 then None
    else if t[1] == '"' || t[1] == '\\' || t[1] == '/' then Some((t[1], 2))
    else if t[1] == 'b' then Some((8 as char, 2))
    else if t[1] == 'f' then Some((12 as char, 2))
    else if t[1] == 'n' then Some(('\n', 2))
    else if t[1] == 'r' then Some(('\r', 2))
    else if t[1] == 't' then Some(('\t', 2))
    else
      match ReadUnit(t)
      case None => None
      case Some(u) =>
        if IsScalar(u) then Some((u as char, 6))
        else if 0xD800 <= u < 0xDC00 then ReadPair(t, u)
        else None
  }

  function ReadPair(t: string, high: nat): (r: Option<(char, nat)>)
    requires |t| >= 6 && 0xD800 <= high < 0xDC00
    ensures r.Some? ==> r.value.1 == 12 <= |t|
  {
    match ReadUnit(t[6..])
    case None => None
    case Some(low) =>
      if 0xDC00 <= low < 0xE000 then Some(((0x1_0000 + (high - 0xD800) * 0x400 + (low - 0xDC00)) as char, 12))
      else None
  }

  function Prepend(c: char, r: Option<(string, string)>): Option<(string, string)> {
    match r case Some((v, rest)) => Some(([c] + v, rest)) case None => None
  }

  /** The value of a string from after its opening quotation mark, and what follows the closing one. */
  function ReadBody(t: string): Option<(string, string)>
    decreases |t|
  {
    if t == "" then None
    else if t[0] == '"' then Some(("", t[1..]))
    else if t[0] as int < 0x20 then None
    else if t[0] != '\\' then Prepend(t[0], ReadBody(t[1..]))
    else
      match ReadEscape(t)
      case Some((c, n)) => Prepend(c, ReadBody(t[n..]))
      case None => None
  }

  lemma UnitReads(u: nat, rest: string)
    requires u < 0x1_0000
    ensures ReadUnit(UnitEscape(u) + rest) == Some(u)
  {
    Pow16Values();
    HexReadsBack(u, 4);
    assert (UnitEscape(u) + rest)[2..6] == Hex(u, 4);
  }

  lemma LastUnit(us: seq<nat>)
    requires 1 <= |us| <= 2 && forall i :: 0 <= i < |us| ==> us[i] < 0x1_0000
    ensures UnitEscapes(us[1..]) == if |us| == 1 then "" else UnitEscape(us[1])
  {
    if |us| == 2 {
      var low := us[1..];
      assert low[0] == us[1] && low[1..] == [];
      assert UnitEscapes(low) == UnitEscape(low[0]) + UnitEscapes(low[1..]);
      assert UnitEscapes(low[1..]) == "";
    }
  }

  lemma UnitReadsScalar(u: nat, rest: string)
    requires u < 0x1_0000 && IsScalar(u)
    ensures ReadEscape(UnitEscape(u) + rest) == Some((u as char, 6))
  {
    UnitReads(u, rest);
  }

  lemma PairReads(high: nat, low: nat, rest: string)
    requires 0xD800 <= high < 0xDC00 && 0xDC00 <= low < 0xE000
    ensures ReadEscape(UnitEscape(high) + (UnitEscape(low) + rest)) ==
            Some(((0x1_0000 + (high - 0xD800) * 0x400 + (low - 0xDC00)) as char, 12))
  {
    var tail := UnitEscape(low) + rest;
    UnitReads(high, tail);
    UnitReads(low, rest);
    assert (UnitEscape(high) + tail)[6..] == tail;
  }

  lemma UnitsRead(c: char, rest: string)
    ensures ReadEscape(UnitEscapes(Units(c)) + rest) == Some((c, |UnitEscapes(Units(c))|))
  {
    var us := Units(c);
    LastUnit(us);
    if |us| == 1 {
      assert UnitEscapes(us) == UnitEscape(us[0]);
      UnitReadsScalar(us[0], rest);
    } else {
      PairReads(us[0], us[1], rest);
      assert UnitEscapes(us) + rest == UnitEscape(us[0]) + (UnitEscape(us[1]) + rest);
    }
  }

  lemma CharReads(c: char, ensureAscii: bool, rest: string)
    ensures ReadBody(EscapeChar(c, ensureAscii) + rest) == Prepend(c, ReadBody(rest))
  {
    var e := EscapeChar(c, ensureAscii);
    assert (e + rest)[|e|..] == rest;
    if c as int < 0x20 && |e| == 6 {
      UnitReads(c as int, rest);
    } else if ensureAscii && c as int >= 0x80 {
      UnitsRead(c, rest);
    }
  }

  /** The body reads back up to the first quotation mark written after it: none inside it is bare. */
  lemma {:induction false} BodyReads(s: string, ensureAscii: bool, rest: string)
    ensures ReadBody(Escape(s, ensureAscii) + "\"" + rest) == Some((s, rest))
  {
    EscapeStep(s, ensureAscii);
    if s == "" {
      assert "" + "\"" + rest == "\"" + rest;
      assert ("\"" + rest)[1..] == rest;
    } else {
      var tail := Escape(s[1..], ensureAscii) + "\"" + rest;
      BodyReads(s[1..], ensureAscii, rest);
      CharReads(s[0], ensureAscii, tail);
      Regrouped(EscapeChar(s[0], ensureAscii), Escape(s[1..], ensureAscii), "\"", rest);
      HeadTail(s);
    }
  }

  lemma UnitEscapesShape(c: char)
    ensures |UnitEscapes(Units(c))| == 6 * |Units(c)|
    ensures forall i :: 0 <= i < |UnitEscapes(Units(c))| ==> UnitEscapes(Units(c))[i] as int < 0x80
  {
    var us := Units(c);
    if |us| == 2 {
      LastUnit(us);
    }
  }

  lemma EscapeCharShape(c: char, ensureAscii: bool)
    ensures var e := EscapeChar(c, ensureAscii);
            || (e == [c] && !(ensureAscii && c as int >= 0x80))
            || (|e| <= 6 * CharSize(c) && forall i :: 0 <= i < |e| ==> e[i] as int < 0x80)
  {
    UnitEscapesShape(c);
  }

  lemma {:induction false} BodySize(s: string, ensureAscii: bool)
    ensures Utf8Len(Escape(s, ensureAscii)) <= 6 * Utf8Len(s)
  {
    EscapeStep(s, ensureAscii);
    if s == "" {
    } else {
      var e := EscapeChar(s[0], ensureAscii);
      EscapeCharShape(s[0], ensureAscii);
      if e == [s[0]] {
        assert e[1..] == "";
      } else {
        Utf8LenAscii(e);
      }
      BodySize(s[1..], ensureAscii);
      Utf8LenJoin(e, Escape(s[1..], ensureAscii));
    }
  }

  lemma {:induction false} BodyAscii(s: string, i: nat)
    requires i < |Escape(s, true)|
    ensures Escape(s, true)[i] as int < 0x80
  {
    EscapeStep(s, true);
    var e := EscapeChar(s[0], true);
    EscapeCharShape(s[0], true);
    if i >= |e| {
      BodyAscii(s[1..], i - |e|);
    }
  }
}
