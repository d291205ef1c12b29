/** The texts a range expression may be written in, as a grammar, and that the parser reads exactly
    those. */
module RangeGrammar {
  import opened Wrappers
  import opened Whitespace
  import opened Sequences
  import opened Strings
  import opened Decimal
  import opened IntRanges
  import opened RangeExprs
  import opened RangeText

  // ---- The grammar ----

  /** Spaces, tabs, line feeds, carriage returns and form feeds. */
  ghost predicate Blank(s: string) {
    forall i :: 0 <= i < |s| ==> s[i] as int in {9, 10, 12, 13, 32}
  }

  /** Decimal digits after an optional minus sign, inside i64 and other than its least value. */
  ghost predicate Numeral(a: string, v: i64) {
    var d := if a != "" && a[0] == '-' then a[1..] else a;
    && d != "" && AllDigits(d) && ToNat(d) < 0x8000_0000_0000_0000
    && v as int == if a[0] == '-' then 0 - ToNat(d) else ToNat(d)
  }

  /** One sub-range as it may be written: a value, `start-end`, or `start-end:step`, with blanks after each
      number and each sign. */
  datatype Spelling =
    | Single(a: string, s: string)
    | Span(a: string, s: string, s1: string, b: string, s2: string)
    | Stepped(a: string, s: string, s1: string, b: string, s2: string, s3: string, c: string, s4: string)

  ghost function Written(p: Spelling): string {
    match p
    case Single(a, s) => a + s
    case Span(a, s, s1, b, s2) => a + (s + ("-" + (s1 + (b + s2))))
    case Stepped(a, s, s1, b, s2, s3, c, s4) => a + (s + ("-" + (s1 + (b + (s2 + (":" + (s3 + (c + s4))))))))
  }

  /** The sub-range it stands for: a start may exceed the end only with a step, which is not zero. */
  ghost predicate Means(p: Spelling, r: IntRange) {
    match p
    case Single(a, s) => Blank(s) && exists v: i64 :: Numeral(a, v) && New(v, v, 1) == Ok(r)
    case Span(a, s, s1, b, s2) =>
      && Blank(s) && Blank(s1) && Blank(s2)
      && exists v: i64, w: i64 :: Numeral(a, v) && Numeral(b, w) && v <= w && New(v, w, 1) == Ok(r)
    case Stepped(a, s, s1, b, s2, s3, c, s4) =>
      && Blank(s) && Blank(s1) && Blank(s2) && Blank(s3) && Blank(s4)
      && exists v: i64, w: i64, n: i64 ::
           Numeral(a, v) && Numeral(b, w) && Numeral(c, n) && n != 0 && New(v, w, n) == Ok(r)
  }

  /** Between commas stands a sub-range after any blanks. */
  ghost predicate PartMeans(part: string, r: IntRange) {
    exists s, p :: Blank(s) && part == s + Written(p) && Means(p, r)
  }

  ghost predicate PartsMean(parts: seq<string>, rs: seq<IntRange>) {
    |parts| == |rs| && forall i :: 0 <= i < |rs| ==> PartMeans(parts[i], rs[i])
  }

  // ---- Blanks and numbers ----

  lemma {:induction false} SkipsBlank(s: string, u: string)
    requires Blank(s) && (u == "" || !IsAsciiBlank(u[0]))
    ensures SkipBlank(s + u) == u
  {
    if s == "" {
      assert s + u == u;
    } else {
      SkipsBlank(s[1..], u);
      assert (s + u)[1..] == s[1..] + u;
    }
  }

  lemma {:induction false} Skipped(t: string) returns (s: string)
    ensures Blank(s) && t == s + SkipBlank(t)
  {
    if t != "" && IsAsciiBlank(t[0]) {
      var rest := Skipped(t[1..]);
      s := [t[0]] + rest;
      HeadTail(t);
      Assoc([t[0]], rest, SkipBlank(t));
    } else {
      s := "";
    }
  }

  lemma NumberRead(a: string, v: i64, u: string)
    requires Numeral(a, v) && (u == "" || !IsDigit(u[0]))
    ensures ReadInt(a + u) == Some((v, u))
  {
    var d := if a[0] == '-' then a[1..] else a;
    assert a[0] == '-' ==> (a + u)[1..] == d + u;
    DigitSpanOf(d, u);
    assert (d + u)[..|d|] == d && (d + u)[|d|..] == u;
  }

  lemma ReadNumber(t: string) returns (a: string)
    requires ReadInt(t).Some?
    ensures var (v, u) := ReadInt(t).value; t == a + u && Numeral(a, v) && (u == "" || !IsDigit(u[0]))
  {
    var d := if t[0] == '-' then t[1..] else t;
    var k := DigitSpan(d);
    a := if t[0] == '-' then t[..k + 1] else t[..k];
    assert t[0] == '-' ==> a[1..] == d[..k];
    assert t[0] != '-' ==> a[0] == t[0];
  }

  /** What may follow a number and its blanks. */
  ghost predicate Follows(u: string) {
    u == "" || (!IsAsciiBlank(u[0]) && !IsDigit(u[0]))
  }

  lemma NumberThenBlank(a: string, v: i64, s: string, u: string)
    requires Numeral(a, v) && Blank(s) && Follows(u)
    ensures ReadInt(a + (s + u)) == Some((v, s + u)) && SkipBlank(s + u) == u
  {
    assert s != "" ==> (s + u)[0] == s[0];
    assert s == "" ==> s + u == u;
    NumberRead(a, v, s + u);
    SkipsBlank(s, u);
  }

  lemma BlankThenNumber(s: string, a: string, v: i64, t: string)
    requires Blank(s) && Numeral(a, v)
    ensures SkipBlank(s + (a + t)) == a + t
  {
    SkipsBlank(s, a + t);
  }

  // ---- What is written is read ----

  lemma PieceReads(a: string, v: i64, s: string, u: string)
    requires Numeral(a, v) && Blank(s) && Follows(u)
    ensures ReadPiece(a + (s + u)) == ReadEnd(v, u)
  {
    NumberThenBlank(a, v, s, u);
  }

  lemma EndReads(v: i64, s1: string, b: string, w: i64, s2: string, u: string)
    requires Blank(s1) && Numeral(b, w) && Blank(s2) && Follows(u)
    ensures ReadEnd(v, "-" + (s1 + (b + (s2 + u)))) == ReadStep(v, w, u)
  {
    var x := s1 + (b + (s2 + u));
    assert ("-" + x)[1..] == x;
    BlankThenNumber(s1, b, w, s2 + u);
    NumberThenBlank(b, w, s2, u);
  }

  lemma StepReads(v: i64, w: i64, s3: string, c: string, n: i64, s4: string, sep: string)
    requires Blank(s3) && Numeral(c, n) && Blank(s4) && AtSeparator(sep)
    ensures ReadStep(v, w, ":" + (s3 + (c + (s4 + sep)))) ==
            if n == 0 then None else NewChunk(v, w, n, AfterSeparator(sep))
  {
    var x := s3 + (c + (s4 + sep));
    assert (":" + x)[1..] == x;
    BlankThenNumber(s3, c, n, s4 + sep);
    NumberThenBlank(c, n, s4, sep);
  }

  lemma SpanJoin(a: string, s: string, s1: string, b: string, s2: string, u: string)
    ensures (a + (s + ("-" + (s1 + (b + s2))))) + u == a + (s + ("-" + (s1 + (b + (s2 + u)))))
  {
    Assoc(b, s2, u);
    Assoc(s1, b + s2, u);
    Assoc("-", s1 + (b + s2), u);
    Assoc(s, "-" + (s1 + (b + s2)), u);
    Assoc(a, s + ("-" + (s1 + (b + s2))), u);
  }

  lemma SteppedJoin(p: Spelling, u: string)
    requires p.Stepped?
    ensures Written(p) + u ==
            p.a + (p.s + ("-" + (p.s1 + (p.b + (p.s2 + (":" + (p.s3 + (p.c + (p.s4 + u)))))))))
  {
    Assoc(p.c, p.s4, u);
    Assoc(p.s3, p.c + p.s4, u);
    Assoc(":", p.s3 + (p.c + p.s4), u);
    SpanJoin(p.a, p.s, p.s1, p.b, p.s2 + (":" + (p.s3 + (p.c + p.s4))), u);
    Assoc(p.s2, ":" + (p.s3 + (p.c + p.s4)), u);
  }

  lemma SingleRead(a: string, s: string, v: i64, sep: string)
    requires Numeral(a, v) && Blank(s) && AtSeparator(sep)
    ensures ReadPiece((a + s) + sep) == NewChunk(v, v, 1, AfterSeparator(sep))
  {
    Assoc(a, s, sep);
    PieceReads(a, v, s, sep);
  }

  lemma SpanRead(a: string, s: string, s1: string, b: string, s2: string, v: i64, w: i64, sep: string)
    requires Numeral(a, v) && Numeral(b, w) && Blank(s) && Blank(s1) && Blank(s2) && v <= w && AtSeparator(sep)
    ensures ReadPiece((a + (s + ("-" + (s1 + (b + s2))))) + sep) == NewChunk(v, w, 1, AfterSeparator(sep))
  {
    SpanJoin(a, s, s1, b, s2, sep);
    PieceReads(a, v, s, "-" + (s1 + (b + (s2 + sep))));
    EndReads(v, s1, b, w, s2, sep);
  }

  lemma SteppedRead(p: Spelling, v: i64, w: i64, n: i64, sep: string)
    requires p.Stepped? && Blank(p.s) && Blank(p.s1) && Blank(p.s2) && Blank(p.s3) && Blank(p.s4)
    requires Numeral(p.a, v) && Numeral(p.b, w) && Numeral(p.c, n) && n != 0 && AtSeparator(sep)
    ensures ReadPiece(Written(p) + sep) == NewChunk(v, w, n, AfterSeparator(sep))
  {
    var u := ":" + (p.s3 + (p.c + (p.s4 + sep)));
    SteppedJoin(p, sep);
    PieceReads(p.a, v, p.s, "-" + (p.s1 + (p.b + (p.s2 + u))));
    EndReads(v, p.s1, p.b, w, p.s2, u);
    StepReads(v, w, p.s3, p.c, n, p.s4, sep);
  }

  lemma WrittenRead(p: Spelling, r: IntRange, sep: string)
    requires Means(p, r) && AtSeparator(sep)
    ensures ReadPiece(Written(p) + sep) == Some((r, AfterSeparator(sep)))
  {
    match p
    case Single(a, s) =>
      var v: i64 :| Numeral(a, v) && New(v, v, 1) == Ok(r);
      SingleRead(a, s, v, sep);
    case Span(a, s, s1, b, s2) =>
      var v: i64, w: i64 :| Numeral(a, v) && Numeral(b, w) && v <= w && New(v, w, 1) == Ok(r);
      SpanRead(a, s, s1, b, s2, v, w, sep);
    case Stepped(a, s, s1, b, s2, s3, c, s4) =>
      var v: i64, w: i64, n: i64 :|
        Numeral(a, v) && Numeral(b, w) && Numeral(c, n) && n != 0 && New(v, w, n) == Ok(r);
      SteppedRead(p, v, w, n, sep);
  }

  // ---- What is read was written ----

  /** The rest of the text after a sub-range and its separator. */
  ghost predicate Leaves(u: string, rest: string) {
    AtSeparator(u) && rest == AfterSeparator(u)
  }

  lemma StepWritten(start: i64, end: i64, u: string, r: IntRange, rest: string)
      returns (s3: string, c: string, s4: string, sep: string, n: i64)
    requires !AtSeparator(u) && ReadStep(start, end, u) == Some((r, rest))
    ensures u == ":" + (s3 + (c + (s4 + sep))) && Leaves(sep, rest)
    ensures Blank(s3) && Blank(s4) && Numeral(c, n) && n != 0 && New(start, end, n) == Ok(r)
  {
    var x := u[1..];
    HeadTail(u);
    s3 := Skipped(x);
    var y := SkipBlank(x);
    c := ReadNumber(y);
    n := ReadInt(y).value.0;
    s4 := Skipped(ReadInt(y).value.1);
    sep := SkipBlank(ReadInt(y).value.1);
  }

  lemma EndWritten(start: i64, u: string, r: IntRange, rest: string)
      returns (s1: string, b: string, s2: string, end: i64, v: string)
    requires !AtSeparator(u) && ReadEnd(start, u) == Some((r, rest))
    ensures u == "-" + (s1 + (b + (s2 + v))) && Blank(s1) && Blank(s2) && Numeral(b, end)
    ensures ReadStep(start, end, v) == Some((r, rest))
  {
    var x := u[1..];
    HeadTail(u);
    s1 := Skipped(x);
    var y := SkipBlank(x);
    b := ReadNumber(y);
    end := ReadInt(y).value.0;
    s2 := Skipped(ReadInt(y).value.1);
    v := SkipBlank(ReadInt(y).value.1);
  }

  lemma PieceWritten(t: string, r: IntRange, rest: string) returns (a: string, s: string, start: i64, u: string)
    requires ReadPiece(t) == Some((r, rest))
    ensures t == a + (s + u) && Numeral(a, start) && Blank(s) && ReadEnd(start, u) == Some((r, rest))
  {
    a := ReadNumber(t);
    start := ReadInt(t).value.0;
    s := Skipped(ReadInt(t).value.1);
    u := SkipBlank(ReadInt(t).value.1);
  }

  lemma ReadWritten(t: string, r: IntRange, rest: string) returns (p: Spelling, sep: string)
    requires ReadPiece(t) == Some((r, rest))
    ensures t == Written(p) + sep && Means(p, r) && Leaves(sep, rest)
  {
    var a, s, start, u := PieceWritten(t, r, rest);
    if AtSeparator(u) {
      p, sep := Single(a, s), u;
      Assoc(a, s, u);
    } else {
      var s1, b, s2, end, v := EndWritten(start, u, r, rest);
      if AtSeparator(v) {
        p, sep := Span(a, s, s1, b, s2), v;
        SpanJoin(a, s, s1, b, s2, v);
      } else {
        var s3, c, s4, w, n := StepWritten(start, end, v, r, rest);
        p, sep := Stepped(a, s, s1, b, s2, s3, c, s4), w;
        SteppedJoin(p, w);
      }
    }
  }

  // ---- All sub-ranges ----

  /** Starts with no blank, and holds no comma. */
  ghost predicate Tight(t: string) {
    t != "" && !IsAsciiBlank(t[0]) && ',' !in t
  }

  lemma TightJoin(a: string, t: string)
    requires Tight(a) && ',' !in t
    ensures Tight(a + t)
  {}

  lemma NoComma(x: string, y: string)
    requires ',' !in x && ',' !in y
    ensures ',' !in x + y
  {}

  lemma WrittenShape(p: Spelling, r: IntRange)
    requires Means(p, r)
    ensures Tight(Written(p))
  {
    match p
    case Single(a, s) =>
      NumeralShape(a);
      BlankShape(s);
      TightJoin(a, s);
    case Span(a, s, s1, b, s2) =>
      NumeralShape(b);
      BlankShape(s2);
      SpanShape(a, s, s1, b, s2);
    case Stepped(a, s, s1, b, s2, s3, c, s4) =>
      SteppedShape(b, s2, s3, c, s4);
      SpanShape(a, s, s1, b, s2 + (":" + (s3 + (c + s4))));
  }

  lemma SpanShape(a: string, s: string, s1: string, b: string, t: string)
    requires (exists v: i64 :: Numeral(a, v)) && Blank(s) && Blank(s1) && Tight(b) && ',' !in t
    ensures Tight(a + (s + ("-" + (s1 + (b + t)))))
  {
    NumeralShape(a);
    BlankShape(s);
    BlankShape(s1);
    NoComma(b, t);
    NoComma(s1, b + t);
    NoComma("-", s1 + (b + t));
    NoComma(s, "-" + (s1 + (b + t)));
    TightJoin(a, s + ("-" + (s1 + (b + t))));
  }

  lemma SteppedShape(b: string, s2: string, s3: string, c: string, s4: string)
    requires (exists v: i64 :: Numeral(b, v)) && (exists v: i64 :: Numeral(c, v)) && Blank(s2) && Blank(s3) && Blank(s4)
    ensures Tight(b) && ',' !in s2 + (":" + (s3 + (c + s4)))
  {
    NumeralShape(b);
    NumeralShape(c);
    BlankShape(s2);
    BlankShape(s3);
    BlankShape(s4);
    NoComma(c, s4);
    NoComma(s3, c + s4);
    NoComma(":", s3 + (c + s4));
    NoComma(s2, ":" + (s3 + (c + s4)));
  }

  lemma NumeralShape(a: string)
    requires exists v: i64 :: Numeral(a, v)
    ensures Tight(a)
  {
    var d := if a[0] == '-' then a[1..] else a;
    forall i | 0 <= i < |a| ensures a[i] != ',' {
      assert a[0] == '-' && i > 0 ==> a[i] == d[i - 1];
    }
  }

  lemma BlankShape(s: string)
    requires Blank(s)
    ensures ',' !in s
  {}

  lemma {:induction false} SplitHead(p: string, rest: string)
    requires ',' !in p
    ensures Split(',', p) == [p]
    ensures Split(',', p + ("," + rest)) == [p] + Split(',', rest)
  {
    var t := p + ("," + rest);
    if p == "" {
      assert t[1..] == rest;
    } else {
      SplitHead(p[1..], rest);
      assert t[1..] == p[1..] + ("," + rest);
      HeadTail(p);
      assert ([p[1..]] + Split(',', rest))[1..] == Split(',', rest);
    }
  }

  /** A part is read as the sub-range it means, whatever follows the comma after it. */
  lemma PartRead(part: string, r: IntRange, sep: string)
    requires PartMeans(part, r) && AtSeparator(sep)
    ensures SkipBlank(part + sep) != "" && ReadPiece(SkipBlank(part + sep)) == Some((r, AfterSeparator(sep)))
    ensures ',' !in part
  {
    var s, p :| Blank(s) && part == s + Written(p) && Means(p, r);
    WrittenShape(p, r);
    BlankShape(s);
    Assoc(s, Written(p), sep);
    SkipsBlank(s, Written(p) + sep);
    WrittenRead(p, r, sep);
  }

  /** The first sub-range read is what the text's first part means. */
  lemma ReadPart(t: string, r: IntRange, rest: string) returns (part: string, sep: string)
    requires ReadPiece(SkipBlank(t)) == Some((r, rest))
    ensures t == part + sep && PartMeans(part, r) && Leaves(sep, rest) && ',' !in part
  {
    var s := Skipped(t);
    var p, tail := ReadWritten(SkipBlank(t), r, rest);
    part, sep := s + Written(p), tail;
    Assoc(s, Written(p), tail);
    PartRead(part, r, "");
  }

  lemma SplitParts(part: string, sep: string)
    requires ',' !in part && AtSeparator(sep)
    ensures Split(',', part + sep) == [part] + if sep == "" then [] else Split(',', AfterSeparator(sep))
  {
    SplitHead(part, AfterSeparator(sep));
    if sep == "" {
      assert part + sep == part;
    } else {
      HeadTail(sep);
    }
  }

  lemma {:induction false} SplitFirst(t: string) returns (sep: string)
    ensures var part := Split(',', t)[0];
            && t == part + sep && AtSeparator(sep) && ',' !in part
            && Split(',', t) == [part] + if sep == "" then [] else Split(',', AfterSeparator(sep))
  {
    if t == "" || t[0] == ',' {
      sep := t;
      SplitParts("", t);
      assert "" + t == t;
    } else {
      sep := SplitFirst(t[1..]);
      var rest := Split(',', t[1..]);
      HeadTail(t);
      Assoc([t[0]], rest[0], sep);
      SplitParts([t[0]] + rest[0], sep);
    }
  }

  lemma NotAllBlank(t: string)
    requires t != "" && !IsAsciiBlank(t[|t| - 1])
    ensures SkipBlank(t) != ""
  {
    var s := Skipped(t);
    assert s + "" == s;
  }

  lemma NoPartEmpty(r: IntRange)
    ensures !PartMeans("", r)
  {
    assert "" + "" == "";
    if PartMeans("", r) { PartRead("", r, ""); }
  }

  /** The text ends where a sub-range may, with its last character. */
  ghost predicate Unfinished(t: string, comma: bool) {
    t != "" && !IsAsciiBlank(t[|t| - 1]) && (comma <==> t[|t| - 1] == ',')
  }

  lemma {:induction false} PartsRead(t: string, read: seq<IntRange>, comma: bool, rs: seq<IntRange>)
    requires Unfinished(t, comma) && PartsMean(Split(',', t), rs) && |read| + |rs| <= MAX_RANGE_EXPR_CHUNKS
    ensures ReadAll(t, read, comma) == Some(read + rs)
    decreases |t|
  {
    var parts := Split(',', t);
    var sep := SplitFirst(t);
    PartRead(parts[0], rs[0], sep);
    var more := read + [rs[0]];
    if sep == "" {
      assert rs == [rs[0]];
      LastOf(parts[0], sep, t);
      assert ReadAll("", more, comma) == Some(more);
    } else {
      var rest := AfterSeparator(sep);
      assert parts[1..] == Split(',', rest);
      TailMeans(parts, rs);
      if rest == "" { NoPartEmpty(rs[1]); }
      LastOf(parts[0], sep, t);
      PartsRead(rest, more, comma, rs[1..]);
      Assoc(read, [rs[0]], rs[1..]);
      HeadTail(rs);
    }
  }

  lemma TailMeans(parts: seq<string>, rs: seq<IntRange>)
    requires parts != [] && PartsMean(parts, rs)
    ensures PartsMean(parts[1..], rs[1..])
  {}

  /** The last character stands in what follows the first part, if anything does. */
  lemma LastOf(part: string, sep: string, t: string)
    requires t == part + sep && t != "" && ',' !in part && AtSeparator(sep)
    ensures sep == "" ==> t[|t| - 1] != ','
    ensures sep != "" && AfterSeparator(sep) == "" ==> t[|t| - 1] == ','
    ensures sep != "" && AfterSeparator(sep) != "" ==> AfterSeparator(sep)[|AfterSeparator(sep)| - 1] == t[|t| - 1]
  {
    if sep == "" { assert t == part; }
  }

  lemma {:induction false} ReadParts(t: string, read: seq<IntRange>, comma: bool, all: seq<IntRange>)
      returns (rs: seq<IntRange>)
    requires Unfinished(t, comma) && ReadAll(t, read, comma) == Some(all)
    ensures all == read + rs && |all| <= MAX_RANGE_EXPR_CHUNKS && PartsMean(Split(',', t), rs)
    decreases |t|
  {
    NotAllBlank(t);
    var (r, rest) := ReadPiece(SkipBlank(t)).value;
    var part, sep := ReadPart(t, r, rest);
    SplitParts(part, sep);
    LastOf(part, sep, t);
    var more := read + [r];
    NothingLeft(more);
    if sep == "" {
      rs := [r];
    } else if rest != "" {
      var tail := ReadParts(rest, more, comma, all);
      rs := [r] + tail;
      Assoc(read, [r], tail);
      HeadMeans(part, r, Split(',', rest), tail);
    }
  }

  lemma NothingLeft(read: seq<IntRange>)
    requires read != []
    ensures ReadAll("", read, true).None?
    ensures ReadAll("", read, false) == if |read| > MAX_RANGE_EXPR_CHUNKS then None else Some(read)
  {}

  lemma HeadMeans(part: string, r: IntRange, parts: seq<string>, rs: seq<IntRange>)
    requires PartMeans(part, r) && PartsMean(parts, rs)
    ensures PartsMean([part] + parts, [r] + rs)
  {}

  lemma {:induction false} TrimmedEnd(t: string)
    ensures Trim(t) != "" ==> !IsWhiteSpace(Trim(t)[|Trim(t)| - 1])
  {
    EndTrimmed(TrimStart(t));
  }

  lemma {:induction false} EndTrimmed(t: string)
    ensures TrimEnd(t) != "" ==> !IsWhiteSpace(TrimEnd(t)[|TrimEnd(t)| - 1])
  {
    if t != "" && IsWhiteSpace(t[|t| - 1]) { EndTrimmed(t[..|t| - 1]); }
  }

  /** The texts that are read, and as what: between commas, in the trimmed text, stand sub-ranges, at least one
      and at most ten thousand. */
  lemma ReadsExactly(text: string, rs: seq<IntRange>)
    ensures ReadText(text) == Some(rs) <==> PartsMean(Split(',', Trim(text)), rs) && |rs| <= 10_000
  {
    var t := Trim(text);
    if t == "" {
      if PartsMean(Split(',', t), rs) { NoPartEmpty(rs[0]); }
    } else {
      TrimmedEnd(text);
      var comma := t[|t| - 1] == ',';
      if ReadText(text) == Some(rs) {
        var qs := ReadParts(t, [], comma, rs);
        assert [] + qs == qs;
      }
      if PartsMean(Split(',', t), rs) && |rs| <= 10_000 {
        PartsRead(t, [], comma, rs);
        assert [] + rs == rs;
      }
    }
  }
}
