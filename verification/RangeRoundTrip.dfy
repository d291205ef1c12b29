/** Parsing what was printed gives back the same list. */
module RangeRoundTrip {
  import opened Wrappers
  import opened Whitespace
  import opened Sequences
  import opened Strings
  import opened IntRanges
  import opened RangeExprs
  import opened RangeBuild
  import opened RangeSlicing
  import opened RangeText
  import opened Decimal

  // ---- Printed pieces ----

  datatype Form = Single | Span | Stepped

  /** One comma-separated piece of printed text and the chunk it spells. */
  datatype Piece = Piece(chunk: IntRange, form: Form)

  ghost predicate ValidPiece(p: Piece) {
    && Valid(p.chunk)
    && (p.form.Single? ==> p.chunk.start == p.chunk.end)
    && (!p.form.Stepped? ==> p.chunk.step == 1)
  }

  ghost function PieceText(p: Piece): string {
    match p.form
    case Single => IntText(p.chunk.start as int)
    case Span => IntText(p.chunk.start as int) + "-" + IntText(p.chunk.end as int)
    case Stepped =>
      IntText(p.chunk.start as int) + "-" + IntText(p.chunk.end as int) + ":" + IntText(p.chunk.step as int)
  }

  ghost function Texts(ps: seq<Piece>): (r: seq<string>)
    ensures |r| == |ps|
  {
    seq(|ps|, i requires 0 <= i < |ps| => PieceText(ps[i]))
  }

  ghost function Chunks(ps: seq<Piece>): (r: seq<IntRange>)
    ensures |r| == |ps|
  {
    seq(|ps|, i requires 0 <= i < |ps| => ps[i].chunk)
  }

  ghost predicate ValidPieces(ps: seq<Piece>) {
    forall i :: 0 <= i < |ps| ==> ValidPiece(ps[i])
  }

  ghost function OneValue(v: i64): Piece {
    Piece(IntRange(v, v, 1), Single)
  }

  ghost function ChunkPieces(r: IntRange): (ps: seq<Piece>)
    requires Valid(r)
    ensures 1 <= |ps| <= 2
  {
    if LenU64(r) == 1 then [OneValue(r.start)]
    else if LenU64(r) == 2 then [OneValue(r.start), OneValue(r.end)]
    else if r.step == 1 then [Piece(r, Span)]
    else [Piece(r, Stepped)]
  }

  ghost function AllPieces(rs: seq<IntRange>): seq<Piece>
    requires AllValid(rs)
  {
    if rs == [] then [] else AllPieces(rs[..|rs| - 1]) + ChunkPieces(rs[|rs| - 1])
  }

  /** The pieces of the printed form, contiguous flag included. */
  ghost function Printed(e: RangeExpr): seq<Piece>
    requires ValidExpr(e)
  {
    match ContiguousSpan(e)
    case Some(r) => [Piece(r, Span)]
    case None => AllPieces(e.ranges)
  }

  // ---- Reading one piece ----

  lemma DigitsSplit(d: string, u: string, k: nat)
    requires d != "" && k == |d|
    ensures d + u != "" && (d + u)[0] == d[0] && (d + u)[..k] == d && (d + u)[k..] == u
  {}

  lemma ReadDigits(d: string, u: string)
    requires AllDigits(d) && d != "" && ToNat(d) < 0x8000_0000_0000_0000
    requires u == "" || !IsDigit(u[0])
    ensures ReadInt(d + u) == Some((ToNat(d) as i64, u))
  {
    DigitSpanOf(d, u);
    DigitsSplit(d, u, |d|);
  }

  lemma ReadMinus(t: string, u: string, v: i64)
    requires ReadInt(t) == Some((v, u)) && t != "" && t[0] != '-'
    ensures ReadInt("-" + t) == Some((-v, u))
  {
    assert ("-" + t)[1..] == t;
  }

  lemma ReadIntText(v: i64, u: string)
    requires InDomain(v as int) && (u == "" || !IsDigit(u[0]))
    ensures ReadInt(IntText(v as int) + u) == Some((v, u))
  {
    if v < 0 {
      var d := NatText(-(v as int));
      NatTextReadsBack(-(v as int));
      ReadDigits(d, u);
      DigitsSplit(d, u, |d|);
      ReadMinus(d + u, u, -v);
      Assoc("-", d, u);
    } else {
      NatTextReadsBack(v as int);
      ReadDigits(NatText(v as int), u);
    }
  }

  /** Starts with a digit or a minus sign and ends with a digit. */
  ghost predicate NumberEnds(t: string) {
    t != "" && (IsDigit(t[0]) || t[0] == '-') && IsDigit(t[|t| - 1])
  }

  lemma NumberEndsJoin(a: string, mid: string, b: string)
    requires NumberEnds(a) && NumberEnds(b)
    ensures NumberEnds(a + mid + b)
  {}

  /** `t` is read as `v` whatever non-digit follows. */
  ghost predicate SpellsInt(t: string, v: i64) {
    && NumberEnds(t)
    && forall u: string {:trigger ReadInt(t + u)} :: u == "" || !IsDigit(u[0]) ==> ReadInt(t + u) == Some((v, u))
  }

  lemma IntTextSpells(v: i64)
    requires InDomain(v as int)
    ensures SpellsInt(IntText(v as int), v)
  {
    forall u: string | u == "" || !IsDigit(u[0])
      ensures ReadInt(IntText(v as int) + u) == Some((v, u))
    {
      ReadIntText(v, u);
    }
  }

  lemma SkipNothing(t: string, u: string)
    requires NumberEnds(t)
    ensures SkipBlank(t + u) == t + u
  {
    assert (t + u)[0] == t[0];
  }

  lemma NewOfValid(r: IntRange)
    requires Valid(r)
    ensures New(r.start, r.end, r.step) == Ok(r)
  {
    var a, d := r.end as int - r.start as int, r.step as int;
    assert a == (a / d) * d + a % d;
  }

  /** `t` is read as the chunk `r` whatever separator follows. */
  ghost predicate SpellsChunk(t: string, r: IntRange) {
    && NumberEnds(t)
    && forall u: string {:trigger ReadPiece(t + u)} :: AtSeparator(u) ==>
        ReadPiece(t + u) == Some((r, AfterSeparator(u)))
  }

  lemma ReadSpan(a: string, b: string, start: i64, end: i64, tail: string)
    requires SpellsInt(a, start) && SpellsInt(b, end) && (tail == "" || !IsDigit(tail[0]))
    ensures ReadPiece(a + ("-" + (b + tail))) == ReadStep(start, end, SkipBlank(tail))
  {
    var u := "-" + (b + tail);
    assert u[1..] == b + tail;
    SkipNothing(b, tail);
    assert SkipBlank(u) == u;
    assert ReadInt(a + u) == Some((start, u));
    assert ReadInt(b + tail) == Some((end, tail));
  }

  lemma ReadStepped(c: string, r: IntRange, u: string)
    requires Valid(r) && SpellsInt(c, r.step) && AtSeparator(u)
    ensures ReadStep(r.start, r.end, ":" + (c + u)) == Some((r, AfterSeparator(u)))
  {
    NewOfValid(r);
    assert (":" + (c + u))[1..] == c + u;
    SkipNothing(c, u);
    assert ReadInt(c + u) == Some((r.step, u));
  }

  lemma SpanText(a: string, b: string, u: string)
    ensures (a + "-" + b) + u == a + ("-" + (b + u))
  {}

  lemma ReadSpanText(a: string, b: string, r: IntRange, u: string)
    requires Valid(r) && r.step == 1 && SpellsInt(a, r.start) && SpellsInt(b, r.end) && AtSeparator(u)
    ensures ReadPiece((a + "-" + b) + u) == Some((r, AfterSeparator(u)))
  {
    NewOfValid(r);
    ReadSpan(a, b, r.start, r.end, u);
    SpanText(a, b, u);
  }

  lemma SpanSpells(a: string, b: string, r: IntRange)
    requires Valid(r) && r.step == 1 && SpellsInt(a, r.start) && SpellsInt(b, r.end)
    ensures SpellsChunk(a + "-" + b, r)
  {
    NumberEndsJoin(a, "-", b);
    forall u: string | AtSeparator(u)
      ensures ReadPiece((a + "-" + b) + u) == Some((r, AfterSeparator(u)))
    {
      ReadSpanText(a, b, r, u);
    }
  }

  lemma SteppedText(a: string, b: string, c: string, u: string)
    ensures (a + "-" + b + ":" + c) + u == a + ("-" + (b + (":" + (c + u))))
  {
    SpanText(a, b, ":" + (c + u));
    assert (a + "-" + b + ":" + c) + u == (a + "-" + b) + (":" + (c + u));
  }

  lemma ReadSteppedText(a: string, b: string, c: string, r: IntRange, u: string)
    requires Valid(r) && SpellsInt(a, r.start) && SpellsInt(b, r.end) && SpellsInt(c, r.step) && AtSeparator(u)
    ensures ReadPiece((a + "-" + b + ":" + c) + u) == Some((r, AfterSeparator(u)))
  {
    var tail := ":" + (c + u);
    ReadSpan(a, b, r.start, r.end, tail);
    ReadStepped(c, r, u);
    SteppedText(a, b, c, u);
  }

  lemma SteppedSpells(a: string, b: string, c: string, r: IntRange)
    requires Valid(r) && SpellsInt(a, r.start) && SpellsInt(b, r.end) && SpellsInt(c, r.step)
    ensures SpellsChunk(a + "-" + b + ":" + c, r)
  {
    NumberEndsJoin(a, "-", b);
    NumberEndsJoin(a + "-" + b, ":", c);
    forall u: string | AtSeparator(u)
      ensures ReadPiece((a + "-" + b + ":" + c) + u) == Some((r, AfterSeparator(u)))
    {
      ReadSteppedText(a, b, c, r, u);
    }
  }

  lemma SpellsHere(t: string, v: i64, u: string)
    requires SpellsInt(t, v) && (u == "" || !IsDigit(u[0]))
    ensures ReadInt(t + u) == Some((v, u))
  {}

  lemma SeparatorStays(u: string)
    requires AtSeparator(u)
    ensures SkipBlank(u) == u && (u == "" || !IsDigit(u[0]))
  {}

  lemma PieceAfterInt(t: string, start: i64, rest: string, u: string)
    requires ReadInt(t) == Some((start, rest)) && SkipBlank(rest) == u
    ensures ReadPiece(t) == ReadEnd(start, u)
  {}

  lemma SingleEnd(r: IntRange, u: string, rest: string)
    requires New(r.start, r.start, 1) == Ok(r) && AtSeparator(u) && AfterSeparator(u) == rest
    ensures ReadEnd(r.start, u) == Some((r, rest))
  {}

  lemma ReadSingle(a: string, r: IntRange, u: string, rest: string)
    requires SpellsInt(a, r.start) && New(r.start, r.start, 1) == Ok(r)
    requires AtSeparator(u) && AfterSeparator(u) == rest
    ensures ReadPiece(a + u) == Some((r, rest))
  {
    SeparatorStays(u);
    SpellsHere(a, r.start, u);
    PieceAfterInt(a + u, r.start, u, u);
    SingleEnd(r, u, rest);
  }

  lemma SingleSpells(a: string, r: IntRange)
    requires Valid(r) && r.start == r.end && r.step == 1 && SpellsInt(a, r.start)
    ensures SpellsChunk(a, r)
  {
    NewOfValid(r);
    forall u: string | AtSeparator(u)
      ensures ReadPiece(a + u) == Some((r, AfterSeparator(u)))
    {
      ReadSingle(a, r, u, AfterSeparator(u));
    }
  }

  lemma PieceSpells(p: Piece)
    requires ValidPiece(p)
    ensures SpellsChunk(PieceText(p), p.chunk)
  {
    var r := p.chunk;
    IntTextSpells(r.start);
    IntTextSpells(r.end);
    IntTextSpells(r.step);
    match p.form
    case Single => SingleSpells(IntText(r.start as int), r);
    case Span => SpanSpells(IntText(r.start as int), IntText(r.end as int), r);
    case Stepped => SteppedSpells(IntText(r.start as int), IntText(r.end as int), IntText(r.step as int), r);
  }

  // ---- Reading all pieces ----

  ghost predicate SpellAll(ts: seq<string>, rs: seq<IntRange>) {
    |ts| == |rs| && forall i :: 0 <= i < |ts| ==> SpellsChunk(ts[i], rs[i])
  }

  lemma JoinHead(ts: seq<string>)
    requires ts != []
    ensures exists u :: AtSeparator(u) && Join(",", ts) == ts[0] + u && AfterSeparator(u) == Join(",", ts[1..])
  {
    var u := if |ts| == 1 then "" else "," + Join(",", ts[1..]);
    assert AtSeparator(u) && Join(",", ts) == ts[0] + u;
    assert AfterSeparator(u) == Join(",", ts[1..]);
  }

  /** Reading stops at the end of the text, or before that when there are too many chunks. */
  ghost predicate Ends(reader: (string, seq<IntRange>) -> Option<seq<IntRange>>) {
    forall read :: reader("", read) == if |read| > MAX_RANGE_EXPR_CHUNKS then None else Some(read)
  }

  /** Reading goes on after a piece. */
  ghost predicate GoesOn(reader: (string, seq<IntRange>) -> Option<seq<IntRange>>, spells: (string, IntRange) -> bool) {
    forall t: string, u: string, r, read {:trigger spells(t, r), reader(t + u, read)} ::
      spells(t, r) && AtSeparator(u) ==>
        reader(t + u, read) == if |read| > MAX_RANGE_EXPR_CHUNKS then None else reader(AfterSeparator(u), read + [r])
  }

  lemma {:induction false} ReaderReads(reader: (string, seq<IntRange>) -> Option<seq<IntRange>>,
                                       spells: (string, IntRange) -> bool,
                                       ts: seq<string>, rs: seq<IntRange>, read: seq<IntRange>)
    requires Ends(reader) && GoesOn(reader, spells)
    requires |ts| == |rs| && forall i :: 0 <= i < |ts| ==> spells(ts[i], rs[i])
    ensures reader(Join(",", ts), read) == if |read| + |rs| > MAX_RANGE_EXPR_CHUNKS then None else Some(read + rs)
    decreases |ts|
  {
    if ts == [] {
      assert read + rs == read;
    } else {
      JoinHead(ts);
      var u :| AtSeparator(u) && Join(",", ts) == ts[0] + u && AfterSeparator(u) == Join(",", ts[1..]);
      OnePieceRead(reader, spells, ts[0], rs[0], u, read);
      ReaderReads(reader, spells, ts[1..], rs[1..], read + [rs[0]]);
      HeadTail(rs);
      Assoc(read, [rs[0]], rs[1..]);
    }
  }

  lemma OnePieceRead(reader: (string, seq<IntRange>) -> Option<seq<IntRange>>, spells: (string, IntRange) -> bool,
                     t: string, r: IntRange, u: string, read: seq<IntRange>)
    requires GoesOn(reader, spells) && spells(t, r) && AtSeparator(u)
    ensures reader(t + u, read) ==
            if |read| > MAX_RANGE_EXPR_CHUNKS then None else reader(AfterSeparator(u), read + [r])
  {}

  lemma ReadOne(t: string, r: IntRange, rest: string, read: seq<IntRange>)
    requires t != "" && SkipBlank(t) == t && ReadPiece(t) == Some((r, rest))
    ensures ReadAll(t, read, false) ==
            if |read| > MAX_RANGE_EXPR_CHUNKS then None else ReadAll(rest, read + [r], false)
  {}

  lemma ReadSpelled(t: string, r: IntRange, u: string, read: seq<IntRange>)
    requires SpellsChunk(t, r) && AtSeparator(u)
    ensures ReadAll(t + u, read, false) ==
            if |read| > MAX_RANGE_EXPR_CHUNKS then None else ReadAll(AfterSeparator(u), read + [r], false)
  {
    SkipNothing(t, u);
    ReadOne(t + u, r, AfterSeparator(u), read);
  }

  lemma ReadPieces(ts: seq<string>, rs: seq<IntRange>, read: seq<IntRange>)
    requires SpellAll(ts, rs)
    ensures ReadAll(Join(",", ts), read, false)
            == if |read| + |rs| > MAX_RANGE_EXPR_CHUNKS then None else Some(read + rs)
  {
    var reader := (t: string, done: seq<IntRange>) => ReadAll(t, done, false);
    var spells := (t: string, r: IntRange) => SpellsChunk(t, r);
    forall t: string, u: string, r, done | spells(t, r) && AtSeparator(u)
      ensures reader(t + u, done) ==
              if |done| > MAX_RANGE_EXPR_CHUNKS then None else reader(AfterSeparator(u), done + [r])
    {
      ReadSpelled(t, r, u, done);
    }
    ReaderReads(reader, spells, ts, rs, read);
  }

  lemma {:induction false} JoinEnds(ts: seq<string>, rs: seq<IntRange>)
    requires SpellAll(ts, rs) && ts != []
    ensures NumberEnds(Join(",", ts))
  {
    assert SpellsChunk(ts[0], rs[0]);
    if |ts| > 1 {
      JoinEnds(ts[1..], rs[1..]);
    }
  }

  lemma TrimNothing(t: string)
    requires NumberEnds(t)
    ensures Trim(t) == t && t[|t| - 1] != ','
  {}

  lemma ReadPrinted(ts: seq<string>, rs: seq<IntRange>)
    requires SpellAll(ts, rs) && ts != []
    ensures ReadText(Join(",", ts)) == if |rs| > MAX_RANGE_EXPR_CHUNKS then None else Some(rs)
  {
    JoinEnds(ts, rs);
    TrimNothing(Join(",", ts));
    ReadPieces(ts, rs, []);
    assert [] + rs == rs;
  }

  // ---- Printing is joining the pieces ----

  lemma {:induction false} JoinAppend(a: seq<string>, b: seq<string>)
    requires a != [] && b != []
    ensures Join(",", a + b) == Join(",", a) + "," + Join(",", b)
  {
    if |a| == 1 {
      assert (a + b)[1..] == b;
    } else {
      assert (a + b)[1..] == a[1..] + b;
      JoinAppend(a[1..], b);
    }
  }

  lemma ShowChunkPieces(r: IntRange)
    requires Valid(r)
    ensures Join(",", Texts(ChunkPieces(r))) == ShowChunk(r)
  {
    var ps := ChunkPieces(r);
    if |ps| == 1 {
      assert Texts(ps) == [PieceText(ps[0])];
    } else {
      assert Texts(ps) == [PieceText(ps[0])] + [PieceText(ps[1])];
      JoinAppend([PieceText(ps[0])], [PieceText(ps[1])]);
    }
  }

  lemma TextsAppend(a: seq<Piece>, b: seq<Piece>)
    ensures Texts(a + b) == Texts(a) + Texts(b)
    ensures Chunks(a + b) == Chunks(a) + Chunks(b)
  {}

  lemma ShowChunksPush(rs: seq<IntRange>, r: IntRange)
    requires AllValid(rs) && Valid(r)
    ensures ShowChunks(rs + [r]) == ShowChunks(rs) + [ShowChunk(r)]
  {}

  lemma {:induction false} ShowAllPieces(rs: seq<IntRange>)
    requires AllValid(rs) && rs != []
    ensures AllPieces(rs) != [] && Join(",", Texts(AllPieces(rs))) == Join(",", ShowChunks(rs))
  {
    var n := |rs| - 1;
    var front, last := rs[..n], rs[n];
    ShowChunkPieces(last);
    assert rs == front + [last];
    ShowChunksPush(front, last);
    TextsAppend(AllPieces(front), ChunkPieces(last));
    if n == 0 {
      assert AllPieces(rs) == ChunkPieces(last);
      assert ShowChunks(rs) == [ShowChunk(last)];
    } else {
      ShowAllPieces(front);
      JoinAppend(Texts(AllPieces(front)), Texts(ChunkPieces(last)));
      JoinAppend(ShowChunks(front), [ShowChunk(last)]);
    }
  }

  lemma ShowPrinted(e: RangeExpr)
    requires ValidExpr(e) && e.ranges != []
    ensures Printed(e) != [] && Show(e) == Join(",", Texts(Printed(e)))
  {
    match ContiguousSpan(e)
    case Some(r) => assert Texts([Piece(r, Span)]) == [PieceText(Piece(r, Span))];
    case None => ShowAllPieces(e.ranges);
  }

  // ---- The pieces hold the same list ----

  lemma ChunkPiecesHold(r: IntRange)
    requires Valid(r)
    ensures var ps := ChunkPieces(r);
            && ValidPieces(ps) && Ordered(Chunks(ps)) && Within(Chunks(ps), r)
            && Flatten(Chunks(ps)) == Elements(r)
  {
    var ps := ChunkPieces(r);
    ElementsEndpoints(r);
    if LenU64(r) == 1 {
      OnePiece(r.start);
      assert Chunks(ps) == [IntRange(r.start, r.start, 1)];
    } else if LenU64(r) == 2 {
      OnePiece(r.start);
      OnePiece(r.end);
      TwoPieces(r.start, r.end);
      assert Chunks(ps) == [IntRange(r.start, r.start, 1), IntRange(r.end, r.end, 1)];
    } else {
      FlattenPush([], r);
      assert Chunks(ps) == [] + [r];
    }
  }

  lemma {:induction false} AllPiecesFlatten(rs: seq<IntRange>)
    requires AllValid(rs)
    ensures ValidPieces(AllPieces(rs)) && AllValid(Chunks(AllPieces(rs)))
    ensures Flatten(Chunks(AllPieces(rs))) == Flatten(rs)
  {
    if rs == [] {
    } else {
      var n := |rs| - 1;
      AllPiecesFlatten(rs[..n]);
      ChunkPiecesHold(rs[n]);
      TextsAppend(AllPieces(rs[..n]), ChunkPieces(rs[n]));
      FlattenAppend(Chunks(AllPieces(rs[..n])), Chunks(ChunkPieces(rs[n])));
    }
  }

  lemma {:induction false} AllPiecesOrdered(rs: seq<IntRange>, n: nat)
    requires Ordered(rs) && n <= |rs|
    ensures Ordered(Chunks(AllPieces(rs[..n]))) && EndsBy(Chunks(AllPieces(rs[..n])), rs, n)
  {
    if n == 0 {
    } else {
      AllPiecesOrdered(rs, n - 1);
      ChunkPiecesHold(rs[n - 1]);
      assert rs[..n][..n - 1] == rs[..n - 1];
      TextsAppend(AllPieces(rs[..n - 1]), ChunkPieces(rs[n - 1]));
      AppendOrder(rs, n - 1, Chunks(AllPieces(rs[..n - 1])), Chunks(ChunkPieces(rs[n - 1])));
    }
  }

  lemma OneValueFlatten(e: RangeExpr)
    requires ValidExpr(e) && e.ranges != [] && Len(e) == 1
    ensures Flatten(e.ranges) == [e.ranges[0].start as int]
  {
    FlattenAt(e.ranges, 0, 0);
    assert e.ranges[..0] == [];
    ElementsEndpoints(e.ranges[0]);
  }

  lemma PrintedHold(e: RangeExpr)
    requires ValidExpr(e) && e.ranges != []
    ensures var ps := Printed(e);
            ValidPieces(ps) && Ordered(Chunks(ps)) && Flatten(Chunks(ps)) == Flatten(e.ranges)
  {
    match ContiguousSpan(e)
    case None =>
      assert e.ranges[..|e.ranges|] == e.ranges;
      AllPiecesOrdered(e.ranges, |e.ranges|);
      AllPiecesFlatten(e.ranges);
    case Some(r) =>
      assert Chunks([Piece(r, Span)]) == [r];
      if |e.ranges| == 1 && e.ranges[0].step == 1 {
        assert e.ranges == [r];
      } else {
        OnePiece(r.start);
        OneValueFlatten(e);
      }
  }

  lemma OrderedBuildable(rs: seq<IntRange>)
    requires Ordered(rs) && 1 <= |rs| <= MAX_RANGE_EXPR_CHUNKS
    ensures Buildable(rs)
    ensures forall v :: v in Flatten(rs) <==> exists i :: 0 <= i < |rs| && Asks(rs[i], v)
  {
    forall i | 0 <= i < |rs|
      ensures Accepts(rs[i].start, rs[i].end, rs[i].step) && Normalized(rs[i]) == rs[i]
    {
      NewOfValid(rs[i]);
    }
    assert NormalizeAll(rs) == rs;
    OrderedApart(rs);
    forall v ensures v in Flatten(rs) <==> exists i :: 0 <= i < |rs| && Asks(rs[i], v) {
      UnionMember(rs, rs, v);
    }
  }

  /** The round trip: the printed text of a non-empty expression parses exactly when it has at
      most 10,000 pieces, and then spells the same list, flag on or off. */
  lemma PrintParse(e: RangeExpr)
    requires ValidExpr(e) && e.ranges != []
    ensures Parseable(Show(e)) <==> |Printed(e)| <= MAX_RANGE_EXPR_CHUNKS
    ensures Parseable(Show(e)) ==> Denotes(Show(e), Flatten(e.ranges))
  {
    ShowPrinted(e);
    PrintedHold(e);
    var ts, rs := Texts(Printed(e)), Chunks(Printed(e));
    forall i | 0 <= i < |ts| ensures SpellsChunk(ts[i], rs[i]) {
      PieceSpells(Printed(e)[i]);
    }
    ReadPrinted(ts, rs);
    FlattenCount(e.ranges);
    if |Printed(e)| <= MAX_RANGE_EXPR_CHUNKS {
      OrderedBuildable(rs);
    }
  }

  /** A text denotes one list, so what the parser builds is the list that was printed. */
  lemma {:induction false} AscendingUnique(a: seq<int>, b: seq<int>)
    requires StrictlyAscending(a) && StrictlyAscending(b) && forall v :: v in a <==> v in b
    ensures a == b
    decreases |a|
  {
    HasMember(a);
    HasMember(b);
    if a == [] {
    } else {
      assert a[0] in a && b[0] in b;
      assert a[0] == b[0];
      forall v ensures v in a[1..] <==> v in b[1..] {
        AscendingTail(a, v);
        AscendingTail(b, v);
      }
      AscendingUnique(a[1..], b[1..]);
      assert a == [a[0]] + a[1..] && b == [b[0]] + b[1..];
    }
  }

  lemma HasMember(s: seq<int>)
    ensures s == [] || exists v :: v in s
  {
    if s != [] {
      var v := s[0];
      assert v in s;
    }
  }

  lemma AscendingTail(s: seq<int>, v: int)
    requires StrictlyAscending(s) && s != []
    ensures v in s[1..] <==> v in s && v != s[0]
  {}

  method Reparse(e: RangeExpr) returns (r: Result<RangeExpr, RangeError>)
    requires ValidExpr(e) && e.ranges != []
    ensures r.Ok? <==> |Printed(e)| <= MAX_RANGE_EXPR_CHUNKS
    ensures r.Ok? ==> ValidExpr(r.value) && Flatten(r.value.ranges) == Flatten(e.ranges)
  {
    PrintParse(e);
    r := ParseRangeExpr(Show(e));
    if r.Ok? {
      AscendingUnique(Flatten(r.value.ranges), Flatten(e.ranges));
    }
  }
}
