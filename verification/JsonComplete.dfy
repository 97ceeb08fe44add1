/** The parser accepts every grammatical text of legal depth, with the value it denotes,
    and refuses every deeper one. */
module JsonComplete {
  import opened Options
  import opened Bytes
  import opened Bits
  import opened Utf8
  import opened JsonValue
  import opened JsonGrammar
  import opened JsonScan

  /* ----- gaps ----- */

  /** Byte `b` cannot continue a number token. */
  predicate NumStop(b: byte) { !IsDigit(b) && b != DOT && !IsExpMark(b) }

  /** Byte `b` cannot continue the number `n`. */
  predicate Ends(n: Number, b: byte) {
    !IsDigit(b) && (n.exp.None? ==> !IsExpMark(b) && (n.frac.None? ==> b != DOT))
  }

  lemma StopEnds(t: Tree, b: byte)
    requires NumStop(b)
    ensures t.TNumber? ==> Ends(t.number, b)
  {}

  /** Nothing more to skip at `i`. */
  predicate GapStops(s: bytes, i: nat, mode: Mode)
    requires i <= |s|
  {
    i == |s| || (!IsWs(s[i]) && (mode == COMMENTS ==> s[i] != SLASH))
  }

  lemma {:induction false} LineEndAt(s: bytes, i: nat, text: bytes)
    requires HasAt(s, i, text) && NEWLINE !in text
    requires i + |text| < |s| ==> s[i + |text|] == NEWLINE
    ensures LineEnd(s, i) == i + |text|
    decreases |text|
  {
    if text != [] {
      assert s[i] == s[i..i + |text|][0] == text[0];
      assert s[i + 1..i + 1 + |text[1..]|] == s[i..i + |text|][1..];
      LineEndAt(s, i + 1, text[1..]);
    }
  }

  lemma {:induction false} BlockEndAt(s: bytes, i: nat, text: bytes)
    requires HasAt(s, i, text + [STAR, SLASH]) && ClosesAtEnd(text)
    ensures BlockEnd(s, i) == Some(i + |text| + 2)
    decreases |text|
  {
    var w := text + [STAR, SLASH];
    assert s[i] == s[i..i + |w|][0] == w[0] && s[i + 1] == s[i..i + |w|][1] == w[1];
    if text != [] {
      var w' := text[1..] + [STAR, SLASH];
      assert w' == w[1..];
      assert s[i + 1..i + 1 + |w'|] == s[i..i + |w|][1..];
      forall k | 0 <= k < |text[1..]| ensures !(w'[k] == STAR && w'[k + 1] == SLASH) {
        assert w'[k] == w[k + 1] && w'[k + 1] == w[k + 2];
      }
      BlockEndAt(s, i + 1, text[1..]);
    }
  }

  /** A comment is skipped whole; a line comment up to its newline. */
  lemma CommentAt(s: bytes, i: nat, x: GapItem, mode: Mode)
    requires ValidGapItem(x, mode) && !x.Space? && HasAt(s, i, GapItemYield(x))
    ensures x.Block? ==> SkipComment(s, i) == Comment(i + |GapItemYield(x)|)
    ensures x.Line? ==>
      var k := i + |GapItemYield(x)| - 1; SkipComment(s, i) == Comment(k) && s[k] == NEWLINE
    ensures s[i] == SLASH
  {
    hide HasAt, ClosesAtEnd;
    match x
    case Line(text) =>
      assert GapItemYield(x) == [SLASH, SLASH] + (text + [NEWLINE]);
      HasAtSplit(s, i, [SLASH, SLASH], text + [NEWLINE]);
      HasAtSplit(s, i + 2, text, [NEWLINE]);
      HasAtOne(s, i + 2 + |text|, NEWLINE);
      SlashPair(s, i, SLASH);
      LineEndAt(s, i + 2, text);
    case Block(text) =>
      assert GapItemYield(x) == [SLASH, STAR] + (text + [STAR, SLASH]);
      HasAtSplit(s, i, [SLASH, STAR], text + [STAR, SLASH]);
      SlashPair(s, i, STAR);
      BlockEndAt(s, i + 2, text);
  }

  lemma SlashPair(s: bytes, i: nat, b: byte)
    requires HasAt(s, i, [SLASH, b])
    ensures s[i] == SLASH && s[i + 1] == b
  {
    var w := s[i..i + 2];
    assert s[i] == w[0] && s[i + 1] == w[1];
  }

  lemma SkipOneSpace(s: bytes, i: nat, mode: Mode)
    requires i < |s| && IsWs(s[i])
    ensures SkipGarbage(s, i, mode) == SkipGarbage(s, i + 1, mode)
  {}

  lemma SkipOneComment(s: bytes, i: nat, k: nat)
    requires i < |s| && s[i] == SLASH && SkipComment(s, i) == Comment(k)
    ensures SkipGarbage(s, i, COMMENTS) == SkipGarbage(s, k, COMMENTS)
  {}

  lemma SkipNothing(s: bytes, i: nat, mode: Mode)
    requires i <= |s| && GapStops(s, i, mode)
    ensures SkipGarbage(s, i, mode) == Some(i)
  {}

  lemma SkipTail(s: bytes, i: nat, text: bytes)
    requires HasAt(s, i, [SLASH, SLASH] + text) && NEWLINE !in text && i + 2 + |text| == |s|
    ensures SkipGarbage(s, i, COMMENTS) == Some(|s|)
  {
    HasAtSplit(s, i, [SLASH, SLASH], text);
    SlashPair(s, i, SLASH);
    LineEndAt(s, i + 2, text);
    SkipOneComment(s, i, |s|);
    SkipNothing(s, |s|, COMMENTS);
  }

  /** `consume_garbage` skips exactly a gap (and a line comment that ends the text). */
  lemma {:induction false} SkipGap(s: bytes, i: nat, g: Gap, tail: Option<bytes>, mode: Mode)
    requires ValidGap(g, mode) && HasAt(s, i, GapYield(g) + TailYield(tail))
    requires tail.Some? ==> mode == COMMENTS && NEWLINE !in tail.value && i + |GapYield(g) + TailYield(tail)| == |s|
    requires GapStops(s, i + |GapYield(g) + TailYield(tail)|, mode)
    ensures SkipGarbage(s, i, mode) == Some(i + |GapYield(g) + TailYield(tail)|)
    decreases |g|
  {
    hide HasAt, SkipGarbage, SkipComment, GapItemYield, GapYield, TailYield, GapStops, ValidGapItem;
    if g == [] {
      EmptyGapYield(tail);
      SliceAt(s, i, GapYield(g) + TailYield(tail));
      if tail.Some? { SkipTail(s, i, tail.value); } else { SkipNothing(s, i, mode); }
    } else {
      var y, rest := GapItemYield(g[0]), GapYield(g[1..]) + TailYield(tail);
      ConsGapYield(g, TailYield(tail));
      HasAtSplit(s, i, y, rest);
      SkipGap(s, i + |y|, g[1..], tail, mode);
      SkipGapItem(s, i, g[0], mode);
    }
  }

  lemma EmptyGapYield(tail: Option<bytes>)
    ensures GapYield([]) + TailYield(tail) == if tail.Some? then [SLASH, SLASH] + tail.value else []
  {}

  lemma ConsGapYield(g: Gap, rest: bytes)
    requires g != []
    ensures GapYield(g) + rest == GapItemYield(g[0]) + (GapYield(g[1..]) + rest)
  {
    hide GapItemYield;
    Assoc(GapItemYield(g[0]), GapYield(g[1..]), rest);
  }

  lemma SkipGapItem(s: bytes, i: nat, x: GapItem, mode: Mode)
    requires ValidGapItem(x, mode) && HasAt(s, i, GapItemYield(x))
    ensures SkipGarbage(s, i, mode) == SkipGarbage(s, i + |GapItemYield(x)|, mode)
  {
    hide SkipGarbage, SkipComment;
    if x.Space? {
      HasAtOne(s, i, x.b);
      SkipOneSpace(s, i, mode);
    } else {
      CommentAt(s, i, x, mode);
      var k := i + |GapItemYield(x)|;
      if x.Block? {
        SkipOneComment(s, i, k);
      } else {
        SkipOneComment(s, i, k - 1);
        SkipOneSpace(s, k - 1, mode);
      }
    }
  }

  lemma SkipInnerGap(s: bytes, i: nat, g: Gap, mode: Mode)
    requires ValidGap(g, mode) && HasAt(s, i, GapYield(g))
    requires GapStops(s, i + |GapYield(g)|, mode)
    ensures SkipGarbage(s, i, mode) == Some(i + |GapYield(g)|)
  {
    assert GapYield(g) + TailYield(None) == GapYield(g);
    SkipGap(s, i, g, None, mode);
  }

  /** A gap followed by the single byte `b` of the next token. */
  lemma TokenAfterGap(s: bytes, i: nat, g: Gap, b: byte, rest: bytes, mode: Mode)
    requires ValidGap(g, mode) && HasAt(s, i, GapYield(g) + ([b] + rest))
    requires !IsWs(b) && b != SLASH
    ensures var k := i + |GapYield(g)|;
      NextToken(s, i, mode) == Some(k) && s[k] == b && HasAt(s, k + 1, rest)
  {
    hide HasAt, SkipGarbage, GapYield;
    HasAtSplit(s, i, GapYield(g), [b] + rest);
    HasAtSplit(s, i + |GapYield(g)|, [b], rest);
    HasAtOne(s, i + |GapYield(g)|, b);
    SkipInnerGap(s, i, g, mode);
  }

  lemma GapFirst(g: Gap, rest: bytes, mode: Mode)
    requires ValidGap(g, mode) && (rest == [] || NumStop(rest[0]))
    ensures GapYield(g) + rest == [] || NumStop((GapYield(g) + rest)[0])
  {
    if g != [] { assert GapYield(g)[0] == GapItemYield(g[0])[0]; }
  }

  lemma StopAt(s: bytes, i: nat, p: bytes)
    requires HasAt(s, i, p) && (p == [] ==> i == |s|) && (p == [] || NumStop(p[0]))
    ensures i <= |s| && NumStop(At(s, i))
  {
    if p != [] { assert s[i] == s[i..i + |p|][0]; }
  }

  /* ----- strings ----- */

  lemma ReassembleIsPairCode(lead: int, trail: int)
    requires IsLead(lead) && IsTrail(trail)
    ensures Reassemble(lead, trail) == PairCode(lead, trail)
  {
    Pow2Values();
    OrDisjoint(trail - 0xDC00, lead - 0xD800, 10);
  }

  /** What is still to be written when \u escape `last` (or none) precedes `cs`. */
  function DenotePending(last: int, cs: seq<Chunk>): bytes
    requires ValidChunks(cs)
  {
    if last == -1 then DenoteChunks(cs)
    else if IsLead(last) && cs != [] && cs[0].Uni? && IsTrail(HexValue(cs[0].h)) then
      EncodeUtf8(PairCode(last, HexValue(cs[0].h))) + DenoteChunks(cs[1..])
    else EncodeUtf8(last) + DenoteChunks(cs)
  }

  lemma ScanOneRaw(s: bytes, i: nat, b: byte, last: int, out: bytes)
    requires HasAt(s, i, [b]) && ValidChunk(Raw(b))
    ensures ScanString(s, i, last, out) == ScanString(s, i + 1, -1, out + EncodeUtf8(last) + [b])
  {
    HasAtOne(s, i, b);
  }

  lemma ScanOneEscape(s: bytes, i: nat, c: byte, last: int, out: bytes)
    requires HasAt(s, i, [BACKSLASH, c]) && ValidChunk(Esc(c))
    ensures ScanString(s, i, last, out) ==
      ScanString(s, i + 2, -1, out + EncodeUtf8(last) + [EscapedByte(c).value])
  {
    var w := s[i..i + 2];
    assert s[i] == w[0] && s[i + 1] == w[1];
  }

  lemma ScanOneUnicode(s: bytes, i: nat, h: bytes, last: int, out: bytes)
    requires HasAt(s, i, [BACKSLASH, LETTER_U] + h) && ValidChunk(Uni(h))
    ensures var cp := HexValue(h);
      ScanString(s, i, last, out) ==
      if IsLead(last) && IsTrail(cp) then ScanString(s, i + 6, -1, out + EncodeUtf8(PairCode(last, cp)))
      else ScanString(s, i + 6, cp, out + EncodeUtf8(last))
  {
    var w := s[i..i + 6];
    assert s[i] == w[0] && s[i + 1] == w[1];
    assert s[i + 2..i + 6] == w[2..] == h;
    if IsLead(last) && IsTrail(HexValue(h)) { ReassembleIsPairCode(last, HexValue(h)); }
    hide EncodeUtf8, HexValue, Reassemble, PairCode;
  }

  lemma StringEndAt(s: bytes, i: nat, last: int, out: bytes)
    requires HasAt(s, i, [QUOTE]) && -1 <= last
    ensures ScanString(s, i, last, out) == Ok(out + DenotePending(last, []), i + 1)
  {
    HasAtOne(s, i, QUOTE);
    assert DenotePending(last, []) == EncodeUtf8(last);
  }

  lemma {:induction false} StringAt(s: bytes, i: nat, last: int, out: bytes, cs: seq<Chunk>)
    requires ValidChunks(cs) && -1 <= last && HasAt(s, i, ChunksYield(cs) + [QUOTE])
    ensures ScanString(s, i, last, out) == Ok(out + DenotePending(last, cs), i + |ChunksYield(cs)| + 1)
    decreases |cs|
  {
    hide ScanString, EncodeUtf8, HasAt, HexValue, PairCode, IsLead, IsTrail, DenotePending;
    if cs == [] {
      assert ChunksYield(cs) + [QUOTE] == [QUOTE];
      StringEndAt(s, i, last, out);
    } else {
      var y, rest := ChunkYield(cs[0]), ChunksYield(cs[1..]) + [QUOTE];
      assert ChunksYield(cs) + [QUOTE] == y + rest;
      HasAtSplit(s, i, y, rest);
      assert ValidChunk(cs[0]);
      PendingStep(last, out, cs);
      match cs[0]
      case Raw(b) =>
        ScanOneRaw(s, i, b, last, out);
        StringAt(s, i + 1, -1, out + EncodeUtf8(last) + [b], cs[1..]);
      case Esc(c) =>
        ScanOneEscape(s, i, c, last, out);
        StringAt(s, i + 2, -1, out + EncodeUtf8(last) + [EscapedByte(c).value], cs[1..]);
      case Uni(h) =>
        var cp := HexValue(h);
        ScanOneUnicode(s, i, h, last, out);
        if IsLead(last) && IsTrail(cp) {
          StringAt(s, i + 6, -1, out + EncodeUtf8(PairCode(last, cp)), cs[1..]);
        } else {
          StringAt(s, i + 6, cp, out + EncodeUtf8(last), cs[1..]);
        }
    }
  }

  lemma NothingPending()
    ensures EncodeUtf8(-1) == [] && !IsLead(-1)
  {}

  /** How one more chunk resolves what was pending. */
  lemma PendingStep(last: int, out: bytes, cs: seq<Chunk>)
    requires ValidChunks(cs) && -1 <= last && cs != []
    ensures match cs[0]
      case Raw(b) => out + DenotePending(last, cs) == out + EncodeUtf8(last) + [b] + DenotePending(-1, cs[1..])
      case Esc(c) =>
        out + DenotePending(last, cs) == out + EncodeUtf8(last) + [EscapedByte(c).value] + DenotePending(-1, cs[1..])
      case Uni(h) =>
        var cp := HexValue(h);
        out + DenotePending(last, cs) ==
          if IsLead(last) && IsTrail(cp) then out + EncodeUtf8(PairCode(last, cp)) + DenotePending(-1, cs[1..])
          else out + EncodeUtf8(last) + DenotePending(cp, cs[1..])
  {
    hide EncodeUtf8, HexValue, PairCode, EscapedByte, IsLead, IsTrail;
    NothingPending();
    var rest := DenoteChunks(cs[1..]);
    if cs[0].Uni? { EscapeFirst(cs); }
    var now := EncodeUtf8(last);
    match cs[0]
    case Raw(b) => Assoc(out, now, [b] + rest); Assoc(out + now, [b], rest);
    case Esc(c) => Assoc(out, now, [EscapedByte(c).value] + rest); Assoc(out + now, [EscapedByte(c).value], rest);
    case Uni(h) =>
      if IsLead(last) && IsTrail(HexValue(h)) { Assoc(out, EncodeUtf8(PairCode(last, HexValue(h))), rest); }
      else { Assoc(out, now, DenoteChunks(cs)); }
  }

  /** Looking back one escape, as the parser does, agrees with looking ahead. */
  lemma EscapeFirst(cs: seq<Chunk>)
    requires ValidChunks(cs) && cs != [] && cs[0].Uni?
    ensures DenoteChunks(cs) == DenotePending(HexValue(cs[0].h), cs[1..])
  {
    if |cs| > 1 { assert cs[1..][1..] == cs[2..]; }
  }

  lemma StringLiteralAt(s: bytes, i: nat, cs: seq<Chunk>)
    requires ValidChunks(cs) && HasAt(s, i, StringYield(cs))
    ensures s[i] == QUOTE
    ensures ScanString(s, i + 1, -1, []) == Ok(DenoteChunks(cs), i + |StringYield(cs)|)
  {
    HasAtSplit(s, i, [QUOTE], ChunksYield(cs) + [QUOTE]);
    HasAtOne(s, i, QUOTE);
    StringAt(s, i + 1, -1, [], cs);
    assert [] + DenoteChunks(cs) == DenoteChunks(cs);
  }

  /* ----- numbers ----- */

  lemma {:induction false} DigitsAt(s: bytes, i: nat, ds: bytes)
    requires HasAt(s, i, ds) && AllDigits(ds) && !IsDigit(At(s, i + |ds|))
    ensures SkipDigits(s, i) == i + |ds|
    decreases |ds|
  {
    if ds != [] {
      assert s[i] == s[i..i + |ds|][0] == ds[0];
      assert s[i + 1..i + 1 + |ds[1..]|] == s[i..i + |ds|][1..];
      DigitsAt(s, i + 1, ds[1..]);
    }
  }

  lemma WholeAt(s: bytes, i: nat, ds: bytes)
    requires HasAt(s, i, ds) && ds != [] && AllDigits(ds) && (ds[0] == 0x30 ==> |ds| == 1)
    requires !IsDigit(At(s, i + |ds|))
    ensures WholeEnd(s, i) == Some(i + |ds|)
  {
    SliceAt(s, i, ds);
    DigitsAt(s, i, ds);
  }

  lemma FracAt(s: bytes, i: nat, frac: Option<bytes>)
    requires HasAt(s, i, FracYield(frac)) && (frac.Some? ==> frac.value != [] && AllDigits(frac.value))
    requires !IsDigit(At(s, i + |FracYield(frac)|)) && (frac.None? ==> At(s, i) != DOT)
    ensures FracEnd(s, i) == Some(i + |FracYield(frac)|)
  {
    if frac.Some? {
      HasAtSplit(s, i, [DOT], frac.value);
      HasAtOne(s, i, DOT);
      SliceAt(s, i + 1, frac.value);
      DigitsAt(s, i + 1, frac.value);
    }
  }

  lemma ExpAt(s: bytes, i: nat, exp: Option<Exponent>)
    requires HasAt(s, i, ExpYield(exp)) && (exp.Some? ==> ValidExponent(exp.value))
    requires var b := At(s, i + |ExpYield(exp)|); if exp.Some? then !IsDigit(b) else !IsExpMark(b)
    ensures ExpEnd(s, i) == Some(i + |ExpYield(exp)|)
  {
    hide HasAt, ExpEnd, ValidExponent, IsExpMark, IsDigit;
    if exp.Some? {
      var e := exp.value;
      HasAtSplit(s, i, [e.mark], ExpSign(e) + e.digits);
      HasAtOne(s, i, e.mark);
      ExpSignLength(e);
      if e.sign.Some? { SignedExpAt(s, i, e); } else { UnsignedExpAt(s, i, e); }
    } else {
      SliceAt(s, i, []);
      NoExpAt(s, i);
    }
  }

  lemma ExpSignLength(e: Exponent)
    ensures |ExpSign(e)| == if e.sign.Some? then 1 else 0
  {}

  lemma NoExpAt(s: bytes, i: nat)
    requires i <= |s| && !IsExpMark(At(s, i))
    ensures ExpEnd(s, i) == Some(i)
  {}

  lemma UnsignedExpAt(s: bytes, i: nat, e: Exponent)
    requires i < |s| && s[i] == e.mark && ValidExponent(e) && e.sign.None?
    requires HasAt(s, i + 1, ExpSign(e) + e.digits) && !IsDigit(At(s, i + 1 + |e.digits|))
    ensures ExpEnd(s, i) == Some(i + 1 + |e.digits|)
  {
    assert ExpSign(e) + e.digits == e.digits;
    FirstDigit(s, i + 1, e.digits);
    DigitsAt(s, i + 1, e.digits);
    hide HasAt, AllDigits, SkipDigits, ExpSign;
  }

  lemma SignedExpAt(s: bytes, i: nat, e: Exponent)
    requires i < |s| && s[i] == e.mark && ValidExponent(e) && e.sign.Some?
    requires HasAt(s, i + 1, ExpSign(e) + e.digits) && !IsDigit(At(s, i + 2 + |e.digits|))
    ensures ExpEnd(s, i) == Some(i + 2 + |e.digits|)
  {
    hide HasAt, AllDigits, SkipDigits, IsDigit;
    assert ExpSign(e) == [e.sign.value];
    HasAtSplit(s, i + 1, [e.sign.value], e.digits);
    HasAtOne(s, i + 1, e.sign.value);
    FirstDigit(s, i + 2, e.digits);
    DigitsAt(s, i + 2, e.digits);
    hide ExpSign;
  }

  lemma FirstDigit(s: bytes, i: nat, ds: bytes)
    requires HasAt(s, i, ds) && ds != [] && AllDigits(ds)
    ensures i + |ds| <= |s| && IsDigit(At(s, i))
  {
    SliceAt(s, i, ds);
    assert IsDigit(ds[0]);
  }

  lemma NumberSplit(s: bytes, i: nat, n: Number)
    requires HasAt(s, i, NumberYield(n))
    ensures var j := i + |SignYield(n.neg)|; var k := j + |n.whole|; var m := k + |FracYield(n.frac)|;
      && i + |NumberYield(n)| == m + |ExpYield(n.exp)| <= |s|
      && HasAt(s, i, SignYield(n.neg)) && HasAt(s, j, n.whole)
      && HasAt(s, k, FracYield(n.frac)) && HasAt(s, m, ExpYield(n.exp))
  {
    hide HasAt, SignYield, FracYield, ExpYield;
    var sg, fy, ey := SignYield(n.neg), FracYield(n.frac), ExpYield(n.exp);
    assert NumberYield(n) == sg + (n.whole + (fy + ey));
    hide NumberYield;
    HasAtSplit(s, i, sg, n.whole + (fy + ey));
    HasAtSplit(s, i + |sg|, n.whole, fy + ey);
    HasAtSplit(s, i + |sg| + |n.whole|, fy, ey);
  }

  lemma NumberSlices(s: bytes, i: nat, n: Number)
    requires HasAt(s, i, NumberYield(n))
    ensures var k := i + |SignYield(n.neg)| + |n.whole|;
      && k <= i + |NumberYield(n)| <= |s|
      && s[i..k] == SignYield(n.neg) + n.whole && s[i..i + |NumberYield(n)|] == NumberYield(n)
  {
    NumberSplit(s, i, n);
    var sg := SignYield(n.neg);
    hide HasAt, NumberYield, SignYield, FracYield, ExpYield;
    HasAtSplit(s, i, sg, n.whole);
    SliceAt(s, i, sg + n.whole);
    SliceAt(s, i, NumberYield(n));
  }

  /** The byte that ends the integer part tells whether a fraction or exponent follows. */
  lemma AfterWhole(s: bytes, k: nat, n: Number)
    requires ValidNumber(n) && HasAt(s, k, FracYield(n.frac)) && HasAt(s, k + |FracYield(n.frac)|, ExpYield(n.exp))
    requires Ends(n, At(s, k + |FracYield(n.frac)| + |ExpYield(n.exp)|))
    ensures At(s, k) == DOT || IsExpMark(At(s, k)) <==> n.frac.Some? || n.exp.Some?
    ensures !IsDigit(At(s, k)) && (n.frac.None? ==> At(s, k) != DOT)
    ensures !IsDigit(At(s, k + |FracYield(n.frac)|))
  {
    SliceAt(s, k, FracYield(n.frac));
    SliceAt(s, k + |FracYield(n.frac)|, ExpYield(n.exp));
    hide HasAt;
  }

  lemma NumberParts(s: bytes, i: nat, n: Number, j: nat, k: nat, m: nat, e: nat)
    requires ValidNumber(n) && HasAt(s, i, NumberYield(n))
    requires j == i + |SignYield(n.neg)| && k == j + |n.whole| && m == k + |FracYield(n.frac)|
      && e == i + |NumberYield(n)|
    requires e <= |s| && Ends(n, At(s, e))
    ensures k <= m <= e
    ensures WholeEnd(s, j) == Some(k) && FracEnd(s, k) == Some(m) && ExpEnd(s, m) == Some(e)
    ensures At(s, k) == DOT || IsExpMark(At(s, k)) <==> n.frac.Some? || n.exp.Some?
  {
    hide HasAt, NumberYield, SignYield, FracYield, ExpYield, WholeEnd, FracEnd, ExpEnd, AllDigits, IsDigit, IsExpMark;
    NumberSplit(s, i, n);
    AfterWhole(s, k, n);
    WholeAt(s, j, n.whole);
    FracAt(s, k, n.frac);
    ExpAt(s, m, n.exp);
  }

  lemma NumberAt(s: bytes, i: nat, n: Number, strtod: bytes -> Double)
    requires ValidNumber(n) && HasAt(s, i, NumberYield(n)) && Ends(n, At(s, i + |NumberYield(n)|))
    ensures ScanNumber(s, i, strtod) == Ok(DenoteNumber(n, strtod), i + |NumberYield(n)|)
    ensures i < |s| && (s[i] == MINUS || IsDigit(s[i]))
  {
    hide HasAt, NumberYield, FracYield, ExpYield;
    var j := i + |SignYield(n.neg)|;
    var k := j + |n.whole|;
    NumberSplit(s, i, n);
    SliceAt(s, i, SignYield(n.neg));
    SliceAt(s, j, n.whole);
    NumberParts(s, i, n, j, k, k + |FracYield(n.frac)|, i + |NumberYield(n)|);
    NumberSign(s, i, n);
    hide WholeEnd, FracEnd, ExpEnd, ScanAfterWhole;
    AfterWholeAt(s, i, j, k, n, strtod);
  }

  lemma AfterWholeAt(s: bytes, i: nat, j: nat, k: nat, n: Number, strtod: bytes -> Double)
    requires ValidNumber(n) && HasAt(s, i, NumberYield(n)) && Ends(n, At(s, i + |NumberYield(n)|))
    requires j == i + |SignYield(n.neg)| && k == j + |n.whole|
    requires i <= j < k <= |s| && s[i..j] == SignYield(j > i) && AllDigits(s[j..k])
    ensures ScanAfterWhole(s, i, j, k, strtod) == Ok(DenoteNumber(n, strtod), i + |NumberYield(n)|)
  {
    hide HasAt, FracEnd, ExpEnd, NumberYield, Atoi, IntegerValue, WholeEnd, SkipDigits, AllDigits;
    NumberSplit(s, i, n);
    NumberParts(s, i, n, j, k, k + |FracYield(n.frac)|, i + |NumberYield(n)|);
    NumberSlices(s, i, n);
    if n.frac.None? && n.exp.None? && k - i <= INT_DIGITS10 {
      assert i + |NumberYield(n)| == k by { assert ExpYield(n.exp) == [] && FracYield(n.frac) == []; }
      AtoiFits(s[i..k], n.neg, n.whole);
    }
    hide FracYield, ExpYield;
  }

  lemma NumberSign(s: bytes, i: nat, n: Number)
    requires ValidNumber(n) && HasAt(s, i, NumberYield(n))
    ensures i < |s| && (s[i] == MINUS <==> n.neg) && (IsDigit(s[i]) <==> !n.neg)
  {
    NumberSplit(s, i, n);
    SliceAt(s, i, SignYield(n.neg));
    SliceAt(s, i + |SignYield(n.neg)|, n.whole);
    assert IsDigit(n.whole[0]);
    hide HasAt, NumberYield, FracYield, ExpYield;
  }

  /* ----- values ----- */

  lemma {:induction false} SkipGarbageStops(s: bytes, i: nat, mode: Mode)
    requires i <= |s| && SkipGarbage(s, i, mode).Some?
    ensures GapStops(s, SkipGarbage(s, i, mode).value, mode)
    ensures SkipGarbage(s, SkipGarbage(s, i, mode).value, mode) == SkipGarbage(s, i, mode)
    decreases |s| - i
  {
    var j := SkipWs(s, i);
    SkipWsStops(s, i);
    match SkipComment(s, j)
    case Comment(k) => if mode == COMMENTS { SkipGarbageStops(s, k, mode); }
    case _ =>
  }

  lemma {:induction false} SkipWsStops(s: bytes, i: nat)
    requires i <= |s|
    ensures SkipWs(s, i) == |s| || !IsWs(s[SkipWs(s, i)])
    ensures SkipWs(s, SkipWs(s, i)) == SkipWs(s, i)
    decreases |s| - i
  {
    if i < |s| && IsWs(s[i]) { SkipWsStops(s, i + 1); }
  }

  lemma NextTokenSettles(s: bytes, i: nat, k: nat, mode: Mode)
    requires i <= |s| && NextToken(s, i, mode) == Some(k)
    ensures NextToken(s, k, mode) == Some(k)
  {
    SkipGarbageStops(s, i, mode);
    hide SkipGarbage;
  }

  /** Starting at the next token instead of in the gap before it changes nothing. */
  lemma ScanValueFrom(s: bytes, i: nat, k: nat, depth: nat, c: Config)
    requires i <= |s| && NextToken(s, i, c.mode) == Some(k)
    ensures ScanValue(s, k, depth, c) == ScanValue(s, i, depth, c)
  {
    NextTokenSettles(s, i, k, c.mode);
    hide NextToken, ScanString, ScanNumber, ScanLiteral, ScanItems, ScanFields;
  }

  lemma ScanItemsFrom(s: bytes, i: nat, k: nat, depth: nat, c: Config)
    requires i <= |s| && NextToken(s, i, c.mode) == Some(k)
    ensures ScanItems(s, k, depth, c) == ScanItems(s, i, depth, c)
  {
    ScanValueFrom(s, i, k, depth + 1, c);
    hide NextToken, ScanValue, ScanItemsAfter;
  }

  lemma ScanFieldsFrom(s: bytes, i: nat, k: nat, depth: nat, c: Config, ms: seq<Member>)
    requires i <= |s| && NextToken(s, i, c.mode) == Some(k)
    ensures ScanFields(s, k, depth, c, ms) == ScanFields(s, i, depth, c, ms)
  {
    NextTokenSettles(s, i, k, c.mode);
    hide NextToken, ScanString, ScanValue;
    assert ScanKey(s, k, c.mode) == ScanKey(s, i, c.mode);
    hide ScanKey, ScanFieldsAfter;
  }

  lemma FirstByte(t: Tree, mode: Mode)
    requires Valid(t, mode)
    ensures Yield(t) != []
    ensures var b := Yield(t)[0]; !IsWs(b) && b != SLASH && b != RBRACKET && b != RBRACE
  {
    if t.TNumber? { assert NumberYield(t.number)[0] in {MINUS, t.number.whole[0]}; }
  }

  lemma ValueToken(s: bytes, i: nat, g: Gap, t: Tree, mode: Mode)
    requires ValidGap(g, mode) && Valid(t, mode) && HasAt(s, i, GapYield(g) + Yield(t))
    ensures var k := i + |GapYield(g)|;
      NextToken(s, i, mode) == Some(k) && HasAt(s, k, Yield(t))
  {
    hide HasAt, GapYield, Yield, Valid, NextToken, IsWs, ValidGap;
    FirstByte(t, mode);
    var y := Yield(t);
    assert y == [y[0]] + y[1..];
    HasAtSplit(s, i, GapYield(g), y);
    TokenAfterGap(s, i, g, y[0], y[1..], mode);
  }

  /** What `parse_json(depth)` gives for `t` spelled out at `j`. */
  function Scanned(t: Tree, j: nat, depth: nat, c: Config): Scan<Json>
    requires Valid(t, c.mode)
  {
    if depth + Height(t) <= MAX_DEPTH then Ok(Denote(t, c), j + |Yield(t)|) else Fail
  }

  /** A value and the gap before it; only a number can be continued by what follows. */
  lemma {:induction false} ValueAt(s: bytes, i: nat, depth: nat, c: Config, g: Gap, t: Tree)
    requires ValidGap(g, c.mode) && Valid(t, c.mode) && HasAt(s, i, GapYield(g) + Yield(t))
    requires t.TNumber? ==> Ends(t.number, At(s, i + |GapYield(g) + Yield(t)|))
    ensures ScanValue(s, i, depth, c) ==
      if depth + Height(t) <= MAX_DEPTH then Ok(Denote(t, c), i + |GapYield(g) + Yield(t)|) else Fail
    decreases t, 1
  {
    hide HasAt, NextToken, GapYield, Yield, Valid, Denote, Height, ScanValue, Ends;
    ValueToken(s, i, g, t, c.mode);
    var j := i + |GapYield(g)|;
    NextTokenSettles(s, i, j, c.mode);
    ScanValueFrom(s, i, j, depth, c);
    if depth <= MAX_DEPTH {
      TokenAt(s, j, depth, c, t);
    } else {
      TooDeep(s, j, depth, c);
    }
  }

  lemma TooDeep(s: bytes, j: nat, depth: nat, c: Config)
    requires j <= |s| && depth > MAX_DEPTH
    ensures ScanValue(s, j, depth, c) == Fail
  {}

  lemma {:induction false} TokenAt(s: bytes, j: nat, depth: nat, c: Config, t: Tree)
    requires Valid(t, c.mode) && HasAt(s, j, Yield(t)) && NextToken(s, j, c.mode) == Some(j) && depth <= MAX_DEPTH
    requires t.TNumber? ==> Ends(t.number, At(s, j + |Yield(t)|))
    ensures ScanValue(s, j, depth, c) == Scanned(t, j, depth, c)
    decreases t, 0
  {
    hide HasAt, NextToken, GapYield, ScanValue, Ends, ItemsYield, FieldsYield;
    match t
    case TNumber(n) => NumberValueAt(s, j, depth, c, n);
    case TString(cs) => StringValueAt(s, j, depth, c, cs);
    case TEmptyArray(gap) => EmptyArrayAt(s, j, depth, c, gap);
    case TEmptyObject(gap) => EmptyObjectAt(s, j, depth, c, gap);
    case TArray(items) => ArrayAt(s, j, depth, c, items);
    case TObject(fields) => ObjectAt(s, j, depth, c, fields);
    case _ => LiteralAt(s, j, depth, c, t);
  }

  lemma LiteralAt(s: bytes, j: nat, depth: nat, c: Config, t: Tree)
    requires t.TNull? || t.TTrue? || t.TFalse?
    requires HasAt(s, j, Yield(t)) && NextToken(s, j, c.mode) == Some(j) && depth <= MAX_DEPTH
    ensures ScanValue(s, j, depth, c) == Scanned(t, j, depth, c)
  {
    SliceAt(s, j, Yield(t));
    hide HasAt, NextToken, ScanString, ScanNumber, ScanItems, ScanFields;
  }

  lemma NumberValueAt(s: bytes, j: nat, depth: nat, c: Config, n: Number)
    requires ValidNumber(n) && HasAt(s, j, NumberYield(n)) && Ends(n, At(s, j + |NumberYield(n)|))
    requires NextToken(s, j, c.mode) == Some(j) && depth <= MAX_DEPTH
    ensures ScanValue(s, j, depth, c) == Ok(DenoteNumber(n, c.strtod), j + |NumberYield(n)|)
  {
    NumberAt(s, j, n, c.strtod);
    hide HasAt, NextToken, NumberYield, DenoteNumber, ScanString, ScanNumber, ScanItems, ScanFields;
  }

  lemma StringValueAt(s: bytes, j: nat, depth: nat, c: Config, cs: seq<Chunk>)
    requires ValidChunks(cs) && HasAt(s, j, StringYield(cs))
    requires NextToken(s, j, c.mode) == Some(j) && depth <= MAX_DEPTH
    ensures ScanValue(s, j, depth, c) == Ok(Str(DenoteChunks(cs)), j + |StringYield(cs)|)
  {
    StringLiteralAt(s, j, cs);
    hide HasAt, NextToken, StringYield, DenoteChunks, ScanString, ScanNumber, ScanItems, ScanFields;
  }

  lemma EmptyArrayAt(s: bytes, j: nat, depth: nat, c: Config, gap: Gap)
    requires ValidGap(gap, c.mode) && HasAt(s, j, [LBRACKET] + (GapYield(gap) + [RBRACKET]))
    requires NextToken(s, j, c.mode) == Some(j) && depth <= MAX_DEPTH
    ensures ScanValue(s, j, depth, c) == Ok(Arr([]), j + |[LBRACKET] + (GapYield(gap) + [RBRACKET])|)
  {
    hide HasAt, NextToken, GapYield, ScanString, ScanNumber, ScanItems, ScanFields;
    HasAtSplit(s, j, [LBRACKET], GapYield(gap) + [RBRACKET]);
    HasAtOne(s, j, LBRACKET);
    assert [RBRACKET] == [RBRACKET] + [];
    TokenAfterGap(s, j + 1, gap, RBRACKET, [], c.mode);
  }

  lemma EmptyObjectAt(s: bytes, j: nat, depth: nat, c: Config, gap: Gap)
    requires ValidGap(gap, c.mode) && HasAt(s, j, [LBRACE] + (GapYield(gap) + [RBRACE]))
    requires NextToken(s, j, c.mode) == Some(j) && depth <= MAX_DEPTH
    ensures ScanValue(s, j, depth, c) == Ok(Obj([]), j + |[LBRACE] + (GapYield(gap) + [RBRACE])|)
  {
    hide HasAt, NextToken, GapYield, ScanString, ScanNumber, ScanItems, ScanFields;
    HasAtSplit(s, j, [LBRACE], GapYield(gap) + [RBRACE]);
    HasAtOne(s, j, LBRACE);
    assert [RBRACE] == [RBRACE] + [];
    TokenAfterGap(s, j + 1, gap, RBRACE, [], c.mode);
  }

  lemma {:induction false} ArrayAt(s: bytes, j: nat, depth: nat, c: Config, items: Items)
    requires ValidItems(items, c.mode) && HasAt(s, j, [LBRACKET] + ItemsYield(items)) && depth <= MAX_DEPTH
    requires NextToken(s, j, c.mode) == Some(j)
    ensures ScanValue(s, j, depth, c) ==
      if depth + 1 + ItemsHeight(items) <= MAX_DEPTH then Ok(Arr(DenoteItems(items, c)), j + 1 + |ItemsYield(items)|)
      else Fail
    decreases items, 2
  {
    hide HasAt, NextToken, GapYield, ItemsYield, Yield, Valid, ScanItems, ScanValue, DenoteItems, ItemsHeight;
    HasAtSplit(s, j, [LBRACKET], ItemsYield(items));
    HasAtOne(s, j, LBRACKET);
    ItemsStart(s, j + 1, items, c.mode);
    ItemsAt(s, j + 1, depth, c, items);
    var k := NextToken(s, j + 1, c.mode).value;
    ScanItemsFrom(s, j + 1, k, depth, c);
    ScanArray(s, j, k, depth, c);
  }

  /** The array branch of `parse_json` on a nonempty array. */
  lemma ScanArray(s: bytes, j: nat, k: nat, depth: nat, c: Config)
    requires j < |s| && s[j] == LBRACKET && NextToken(s, j, c.mode) == Some(j) && depth <= MAX_DEPTH
    requires NextToken(s, j + 1, c.mode) == Some(k) && s[k] != RBRACKET
    ensures ScanValue(s, j, depth, c) ==
      match ScanItems(s, k, depth, c)
      case Ok(vs, m) => Ok(Arr(vs), m)
      case Fail => Fail
  {
    hide NextToken, ScanString, ScanNumber, ScanLiteral, ScanItems, ScanFields;
  }

  lemma ItemsStart(s: bytes, i: nat, items: Items, mode: Mode)
    requires ValidItems(items, mode) && HasAt(s, i, ItemsYield(items))
    ensures NextToken(s, i, mode).Some? && s[NextToken(s, i, mode).value] != RBRACKET
  {
    hide HasAt, NextToken, GapYield, ItemRest, Yield, ItemsYield;
    var x := items.item;
    ItemSplit(s, i, items);
    ValueToken(s, i, x.before, x.value, mode);
    FirstByte(x.value, mode);
    SliceAt(s, i + |GapYield(x.before)|, Yield(x.value));
  }

  /** What follows the first element. */
  function ItemRest(xs: Items): bytes {
    GapYield(xs.item.after) +
      match xs
      case LastItem(_) => [RBRACKET]
      case MoreItems(_, rest) => [COMMA] + ItemsYield(rest)
  }

  lemma ItemSplit(s: bytes, i: nat, xs: Items)
    requires HasAt(s, i, ItemsYield(xs))
    ensures var head := GapYield(xs.item.before) + Yield(xs.item.value);
      HasAt(s, i, head) && HasAt(s, i + |head|, ItemRest(xs)) && |ItemsYield(xs)| == |head| + |ItemRest(xs)|
  {
    hide HasAt, GapYield, Yield;
    var head := GapYield(xs.item.before) + Yield(xs.item.value);
    Assoc(GapYield(xs.item.before), Yield(xs.item.value), ItemRest(xs));
    assert ItemsYield(xs) == head + ItemRest(xs);
    hide ItemRest;
    HasAtSplit(s, i, head, ItemRest(xs));
  }

  lemma ItemRestStops(s: bytes, j: nat, xs: Items, mode: Mode)
    requires ValidItems(xs, mode) && HasAt(s, j, ItemRest(xs))
    ensures j <= |s| && NumStop(At(s, j))
  {
    hide HasAt, GapYield;
    var tail := if xs.LastItem? then [RBRACKET] else [COMMA] + ItemsYield(xs.rest);
    GapFirst(xs.item.after, tail, mode);
    StopAt(s, j, GapYield(xs.item.after) + tail);
  }

  lemma {:induction false} ItemsAt(s: bytes, i: nat, depth: nat, c: Config, xs: Items)
    requires ValidItems(xs, c.mode) && HasAt(s, i, ItemsYield(xs))
    ensures ScanItems(s, i, depth, c) ==
      if depth + 1 + ItemsHeight(xs) <= MAX_DEPTH then Ok(DenoteItems(xs, c), i + |ItemsYield(xs)|) else Fail
    decreases xs, 1
  {
    hide HasAt, NextToken, GapYield, ScanValue, Yield, Denote, Height, ItemsYield, ItemRest, ScanItemsAfter;
    hide NumStop, Ends;
    var x := xs.item;
    ItemSplit(s, i, xs);
    var j := i + |GapYield(x.before) + Yield(x.value)|;
    ItemRestStops(s, j, xs, c.mode);
    StopEnds(x.value, At(s, j));
    ValueAt(s, i, depth + 1, c, x.before, x.value);
    if depth + 1 + Height(x.value) <= MAX_DEPTH {
      ItemsAfterAt(s, j, Denote(x.value, c), depth, c, xs);
    }
  }

  lemma {:induction false} ItemsAfterAt(s: bytes, j: nat, v: Json, depth: nat, c: Config, xs: Items)
    requires ValidItems(xs, c.mode) && HasAt(s, j, ItemRest(xs))
    ensures ScanItemsAfter(s, j, v, depth, c) ==
      match xs
      case LastItem(_) => Ok([v], j + |ItemRest(xs)|)
      case MoreItems(_, rest) =>
        if depth + 1 + ItemsHeight(rest) <= MAX_DEPTH then Ok([v] + DenoteItems(rest, c), j + |ItemRest(xs)|) else Fail
    decreases xs, 0
  {
    hide HasAt, NextToken, GapYield, ScanItems;
    var x := xs.item;
    var b, more := if xs.LastItem? then RBRACKET else COMMA, if xs.LastItem? then [] else ItemsYield(xs.rest);
    assert ItemRest(xs) == GapYield(x.after) + ([b] + more);
    TokenAfterGap(s, j, x.after, b, more, c.mode);
    if xs.MoreItems? { ItemsAt(s, j + |GapYield(x.after)| + 1, depth, c, xs.rest); }
  }

  lemma KeyAt(s: bytes, i: nat, x: Field, mode: Mode)
    requires ValidKey(x, mode) && HasAt(s, i, KeyYield(x))
    ensures ScanKey(s, i, mode) == Ok(DenoteChunks(x.key), i + |KeyYield(x)|)
    ensures NextToken(s, i, mode).Some? && s[NextToken(s, i, mode).value] == QUOTE
  {
    hide HasAt, NextToken, GapYield, ScanString, StringYield, DenoteChunks;
    var str, colon := StringYield(x.key), GapYield(x.beforeColon) + [COLON];
    HasAtSplit(s, i, GapYield(x.before), str + colon);
    var j := i + |GapYield(x.before)|;
    HasAtSplit(s, j, str, colon);
    StringLiteralAt(s, j, x.key);
    QuoteFirst(x.key, colon);
    TokenAfterGap(s, i, x.before, QUOTE, (str + colon)[1..], mode);
    assert [COLON] == [COLON] + [];
    TokenAfterGap(s, j + |str|, x.beforeColon, COLON, [], mode);
  }

  lemma QuoteFirst(cs: seq<Chunk>, rest: bytes)
    ensures var y := StringYield(cs) + rest; y == [QUOTE] + y[1..]
  {
    hide ChunksYield;
  }

  lemma {:induction false} ObjectAt(s: bytes, j: nat, depth: nat, c: Config, fields: Fields)
    requires ValidFields(fields, c.mode) && HasAt(s, j, [LBRACE] + FieldsYield(fields)) && depth <= MAX_DEPTH
    requires NextToken(s, j, c.mode) == Some(j)
    ensures ScanValue(s, j, depth, c) ==
      if depth + 1 + FieldsHeight(fields) <= MAX_DEPTH then
        Ok(Obj(DenoteFields(fields, c, [])), j + 1 + |FieldsYield(fields)|)
      else Fail
    decreases fields, 2
  {
    hide HasAt, NextToken, FieldsYield, KeyYield, FieldRest, ScanFields, ScanValue, DenoteFields, FieldsHeight;
    HasAtSplit(s, j, [LBRACE], FieldsYield(fields));
    HasAtOne(s, j, LBRACE);
    FieldSplit(s, j + 1, fields);
    KeyAt(s, j + 1, fields.field, c.mode);
    FieldsAt(s, j + 1, depth, c, fields, []);
    var k := NextToken(s, j + 1, c.mode).value;
    ScanFieldsFrom(s, j + 1, k, depth, c, []);
    ScanMembers(s, j, k, depth, c);
  }

  /** The object branch of `parse_json` on a nonempty object. */
  lemma ScanMembers(s: bytes, j: nat, k: nat, depth: nat, c: Config)
    requires j < |s| && s[j] == LBRACE && NextToken(s, j, c.mode) == Some(j) && depth <= MAX_DEPTH
    requires NextToken(s, j + 1, c.mode) == Some(k) && s[k] != RBRACE
    ensures ScanValue(s, j, depth, c) ==
      match ScanFields(s, k, depth, c, [])
      case Ok(ms, m) => Ok(Obj(ms), m)
      case Fail => Fail
  {
    hide NextToken, ScanString, ScanNumber, ScanLiteral, ScanItems, ScanFields;
  }

  lemma {:induction false} FieldsAt(s: bytes, i: nat, depth: nat, c: Config, xs: Fields, ms: seq<Member>)
    requires ValidFields(xs, c.mode) && HasAt(s, i, FieldsYield(xs))
    ensures ScanFields(s, i, depth, c, ms) ==
      if depth + 1 + FieldsHeight(xs) <= MAX_DEPTH then Ok(DenoteFields(xs, c, ms), i + |FieldsYield(xs)|) else Fail
    decreases xs, 1
  {
    hide HasAt, NextToken, GapYield, ScanValue, ScanKey, Yield, Denote, Height, FieldsYield, KeyYield, FieldRest;
    hide ScanFieldsAfter, NumStop, Ends;
    var x := xs.field;
    FieldSplit(s, i, xs);
    KeyAt(s, i, x, c.mode);
    var k := i + |KeyYield(x)|;
    var j := k + |GapYield(x.afterColon) + Yield(x.value)|;
    FieldRestStops(s, j, xs, c.mode);
    StopEnds(x.value, At(s, j));
    ValueAt(s, k, depth + 1, c, x.afterColon, x.value);
    if depth + 1 + Height(x.value) <= MAX_DEPTH {
      FieldsAfterAt(s, j, depth, c, xs, Put(ms, DenoteChunks(x.key), Denote(x.value, c)));
    }
  }

  lemma FieldSplit(s: bytes, i: nat, xs: Fields)
    requires HasAt(s, i, FieldsYield(xs))
    ensures var x := xs.field; var k := i + |KeyYield(x)|; var head := GapYield(x.afterColon) + Yield(x.value);
      HasAt(s, i, KeyYield(x)) && HasAt(s, k, head) && HasAt(s, k + |head|, FieldRest(xs))
      && i + |FieldsYield(xs)| == k + |head| + |FieldRest(xs)|
  {
    var x := xs.field;
    var head := GapYield(x.afterColon) + Yield(x.value);
    hide HasAt, KeyYield, GapYield, Yield;
    Assoc(GapYield(x.afterColon), Yield(x.value), FieldRest(xs));
    assert FieldsYield(xs) == KeyYield(x) + (head + FieldRest(xs));
    hide FieldRest;
    HasAtSplit(s, i, KeyYield(x), head + FieldRest(xs));
    HasAtSplit(s, i + |KeyYield(x)|, head, FieldRest(xs));
  }

  /** What follows the first member's value. */
  function FieldRest(xs: Fields): bytes {
    GapYield(xs.field.after) +
      match xs
      case LastField(_) => [RBRACE]
      case MoreFields(_, rest) => [COMMA] + FieldsYield(rest)
  }

  lemma FieldRestStops(s: bytes, j: nat, xs: Fields, mode: Mode)
    requires ValidFields(xs, mode) && HasAt(s, j, FieldRest(xs))
    ensures j <= |s| && NumStop(At(s, j))
  {
    hide HasAt, GapYield;
    var tail := if xs.LastField? then [RBRACE] else [COMMA] + FieldsYield(xs.rest);
    GapFirst(xs.field.after, tail, mode);
    StopAt(s, j, GapYield(xs.field.after) + tail);
  }

  lemma {:induction false} FieldsAfterAt(s: bytes, j: nat, depth: nat, c: Config, xs: Fields, ms: seq<Member>)
    requires ValidFields(xs, c.mode) && HasAt(s, j, FieldRest(xs))
    ensures ScanFieldsAfter(s, j, depth, c, ms) ==
      match xs
      case LastField(_) => Ok(ms, j + |FieldRest(xs)|)
      case MoreFields(_, rest) =>
        if depth + 1 + FieldsHeight(rest) <= MAX_DEPTH then Ok(DenoteFields(rest, c, ms), j + |FieldRest(xs)|) else Fail
    decreases xs, 0
  {
    hide HasAt, NextToken, GapYield, ScanFields;
    var x := xs.field;
    var b, more := if xs.LastField? then RBRACE else COMMA, if xs.LastField? then [] else FieldsYield(xs.rest);
    assert FieldRest(xs) == GapYield(x.after) + ([b] + more);
    TokenAfterGap(s, j, x.after, b, more, c.mode);
    if xs.MoreFields? { FieldsAt(s, j + |GapYield(x.after)| + 1, depth, c, xs.rest, ms); }
  }

  lemma WholeText(s: bytes)
    ensures HasAt(s, 0, s)
  {
    assert s[0..|s|] == s;
  }

  /** Any derivation of a text fixes what `parse` does on it. */
  lemma DocumentParses(d: Document, c: Config)
    requires ValidDocument(d, c.mode)
    ensures Parse(DocumentYield(d), c) ==
      if Height(d.item.value) <= MAX_DEPTH then Some(Denote(d.item.value, c)) else None
  {
    hide HasAt, GapYield, Yield, TailYield, ScanValue, SkipGarbage, Denote, Height, Valid, NumStop, Ends;
    var s, x := DocumentYield(d), d.item;
    var head, rest := GapYield(x.before) + Yield(x.value), GapYield(x.after) + TailYield(d.tail);
    Assoc(GapYield(x.before), Yield(x.value), rest);
    WholeText(s);
    HasAtSplit(s, 0, head, rest);
    if x.value.TNumber? {
      TailFirst(d.tail);
      GapFirst(x.after, TailYield(d.tail), c.mode);
      StopAt(s, |head|, rest);
      StopEnds(x.value, At(s, |head|));
    }
    ValueAt(s, 0, 0, c, x.before, x.value);
    SkipTo(s, |head|, x.after, d.tail, c.mode);
  }

  lemma TailFirst(tail: Option<bytes>)
    ensures TailYield(tail) == [] || NumStop(TailYield(tail)[0])
  {}

  lemma SkipTo(s: bytes, i: nat, g: Gap, tail: Option<bytes>, mode: Mode)
    requires ValidGap(g, mode) && HasAt(s, i, GapYield(g) + TailYield(tail))
    requires i + |GapYield(g) + TailYield(tail)| == |s| && (tail.Some? ==> mode == COMMENTS && NEWLINE !in tail.value)
    ensures SkipGarbage(s, i, mode) == Some(|s|)
  {
    hide HasAt, GapYield, TailYield, SkipGarbage;
    SkipGap(s, i, g, tail, mode);
  }
}
