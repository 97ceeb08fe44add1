/** Every text the parser accepts is grammatical: the accepted cursor moves are read back
    as a derivation. With `JsonComplete` this makes acceptance exact. */
module JsonSound {
  import opened Options
  import opened Bytes
  import opened Utf8
  import opened JsonValue
  import opened JsonGrammar
  import opened JsonScan
  import opened JsonComplete

  /* ----- gaps ----- */

  lemma {:induction false} LineTextOf(s: bytes, i: nat)
    requires i <= |s|
    ensures NEWLINE !in s[i..LineEnd(s, i)]
    ensures LineEnd(s, i) < |s| ==> s[LineEnd(s, i)] == NEWLINE
    decreases |s| - i
  {
    if i < |s| && s[i] != NEWLINE {
      LineTextOf(s, i + 1);
      assert s[i..LineEnd(s, i)] == [s[i]] + s[i + 1..LineEnd(s, i)];
    }
  }

  lemma {:induction false} BlockTextOf(s: bytes, i: nat)
    requires BlockEnd(s, i).Some?
    ensures var k := BlockEnd(s, i).value; i + 2 <= k
    ensures var k := BlockEnd(s, i).value;
      ClosesAtEnd(s[i..k - 2]) && s[k - 2] == STAR && s[k - 1] == SLASH
    decreases |s| - i
  {
    hide ClosesAtEnd;
    if !(s[i] == STAR && s[i + 1] == SLASH) {
      BlockTextOf(s, i + 1);
      var k := BlockEnd(s, i).value;
      hide BlockEnd;
      var text := s[i + 1..k - 2];
      assert s[i..k - 2] == [s[i]] + text;
      if text != [] { assert text[0] == s[i + 1]; }
      ClosesCons(s[i], text);
    } else {
      NothingOpen();
      assert s[i..i] == [];
    }
  }

  lemma HasAtSlice(s: bytes, i: nat, j: nat)
    requires i <= j <= |s|
    ensures HasAt(s, i, s[i..j])
  {}

  lemma NothingOpen()
    ensures ClosesAtEnd([])
  {}

  lemma ClosesCons(b: byte, text: bytes)
    requires ClosesAtEnd(text) && (text != [] ==> !(b == STAR && text[0] == SLASH))
    ensures ClosesAtEnd([b] + text)
  {
    var w, v := [b] + text + [STAR, SLASH], text + [STAR, SLASH];
    forall m | 0 <= m < |text| + 1 ensures !(w[m] == STAR && w[m + 1] == SLASH) {
      if m > 0 { assert w[m] == v[m - 1] && w[m + 1] == v[m]; }
    }
  }

  /** The comment that the parser skips at `i`. */
  lemma CommentOf(s: bytes, i: nat) returns (x: GapItem)
    requires i <= |s| && SkipComment(s, i).Comment?
    ensures !x.Space? && i < |s| && s[i] == SLASH
    ensures x.Block? ==>
      && ValidGapItem(x, COMMENTS) && HasAt(s, i, GapItemYield(x))
      && SkipComment(s, i).pos == i + |GapItemYield(x)|
    ensures x.Line? ==> NEWLINE !in x.text && HasAt(s, i, [SLASH, SLASH] + x.text)
    ensures x.Line? ==> var k := SkipComment(s, i).pos; k == i + 2 + |x.text| && (k < |s| ==> s[k] == NEWLINE)
  {
    var k := SkipComment(s, i).pos;
    if s[i + 1] == SLASH {
      LineTextOf(s, i + 2);
      x := Line(s[i + 2..k]);
      hide SkipComment, LineEnd;
      PairThenSlice(s, i, SLASH, k);
    } else {
      x := BlockOf(s, i);
    }
  }

  lemma BlockOf(s: bytes, i: nat) returns (x: GapItem)
    requires i + 2 <= |s| && s[i] == SLASH && s[i + 1] == STAR && BlockEnd(s, i + 2).Some?
    ensures var k := BlockEnd(s, i + 2).value;
      && x.Block? && ValidGapItem(x, COMMENTS) && HasAt(s, i, GapItemYield(x)) && k == i + |GapItemYield(x)|
  {
    hide BlockEnd, ClosesAtEnd;
    BlockTextOf(s, i + 2);
    var k := BlockEnd(s, i + 2).value;
    x := Block(s[i + 2..k - 2]);
    PairThenSlice(s, i, STAR, k - 2);
    assert HasAt(s, k - 2, [STAR, SLASH]) by { assert s[k - 2..k] == [STAR, SLASH]; }
    hide HasAt;
    HasAtSplit(s, i, [SLASH, STAR] + x.text, [STAR, SLASH]);
  }

  lemma PairThenSlice(s: bytes, i: nat, b: byte, k: nat)
    requires i + 2 <= k <= |s| && s[i] == SLASH && s[i + 1] == b
    ensures HasAt(s, i, [SLASH, b] + s[i + 2..k])
  {
    assert s[i..i + 2] == [SLASH, b];
    HasAtSplit(s, i, [SLASH, b], s[i + 2..k]);
  }

  lemma SkippedComment(s: bytes, i: nat)
    requires i < |s| && s[i] == SLASH && SkipGarbage(s, i, COMMENTS).Some?
    ensures SkipComment(s, i).Comment?
  {}

  lemma {:induction false} GapOf(s: bytes, i: nat, mode: Mode) returns (g: Gap, tail: Option<bytes>)
    requires i <= |s| && SkipGarbage(s, i, mode).Some?
    ensures ValidGap(g, mode) && HasAt(s, i, GapYield(g) + TailYield(tail))
    ensures SkipGarbage(s, i, mode) == Some(i + |GapYield(g) + TailYield(tail)|)
    ensures tail.Some? ==> mode == COMMENTS && NEWLINE !in tail.value && SkipGarbage(s, i, mode) == Some(|s|)
    decreases |s| - i
  {
    hide HasAt, SkipGarbage, SkipComment, GapItemYield, GapYield, TailYield;
    if i < |s| && IsWs(s[i]) {
      SkipOneSpace(s, i, mode);
      HasAtOne(s, i, s[i]);
      SpaceYield(s[i]);
      g, tail := PrependGap(s, i, Space(s[i]), mode);
    } else if mode == STANDARD || At(s, i) != SLASH {
      SkipNothing(s, i, mode);
      g, tail := [], None;
      HasAtSlice(s, i, i);
      EmptyGapYield(None);
      assert s[i..i] == [];
    } else {
      g, tail := CommentGapOf(s, i);
    }
  }

  lemma {:induction false} CommentGapOf(s: bytes, i: nat) returns (g: Gap, tail: Option<bytes>)
    requires i < |s| && s[i] == SLASH && SkipGarbage(s, i, COMMENTS).Some?
    ensures ValidGap(g, COMMENTS) && HasAt(s, i, GapYield(g) + TailYield(tail))
    ensures SkipGarbage(s, i, COMMENTS) == Some(i + |GapYield(g) + TailYield(tail)|)
    ensures tail.Some? ==> NEWLINE !in tail.value && SkipGarbage(s, i, COMMENTS) == Some(|s|)
    decreases |s| - i, 1
  {
    hide HasAt, SkipGarbage, SkipComment, GapItemYield, GapYield, TailYield;
    SkippedComment(s, i);
    var x := CommentOf(s, i);
    var k := SkipComment(s, i).pos;
    SkipOneComment(s, i, k);
    if x.Block? {
      g, tail := PrependGap(s, i, x, COMMENTS);
    } else if k < |s| {
      SkipOneSpace(s, k, COMMENTS);
      LineYield(x);
      HasAtOne(s, k, NEWLINE);
      HasAtSplit(s, i, [SLASH, SLASH] + x.text, [NEWLINE]);
      g, tail := PrependGap(s, i, x, COMMENTS);
    } else {
      SkipNothing(s, k, COMMENTS);
      g, tail := [], Some(x.text);
      EmptyGapYield(tail);
    }
  }

  lemma SpaceYield(b: byte)
    ensures GapItemYield(Space(b)) == [b]
  {}

  lemma LineYield(x: GapItem)
    requires x.Line?
    ensures GapItemYield(x) == ([SLASH, SLASH] + x.text) + [NEWLINE]
  {}

  lemma YieldNonempty(x: GapItem)
    ensures |GapItemYield(x)| > 0
  {}

  lemma {:induction false} PrependGap(s: bytes, i: nat, x: GapItem, mode: Mode) returns (g: Gap, tail: Option<bytes>)
    requires ValidGapItem(x, mode) && HasAt(s, i, GapItemYield(x))
    requires i + |GapItemYield(x)| <= |s| && SkipGarbage(s, i + |GapItemYield(x)|, mode).Some?
    ensures ValidGap(g, mode) && HasAt(s, i, GapYield(g) + TailYield(tail))
    ensures SkipGarbage(s, i + |GapItemYield(x)|, mode) == Some(i + |GapYield(g) + TailYield(tail)|)
    ensures tail.Some? ==> mode == COMMENTS && NEWLINE !in tail.value && i + |GapYield(g) + TailYield(tail)| == |s|
    decreases |s| - i, 0
  {
    hide HasAt, SkipGarbage, GapItemYield, TailYield;
    YieldNonempty(x);
    var y := GapItemYield(x);
    assert i + |y| <= |s| by { SliceAt(s, i, y); }
    var g';
    g', tail := GapOf(s, i + |y|, mode);
    g := [x] + g';
    assert g[1..] == g';
    Assoc(y, GapYield(g'), TailYield(tail));
    HasAtSplit(s, i, y, GapYield(g') + TailYield(tail));
  }

  lemma TokenGapOf(s: bytes, i: nat, mode: Mode) returns (g: Gap)
    requires i <= |s| && NextToken(s, i, mode).Some?
    ensures ValidGap(g, mode) && HasAt(s, i, GapYield(g)) && NextToken(s, i, mode) == Some(i + |GapYield(g)|)
  {
    var tail;
    g, tail := GapOf(s, i, mode);
    assert tail == None;
    assert GapYield(g) + TailYield(None) == GapYield(g);
  }

  /* ----- strings and numbers ----- */

  lemma {:induction false} ChunksOf(s: bytes, i: nat, last: int, out: bytes) returns (cs: seq<Chunk>)
    requires i <= |s| && ScanString(s, i, last, out).Ok?
    ensures ValidChunks(cs) && HasAt(s, i, ChunksYield(cs) + [QUOTE])
    ensures ScanString(s, i, last, out).pos == i + |ChunksYield(cs)| + 1
    decreases |s| - i
  {
    if s[i] == QUOTE {
      cs := [];
      HasAtOne(s, i, QUOTE);
      assert ChunksYield(cs) + [QUOTE] == [QUOTE];
    } else {
      var x, last', out' := FirstChunkOf(s, i, last, out);
      var y := ChunkYield(x);
      var rest := ChunksOf(s, i + |y|, last', out');
      cs := [x] + rest;
      assert cs[1..] == rest;
      hide HasAt, ScanString;
      Assoc(y, ChunksYield(rest), [QUOTE]);
      HasAtSplit(s, i, y, ChunksYield(rest) + [QUOTE]);
    }
  }

  lemma FirstChunkOf(s: bytes, i: nat, last: int, out: bytes) returns (x: Chunk, last': int, out': bytes)
    requires i < |s| && s[i] != QUOTE && ScanString(s, i, last, out).Ok?
    ensures ValidChunk(x) && HasAt(s, i, ChunkYield(x))
    ensures ScanString(s, i, last, out) == ScanString(s, i + |ChunkYield(x)|, last', out')
  {
    hide EncodeUtf8, HexValue, Reassemble, EscapedByte, IsLead, IsTrail;
    if s[i] != BACKSLASH {
      x, last', out' := Raw(s[i]), -1, out + EncodeUtf8(last) + [s[i]];
      HasAtOne(s, i, s[i]);
    } else if s[i + 1] != LETTER_U {
      x, last', out' := Esc(s[i + 1]), -1, out + EncodeUtf8(last) + [EscapedByte(s[i + 1]).value];
      assert ChunkYield(x) == s[i..i + 2];
    } else {
      var h := s[i + 2..i + 6];
      var cp := HexValue(h);
      x := Uni(h);
      assert ChunkYield(x) == s[i..i + 6];
      if IsLead(last) && IsTrail(cp) { last', out' := -1, out + EncodeUtf8(Reassemble(last, cp)); }
      else { last', out' := cp, out + EncodeUtf8(last); }
    }
  }

  /** A string literal that was read, with what it denotes. */
  lemma StringLiteralOf(s: bytes, j: nat) returns (cs: seq<Chunk>)
    requires j < |s| && s[j] == QUOTE && ScanString(s, j + 1, -1, []).Ok?
    ensures ValidChunks(cs) && HasAt(s, j, StringYield(cs))
    ensures ScanString(s, j + 1, -1, []) == Ok(DenoteChunks(cs), j + |StringYield(cs)|)
  {
    cs := ChunksOf(s, j + 1, -1, []);
    hide HasAt, ScanString;
    HasAtOne(s, j, QUOTE);
    HasAtSplit(s, j, [QUOTE], ChunksYield(cs) + [QUOTE]);
    StringLiteralAt(s, j, cs);
  }

  lemma FracOf(s: bytes, k: nat) returns (frac: Option<bytes>)
    requires k <= |s| && FracEnd(s, k).Some?
    ensures frac.Some? ==> frac.value != [] && AllDigits(frac.value)
    ensures frac.Some? <==> At(s, k) == DOT
    ensures FracYield(frac) == s[k..FracEnd(s, k).value]
  {
    var m := FracEnd(s, k).value;
    if m == k { frac := None; }
    else {
      frac := Some(s[k + 1..m]);
      assert s[k..m] == [s[k]] + s[k + 1..m];
    }
  }

  lemma ExpOf(s: bytes, m: nat) returns (exp: Option<Exponent>)
    requires m <= |s| && ExpEnd(s, m).Some?
    ensures exp.Some? ==> ValidExponent(exp.value)
    ensures exp.Some? <==> IsExpMark(At(s, m))
    ensures ExpYield(exp) == s[m..ExpEnd(s, m).value]
  {
    var e := ExpEnd(s, m).value;
    if e == m { exp := None; }
    else if s[m + 1] == PLUS || s[m + 1] == MINUS {
      exp := Some(Exponent(s[m], Some(s[m + 1]), s[m + 2..e]));
      assert s[m..e] == [s[m]] + ([s[m + 1]] + s[m + 2..e]);
    } else {
      exp := Some(Exponent(s[m], None, s[m + 1..e]));
      assert s[m..e] == [s[m]] + ([] + s[m + 1..e]);
    }
  }

  lemma NumberOf(s: bytes, i: nat, strtod: bytes -> Double) returns (n: Number)
    requires i <= |s| && ScanNumber(s, i, strtod).Ok?
    ensures ValidNumber(n) && HasAt(s, i, NumberYield(n))
    ensures ScanNumber(s, i, strtod) == Ok(DenoteNumber(n, strtod), i + |NumberYield(n)|)
  {
    var neg := At(s, i) == MINUS;
    var j := if neg then i + 1 else i;
    var k := WholeEnd(s, j).value;
    assert s[i..j] == SignYield(neg);
    WholeOf(s, j);
    hide WholeEnd;
    n := AfterWholeOf(s, i, j, k, strtod);
  }

  lemma WholeOf(s: bytes, j: nat)
    requires j <= |s| && WholeEnd(s, j).Some?
    ensures var ds := s[j..WholeEnd(s, j).value]; ds != [] && AllDigits(ds) && (ds[0] == 0x30 ==> |ds| == 1)
  {}

  lemma AfterWholeOf(s: bytes, i: nat, j: nat, k: nat, strtod: bytes -> Double) returns (n: Number)
    requires i <= j < k <= |s| && s[i..j] == SignYield(j > i) && AllDigits(s[j..k])
    requires s[j] == 0x30 ==> k == j + 1
    requires ScanAfterWhole(s, i, j, k, strtod).Ok?
    ensures ValidNumber(n) && HasAt(s, i, NumberYield(n))
    ensures ScanAfterWhole(s, i, j, k, strtod) == Ok(DenoteNumber(n, strtod), i + |NumberYield(n)|)
  {
    if At(s, k) != DOT && !IsExpMark(At(s, k)) {
      n := IntegerOf(s, i, j, k, strtod);
    } else {
      n := FractionOf(s, i, j, k, strtod);
    }
  }

  lemma IntegerOf(s: bytes, i: nat, j: nat, k: nat, strtod: bytes -> Double) returns (n: Number)
    requires i <= j < k <= |s| && s[i..j] == SignYield(j > i) && AllDigits(s[j..k])
    requires (s[j] == 0x30 ==> k == j + 1) && At(s, k) != DOT && !IsExpMark(At(s, k))
    ensures ValidNumber(n) && HasAt(s, i, NumberYield(n))
    ensures ScanAfterWhole(s, i, j, k, strtod) == Ok(DenoteNumber(n, strtod), i + |NumberYield(n)|)
  {
    var whole := s[j..k];
    SliceJoin(s, i, j, k);
    hide FracEnd, ExpEnd, Atoi, IntegerValue, HasAt;
    n := Number(j > i, whole, None, None);
    assert whole + ([] + []) == whole;
    HasAtSlice(s, i, k);
    NoFraction(s, k);
    if k - i <= INT_DIGITS10 { AtoiFits(s[i..k], j > i, whole); }
  }

  lemma FractionOf(s: bytes, i: nat, j: nat, k: nat, strtod: bytes -> Double) returns (n: Number)
    requires i <= j < k <= |s| && s[i..j] == SignYield(j > i) && AllDigits(s[j..k])
    requires (s[j] == 0x30 ==> k == j + 1) && (At(s, k) == DOT || IsExpMark(At(s, k)))
    requires ScanAfterWhole(s, i, j, k, strtod).Ok?
    ensures ValidNumber(n) && HasAt(s, i, NumberYield(n))
    ensures ScanAfterWhole(s, i, j, k, strtod) == Ok(DenoteNumber(n, strtod), i + |NumberYield(n)|)
  {
    var whole := s[j..k];
    hide FracEnd, ExpEnd, Atoi, IntegerValue, HasAt, FracYield, ExpYield, ValidExponent, AllDigits, SignYield;
    var m := FracEnd(s, k).value;
    var e := ExpEnd(s, m).value;
    var frac := FracOf(s, k);
    var exp := ExpOf(s, m);
    n := Number(j > i, whole, frac, exp);
    NumberSpelled(s, i, j, k, m, e, n);
    if frac.None? { NoFraction(s, k); }
    hide NumberYield;
  }

  lemma NumberSpelled(s: bytes, i: nat, j: nat, k: nat, m: nat, e: nat, n: Number)
    requires i <= j <= k <= m <= e <= |s| && s[i..j] == SignYield(n.neg) && s[j..k] == n.whole
    requires FracYield(n.frac) == s[k..m] && ExpYield(n.exp) == s[m..e]
    ensures NumberYield(n) == s[i..e] && HasAt(s, i, NumberYield(n))
  {
    hide SignYield, FracYield, ExpYield, HasAt;
    SliceJoin(s, k, m, e);
    SliceJoin(s, j, k, e);
    SliceJoin(s, i, j, e);
    HasAtSlice(s, i, e);
  }

  lemma SliceJoin(s: bytes, i: nat, j: nat, k: nat)
    requires i <= j <= k <= |s|
    ensures s[i..k] == s[i..j] + s[j..k]
  {}

  lemma NoFraction(s: bytes, k: nat)
    requires k <= |s|
    ensures At(s, k) != DOT ==> FracEnd(s, k) == Some(k)
    ensures !IsExpMark(At(s, k)) ==> ExpEnd(s, k) == Some(k)
  {}

  /* ----- values ----- */

  lemma {:induction false} ValueOf(s: bytes, i: nat, depth: nat, c: Config) returns (g: Gap, t: Tree)
    requires i <= |s| && ScanValue(s, i, depth, c).Ok?
    ensures ValidGap(g, c.mode) && Valid(t, c.mode) && HasAt(s, i, GapYield(g) + Yield(t))
    ensures ScanValue(s, i, depth, c) == Ok(Denote(t, c), i + |GapYield(g) + Yield(t)|)
    ensures depth + Height(t) <= MAX_DEPTH
    decreases |s| - i, 2
  {
    hide HasAt, NextToken, GapYield, ScanString, ScanNumber;
    g := TokenGapOf(s, i, c.mode);
    var j := i + |GapYield(g)|;
    NextTokenSettles(s, i, j, c.mode);
    ScanValueFrom(s, i, j, depth, c);
    t := TreeOf(s, j, depth, c);
    hide ScanValue, Yield, Denote;
    HasAtSplit(s, i, GapYield(g), Yield(t));
  }

  lemma {:induction false} TreeOf(s: bytes, j: nat, depth: nat, c: Config) returns (t: Tree)
    requires j < |s| && NextToken(s, j, c.mode) == Some(j) && ScanValue(s, j, depth, c).Ok?
    ensures Valid(t, c.mode) && HasAt(s, j, Yield(t))
    ensures ScanValue(s, j, depth, c) == Ok(Denote(t, c), j + |Yield(t)|)
    ensures depth + Height(t) <= MAX_DEPTH
    decreases |s| - j, 1
  {
    hide HasAt, NextToken, GapYield, ScanString, ScanNumber;
    var ch := s[j];
    if ch == MINUS || IsDigit(ch) {
      var n := NumberOf(s, j, c.strtod);
      t := TNumber(n);
    } else if ch == TRUE[0] {
      t := TTrue;
    } else if ch == FALSE[0] {
      t := TFalse;
    } else if ch == NULL[0] {
      t := TNull;
    } else if ch == QUOTE {
      var cs := StringLiteralOf(s, j);
      t := TString(cs);
    } else if ch == LBRACE {
      t := ObjectOf(s, j, depth, c);
    } else {
      t := ArrayOf(s, j, depth, c);
    }
  }

  lemma {:induction false} ArrayOf(s: bytes, j: nat, depth: nat, c: Config) returns (t: Tree)
    requires j < |s| && NextToken(s, j, c.mode) == Some(j) && ScanValue(s, j, depth, c).Ok? && s[j] == LBRACKET
    ensures Valid(t, c.mode) && HasAt(s, j, Yield(t))
    ensures ScanValue(s, j, depth, c) == Ok(Denote(t, c), j + |Yield(t)|)
    ensures depth + Height(t) <= MAX_DEPTH
    decreases |s| - j, 0
  {
    hide HasAt, NextToken, GapYield, ScanString, ScanNumber;
    HasAtOne(s, j, LBRACKET);
    var k := NextToken(s, j + 1, c.mode).value;
    if s[k] == RBRACKET {
      var gap := TokenGapOf(s, j + 1, c.mode);
      t := TEmptyArray(gap);
      HasAtOne(s, k, RBRACKET);
      HasAtSplit(s, j + 1, GapYield(gap), [RBRACKET]);
      HasAtSplit(s, j, [LBRACKET], GapYield(gap) + [RBRACKET]);
    } else {
      ScanItemsFrom(s, j + 1, k, depth, c);
      var items := ItemsOf(s, j + 1, depth, c);
      t := TArray(items);
      hide ScanItems, ItemsYield;
      HasAtSplit(s, j, [LBRACKET], ItemsYield(items));
    }
  }

  lemma {:induction false} ItemsOf(s: bytes, i: nat, depth: nat, c: Config) returns (xs: Items)
    requires i <= |s| && ScanItems(s, i, depth, c).Ok?
    ensures ValidItems(xs, c.mode) && HasAt(s, i, ItemsYield(xs))
    ensures ScanItems(s, i, depth, c) == Ok(DenoteItems(xs, c), i + |ItemsYield(xs)|)
    ensures depth + 1 + ItemsHeight(xs) <= MAX_DEPTH
    decreases |s| - i, 3
  {
    hide HasAt, NextToken, GapYield, ScanString, ScanNumber, ScanItemsAfter;
    var g, t := ValueOf(s, i, depth + 1, c);
    var head := GapYield(g) + Yield(t);
    xs := ItemsAfterOf(s, i + |head|, Denote(t, c), g, t, depth, c);
    hide ScanValue, Yield, Denote, ItemRest;
    ItemsJoin(s, i, xs);
  }

  lemma ItemsJoin(s: bytes, i: nat, xs: Items)
    requires var head := GapYield(xs.item.before) + Yield(xs.item.value);
      HasAt(s, i, head) && HasAt(s, i + |head|, ItemRest(xs))
    ensures HasAt(s, i, ItemsYield(xs))
    ensures |ItemsYield(xs)| == |GapYield(xs.item.before) + Yield(xs.item.value)| + |ItemRest(xs)|
  {
    hide HasAt, GapYield, Yield;
    var head := GapYield(xs.item.before) + Yield(xs.item.value);
    Assoc(GapYield(xs.item.before), Yield(xs.item.value), ItemRest(xs));
    assert ItemsYield(xs) == head + ItemRest(xs);
    hide ItemRest;
    HasAtSplit(s, i, head, ItemRest(xs));
  }

  lemma {:induction false} ItemsAfterOf(s: bytes, j: nat, v: Json, g: Gap, t: Tree, depth: nat, c: Config)
    returns (xs: Items)
    requires j <= |s| && ScanItemsAfter(s, j, v, depth, c).Ok?
    requires ValidGap(g, c.mode) && Valid(t, c.mode) && v == Denote(t, c) && depth + 1 + Height(t) <= MAX_DEPTH
    ensures xs.item.before == g && xs.item.value == t
    ensures ValidItems(xs, c.mode) && HasAt(s, j, ItemRest(xs))
    ensures ScanItemsAfter(s, j, v, depth, c) == Ok(DenoteItems(xs, c), j + |ItemRest(xs)|)
    ensures depth + 1 + ItemsHeight(xs) <= MAX_DEPTH
    decreases |s| - j, 4
  {
    hide HasAt, NextToken, GapYield, ScanItems;
    var after := TokenGapOf(s, j, c.mode);
    var k := j + |GapYield(after)|;
    HasAtOne(s, k, s[k]);
    if s[k] == RBRACKET {
      xs := LastItem(Item(g, t, after));
      HasAtSplit(s, j, GapYield(after), [RBRACKET]);
    } else {
      var rest := ItemsOf(s, k + 1, depth, c);
      xs := MoreItems(Item(g, t, after), rest);
      HasAtSplit(s, k, [COMMA], ItemsYield(rest));
      HasAtSplit(s, j, GapYield(after), [COMMA] + ItemsYield(rest));
    }
  }

  lemma KeyOf(s: bytes, i: nat, mode: Mode) returns (before: Gap, key: seq<Chunk>, beforeColon: Gap)
    requires i <= |s| && ScanKey(s, i, mode).Ok?
    ensures ValidGap(before, mode) && ValidChunks(key) && ValidGap(beforeColon, mode)
    ensures var y := GapYield(before) + (StringYield(key) + (GapYield(beforeColon) + [COLON]));
      HasAt(s, i, y) && ScanKey(s, i, mode) == Ok(DenoteChunks(key), i + |y|)
  {
    hide HasAt, NextToken, GapYield, ScanString;
    before := TokenGapOf(s, i, mode);
    var j := i + |GapYield(before)|;
    key := StringLiteralOf(s, j);
    var k := j + |StringYield(key)|;
    beforeColon := TokenGapOf(s, k, mode);
    HasAtOne(s, k + |GapYield(beforeColon)|, COLON);
    hide StringYield;
    HasAtSplit(s, k, GapYield(beforeColon), [COLON]);
    HasAtSplit(s, j, StringYield(key), GapYield(beforeColon) + [COLON]);
    HasAtSplit(s, i, GapYield(before), StringYield(key) + (GapYield(beforeColon) + [COLON]));
  }

  /** The object branch of `parse_json`. */
  lemma ScanObject(s: bytes, j: nat, depth: nat, c: Config)
    requires j < |s| && NextToken(s, j, c.mode) == Some(j) && ScanValue(s, j, depth, c).Ok? && s[j] == LBRACE
    ensures depth <= MAX_DEPTH && NextToken(s, j + 1, c.mode).Some?
    ensures var k := NextToken(s, j + 1, c.mode).value;
      if s[k] == RBRACE then ScanValue(s, j, depth, c) == Ok(Obj([]), k + 1)
      else (var r := ScanFields(s, k, depth, c, []); r.Ok? && ScanValue(s, j, depth, c) == Ok(Obj(r.value), r.pos))
  {
    hide NextToken, ScanString, ScanNumber, ScanFields;
  }

  lemma {:induction false} ObjectOf(s: bytes, j: nat, depth: nat, c: Config) returns (t: Tree)
    requires j < |s| && NextToken(s, j, c.mode) == Some(j) && ScanValue(s, j, depth, c).Ok? && s[j] == LBRACE
    ensures Valid(t, c.mode) && HasAt(s, j, Yield(t))
    ensures ScanValue(s, j, depth, c) == Ok(Denote(t, c), j + |Yield(t)|)
    ensures depth + Height(t) <= MAX_DEPTH
    decreases |s| - j, 0
  {
    hide HasAt, NextToken, GapYield, ScanValue, ScanFields, FieldsYield;
    HasAtOne(s, j, LBRACE);
    ScanObject(s, j, depth, c);
    var k := NextToken(s, j + 1, c.mode).value;
    if s[k] == RBRACE {
      var gap := TokenGapOf(s, j + 1, c.mode);
      t := TEmptyObject(gap);
      HasAtOne(s, k, RBRACE);
      HasAtSplit(s, j + 1, GapYield(gap), [RBRACE]);
      HasAtSplit(s, j, [LBRACE], GapYield(gap) + [RBRACE]);
    } else {
      ScanFieldsFrom(s, j + 1, k, depth, c, []);
      var fields := FieldsOf(s, j + 1, depth, c, []);
      t := TObject(fields);
      HasAtSplit(s, j, [LBRACE], FieldsYield(fields));
    }
  }

  lemma {:induction false} FieldsOf(s: bytes, i: nat, depth: nat, c: Config, ms: seq<Member>) returns (xs: Fields)
    requires i <= |s| && ScanFields(s, i, depth, c, ms).Ok?
    ensures ValidFields(xs, c.mode) && HasAt(s, i, FieldsYield(xs))
    ensures ScanFields(s, i, depth, c, ms) == Ok(DenoteFields(xs, c, ms), i + |FieldsYield(xs)|)
    ensures depth + 1 + FieldsHeight(xs) <= MAX_DEPTH
    decreases |s| - i, 3
  {
    hide HasAt, NextToken, GapYield, ScanString, ScanFieldsAfter, ScanValue, Yield, Denote, Height, Valid;
    hide FieldRest, FieldsYield, DenoteChunks, ValidChunks, Put;
    var before, key, beforeColon := KeyOf(s, i, c.mode);
    var k := ScanKey(s, i, c.mode).pos;
    hide ScanKey;
    var afterColon, t := ValueOf(s, k, depth + 1, c);
    var x := Field(before, key, beforeColon, afterColon, t, []);
    var j := k + |GapYield(afterColon) + Yield(t)|;
    xs := FieldsAfterOf(s, j, x, depth, c, Put(ms, DenoteChunks(key), Denote(t, c)));
    FieldsJoin(s, i, xs);
  }

  lemma FieldsJoin(s: bytes, i: nat, xs: Fields)
    requires var x := xs.field; var k := i + |KeyYield(x)|; var head := GapYield(x.afterColon) + Yield(x.value);
      HasAt(s, i, KeyYield(x)) && HasAt(s, k, head) && HasAt(s, k + |head|, FieldRest(xs))
    ensures HasAt(s, i, FieldsYield(xs))
    ensures |FieldsYield(xs)| ==
      |KeyYield(xs.field)| + |GapYield(xs.field.afterColon) + Yield(xs.field.value)| + |FieldRest(xs)|
  {
    hide HasAt, KeyYield, GapYield, Yield;
    var x := xs.field;
    var head := GapYield(x.afterColon) + Yield(x.value);
    Assoc(GapYield(x.afterColon), Yield(x.value), FieldRest(xs));
    assert FieldsYield(xs) == KeyYield(x) + (head + FieldRest(xs));
    hide FieldRest;
    HasAtSplit(s, i, KeyYield(x), head + FieldRest(xs));
    HasAtSplit(s, i + |KeyYield(x)|, head, FieldRest(xs));
  }

  lemma {:induction false} FieldsAfterOf(s: bytes, j: nat, x: Field, depth: nat, c: Config, ms: seq<Member>)
    returns (xs: Fields)
    requires j <= |s| && ScanFieldsAfter(s, j, depth, c, ms).Ok?
    requires ValidKey(x, c.mode) && ValidGap(x.afterColon, c.mode) && Valid(x.value, c.mode)
    requires depth + 1 + Height(x.value) <= MAX_DEPTH
    ensures xs.field == x.(after := xs.field.after)
    ensures ValidFields(xs, c.mode) && HasAt(s, j, FieldRest(xs))
    ensures xs.LastField? ==> ScanFieldsAfter(s, j, depth, c, ms) == Ok(ms, j + |FieldRest(xs)|)
    ensures xs.MoreFields? ==>
      ScanFieldsAfter(s, j, depth, c, ms) == Ok(DenoteFields(xs.rest, c, ms), j + |FieldRest(xs)|)
    ensures depth + 1 + FieldsHeight(xs) <= MAX_DEPTH
    decreases |s| - j, 4
  {
    hide HasAt, NextToken, GapYield, ScanFields;
    var after := TokenGapOf(s, j, c.mode);
    var k := j + |GapYield(after)|;
    HasAtOne(s, k, s[k]);
    if s[k] == RBRACE {
      xs := LastField(x.(after := after));
      HasAtSplit(s, j, GapYield(after), [RBRACE]);
    } else {
      var rest := FieldsOf(s, k + 1, depth, c, ms);
      xs := MoreFields(x.(after := after), rest);
      HasAtSplit(s, k, [COMMA], FieldsYield(rest));
      HasAtSplit(s, j, GapYield(after), [COMMA] + FieldsYield(rest));
    }
  }

  /** The derivation behind an accepted text. */
  lemma DocumentOf(s: bytes, c: Config) returns (d: Document)
    requires Parse(s, c).Some?
    ensures ValidDocument(d, c.mode) && DocumentYield(d) == s && Height(d.item.value) <= MAX_DEPTH
    ensures Parse(s, c) == Some(Denote(d.item.value, c))
  {
    hide HasAt, SkipGarbage, ScanValue, GapYield, Yield, Denote, TailYield, Valid, Height;
    var g, t := ValueOf(s, 0, 0, c);
    var j := ScanValue(s, 0, 0, c).pos;
    var after, tail := GapOf(s, j, c.mode);
    d := Document(Item(g, t, after), tail);
    var head, rest := GapYield(g) + Yield(t), GapYield(after) + TailYield(tail);
    Assoc(GapYield(g), Yield(t), rest);
    HasAtSplit(s, 0, head, rest);
    SliceAt(s, 0, head + rest);
    assert s[0..|s|] == s;
  }

  /** `parse` yields `v` exactly on the texts of the grammar, nested at most 200 deep, that
      denote `v`. */
  lemma ParseExact(s: bytes, c: Config, v: Json)
    ensures Parse(s, c) == Some(v) <==>
      exists d: Document ::
        ValidDocument(d, c.mode) && DocumentYield(d) == s && Height(d.item.value) <= MAX_DEPTH
          && Denote(d.item.value, c) == v
  {
    if Parse(s, c) == Some(v) {
      var d := DocumentOf(s, c);
    }
    forall d: Document | ValidDocument(d, c.mode) && DocumentYield(d) == s && Height(d.item.value) <= MAX_DEPTH
      ensures Parse(s, c) == Some(Denote(d.item.value, c))
    {
      DocumentParses(d, c);
    }
  }
}
