/** Texts written one after the other without a break: `parse_multi` reads them back exactly
    when no number touches a byte that continues it. */
module JsonTouching {
  import opened Options
  import opened Bytes
  import opened JsonValue
  import opened JsonGrammar
  import opened JsonScan
  import opened JsonComplete
  import opened JsonDump
  import opened JsonParsing
  import opened JsonMulti

  /** Only the last document may run out in a line comment. */
  predicate OnlyLastTail(ds: seq<Document>) { forall k :: 0 <= k < |ds| - 1 ==> ds[k].tail.None? }

  /* ----- two numbers side by side ----- */

  /** The one number that `n` and then the unsigned `m` spell, if they spell one. */
  function Glued(n: Number, m: Number): Option<Number> {
    if n.exp.Some? then
      if m.frac.None? && m.exp.None? then Some(Longer(n, m)) else None
    else if n.frac.Some? then
      if m.frac.None? then Some(Longer(n, m).(exp := m.exp)) else None
    else if n.whole == [0x30] then None
    else Some(Longer(n, m).(frac := m.frac, exp := m.exp))
  }

  /** `n` with the digits of `m` at its end. */
  function Longer(n: Number, m: Number): Number {
    if n.exp.Some? then n.(exp := Some(n.exp.value.(digits := n.exp.value.digits + m.whole)))
    else if n.frac.Some? then n.(frac := Some(n.frac.value + m.whole))
    else n.(whole := n.whole + m.whole)
  }

  lemma LongerValid(n: Number, m: Number)
    requires ValidNumber(n) && ValidNumber(m) && (n.exp.Some? || n.frac.Some? || n.whole != [0x30])
    ensures ValidNumber(Longer(n, m))
  {}

  lemma LongerYield(n: Number, m: Number)
    ensures NumberYield(Longer(n, m)) == NumberYield(n) + m.whole
  {
    var p := Longer(n, m);
    var sg, w, fy, ey, d := SignYield(n.neg), n.whole, FracYield(n.frac), ExpYield(n.exp), m.whole;
    if n.exp.Some? {
      LongerExp(n.exp.value, d);
      assert FracYield(p.frac) == fy && ExpYield(p.exp) == ey + d;
      hide SignYield, FracYield, ExpYield;
      Assoc(fy, ey, d);
      Assoc(w, fy + ey, d);
      Assoc(sg, w + (fy + ey), d);
    } else if n.frac.Some? {
      Assoc([DOT], n.frac.value, d);
      assert FracYield(p.frac) == fy + d && ExpYield(p.exp) == [] && ey == [];
      hide SignYield, FracYield, ExpYield;
      assert fy + [] == fy && (fy + d) + [] == fy + d;
      Assoc(w, fy, d);
      Assoc(sg, w + fy, d);
    } else {
      assert FracYield(p.frac) == [] && fy == [] && ExpYield(p.exp) == [] && ey == [];
      hide SignYield, FracYield, ExpYield;
      var none: bytes := [];
      assert none + none == none && w + none == w && (w + d) + none == w + d;
      Assoc(sg, w, d);
    }
  }

  lemma LongerExp(e: Exponent, d: bytes)
    ensures ExpYield(Some(e.(digits := e.digits + d))) == ExpYield(Some(e)) + d
  {
    var sg := ExpSign(e);
    Assoc(sg, e.digits, d);
    Assoc([e.mark], sg + e.digits, d);
  }

  /** What of `m` comes behind its integer part. */
  function Fringe(m: Number): bytes { FracYield(m.frac) + ExpYield(m.exp) }

  lemma UnsignedYield(m: Number)
    requires !m.neg
    ensures NumberYield(m) == m.whole + Fringe(m)
  {
    assert [] + (m.whole + Fringe(m)) == m.whole + Fringe(m);
  }

  /** Glued numbers spell what the two do. */
  lemma GluedYield(n: Number, m: Number)
    requires ValidNumber(n) && ValidNumber(m) && !m.neg && Glued(n, m).Some?
    ensures ValidNumber(Glued(n, m).value) && NumberYield(Glued(n, m).value) == NumberYield(n) + NumberYield(m)
  {
    var p, g := Longer(n, m), Glued(n, m).value;
    LongerValid(n, m);
    LongerYield(n, m);
    UnsignedYield(m);
    GluedFringe(n, m);
    hide NumberYield, Longer, Glued, Fringe;
    Assoc(NumberYield(n), m.whole, Fringe(m));
  }

  lemma GluedFringe(n: Number, m: Number)
    requires Glued(n, m).Some?
    ensures NumberYield(Glued(n, m).value) == NumberYield(Longer(n, m)) + Fringe(m)
  {
    var p, g := Longer(n, m), Glued(n, m).value;
    var sg, w, fy, ey := SignYield(p.neg), p.whole, FracYield(m.frac), ExpYield(m.exp);
    if n.exp.Some? {
      assert fy == [] && ey == [] && NumberYield(p) + ([] + []) == NumberYield(p);
    } else if n.frac.Some? {
      assert fy == [] && [] + ey == ey && FracYield(p.frac) + [] == FracYield(p.frac);
      hide SignYield;
      assert NumberYield(p) == sg + (w + FracYield(p.frac));
      hide NumberYield, FracYield, ExpYield;
      Assoc(w, FracYield(p.frac), ey);
      Assoc(sg, w + FracYield(p.frac), ey);
      assert NumberYield(g) == sg + (w + (FracYield(p.frac) + ey)) by { NumberYieldIs(g); }
    } else {
      assert FracYield(None) == [] && ExpYield(None) == [] && w + ([] + []) == w;
      hide SignYield;
      assert NumberYield(p) == sg + w;
      hide NumberYield, FracYield, ExpYield;
      Assoc(sg, w, fy + ey);
      assert NumberYield(g) == sg + (w + (fy + ey)) by { NumberYieldIs(g); }
    }
  }

  lemma NumberYieldIs(n: Number)
    ensures NumberYield(n) == SignYield(n.neg) + (n.whole + (FracYield(n.frac) + ExpYield(n.exp)))
  {}

  /** Where they do not glue and the first is not a bare zero, the first takes the digits of
      the second and ends before what can start no value. */
  lemma FringeStops(n: Number, m: Number)
    requires ValidNumber(n) && ValidNumber(m) && !m.neg
    requires Glued(n, m).None? && (n.exp.Some? || n.frac.Some? || n.whole != [0x30])
    ensures Fringe(m) != [] && Ends(Longer(n, m), Fringe(m)[0])
    ensures Fringe(m)[0] == DOT || IsExpMark(Fringe(m)[0])
  {
    if m.frac.Some? {
      assert Fringe(m)[0] == FracYield(m.frac)[0] == DOT;
    } else {
      assert Fringe(m) == ExpYield(m.exp);
    }
  }

  /* ----- what the parser does there ----- */

  /** No value starts with a point or an exponent mark. */
  lemma NothingStarts(s: bytes, i: nat, c: Config)
    requires i < |s| && (s[i] == DOT || IsExpMark(s[i]))
    ensures ScanMulti(s, i, i, c).1 == i && SkipGarbage(s, i, c.mode) == Some(i)
  {
    SkipNothing(s, i, c.mode);
    hide SkipGarbage, ScanString, ScanNumber, ScanItems, ScanFields;
    assert ScanValue(s, i, 0, c) == Fail;
  }

  /** A zero, and behind it a digit. */
  lemma ZeroFails(s: bytes, i: nat, g: Gap, neg: bool, c: Config)
    requires ValidGap(g, c.mode) && HasAt(s, i, GapYield(g) + (SignYield(neg) + [0x30]))
    requires var e := i + |GapYield(g) + (SignYield(neg) + [0x30])|; e < |s| && IsDigit(s[e])
    ensures ScanMulti(s, i, i, c).1 == i < |s|
  {
    hide HasAt, GapYield, NextToken, ScanValue, ScanNumber;
    var y := SignYield(neg) + [0x30];
    var j := i + |GapYield(g)|;
    SliceAt(s, i, GapYield(g) + y);
    assert y == [y[0]] + y[1..];
    HasAtSplit(s, i, GapYield(g), y);
    TokenAfterGap(s, i, g, y[0], y[1..], c.mode);
    ZeroNumber(s, j, neg, c.strtod);
    NumberFails(s, i, j, c);
  }

  lemma ZeroNumber(s: bytes, j: nat, neg: bool, strtod: bytes -> Double)
    requires var y := SignYield(neg) + [0x30]; HasAt(s, j, y) && j + |y| < |s| && IsDigit(s[j + |y|])
    ensures s[j] == (if neg then MINUS else 0x30) && ScanNumber(s, j, strtod) == Fail
  {
    HasAtSplit(s, j, SignYield(neg), [0x30]);
    HasAtOne(s, j + |SignYield(neg)|, 0x30);
    if neg { HasAtOne(s, j, MINUS); }
    hide HasAt, ScanAfterWhole;
    assert WholeEnd(s, j + |SignYield(neg)|) == None;
  }

  lemma NumberFails(s: bytes, i: nat, j: nat, c: Config)
    requires i <= |s| && NextToken(s, i, c.mode) == Some(j) && (s[j] == MINUS || IsDigit(s[j]))
    requires ScanNumber(s, j, c.strtod) == Fail
    ensures ScanMulti(s, i, i, c).1 == i
  {
    hide NextToken, ScanNumber, ScanString, ScanItems, ScanFields;
    assert ScanValue(s, i, 0, c) == Fail;
  }

  /** A number in its gap, followed by something that starts no value. */
  lemma FringeFails(s: bytes, i: nat, g: Gap, n: Number, c: Config)
    requires ValidGap(g, c.mode) && ValidNumber(n) && HasAt(s, i, GapYield(g) + NumberYield(n))
    requires var e := i + |GapYield(g) + NumberYield(n)|;
      e < |s| && Ends(n, s[e]) && (s[e] == DOT || IsExpMark(s[e]))
    ensures ScanMulti(s, i, i, c).1 < |s|
  {
    hide HasAt, GapYield, NumberYield, ScanValue, SkipGarbage, DenoteNumber, Ends, IsExpMark;
    var e := i + |GapYield(g) + NumberYield(n)|;
    assert Yield(TNumber(n)) == NumberYield(n);
    ValueAt(s, i, 0, c, g, TNumber(n));
    NothingStarts(s, e, c);
    FirstByte(TNumber(n), c.mode);
    MultiStep(s, i, e, c);
  }

  /* ----- where the numbers touch ----- */

  /** The first byte of a value is a digit just for unsigned numbers, and continues a number
      in no other case. */
  lemma ValueFirst(t: Tree, mode: Mode)
    requires Valid(t, mode)
    ensures Yield(t) != [] && ((t.TNumber? && !t.number.neg) || NumStop(Yield(t)[0]))
  {
    if t.TNumber? { assert NumberYield(t.number)[0] in {MINUS, t.number.whole[0]}; }
  }

  lemma GapFirstByte(g: Gap, rest: bytes, mode: Mode)
    requires ValidGap(g, mode) && g != []
    ensures GapYield(g) + rest != [] && NumStop((GapYield(g) + rest)[0])
  {
    assert ValidGapItem(g[0], mode);
    var y := GapItemYield(g[0]);
    assert y != [] && NumStop(y[0]);
    hide GapItemYield, ValidGapItem;
    assert (GapYield(g) + rest)[0] == y[0];
  }

  /** Documents that touch are numbers with no gap between them, the second one unsigned. */
  lemma TouchingShape(ds: seq<Document>, mode: Mode)
    requires |ds| > 1 && ValidDocuments(ds, mode) && !StopsNumber(ds, 0)
    ensures ds[0].item.after == [] && ds[1].item.before == []
    ensures ds[1].item.value.TNumber? && !ds[1].item.value.number.neg
  {
    var d := ds[1];
    var more := DocumentsYield(ds[1..]);
    assert ValidDocument(ds[0], mode) && ValidDocument(d, mode);
    if ds[0].item.after != [] { GapFirstByte(ds[0].item.after, more, mode); }
    NoGap();
    assert [] + more == more;
    var v := Yield(d.item.value) + (GapYield(d.item.after) + TailYield(d.tail));
    assert more == (GapYield(d.item.before) + v) + DocumentsYield(ds[2..]) by { assert ds[1..][1..] == ds[2..]; }
    hide DocumentsYield, NumStop, GapYield, Yield, TailYield;
    Assoc(GapYield(d.item.before), v, DocumentsYield(ds[2..]));
    if d.item.before != [] { GapFirstByte(d.item.before, v + DocumentsYield(ds[2..]), mode); }
    ValueFirst(d.item.value, mode);
    if d.item.before == [] { assert more[0] == Yield(d.item.value)[0]; }
  }

  /** The first two documents as one. */
  function Merged(ds: seq<Document>, t: Tree): seq<Document>
    requires |ds| > 1
  {
    [Document(Item(ds[0].item.before, t, ds[1].item.after), ds[1].tail)] + ds[2..]
  }

  /** What follows the value of the second document. */
  function AfterSecond(ds: seq<Document>): bytes
    requires |ds| > 1
  {
    GapYield(ds[1].item.after) + (TailYield(ds[1].tail) + DocumentsYield(ds[2..]))
  }

  /** The text of the documents when the first two touch. */
  lemma TouchingYield(ds: seq<Document>)
    requires |ds| > 1 && ds[0].tail.None? && ds[0].item.after == [] && ds[1].item.before == []
    ensures DocumentsYield(ds) == GapYield(ds[0].item.before) +
      ((Yield(ds[0].item.value) + Yield(ds[1].item.value)) + AfterSecond(ds))
  {
    var g, y, z, r := GapYield(ds[0].item.before), Yield(ds[0].item.value), Yield(ds[1].item.value),
      DocumentsYield(ds[2..]);
    var a, t := GapYield(ds[1].item.after), TailYield(ds[1].tail);
    NoGap();
    assert ds[1..][1..] == ds[2..];
    assert DocumentsYield(ds[1..]) == ([] + (z + (a + t))) + r;
    assert DocumentsYield(ds) == (g + (y + ([] + []))) + DocumentsYield(ds[1..]);
    hide DocumentsYield, GapYield, Yield, TailYield;
    assert y + ([] + []) == y && [] + (z + (a + t)) == z + (a + t);
    Assoc(z, a + t, r);
    Assoc(a, t, r);
    Assoc(y, z, AfterSecond(ds));
    Assoc(g, y, z + AfterSecond(ds));
  }

  lemma MergedYield(ds: seq<Document>, t: Tree)
    requires |ds| > 1
    ensures DocumentsYield(Merged(ds, t)) == GapYield(ds[0].item.before) + (Yield(t) + AfterSecond(ds))
  {
    var es := Merged(ds, t);
    var g, y, a, u, r := GapYield(ds[0].item.before), Yield(t), GapYield(ds[1].item.after), TailYield(ds[1].tail),
      DocumentsYield(ds[2..]);
    assert es[1..] == ds[2..];
    assert DocumentsYield(es) == (g + (y + (a + u))) + r;
    hide DocumentsYield, GapYield, Yield, TailYield;
    Assoc(g, y + (a + u), r);
    Assoc(y, a + u, r);
    Assoc(a, u, r);
  }

  lemma MergedValid(ds: seq<Document>, n: Number, mode: Mode)
    requires |ds| > 1 && ValidDocuments(ds, mode) && OnlyLastTail(ds) && ValidNumber(n)
    ensures ValidDocuments(Merged(ds, TNumber(n)), mode) && OnlyLastTail(Merged(ds, TNumber(n)))
  {
    var es := Merged(ds, TNumber(n));
    assert ValidDocument(ds[0], mode) && ValidDocument(ds[1], mode);
    assert ValidDocument(es[0], mode) && Height(es[0].item.value) == 0;
    hide ValidDocument, Height;
    forall k | 0 <= k < |es| ensures ValidDocument(es[k], mode) && Height(es[k].item.value) <= MAX_DEPTH {
      if k > 0 { assert es[k] == ds[k + 1]; }
    }
    forall k | 0 <= k < |es| - 1 ensures es[k].tail.None? {
      assert es[k].tail == ds[k + 1].tail;
    }
  }

  /** Touching numbers that do not glue stop the parser before the end. */
  lemma TouchingStops(s: bytes, i: nat, ds: seq<Document>, c: Config)
    requires |ds| > 1 && ValidDocuments(ds, c.mode) && ds[0].tail.None?
    requires ds[0].item.value.TNumber? && !StopsNumber(ds, 0) && ds[1].item.value.TNumber?
    requires Glued(ds[0].item.value.number, ds[1].item.value.number).None?
    requires HasAt(s, i, DocumentsYield(ds)) && i + |DocumentsYield(ds)| == |s|
    ensures ScanMulti(s, i, i, c).1 < |s|
  {
    hide HasAt, StopsNumber, ScanMulti, DocumentsYield, AfterSecond, GapYield, NumberYield, Glued;
    TouchingShape(ds, c.mode);
    TouchingYield(ds);
    assert ValidDocument(ds[0], c.mode) && ValidDocument(ds[1], c.mode);
    hide ValidDocuments;
    NumbersStop(s, i, ds[0].item.before, ds[0].item.value.number, ds[1].item.value.number, AfterSecond(ds), c);
  }

  lemma NumbersStop(s: bytes, i: nat, g: Gap, n: Number, m: Number, rest: bytes, c: Config)
    requires ValidGap(g, c.mode) && ValidNumber(n) && ValidNumber(m) && !m.neg && Glued(n, m).None?
    requires HasAt(s, i, GapYield(g) + ((NumberYield(n) + NumberYield(m)) + rest))
    ensures ScanMulti(s, i, i, c).1 < |s|
  {
    hide HasAt, GapYield, ScanMulti, NumberYield, Fringe, Longer, Ends, IsExpMark, ValidNumber, ValidGap;
    UnsignedYield(m);
    if n.exp.None? && n.frac.None? && n.whole == [0x30] {
      ZeroText(s, i, GapYield(g), n, m, rest);
      ZeroFails(s, i, g, n.neg, c);
    } else {
      FringeStops(n, m);
      LongerValid(n, m);
      LongerYield(n, m);
      FringeText(s, i, GapYield(g), NumberYield(n), m.whole, Fringe(m), rest);
      FringeFails(s, i, g, Longer(n, m), c);
    }
  }

  lemma ZeroText(s: bytes, i: nat, gy: bytes, n: Number, m: Number, rest: bytes)
    requires HasAt(s, i, gy + ((NumberYield(n) + NumberYield(m)) + rest))
    requires n.exp.None? && n.frac.None? && n.whole == [0x30] && ValidNumber(m) && !m.neg
    ensures var y := SignYield(n.neg) + [0x30]; var e := i + |gy + y|;
      HasAt(s, i, gy + y) && e < |s| && IsDigit(s[e])
  {
    hide HasAt, NumberYield, SignYield, Fringe;
    UnsignedYield(m);
    ZeroYield(n);
    var y := SignYield(n.neg) + [0x30];
    var z := (m.whole + Fringe(m)) + rest;
    Assoc(y, m.whole + Fringe(m), rest);
    Assoc(gy, y, z);
    HasAtSplit(s, i, gy + y, z);
    SliceAt(s, i + |gy + y|, z);
    assert z[0] == m.whole[0];
    assert IsDigit(m.whole[0]);
    hide IsDigit;
  }

  lemma ZeroYield(n: Number)
    requires n.exp.None? && n.frac.None? && n.whole == [0x30]
    ensures NumberYield(n) == SignYield(n.neg) + [0x30]
  {
    var none: bytes := [];
    assert n.whole + (none + none) == [0x30];
    hide SignYield;
  }

  lemma FringeText(s: bytes, i: nat, gy: bytes, ny: bytes, whole: bytes, fr: bytes, rest: bytes)
    requires HasAt(s, i, gy + ((ny + (whole + fr)) + rest)) && fr != []
    ensures var e := i + |gy + (ny + whole)|; HasAt(s, i, gy + (ny + whole)) && e < |s| && s[e] == fr[0]
  {
    hide HasAt;
    Assoc(ny, whole, fr);
    Assoc(ny + whole, fr, rest);
    Assoc(gy, ny + whole, fr + rest);
    HasAtSplit(s, i, gy + (ny + whole), fr + rest);
    SliceAt(s, i + |gy + (ny + whole)|, fr + rest);
  }

  /* ----- counting the values ----- */

  /** If it gets to the end at all, `parse_multi` returns at most as many values as there are
      documents, and fewer when numbers touch. */
  lemma {:induction false} MultiCount(s: bytes, i: nat, ds: seq<Document>, c: Config)
    requires ValidDocuments(ds, c.mode) && OnlyLastTail(ds)
    requires HasAt(s, i, DocumentsYield(ds)) && i + |DocumentsYield(ds)| == |s|
    ensures var (vs, stop) := ScanMulti(s, i, i, c);
      stop == |s| ==> |vs| <= |ds| && (!Separated(ds) ==> |vs| < |ds|)
    decreases |ds|
  {
    hide HasAt, Denote, ScanMulti, Height, ValidDocument, StopsNumber;
    if ds == [] {
      EndOfMulti(s, c);
    } else if |ds| == 1 {
      OnlyRound(s, i, ds, c);
    } else if FirstApart(ds) {
      var k := FirstRound(s, i, ds, c);
      NextSeparated(ds);
      NextTails(ds);
      hide DocumentsYield, DenoteDocuments, Separated, NextDocuments, ValidDocuments, OnlyLastTail;
      assert |NextDocuments(ds)| == |ds| - 1 by { NextSize(ds); }
      MultiCount(s, k, NextDocuments(ds), c);
    } else {
      TouchingShape(ds, c.mode);
      var n, m := ds[0].item.value.number, ds[1].item.value.number;
      if Glued(n, m).None? {
        TouchingStops(s, i, ds, c);
      } else {
        var es := Merged(ds, TNumber(Glued(n, m).value));
        MergedIs(ds, c.mode);
        hide DocumentsYield, Separated, Glued, ValidDocuments, OnlyLastTail;
        MultiCount(s, i, es, c);
      }
    }
  }

  lemma NextSize(ds: seq<Document>)
    requires |ds| > 1
    ensures |NextDocuments(ds)| == |ds| - 1
  {}

  lemma NextTails(ds: seq<Document>)
    requires |ds| > 1 && OnlyLastTail(ds)
    ensures OnlyLastTail(NextDocuments(ds))
  {
    var es := NextDocuments(ds);
    forall k | 0 <= k < |es| - 1 ensures es[k].tail.None? {
      assert es[k].tail == ds[k + 1].tail;
    }
  }

  /** Two touching documents that glue are one, and spell the same. */
  lemma MergedIs(ds: seq<Document>, mode: Mode)
    requires |ds| > 1 && ValidDocuments(ds, mode) && OnlyLastTail(ds)
    requires ds[0].item.after == [] && ds[1].item.before == []
    requires ds[0].item.value.TNumber? && ds[1].item.value.TNumber? && !ds[1].item.value.number.neg
    requires Glued(ds[0].item.value.number, ds[1].item.value.number).Some?
    ensures var es := Merged(ds, TNumber(Glued(ds[0].item.value.number, ds[1].item.value.number).value));
      && ValidDocuments(es, mode) && OnlyLastTail(es) && |es| == |ds| - 1
      && DocumentsYield(es) == DocumentsYield(ds)
  {
    var n, m := ds[0].item.value.number, ds[1].item.value.number;
    var t := TNumber(Glued(n, m).value);
    assert ValidDocument(ds[0], mode) && ValidDocument(ds[1], mode);
    GluedYield(n, m);
    MergedValid(ds, Glued(n, m).value, mode);
    MergedYield(ds, t);
    TouchingYield(ds);
    hide DocumentsYield, GapYield, NumberYield, ValidDocument, AfterSecond, Glued, ValidNumber;
  }

  /** `parse_multi` reads documents of legal depth, written one after the other, back as their
      values if and only if no number is directly followed by a byte that continues it. */
  lemma MultiExact(s: bytes, i: nat, ds: seq<Document>, c: Config)
    requires ValidDocuments(ds, c.mode) && OnlyLastTail(ds)
    requires HasAt(s, i, DocumentsYield(ds)) && i + |DocumentsYield(ds)| == |s|
    ensures ScanMulti(s, i, i, c) == (DenoteDocuments(ds, c), |s|) <==> Separated(ds)
  {
    hide HasAt, DocumentsYield, ScanMulti, Separated, OnlyLastTail, ValidDocuments, DenoteDocuments;
    if Separated(ds) { MultiComplete(s, i, ds, c); } else { MultiCount(s, i, ds, c); }
  }

  /** A document of one digit. */
  function DigitDocument(b: byte): Document {
    Document(Item([], TNumber(Number(false, [b], None, None)), []), None)
  }

  lemma DigitText(b: byte, mode: Mode)
    requires IsDigit(b)
    ensures ValidDocument(DigitDocument(b), mode) && DocumentYield(DigitDocument(b)) == [b]
    ensures Height(DigitDocument(b).item.value) == 0
  {}

  lemma ZeroOneText(mode: Mode)
    ensures var ds := [DigitDocument(0x30), DigitDocument(0x31)];
      && ValidDocuments(ds, mode) && OnlyLastTail(ds) && !Separated(ds)
      && DocumentsYield(ds) == [0x30, 0x31]
  {
    var d, e := DigitDocument(0x30), DigitDocument(0x31);
    DigitText(0x30, mode);
    DigitText(0x31, mode);
    NoGap();
    hide DocumentYield, ValidDocument, Height, GapYield;
    assert [d, e][1..] == [e] && [e][1..] == [];
    assert DocumentsYield([e]) == [0x31] + [];
    assert DocumentsYield([d, e]) == [0x30] + DocumentsYield([e]);
    assert !StopsNumber([d, e], 0);
  }

  lemma ZeroOneScan(c: Config)
    ensures ScanMulti([0x30, 0x31], 0, 0, c) == ([Null], 0)
  {
    var s: bytes := [0x30, 0x31];
    SkipNothing(s, 0, c.mode);
    hide SkipGarbage, ScanString, ScanAfterWhole, ScanItems, ScanFields;
    assert ScanNumber(s, 0, c.strtod) == Fail;
    assert ScanValue(s, 0, 0, c) == Fail;
  }

  /** The documents "0" and "1" touch, and fail. */
  lemma TouchingNumbers(c: Config)
    ensures var ds := [DigitDocument(0x30), DigitDocument(0x31)];
      && ValidDocuments(ds, c.mode) && DocumentsYield(ds) == [0x30, 0x31] && !Separated(ds)
      && ScanMulti([0x30, 0x31], 0, 0, c) != (DenoteDocuments(ds, c), 2)
    ensures ScanMulti([0x30, 0x31], 0, 0, c) == ([Null], 0)
  {
    ZeroOneText(c.mode);
    ZeroOneScan(c);
    WholeText([0x30, 0x31]);
    hide ValidDocuments, DocumentsYield, Separated, OnlyLastTail, ScanMulti, DenoteDocuments, DigitDocument, HasAt;
    MultiExact([0x30, 0x31], 0, [DigitDocument(0x30), DigitDocument(0x31)], c);
  }
}
