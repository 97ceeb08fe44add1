/** `parse_multi`: what the values and the stop position it returns mean. */
module JsonMulti {
  import opened Options
  import opened Bytes
  import opened JsonValue
  import opened JsonGrammar
  import opened JsonScan
  import opened JsonComplete
  import opened JsonSound
  import opened JsonDump
  import opened JsonParsing

  /** Several texts one after the other. */
  function DocumentsYield(ds: seq<Document>): bytes {
    if ds == [] then [] else DocumentYield(ds[0]) + DocumentsYield(ds[1..])
  }

  predicate ValidDocuments(ds: seq<Document>, mode: Mode) {
    forall k :: 0 <= k < |ds| ==> ValidDocument(ds[k], mode) && Height(ds[k].item.value) <= MAX_DEPTH
  }

  function DenoteDocuments(ds: seq<Document>, c: Config): (vs: seq<Json>)
    requires ValidDocuments(ds, c.mode)
    ensures |vs| == |ds|
  {
    if ds == [] then [] else [Denote(ds[0].item.value, c)] + DenoteDocuments(ds[1..], c)
  }

  /** The value that a failed round leaves behind: the one it read before a malformed comment,
      or what a failing `parse_json` hands back. */
  function LeftOver(s: bytes, i: nat, c: Config): Json
    requires i <= |s|
  {
    match ScanValue(s, i, 0, c)
    case Ok(v, _) => v
    case Fail => FailedValue(s, i, 0, c)
  }

  /** The text up to the stop position is a sequence of grammatical texts denoting the values
      returned, except that a failed last round leaves one extra value behind. */
  lemma {:induction false} MultiSound(s: bytes, i: nat, c: Config) returns (ds: seq<Document>)
    requires i <= |s|
    ensures ValidDocuments(ds, c.mode) && HasAt(s, i, DocumentsYield(ds))
    ensures var (values, stop) := ScanMulti(s, i, i, c);
      && stop == i + |DocumentsYield(ds)| <= |s|
      && |values| == (if stop == |s| then |ds| else |ds| + 1)
      && values[..|ds|] == DenoteDocuments(ds, c)
      && (stop < |s| ==> !CleanRound(s, stop, c) && values[|ds|] == LeftOver(s, stop, c))
    decreases |s| - i
  {
    hide HasAt, ScanValue, SkipGarbage, DocumentYield, Denote, ValidDocument, Height;
    if CleanRound(s, i, c) {
      var d := RoundOf(s, i, c);
      var y := DocumentYield(d);
      var k := i + |y|;
      var rest := MultiSound(s, k, c);
      ds := [d] + rest;
      ConsDocument(d, rest, c);
      MultiStep(s, i, k, c);
      hide ScanMulti, CleanRound, ValidDocuments, DocumentsYield, DenoteDocuments;
      HasAtSplit(s, i, y, DocumentsYield(rest));
      var v, values := ScanValue(s, i, 0, c).value, ScanMulti(s, k, k, c).0;
      assert ([v] + values)[..|ds|] == [v] + values[..|rest|];
    } else {
      ds := [];
      HasAtSlice(s, i, i);
      assert s[i..i] == [];
      assert ScanMulti(s, i, i, c).0[..0] == [];
    }
  }

  lemma ConsDocument(d: Document, rest: seq<Document>, c: Config)
    requires ValidDocument(d, c.mode) && Height(d.item.value) <= MAX_DEPTH && ValidDocuments(rest, c.mode)
    ensures var ds := [d] + rest;
      && ValidDocuments(ds, c.mode)
      && DocumentsYield(ds) == DocumentYield(d) + DocumentsYield(rest)
      && DenoteDocuments(ds, c) == [Denote(d.item.value, c)] + DenoteDocuments(rest, c)
  {
    assert ([d] + rest)[1..] == rest;
    hide Denote, DocumentYield, ValidDocument, Height;
  }

  /** A round that reads a value and the gap after it. */
  predicate CleanRound(s: bytes, i: nat, c: Config)
    requires i <= |s|
  {
    i < |s| && ScanValue(s, i, 0, c).Ok? && SkipGarbage(s, ScanValue(s, i, 0, c).pos, c.mode).Some?
  }

  lemma MultiStep(s: bytes, i: nat, k: nat, c: Config)
    requires i <= |s| && CleanRound(s, i, c)
    requires SkipGarbage(s, ScanValue(s, i, 0, c).pos, c.mode) == Some(k)
    ensures var r := ScanMulti(s, k, k, c);
      ScanMulti(s, i, i, c) == ([ScanValue(s, i, 0, c).value] + r.0, r.1)
  {
    hide ScanValue, SkipGarbage;
  }

  /** One clean round reads one grammatical text. */
  lemma RoundOf(s: bytes, i: nat, c: Config) returns (d: Document)
    requires i <= |s| && CleanRound(s, i, c)
    ensures ValidDocument(d, c.mode) && Height(d.item.value) <= MAX_DEPTH && HasAt(s, i, DocumentYield(d))
    ensures ScanValue(s, i, 0, c).value == Denote(d.item.value, c)
    ensures SkipGarbage(s, ScanValue(s, i, 0, c).pos, c.mode) == Some(i + |DocumentYield(d)|)
  {
    hide HasAt, SkipGarbage, ScanValue, GapYield, Yield, Denote, TailYield, Valid, Height;
    var g, t := ValueOf(s, i, 0, c);
    var j := ScanValue(s, i, 0, c).pos;
    var after, tail := GapOf(s, j, c.mode);
    d := Document(Item(g, t, after), tail);
    var head, rest := GapYield(g) + Yield(t), GapYield(after) + TailYield(tail);
    Assoc(GapYield(g), Yield(t), rest);
    HasAtSplit(s, i, head, rest);
  }

  /* ----- space-joined dumps ----- */

  function JoinDumps(vs: seq<Json>, fmt: real -> bytes): bytes {
    if vs == [] then []
    else if |vs| == 1 then Dump(vs[0], fmt)
    else Dump(vs[0], fmt) + ([SPACE] + JoinDumps(vs[1..], fmt))
  }

  ghost predicate Dumpable(v: Json, p: Printer) {
    Readable(v, p) && WellFormed(v) && ValueHeight(v) <= MAX_DEPTH
  }

  predicate AllEqual(xs: seq<Json>, ys: seq<Json>) {
    |xs| == |ys| && forall k :: 0 <= k < |xs| ==> Equal(xs[k], ys[k])
  }

  lemma DumpAt(s: bytes, i: nat, v: Json, c: Config, fmt: real -> bytes)
    requires Dumpable(v, Printer(fmt, c.strtod)) && ExactOnInts(c.strtod)
    requires HasAt(s, i, Dump(v, fmt)) && NumStop(At(s, i + |Dump(v, fmt)|))
    ensures var r := ScanValue(s, i, 0, c); r.Ok? && r.pos == i + |Dump(v, fmt)| && Equal(r.value, Nulled(v))
    ensures i < |s| && !IsWs(s[i]) && s[i] != SLASH
  {
    hide HasAt, Yield, DumpTree, Dump, Denote, ScanValue, Valid, Height, ValueHeight, Equal, WellFormed, Readable;
    hide ExactOnInts, Nulled;
    var p := Printer(fmt, c.strtod);
    TreeYields(v, c.mode, p);
    TreeHeight(v, p);
    TreeDenotes(v, c, p);
    NoGap();
    var t := DumpTree(v, p);
    FirstByte(t, c.mode);
    assert GapYield([]) + Yield(t) == Yield(t);
    SliceAt(s, i, Yield(t));
    StopEnds(t, At(s, i + |Yield(t)|));
    ValueAt(s, i, 0, c, [], t);
  }

  /** On space-joined dumps `parse_multi` returns the dumped values, with null in place of each
      infinity, and stops at the end. */
  lemma {:induction false} MultiRoundTrip(s: bytes, i: nat, vs: seq<Json>, c: Config, fmt: real -> bytes)
    requires forall k :: 0 <= k < |vs| ==> Dumpable(vs[k], Printer(fmt, c.strtod))
    requires ExactOnInts(c.strtod) && HasAt(s, i, JoinDumps(vs, fmt)) && i + |JoinDumps(vs, fmt)| == |s|
    ensures AllEqual(ScanMulti(s, i, i, c).0, NulledItems(vs)) && ScanMulti(s, i, i, c).1 == |s|
    ensures (forall k :: 0 <= k < |vs| ==> NoInfinities(vs[k])) ==> AllEqual(ScanMulti(s, i, i, c).0, vs)
    decreases |vs|
  {
    hide Nulled, NoInfinities;
    if forall k :: 0 <= k < |vs| ==> NoInfinities(vs[k]) { NothingNulledItems(vs); }
    if vs != [] {
      hide Dumpable, Dump, HasAt, ExactOnInts, Equal, ScanValue, SkipGarbage, NumStop;
      if |vs| == 1 {
        NulStops();
        DumpAt(s, i, vs[0], c, fmt);
        SkipNothing(s, |s|, c.mode);
        EndOfMulti(s, c);
      } else {
        var k := JoinStep(s, i, vs, c, fmt);
        MultiRoundTrip(s, k, vs[1..], c, fmt);
        var v, r := ScanValue(s, i, 0, c).value, ScanMulti(s, k, k, c);
        MultiStep(s, i, k, c);
        hide JoinDumps, ScanMulti, AllEqual;
        ConsEqual(v, r.0, NulledItems(vs));
      }
    }
  }

  lemma ConsEqual(x: Json, xs: seq<Json>, ys: seq<Json>)
    requires ys != [] && Equal(x, ys[0]) && AllEqual(xs, ys[1..])
    ensures AllEqual([x] + xs, ys)
  {
    hide Equal;
  }

  lemma NulStops()
    ensures NumStop(0) && NumStop(SPACE)
  {}

  /** The first of several dumps, and the space behind it. */
  lemma JoinStep(s: bytes, i: nat, vs: seq<Json>, c: Config, fmt: real -> bytes) returns (k: nat)
    requires |vs| > 1 && forall k :: 0 <= k < |vs| ==> Dumpable(vs[k], Printer(fmt, c.strtod))
    requires ExactOnInts(c.strtod) && HasAt(s, i, JoinDumps(vs, fmt)) && i + |JoinDumps(vs, fmt)| == |s|
    ensures i < k <= |s| && HasAt(s, k, JoinDumps(vs[1..], fmt)) && k + |JoinDumps(vs[1..], fmt)| == |s|
    ensures var r := ScanValue(s, i, 0, c);
      r.Ok? && Equal(r.value, Nulled(vs[0])) && SkipGarbage(s, r.pos, c.mode) == Some(k)
  {
    hide Dumpable, Dump, HasAt, ExactOnInts, Equal, ScanValue, SkipGarbage, NumStop, Nulled;
    var y, rest := Dump(vs[0], fmt), JoinDumps(vs[1..], fmt);
    assert JoinDumps(vs, fmt) == y + ([SPACE] + rest);
    hide JoinDumps;
    HasAtSplit(s, i, y, [SPACE] + rest);
    var j := i + |y|;
    HasAtSplit(s, j, [SPACE], rest);
    HasAtOne(s, j, SPACE);
    NulStops();
    DumpAt(s, i, vs[0], c, fmt);
    NextDump(s, j + 1, vs[1..], c, fmt);
    SkipOneSpace(s, j, c.mode);
    SkipNothing(s, j + 1, c.mode);
    k := j + 1;
  }

  lemma EndOfMulti(s: bytes, c: Config)
    ensures ScanMulti(s, |s|, |s|, c) == ([], |s|)
  {}

  lemma NextDump(s: bytes, i: nat, vs: seq<Json>, c: Config, fmt: real -> bytes)
    requires vs != [] && (forall k :: 0 <= k < |vs| ==> Dumpable(vs[k], Printer(fmt, c.strtod)))
    requires ExactOnInts(c.strtod) && HasAt(s, i, JoinDumps(vs, fmt)) && i + |JoinDumps(vs, fmt)| == |s|
    ensures i < |s| && GapStops(s, i, c.mode)
  {
    hide Dumpable, Dump, HasAt, ExactOnInts, Equal, ScanValue;
    if |vs| > 1 {
      var rest := JoinDumps(vs[1..], fmt);
      HasAtSplit(s, i, Dump(vs[0], fmt), [SPACE] + rest);
      HasAtSplit(s, i + |Dump(vs[0], fmt)|, [SPACE], rest);
      HasAtOne(s, i + |Dump(vs[0], fmt)|, SPACE);
    }
    DumpAt(s, i, vs[0], c, fmt);
  }

  /* ----- documents one after the other ----- */

  /** Only the last document may run out in a line comment, and no number is directly followed
      by a byte that would continue it. */
  predicate Separated(ds: seq<Document>) {
    forall k :: 0 <= k < |ds| - 1 ==> ds[k].tail.None? && (ds[k].item.value.TNumber? ==> StopsNumber(ds, k))
  }

  predicate StopsNumber(ds: seq<Document>, k: nat)
    requires k < |ds|
  {
    var rest := GapYield(ds[k].item.after) + DocumentsYield(ds[k + 1..]);
    rest == [] || NumStop(rest[0])
  }

  /** The same for the first document alone. */
  predicate FirstApart(ds: seq<Document>) {
    |ds| > 1 ==> ds[0].tail.None? && (ds[0].item.value.TNumber? ==> StopsNumber(ds, 0))
  }

  lemma {:induction false} GapYieldConcat(g: Gap, h: Gap, mode: Mode)
    requires ValidGap(g, mode) && ValidGap(h, mode)
    ensures GapYield(g + h) == GapYield(g) + GapYield(h) && ValidGap(g + h, mode)
  {
    if g == [] {
      assert g + h == h;
    } else {
      assert (g + h)[1..] == g[1..] + h && g == [g[0]] + g[1..];
      GapYieldConcat(g[1..], h, mode);
      hide GapItemYield, ValidGapItem;
      Assoc(GapItemYield(g[0]), GapYield(g[1..]), GapYield(h));
    }
  }

  /** What follows the value of the first document. */
  function AfterFirst(ds: seq<Document>): bytes
    requires ds != []
  {
    GapYield(ds[0].item.after) + (TailYield(ds[0].tail) + DocumentsYield(ds[1..]))
  }

  lemma FirstDocument(s: bytes, i: nat, ds: seq<Document>)
    requires ds != [] && HasAt(s, i, DocumentsYield(ds))
    ensures var head := GapYield(ds[0].item.before) + Yield(ds[0].item.value);
      && HasAt(s, i, head) && HasAt(s, i + |head|, AfterFirst(ds))
      && |DocumentsYield(ds)| == |head| + |AfterFirst(ds)|
  {
    hide HasAt, GapYield, Yield, TailYield;
    var g, y, a, t, r := GapYield(ds[0].item.before), Yield(ds[0].item.value), GapYield(ds[0].item.after),
      TailYield(ds[0].tail), DocumentsYield(ds[1..]);
    assert DocumentsYield(ds) == (g + (y + (a + t))) + r;
    hide DocumentsYield;
    Assoc(g, y, a + t);
    Assoc(g + y, a + t, r);
    Assoc(a, t, r);
    HasAtSplit(s, i, g + y, AfterFirst(ds));
  }

  /** The first round reads the first value. */
  lemma FirstValue(s: bytes, i: nat, ds: seq<Document>, c: Config)
    requires ds != [] && ValidDocuments(ds, c.mode) && FirstApart(ds)
    requires HasAt(s, i, DocumentsYield(ds)) && i + |DocumentsYield(ds)| == |s|
    ensures var j := i + |GapYield(ds[0].item.before) + Yield(ds[0].item.value)|;
      ScanValue(s, i, 0, c) == Ok(Denote(ds[0].item.value, c), j)
  {
    hide HasAt, GapYield, Yield, TailYield, Denote, ScanValue, DocumentsYield, Height, NumStop, Ends, Valid;
    FirstDocument(s, i, ds);
    var d := ds[0];
    var j := i + |GapYield(d.item.before) + Yield(d.item.value)|;
    if d.item.value.TNumber? {
      AfterNumber(ds, c.mode);
      StopAt(s, j, AfterFirst(ds));
      StopEnds(d.item.value, At(s, j));
    }
    ValueAt(s, i, 0, c, d.item.before, d.item.value);
  }

  lemma AfterNumber(ds: seq<Document>, mode: Mode)
    requires ds != [] && ValidDocuments(ds, mode) && FirstApart(ds) && ds[0].item.value.TNumber?
    ensures AfterFirst(ds) == [] || NumStop(AfterFirst(ds)[0])
  {
    if |ds| == 1 {
      GapFirst(ds[0].item.after, TailYield(ds[0].tail), mode);
      assert DocumentsYield([]) == [] && TailYield(ds[0].tail) + [] == TailYield(ds[0].tail);
    } else {
      assert [] + DocumentsYield(ds[1..]) == DocumentsYield(ds[1..]);
    }
    hide GapYield, DocumentsYield;
  }

  /** The documents from the second on, the gap before it already skipped. */
  function NextDocuments(ds: seq<Document>): seq<Document>
    requires |ds| > 1
  {
    [ds[1].(item := ds[1].item.(before := []))] + ds[2..]
  }

  lemma NextValid(ds: seq<Document>, mode: Mode)
    requires |ds| > 1 && ValidDocuments(ds, mode)
    ensures ValidDocuments(NextDocuments(ds), mode)
  {
    hide Height, Valid;
    var es := NextDocuments(ds);
    forall k | 0 <= k < |es| ensures ValidDocument(es[k], mode) && Height(es[k].item.value) <= MAX_DEPTH {
      assert ValidDocument(ds[k + 1], mode) && Height(ds[k + 1].item.value) <= MAX_DEPTH;
      if k > 0 { assert es[k] == ds[k + 1]; }
    }
  }

  lemma NextSeparated(ds: seq<Document>)
    requires |ds| > 1 && FirstApart(ds)
    ensures Separated(NextDocuments(ds)) <==> Separated(ds)
  {
    var es := NextDocuments(ds);
    forall k | 0 <= k < |es| - 1
      ensures es[k].tail == ds[k + 1].tail && es[k].item.value == ds[k + 1].item.value
      ensures StopsNumber(es, k) <==> StopsNumber(ds, k + 1)
    {
      hide GapYield, DocumentsYield, NumStop;
      if k > 0 { assert es[k] == ds[k + 1]; }
      assert es[k + 1..] == ds[k + 2..];
    }
    hide StopsNumber;
    if Separated(es) {
      forall k | 0 <= k < |ds| - 1
        ensures ds[k].tail.None? && (ds[k].item.value.TNumber? ==> StopsNumber(ds, k))
      {
        if k > 0 { assert es[k - 1].tail == ds[k].tail; }
      }
    }
  }

  lemma NextMeaning(ds: seq<Document>, c: Config)
    requires |ds| > 1 && ValidDocuments(ds, c.mode) && ValidDocuments(NextDocuments(ds), c.mode)
    ensures var es := NextDocuments(ds);
      && DocumentsYield(ds[1..]) == GapYield(ds[1].item.before) + DocumentsYield(es)
      && DenoteDocuments(ds, c) == [Denote(ds[0].item.value, c)] + DenoteDocuments(es, c)
  {
    hide GapYield, DocumentYield, Denote, Height, ValidDocument;
    var es := NextDocuments(ds);
    assert es[1..] == ds[2..] && ds[1..][1..] == ds[2..] && ds[1..][0] == ds[1];
    NextYield(ds[1].item, ds[1].tail, DocumentsYield(ds[2..]));
    assert ValidDocuments(ds[1..], c.mode);
    hide DocumentsYield;
  }

  lemma NextYield(x: Item, tail: Option<bytes>, rest: bytes)
    ensures DocumentYield(Document(x, tail)) + rest ==
      GapYield(x.before) + (DocumentYield(Document(x.(before := []), tail)) + rest)
  {
    NoGap();
    hide GapYield, Yield, TailYield;
    var z := Yield(x.value) + (GapYield(x.after) + TailYield(tail));
    assert [] + z == z;
    Assoc(GapYield(x.before), z, rest);
  }

  /** A round that is not the last reads the first value and both gaps behind it. */
  lemma FirstRound(s: bytes, i: nat, ds: seq<Document>, c: Config) returns (k: nat)
    requires |ds| > 1 && ValidDocuments(ds, c.mode) && FirstApart(ds)
    requires HasAt(s, i, DocumentsYield(ds)) && i + |DocumentsYield(ds)| == |s|
    ensures var es := NextDocuments(ds);
      ValidDocuments(es, c.mode) && HasAt(s, k, DocumentsYield(es)) && k + |DocumentsYield(es)| == |s|
    ensures var r := ScanMulti(s, k, k, c);
      ScanMulti(s, i, i, c) == ([Denote(ds[0].item.value, c)] + r.0, r.1)
  {
    hide HasAt, GapYield, Yield, TailYield, Denote, ScanValue, SkipGarbage, Height, NumStop, Valid, ValidGap;
    hide StopsNumber;
    var d, es := ds[0], NextDocuments(ds);
    FirstValue(s, i, ds, c);
    FirstDocument(s, i, ds);
    NonemptyValue(d, c.mode);
    var j := i + |GapYield(d.item.before) + Yield(d.item.value)|;
    NextValid(ds, c.mode);
    NextMeaning(ds, c);
    TwoGaps(ds, c.mode);
    NextStarts(ds, c.mode);
    hide DocumentsYield, DenoteDocuments, ValidDocuments, AfterFirst, IsWs, NextDocuments;
    k := GapSkipped(s, j, d.item.after + ds[1].item.before, DocumentsYield(es), c.mode);
    MultiStep(s, i, k, c);
  }

  /** The last round ends the text. */
  lemma OnlyRound(s: bytes, i: nat, ds: seq<Document>, c: Config)
    requires |ds| == 1 && ValidDocuments(ds, c.mode)
    requires HasAt(s, i, DocumentsYield(ds)) && i + |DocumentsYield(ds)| == |s|
    ensures ScanMulti(s, i, i, c) == (DenoteDocuments(ds, c), |s|)
  {
    hide HasAt, GapYield, Yield, TailYield, Denote, ScanValue, SkipGarbage, Height, NumStop, Valid, ValidGap;
    var d := ds[0];
    FirstValue(s, i, ds, c);
    FirstDocument(s, i, ds);
    NonemptyValue(d, c.mode);
    assert ds == [d];
    LastRound(s, i + |GapYield(d.item.before) + Yield(d.item.value)|, d, c);
    assert ds[1..] == [];
    EndOfMulti(s, c);
    MultiStep(s, i, |s|, c);
  }

  /** `parse_multi` reads any grammatical texts of legal depth written one after the other,
      separated as need be: it returns their values and stops at the end. */
  lemma {:induction false} MultiComplete(s: bytes, i: nat, ds: seq<Document>, c: Config)
    requires ValidDocuments(ds, c.mode) && Separated(ds)
    requires HasAt(s, i, DocumentsYield(ds)) && i + |DocumentsYield(ds)| == |s|
    ensures ScanMulti(s, i, i, c) == (DenoteDocuments(ds, c), |s|)
    decreases |ds|
  {
    hide HasAt, Denote, ScanMulti, Height, ValidDocument, StopsNumber;
    if ds == [] {
      EndOfMulti(s, c);
    } else if |ds| == 1 {
      OnlyRound(s, i, ds, c);
    } else {
      var k := FirstRound(s, i, ds, c);
      NextSeparated(ds);
      NextMeaning(ds, c);
      hide DocumentsYield, DenoteDocuments, Separated, NextDocuments;
      MultiComplete(s, k, NextDocuments(ds), c);
    }
  }

  lemma NonemptyValue(d: Document, mode: Mode)
    requires ValidDocument(d, mode)
    ensures |GapYield(d.item.before) + Yield(d.item.value)| > 0
  {
    FirstByte(d.item.value, mode);
    hide Yield, Valid;
  }

  lemma LastRound(s: bytes, j: nat, d: Document, c: Config)
    requires ValidDocument(d, c.mode) && HasAt(s, j, AfterFirst([d])) && j + |AfterFirst([d])| == |s|
    ensures SkipGarbage(s, j, c.mode) == Some(|s|)
  {
    hide HasAt, GapYield, TailYield;
    assert DocumentsYield([]) == [] && [d][1..] == [];
    assert AfterFirst([d]) == GapYield(d.item.after) + TailYield(d.tail);
    SkipGap(s, j, d.item.after, d.tail, c.mode);
  }

  /** A gap is skipped up to the text behind it. */
  lemma GapSkipped(s: bytes, j: nat, g: Gap, r: bytes, mode: Mode) returns (k: nat)
    requires ValidGap(g, mode) && r != [] && !IsWs(r[0]) && r[0] != SLASH
    requires HasAt(s, j, GapYield(g) + r) && j + |GapYield(g) + r| == |s|
    ensures SkipGarbage(s, j, mode) == Some(k) && k + |r| == |s| && HasAt(s, k, r)
  {
    hide HasAt, GapYield, ValidGap, SkipGarbage;
    HasAtSplit(s, j, GapYield(g), r);
    k := j + |GapYield(g)|;
    SliceAt(s, k, r);
    SkipInnerGap(s, j, g, mode);
  }

  /** Between two values both gaps are skipped. */
  lemma TwoGaps(ds: seq<Document>, mode: Mode)
    requires |ds| > 1 && ds[0].tail.None? && ValidDocument(ds[0], mode) && ValidDocument(ds[1], mode)
    requires DocumentsYield(ds[1..]) == GapYield(ds[1].item.before) + DocumentsYield(NextDocuments(ds))
    ensures var g := ds[0].item.after + ds[1].item.before;
      ValidGap(g, mode) && AfterFirst(ds) == GapYield(g) + DocumentsYield(NextDocuments(ds))
  {
    var a, b, r := ds[0].item.after, ds[1].item.before, DocumentsYield(NextDocuments(ds));
    hide GapYield, Yield, Valid, DocumentsYield, ValidGap, NextDocuments;
    GapYieldConcat(a, b, mode);
    assert TailYield(ds[0].tail) + (GapYield(b) + r) == GapYield(b) + r;
    Assoc(GapYield(a), GapYield(b), r);
  }

  lemma NextStarts(ds: seq<Document>, mode: Mode)
    requires |ds| > 1 && ValidDocument(ds[1], mode)
    ensures var r := DocumentsYield(NextDocuments(ds)); r != [] && !IsWs(r[0]) && r[0] != SLASH
  {
    var v := ds[1].item.value;
    FirstByte(v, mode);
    hide Yield, Valid, TailYield;
    NoGap();
    var d := NextDocuments(ds)[0];
    assert DocumentYield(d) == Yield(v) + (GapYield(d.item.after) + TailYield(d.tail)) by {
      assert [] + (Yield(v) + (GapYield(d.item.after) + TailYield(d.tail))) ==
        Yield(v) + (GapYield(d.item.after) + TailYield(d.tail));
    }
  }
}
