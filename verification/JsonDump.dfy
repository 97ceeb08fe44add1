/** `dump`: what it prints, that parsing reads it back, and that it prints nothing unsafe. */
module JsonDump {
  import opened Arith
  import opened Options
  import opened Bytes
  import opened Utf8
  import opened JsonValue
  import opened JsonGrammar
  import opened JsonScan
  import opened JsonComplete
  import opened JsonMeaning

  const SEPARATOR: bytes := [COMMA, SPACE]
  const KEY_SEPARATOR: bytes := [COLON, SPACE]

  /* ----- what is printed ----- */

  function LowerHex(d: nat): byte
    requires d < 16
  {
    if d < 10 then 0x30 + d else 0x61 + (d - 10)
  }

  /** snprintf of "%04x" for a control character */
  function Hex4(b: byte): bytes { [0x30, 0x30, LowerHex(b / 16), LowerHex(b % 16)] }

  /** The text starts with the three UTF-8 bytes of U+2028 (`last` = 0xA8) or U+2029 (0xA9). */
  predicate IsLineSeparator(s: bytes, last: byte) {
    |s| >= 3 && s[0] == 0xE2 && s[1] == 0x80 && s[2] == last
  }

  /** How the first character of `s` is printed, and how many bytes of `s` it takes. */
  function DumpStep(s: bytes): (r: (bytes, nat))
    requires s != []
    ensures 0 < r.1 <= |s|
  {
    var ch := s[0];
    if ch == BACKSLASH then ([BACKSLASH, BACKSLASH], 1)
    else if ch == QUOTE then ([BACKSLASH, QUOTE], 1)
    else if ch == 0x08 then ([BACKSLASH, 0x62], 1)
    else if ch == 0x0C then ([BACKSLASH, 0x66], 1)
    else if ch == 0x0A then ([BACKSLASH, 0x6E], 1)
    else if ch == 0x0D then ([BACKSLASH, 0x72], 1)
    else if ch == 0x09 then ([BACKSLASH, 0x74], 1)
    else if ch <= 0x1F then ([BACKSLASH, LETTER_U] + Hex4(ch), 1)
    else if IsLineSeparator(s, 0xA8) then ([BACKSLASH, LETTER_U, 0x32, 0x30, 0x32, 0x38], 3)
    else if IsLineSeparator(s, 0xA9) then ([BACKSLASH, LETTER_U, 0x32, 0x30, 0x32, 0x39], 3)
    else ([ch], 1)
  }

  function DumpChars(s: bytes): bytes {
    if s == [] then [] else DumpStep(s).0 + DumpChars(s[DumpStep(s).1..])
  }

  function DumpString(s: bytes): bytes { [QUOTE] + (DumpChars(s) + [QUOTE]) }

  function NatText(n: nat): bytes {
    if n < 10 then [0x30 + n] else NatText(n / 10) + [0x30 + n % 10]
  }

  function Abs(n: int): nat { if n < 0 then -n else n }

  /** snprintf of "%d" */
  function IntText(n: int): bytes { SignYield(n < 0) + NatText(Abs(n)) }

  /** `fmt` is the C library's rendering of a finite double by "%.17g". */
  function Dump(v: Json, fmt: real -> bytes): bytes {
    match v
    case Null => NULL
    case Int(n) => IntText(n)
    case Dbl(d) => if d.Finite? then fmt(d.x) else NULL
    case Bool(b) => if b then TRUE else FALSE
    case Str(s) => DumpString(s)
    case Arr(items) => [LBRACKET] + (DumpItems(items, true, fmt) + [RBRACKET])
    case Obj(ms) => [LBRACE] + (DumpMembers(ms, true, fmt) + [RBRACE])
  }

  function Sep(first: bool): bytes { if first then [] else SEPARATOR }

  function DumpItems(xs: seq<Json>, first: bool, fmt: real -> bytes): bytes {
    if xs == [] then [] else Sep(first) + (Dump(xs[0], fmt) + DumpItems(xs[1..], false, fmt))
  }

  function DumpMembers(ms: seq<Member>, first: bool, fmt: real -> bytes): bytes {
    if ms == [] then []
    else
      var member := DumpString(ms[0].key) + (KEY_SEPARATOR + Dump(ms[0].value, fmt));
      Sep(first) + (member + DumpMembers(ms[1..], false, fmt))
  }

  /* ----- strings read back ----- */

  function DumpChunk(s: bytes): Chunk
    requires s != []
  {
    var ch := s[0];
    if ch == BACKSLASH || ch == QUOTE then Esc(ch)
    else if ch == 0x08 then Esc(0x62)
    else if ch == 0x0C then Esc(0x66)
    else if ch == 0x0A then Esc(0x6E)
    else if ch == 0x0D then Esc(0x72)
    else if ch == 0x09 then Esc(0x74)
    else if ch <= 0x1F then Uni(Hex4(ch))
    else if IsLineSeparator(s, 0xA8) then Uni([0x32, 0x30, 0x32, 0x38])
    else if IsLineSeparator(s, 0xA9) then Uni([0x32, 0x30, 0x32, 0x39])
    else Raw(ch)
  }

  function DumpChunks(s: bytes): seq<Chunk> {
    if s == [] then [] else [DumpChunk(s)] + DumpChunks(s[DumpStep(s).1..])
  }

  lemma Hex4Value(b: byte)
    requires b <= 0x1F
    ensures IsHex4(Hex4(b)) && HexValue(Hex4(b)) == b
  {}

  /** The bytes that one printed character stands for. */
  function ChunkBytes(x: Chunk): bytes
    requires ValidChunk(x)
  {
    match x
    case Raw(b) => [b]
    case Esc(c) => [EscapedByte(c).value]
    case Uni(h) => EncodeUtf8(HexValue(h))
  }

  lemma LineSeparatorBytes()
    ensures HexValue([0x32, 0x30, 0x32, 0x38]) == 0x2028 && HexValue([0x32, 0x30, 0x32, 0x39]) == 0x2029
    ensures EncodeUtf8(0x2028) == [0xE2, 0x80, 0xA8] && EncodeUtf8(0x2029) == [0xE2, 0x80, 0xA9]
  {
    hide EncodeUtf8;
    DecodeEncode([0xE2, 0x80, 0xA8]);
    DecodeEncode([0xE2, 0x80, 0xA9]);
  }

  lemma ControlBytes(b: byte)
    requires b <= 0x1F
    ensures IsHex4(Hex4(b)) && HexValue(Hex4(b)) == b && EncodeUtf8(b) == [b]
  {
    Hex4Value(b);
    hide HexValue, Hex4;
  }

  predicate Faithful(x: Chunk, text: bytes, taken: bytes) {
    && ValidChunk(x) && ChunkYield(x) == text && ChunkBytes(x) == taken
    && (x.Uni? ==> !IsLead(HexValue(x.h)))
  }

  lemma UnicodeFaithful(h: bytes, taken: bytes)
    requires IsHex4(h) && HexValue(h) < 0xD800 && EncodeUtf8(HexValue(h)) == taken
    ensures Faithful(Uni(h), [BACKSLASH, LETTER_U] + h, taken)
  {
    hide EncodeUtf8, HexValue, IsHex4;
  }

  lemma EscapeFaithful(c: byte, b: byte)
    requires EscapedByte(c) == Some(b)
    ensures Faithful(Esc(c), [BACKSLASH, c], [b])
  {
    hide EscapedByte;
  }

  lemma EscapeTable()
    ensures EscapedByte(BACKSLASH) == Some(BACKSLASH) && EscapedByte(QUOTE) == Some(QUOTE)
    ensures EscapedByte(0x62) == Some(0x08) && EscapedByte(0x66) == Some(0x0C) && EscapedByte(0x6E) == Some(0x0A)
    ensures EscapedByte(0x72) == Some(0x0D) && EscapedByte(0x74) == Some(0x09)
  {}

  lemma EscapeStep(s: bytes)
    requires s != [] && DumpChunk(s).Esc?
    ensures DumpStep(s) == ([BACKSLASH, DumpChunk(s).c], 1) && EscapedByte(DumpChunk(s).c) == Some(s[0])
  {
    EscapeTable();
    hide EscapedByte, Hex4, IsLineSeparator;
  }

  lemma SeparatorStep(s: bytes, last: byte, h: bytes)
    requires IsLineSeparator(s, last) && (last == 0xA8 || last == 0xA9)
    requires h == [0x32, 0x30, 0x32, if last == 0xA8 then 0x38 else 0x39]
    ensures Faithful(DumpChunk(s), DumpStep(s).0, s[..DumpStep(s).1])
  {
    LineSeparatorBytes();
    hide EncodeUtf8, HexValue, Hex4, Faithful;
    assert s[..3] == [0xE2, 0x80, last];
    UnicodeFaithful(h, s[..3]);
    assert [BACKSLASH, LETTER_U, 0x32, 0x30, 0x32, h[3]] == [BACKSLASH, LETTER_U] + h;
  }

  lemma ChunkIsStep(s: bytes)
    requires s != []
    ensures Faithful(DumpChunk(s), DumpStep(s).0, s[..DumpStep(s).1])
  {
    var ch := s[0];
    assert s[..1] == [ch];
    if DumpChunk(s).Esc? {
      EscapeStep(s);
      hide DumpStep, DumpChunk, EscapedByte;
      EscapeFaithful(DumpChunk(s).c, ch);
    } else if ch <= 0x1F {
      ControlBytes(ch);
      hide HexValue, EncodeUtf8, Faithful, Hex4;
      UnicodeFaithful(Hex4(ch), [ch]);
    } else if IsLineSeparator(s, 0xA8) {
      SeparatorStep(s, 0xA8, [0x32, 0x30, 0x32, 0x38]);
      hide Faithful, DumpStep, DumpChunk;
    } else if IsLineSeparator(s, 0xA9) {
      SeparatorStep(s, 0xA9, [0x32, 0x30, 0x32, 0x39]);
      hide Faithful, DumpStep, DumpChunk;
    } else {
      hide IsLineSeparator;
    }
  }

  /** One more character in front of a literal; it pairs with nothing behind it. */
  lemma ConsChunk(x: Chunk, cs: seq<Chunk>)
    requires ValidChunk(x) && (x.Uni? ==> !IsLead(HexValue(x.h))) && ValidChunks(cs)
    ensures ValidChunks([x] + cs)
    ensures ChunksYield([x] + cs) == ChunkYield(x) + ChunksYield(cs)
    ensures DenoteChunks([x] + cs) == ChunkBytes(x) + DenoteChunks(cs)
  {
    hide EncodeUtf8, HexValue, IsLead, IsHex4, EscapedByte, ChunkYield;
    assert ([x] + cs)[1..] == cs;
  }

  lemma DumpOne(s: bytes)
    requires s != []
    ensures var rest := s[DumpStep(s).1..];
      && DumpChunks(s) == [DumpChunk(s)] + DumpChunks(rest) && DumpChars(s) == DumpStep(s).0 + DumpChars(rest)
      && s == s[..DumpStep(s).1] + rest
  {
    hide DumpStep, DumpChunk;
  }

  lemma {:induction false} DumpedChars(s: bytes)
    ensures ValidChunks(DumpChunks(s)) && ChunksYield(DumpChunks(s)) == DumpChars(s)
    ensures DenoteChunks(DumpChunks(s)) == s
    decreases |s|
  {
    if s != [] {
      hide DumpStep, DumpChunk, DumpChunks, DumpChars, ChunksYield, DenoteChunks, ValidChunks;
      hide ValidChunk, ChunkYield, ChunkBytes, IsLead, HexValue;
      var rest := s[DumpStep(s).1..];
      DumpOne(s);
      ChunkIsStep(s);
      DumpedChars(rest);
      ConsChunk(DumpChunk(s), DumpChunks(rest));
    }
  }

  /** Whatever bytes a string holds, and whatever follows its dump, `parse_string` started
      after the opening quote returns the string and stops after the closing quote. */
  lemma DumpedStringParses(s: bytes, t: bytes)
    ensures ScanString(DumpString(s) + t, 1, -1, []) == Ok(s, |DumpString(s)|)
  {
    DumpedChars(s);
    assert StringYield(DumpChunks(s)) == DumpString(s);
    hide StringYield, DumpString, ScanString, DumpChunks, DenoteChunks, ValidChunks;
    LiteralParses(DumpChunks(s), t);
  }

  /* ----- integers read back ----- */

  lemma {:induction false} NatTextReads(n: nat)
    ensures var ds := NatText(n);
      && ds != [] && AllDigits(ds) && DigitsValue(ds) == n
      && (n > 0 ==> ds[0] != 0x30) && (n == 0 ==> |ds| == 1)
    decreases n
  {
    if n >= 10 {
      NatTextReads(n / 10);
      assert NatText(n)[..|NatText(n)| - 1] == NatText(n / 10);
    } else {
      assert NatText(n)[..0] == [];
    }
  }

  function IntNumber(n: int): Number { Number(n < 0, NatText(Abs(n)), None, None) }

  /** The assumption on the C library: strtod is exact on every 32-bit integer. */
  predicate ExactOnInts(strtod: bytes -> Double) {
    forall n: int32 :: strtod(IntText(n)) == Finite(n as real)
  }

  /** An int of at most nine characters comes back as itself through atoi, a longer one as
      the double of the same value through strtod. */
  lemma DumpedIntParses(n: int32, strtod: bytes -> Double)
    requires ExactOnInts(strtod)
    ensures ValidNumber(IntNumber(n)) && NumberYield(IntNumber(n)) == IntText(n)
    ensures DenoteNumber(IntNumber(n), strtod) ==
      if |IntText(n)| <= INT_DIGITS10 then Int(n) else Dbl(Finite(n as real))
    ensures Equal(DenoteNumber(IntNumber(n), strtod), Int(n))
  {
    NatTextReads(Abs(n));
    assert IntNumber(n).whole + ([] + []) == IntNumber(n).whole;
  }

  /* ----- values read back ----- */

  /** The value contains no double, as one built from null, bools, ints, strings, arrays
      and objects. */
  predicate NoDoubles(v: Json) {
    match v
    case Dbl(_) => false
    case Arr(items) => forall k :: 0 <= k < |items| ==> NoDoubles(items[k])
    case Obj(ms) => forall k :: 0 <= k < |ms| ==> NoDoubles(ms[k].value)
    case _ => true
  }

  /** The C library's two conversions of doubles: "%.17g", and strtod. */
  datatype Printer = Printer(fmt: real -> bytes, strtod: bytes -> Double)

  predicate IsRendering(n: Number, x: real, p: Printer) {
    ValidNumber(n) && NumberYield(n) == p.fmt(x) && Equal(DenoteNumber(n, p.strtod), Dbl(Finite(x)))
  }

  /** The double is rendered as a number token that reads back as a number equal to it: "1.5" as
      the double, "1" as the int. */
  ghost predicate Renders(x: real, p: Printer) { exists n :: IsRendering(n, x, p) }

  ghost function Rendering(x: real, p: Printer): (n: Number)
    requires Renders(x, p)
    ensures IsRendering(n, x, p)
  {
    var n :| IsRendering(n, x, p);
    n
  }

  /** Every finite double in the value is rendered so. */
  ghost predicate Readable(v: Json, p: Printer) {
    match v
    case Dbl(d) => d.Finite? ==> Renders(d.x, p)
    case Arr(items) => forall k :: 0 <= k < |items| ==> Readable(items[k], p)
    case Obj(ms) => forall k :: 0 <= k < |ms| ==> Readable(ms[k].value, p)
    case _ => true
  }

  predicate NoInfinities(v: Json) {
    match v
    case Dbl(d) => d.Finite?
    case Arr(items) => forall k :: 0 <= k < |items| ==> NoInfinities(items[k])
    case Obj(ms) => forall k :: 0 <= k < |ms| ==> NoInfinities(ms[k].value)
    case _ => true
  }

  /** The value with null in place of each infinity. */
  function Nulled(v: Json): Json {
    match v
    case Dbl(d) => if d.Finite? then v else Null
    case Arr(items) => Arr(NulledItems(items))
    case Obj(ms) => Obj(NulledMembers(ms))
    case _ => v
  }

  function NulledItems(xs: seq<Json>): (ys: seq<Json>)
    ensures |ys| == |xs|
  {
    if xs == [] then [] else [Nulled(xs[0])] + NulledItems(xs[1..])
  }

  function NulledMembers(ms: seq<Member>): (ns: seq<Member>)
    ensures |ns| == |ms|
  {
    if ms == [] then [] else [Member(ms[0].key, Nulled(ms[0].value))] + NulledMembers(ms[1..])
  }

  lemma {:induction false} NothingNulled(v: Json)
    requires NoInfinities(v)
    ensures Nulled(v) == v
    decreases v, 0
  {
    match v
    case Arr(items) => NothingNulledItems(items);
    case Obj(ms) => NothingNulledMembers(ms);
    case _ =>
  }

  lemma {:induction false} NothingNulledItems(xs: seq<Json>)
    requires forall k :: 0 <= k < |xs| ==> NoInfinities(xs[k])
    ensures NulledItems(xs) == xs
    decreases xs
  {
    if xs != [] {
      NothingNulled(xs[0]);
      NothingNulledItems(xs[1..]);
    }
  }

  lemma {:induction false} NothingNulledMembers(ms: seq<Member>)
    requires forall k :: 0 <= k < |ms| ==> NoInfinities(ms[k].value)
    ensures NulledMembers(ms) == ms
    decreases ms
  {
    if ms != [] {
      NothingNulled(ms[0].value);
      NothingNulledMembers(ms[1..]);
    }
  }

  function ValueHeight(v: Json): nat {
    match v
    case Arr(items) => if items == [] then 0 else 1 + MaxHeight(items)
    case Obj(ms) => if ms == [] then 0 else 1 + MaxMemberHeight(ms)
    case _ => 0
  }

  function MaxHeight(xs: seq<Json>): nat {
    if xs == [] then 0 else Max(ValueHeight(xs[0]), MaxHeight(xs[1..]))
  }

  function MaxMemberHeight(ms: seq<Member>): nat {
    if ms == [] then 0 else Max(ValueHeight(ms[0].value), MaxMemberHeight(ms[1..]))
  }

  function Lead(first: bool): Gap { if first then [] else [Space(SPACE)] }

  /** The derivation that `dump` writes down. */
  ghost function DumpTree(v: Json, p: Printer): Tree
    requires Readable(v, p)
  {
    match v
    case Null => TNull
    case Int(n) => TNumber(IntNumber(n))
    case Dbl(d) => if d.Finite? then TNumber(Rendering(d.x, p)) else TNull
    case Bool(b) => if b then TTrue else TFalse
    case Str(s) => TString(DumpChunks(s))
    case Arr(items) => if items == [] then TEmptyArray([]) else TArray(ItemsTree(items, true, p))
    case Obj(ms) => if ms == [] then TEmptyObject([]) else TObject(FieldsTree(ms, true, p))
  }

  ghost function ItemsTree(xs: seq<Json>, first: bool, p: Printer): Items
    requires xs != [] && forall k :: 0 <= k < |xs| ==> Readable(xs[k], p)
  {
    var x := Item(Lead(first), DumpTree(xs[0], p), []);
    if |xs| == 1 then LastItem(x) else MoreItems(x, ItemsTree(xs[1..], false, p))
  }

  ghost function FieldsTree(ms: seq<Member>, first: bool, p: Printer): Fields
    requires ms != [] && forall k :: 0 <= k < |ms| ==> Readable(ms[k].value, p)
  {
    var x := Field(Lead(first), DumpChunks(ms[0].key), [], [Space(SPACE)], DumpTree(ms[0].value, p), []);
    if |ms| == 1 then LastField(x) else MoreFields(x, FieldsTree(ms[1..], false, p))
  }

  lemma LeadYield(first: bool)
    ensures first ==> GapYield(Lead(first)) == []
    ensures !first ==> GapYield(Lead(first)) == [SPACE]
  {
    if !first {
      assert GapYield(Lead(first)) == GapItemYield(Lead(first)[0]) + GapYield(Lead(first)[1..]);
    }
  }

  lemma {:induction false} TreeYields(v: Json, mode: Mode, p: Printer)
    requires Readable(v, p)
    ensures Valid(DumpTree(v, p), mode) && Yield(DumpTree(v, p)) == Dump(v, p.fmt)
    decreases v
  {
    hide NumberYield, NatText, ChunksYield, DumpChars, DumpChunks, ItemsYield, FieldsYield, ItemsTree, FieldsTree;
    hide IntText, ValidNumber, ValidChunks, DumpItems, DumpMembers, ValidItems, ValidFields;
    match v
    case Int(n) => IntYields(n);
    case Str(s) => DumpedChars(s);
    case Arr(items) => if items == [] { EmptyYields(mode, p); } else { ArrayYields(items, mode, p); }
    case Obj(ms) => if ms == [] { EmptyYields(mode, p); } else { ObjectYields(ms, mode, p); }
    case _ =>
  }

  lemma IntYields(n: int)
    ensures ValidNumber(IntNumber(n)) && NumberYield(IntNumber(n)) == IntText(n)
  {
    NatTextReads(Abs(n));
    assert IntNumber(n).whole + ([] + []) == IntNumber(n).whole;
  }

  lemma EmptyYields(mode: Mode, p: Printer)
    ensures Valid(TEmptyArray([]), mode) && Yield(TEmptyArray([])) == Dump(Arr([]), p.fmt)
    ensures Valid(TEmptyObject([]), mode) && Yield(TEmptyObject([])) == Dump(Obj([]), p.fmt)
  {
    assert GapYield([]) + [RBRACKET] == [RBRACKET] && [] + [RBRACKET] == [RBRACKET];
    assert GapYield([]) + [RBRACE] == [RBRACE] && [] + [RBRACE] == [RBRACE];
  }

  lemma {:induction false} ArrayYields(items: seq<Json>, mode: Mode, p: Printer)
    requires items != [] && forall k :: 0 <= k < |items| ==> Readable(items[k], p)
    ensures ValidItems(ItemsTree(items, true, p), mode)
    ensures [LBRACKET] + ItemsYield(ItemsTree(items, true, p)) == Dump(Arr(items), p.fmt)
    decreases items, 1
  {
    ItemsYields(items, true, mode, p);
    SkippedComma();
    hide ItemsYield, ItemsTree, DumpItems, ValidItems;
    var y := ItemsYield(ItemsTree(items, true, p));
    assert [] + y == y;
  }

  lemma {:induction false} ObjectYields(ms: seq<Member>, mode: Mode, p: Printer)
    requires ms != [] && forall k :: 0 <= k < |ms| ==> Readable(ms[k].value, p)
    ensures ValidFields(FieldsTree(ms, true, p), mode)
    ensures [LBRACE] + FieldsYield(FieldsTree(ms, true, p)) == Dump(Obj(ms), p.fmt)
    decreases ms, 1
  {
    FieldsYields(ms, true, mode, p);
    SkippedComma();
    hide FieldsYield, FieldsTree, DumpMembers, ValidFields;
    var y := FieldsYield(FieldsTree(ms, true, p));
    assert [] + y == y;
  }

  /** From the second element on, the comma belongs to the element before. */
  function Skipped(first: bool): bytes { if first then [] else [COMMA] }

  lemma SkippedComma()
    ensures Skipped(false) == [COMMA] && Skipped(true) == []
  {}

  lemma LeadIsSep(first: bool)
    ensures Skipped(first) + GapYield(Lead(first)) == Sep(first)
  {
    LeadYield(first);
  }

  lemma {:induction false} ItemsYields(xs: seq<Json>, first: bool, mode: Mode, p: Printer)
    requires xs != [] && forall k :: 0 <= k < |xs| ==> Readable(xs[k], p)
    ensures ValidItems(ItemsTree(xs, first, p), mode)
    ensures Skipped(first) + ItemsYield(ItemsTree(xs, first, p)) == DumpItems(xs, first, p.fmt) + [RBRACKET]
    decreases xs, 0
  {
    hide Yield, DumpTree, GapYield, Dump, Readable, Valid, Skipped, Sep, Lead;
    TreeYields(xs[0], mode, p);
    LeadIsSep(first);
    LeadValid(first, mode);
    NoGap();
    if |xs| > 1 {
      ItemsYields(xs[1..], false, mode, p);
      SkippedComma();
    }
    var y, g, more := Dump(xs[0], p.fmt), GapYield(Lead(first)), DumpItems(xs[1..], false, p.fmt);
    var rest := if |xs| == 1 then [RBRACKET] else [COMMA] + ItemsYield(ItemsTree(xs[1..], false, p));
    assert rest == more + [RBRACKET];
    assert [] + rest == rest;
    assert ItemsYield(ItemsTree(xs, first, p)) == g + (y + rest);
    hide ItemsYield, ItemsTree;
    ItemBytes(Skipped(first), g, y, more, Sep(first));
  }

  lemma ItemBytes(c: bytes, g: bytes, y: bytes, more: bytes, sep: bytes)
    requires c + g == sep
    ensures c + (g + (y + (more + [RBRACKET]))) == (sep + (y + more)) + [RBRACKET]
  {
    Assoc(c, g, y + (more + [RBRACKET]));
    Assoc(y, more, [RBRACKET]);
    Assoc(sep, y + more, [RBRACKET]);
  }

  lemma LeadValid(first: bool, mode: Mode)
    ensures ValidGap(Lead(first), mode) && ValidGap([], mode)
  {}

  lemma NoGap()
    ensures GapYield([]) == []
  {}

  lemma {:induction false} FieldsYields(ms: seq<Member>, first: bool, mode: Mode, p: Printer)
    requires ms != [] && forall k :: 0 <= k < |ms| ==> Readable(ms[k].value, p)
    ensures ValidFields(FieldsTree(ms, first, p), mode)
    ensures Skipped(first) + FieldsYield(FieldsTree(ms, first, p)) == DumpMembers(ms, first, p.fmt) + [RBRACE]
    decreases ms, 0
  {
    TreeYields(ms[0].value, mode, p);
    LeadIsSep(first);
    NoGap();
    assert GapYield([Space(SPACE)]) == [SPACE] by { LeadYield(false); }
    var y, g, k := Dump(ms[0].value, p.fmt), GapYield(Lead(first)), DumpString(ms[0].key);
    var rest := if |ms| == 1 then [RBRACE] else [COMMA] + FieldsYield(FieldsTree(ms[1..], false, p));
    if |ms| > 1 { FieldsYields(ms[1..], false, mode, p); }
    var xs := FieldsTree(ms, first, p);
    KeyYields(xs.field, ms[0].key, first, mode);
    hide Yield, DumpTree, GapYield, Dump, Readable, Valid, KeyYield, DumpString, DumpChunks, ValidKey, Sep, Lead;
    var more := DumpMembers(ms[1..], false, p.fmt);
    assert rest == more + [RBRACE];
    assert [] + rest == rest;
    FieldBytes(Skipped(first), g, k, y, more, Sep(first));
    assert FieldsYield(xs) == (g + (k + [COLON])) + ([SPACE] + (y + rest));
  }

  lemma KeyYields(x: Field, key: bytes, first: bool, mode: Mode)
    requires x.before == Lead(first) && x.key == DumpChunks(key) && x.beforeColon == []
    ensures ValidKey(x, mode) && KeyYield(x) == GapYield(Lead(first)) + (DumpString(key) + [COLON])
  {
    DumpedChars(key);
    NoGap();
    hide DumpChunks, DumpChars, GapYield;
    assert [] + [COLON] == [COLON];
  }

  lemma FieldBytes(c: bytes, g: bytes, k: bytes, y: bytes, more: bytes, sep: bytes)
    requires c + g == sep
    ensures c + ((g + (k + [COLON])) + ([SPACE] + (y + (more + [RBRACE]))))
      == (sep + ((k + (KEY_SEPARATOR + y)) + more)) + [RBRACE]
  {
    var z := more + [RBRACE];
    Assoc(g, k + [COLON], [SPACE] + (y + z));
    Assoc(k, [COLON], [SPACE] + (y + z));
    Assoc([COLON], [SPACE], y + z);
    assert [COLON] + [SPACE] == KEY_SEPARATOR;
    Assoc(c, g, k + (KEY_SEPARATOR + (y + z)));
    Assoc(KEY_SEPARATOR, y, z);
    Assoc(k, KEY_SEPARATOR + y, z);
    Assoc(k + (KEY_SEPARATOR + y), more, [RBRACE]);
    Assoc(sep, (k + (KEY_SEPARATOR + y)) + more, [RBRACE]);
  }

  lemma {:induction false} TreeHeight(v: Json, p: Printer)
    requires Readable(v, p)
    ensures Height(DumpTree(v, p)) == ValueHeight(v)
    decreases v
  {
    match v
    case Arr(items) => if items != [] { ItemsTreeHeight(items, true, p); }
    case Obj(ms) => if ms != [] { FieldsTreeHeight(ms, true, p); }
    case _ =>
  }

  lemma {:induction false} ItemsTreeHeight(xs: seq<Json>, first: bool, p: Printer)
    requires xs != [] && forall k :: 0 <= k < |xs| ==> Readable(xs[k], p)
    ensures ItemsHeight(ItemsTree(xs, first, p)) == MaxHeight(xs)
    decreases xs
  {
    TreeHeight(xs[0], p);
    if |xs| > 1 { ItemsTreeHeight(xs[1..], false, p); }
    else { assert xs[1..] == []; }
  }

  lemma {:induction false} FieldsTreeHeight(ms: seq<Member>, first: bool, p: Printer)
    requires ms != [] && forall k :: 0 <= k < |ms| ==> Readable(ms[k].value, p)
    ensures FieldsHeight(FieldsTree(ms, first, p)) == MaxMemberHeight(ms)
    decreases ms
  {
    TreeHeight(ms[0].value, p);
    if |ms| > 1 { FieldsTreeHeight(ms[1..], false, p); }
    else { assert ms[1..] == []; }
  }

  lemma {:induction false} TreeDenotes(v: Json, c: Config, p: Printer)
    requires Readable(v, p) && WellFormed(v) && ExactOnInts(c.strtod) && p.strtod == c.strtod
    requires Valid(DumpTree(v, p), c.mode)
    ensures Equal(Denote(DumpTree(v, p), c), Nulled(v))
    decreases v
  {
    match v
    case Int(n) => DumpedIntParses(n, c.strtod);
    case Str(s) => DumpedChars(s);
    case Arr(items) => if items != [] { ItemsDenote(items, true, c, p); }
    case Obj(ms) =>
      if ms != [] {
        FieldsDenote(ms, true, c, p, []);
        var vs := MembersOf(FieldsTree(ms, true, p), c);
        assert [] + vs == vs;
      }
    case _ =>
  }

  lemma {:induction false} ItemsDenote(xs: seq<Json>, first: bool, c: Config, p: Printer)
    requires xs != [] && (forall k :: 0 <= k < |xs| ==> Readable(xs[k], p) && WellFormed(xs[k]))
    requires ExactOnInts(c.strtod) && p.strtod == c.strtod && ValidItems(ItemsTree(xs, first, p), c.mode)
    ensures var vs := DenoteItems(ItemsTree(xs, first, p), c); |vs| == |xs| && EqualItems(vs, NulledItems(xs))
    decreases xs
  {
    TreeDenotes(xs[0], c, p);
    var vs := DenoteItems(ItemsTree(xs, first, p), c);
    if |xs| > 1 {
      ItemsDenote(xs[1..], false, c, p);
      assert vs[1..] == DenoteItems(ItemsTree(xs[1..], false, p), c);
    }
  }

  /** The members of an object tree, in the order written. */
  function MembersOf(xs: Fields, c: Config): seq<Member>
    requires ValidFields(xs, c.mode)
  {
    var m := Member(DenoteChunks(xs.field.key), Denote(xs.field.value, c));
    match xs
    case LastField(_) => [m]
    case MoreFields(_, rest) => [m] + MembersOf(rest, c)
  }

  lemma {:induction false} PutLast(ms: seq<Member>, key: bytes, value: Json)
    requires forall k :: 0 <= k < |ms| ==> BytesLess(ms[k].key, key)
    ensures Put(ms, key, value) == ms + [Member(key, value)]
  {
    if ms != [] {
      BytesTrichotomy(ms[0].key, key);
      PutLast(ms[1..], key, value);
      assert ms == [ms[0]] + ms[1..];
    }
  }

  lemma {:induction false} FieldsDenote(ms: seq<Member>, first: bool, c: Config, p: Printer, before: seq<Member>)
    requires ms != [] && KeysSorted(ms)
    requires forall k :: 0 <= k < |ms| ==> Readable(ms[k].value, p) && WellFormed(ms[k].value)
    requires forall j, k :: 0 <= j < |before| && 0 <= k < |ms| ==> BytesLess(before[j].key, ms[k].key)
    requires ExactOnInts(c.strtod) && p.strtod == c.strtod && ValidFields(FieldsTree(ms, first, p), c.mode)
    ensures var xs := FieldsTree(ms, first, p);
      && DenoteFields(xs, c, before) == before + MembersOf(xs, c)
      && |MembersOf(xs, c)| == |ms| && EqualMembers(MembersOf(xs, c), NulledMembers(ms))
    decreases ms
  {
    hide DumpTree, Denote, Readable, WellFormed, Equal, DumpChunks, DenoteChunks, ExactOnInts, Valid, BytesLess, Lead;
    var xs := FieldsTree(ms, first, p);
    DumpedChars(ms[0].key);
    TreeDenotes(ms[0].value, c, p);
    var v := Denote(DumpTree(ms[0].value, p), c);
    PutLast(before, ms[0].key, v);
    var ds := MembersOf(xs, c);
    assert ds[0] == Member(ms[0].key, v);
    if |ms| > 1 {
      var before' := before + [Member(ms[0].key, v)];
      SortedTail(ms);
      FieldsDenote(ms[1..], false, c, p, before');
      var more := MembersOf(xs.rest, c);
      assert ds == [ds[0]] + more && ds[1..] == more;
      Assoc(before, [ds[0]], more);
    }
  }

  /** `parse(dump(v))` succeeds exactly when `v` is nested at most 200 deep, provided that the
      doubles in it are rendered as numbers equal to them. It then gives back a value equal to
      `v`, but with null in place of each infinity. */
  lemma DumpRoundTrip(v: Json, c: Config, fmt: real -> bytes)
    requires Readable(v, Printer(fmt, c.strtod)) && WellFormed(v) && ExactOnInts(c.strtod)
    ensures Parse(Dump(v, fmt), c).Some? <==> ValueHeight(v) <= MAX_DEPTH
    ensures Parse(Dump(v, fmt), c).Some? ==> Equal(Parse(Dump(v, fmt), c).value, Nulled(v))
    ensures Parse(Dump(v, fmt), c).Some? && NoInfinities(v) ==> Equal(Parse(Dump(v, fmt), c).value, v)
  {
    var p := Printer(fmt, c.strtod);
    TreeYields(v, c.mode, p);
    TreeHeight(v, p);
    TreeDenotes(v, c, p);
    if NoInfinities(v) { NothingNulled(v); }
    var t := DumpTree(v, p);
    hide Yield, Valid, DumpTree, Dump, ValueHeight, Height, Denote, Equal, Parse, Nulled, NoInfinities;
    var d := Document(Item([], t, []), None);
    NoGap();
    assert [] + (Yield(t) + ([] + [])) == Yield(t);
    DocumentParses(d, c);
  }

  /** A value without doubles needs no assumption on the C library's rendering. */
  lemma {:induction false} NoDoublesReadable(v: Json, p: Printer)
    requires NoDoubles(v)
    ensures Readable(v, p) && NoInfinities(v)
    decreases v
  {
    match v
    case Arr(items) => forall k | 0 <= k < |items| ensures Readable(items[k], p) && NoInfinities(items[k]) {
      NoDoublesReadable(items[k], p);
    }
    case Obj(ms) => forall k | 0 <= k < |ms| ensures Readable(ms[k].value, p) && NoInfinities(ms[k].value) {
      NoDoublesReadable(ms[k].value, p);
    }
    case _ =>
  }

  /** `parse(dump(v))` gives back a value equal to `v` exactly when `v` is nested at most 200
      deep, and fails otherwise, however doubles would be rendered. */
  lemma PlainRoundTrip(v: Json, c: Config, fmt: real -> bytes)
    requires NoDoubles(v) && WellFormed(v) && ExactOnInts(c.strtod)
    ensures Parse(Dump(v, fmt), c).Some? <==> ValueHeight(v) <= MAX_DEPTH
    ensures Parse(Dump(v, fmt), c).Some? ==> Equal(Parse(Dump(v, fmt), c).value, v)
  {
    NoDoublesReadable(v, Printer(fmt, c.strtod));
    DumpRoundTrip(v, c, fmt);
  }

  /* ----- nothing unsafe is printed ----- */

  /** No control character, and nowhere the UTF-8 bytes of U+2028 or U+2029. */
  predicate Clean(s: bytes) {
    && (forall k :: 0 <= k < |s| ==> s[k] > 0x1F)
    && (forall k :: 0 <= k < |s| ==> !IsLineSeparator(s[k..], 0xA8) && !IsLineSeparator(s[k..], 0xA9))
  }

  /** Clean, nonempty, and with an ASCII byte at both ends. */
  predicate Tidy(s: bytes) { Clean(s) && s != [] && s[0] < 0x80 && s[|s| - 1] < 0x80 }

  predicate Printable(s: bytes) { s != [] && forall k :: 0 <= k < |s| ==> 0x20 <= s[k] <= 0x7E }

  lemma PrintableIsTidy(s: bytes)
    requires Printable(s)
    ensures Tidy(s)
  {}

  lemma CleanConcat(a: bytes, b: bytes)
    requires Clean(a) && Clean(b)
    requires a == [] || b == [] || a[|a| - 1] < 0x80 || b[0] < 0x80
    ensures Clean(a + b)
  {
    var s := a + b;
    forall k | 0 <= k < |s| ensures !IsLineSeparator(s[k..], 0xA8) && !IsLineSeparator(s[k..], 0xA9) {
      if k >= |a| { assert s[k..] == b[k - |a|..]; }
      else if k + 3 <= |a| { assert a[k..][..3] == s[k..][..3]; }
      else if k + 2 < |s| { assert s[k..][0] == s[k] && s[k..][1] == s[k + 1] && s[k..][2] == s[k + 2]; }
    }
  }

  lemma TidyConcat(a: bytes, b: bytes)
    requires Tidy(a) && Tidy(b)
    ensures Tidy(a + b)
  {
    CleanConcat(a, b);
    hide Clean;
  }

  lemma StepIsSafe(s: bytes)
    requires s != []
    ensures var y := DumpStep(s).0;
      Printable(y) ||
      (y == [s[0]] && DumpStep(s).1 == 1 && s[0] > 0x1F && !IsLineSeparator(s, 0xA8) && !IsLineSeparator(s, 0xA9))
  {}

  /** The first printed byte, if above ASCII, is a copied one. */
  lemma FirstPrinted(s: bytes)
    ensures var y := DumpChars(s); y != [] && y[0] >= 0x80 ==> s != [] && y[0] == s[0] && y[1..] == DumpChars(s[1..])
  {
    if s != [] {
      StepIsSafe(s);
      hide DumpStep;
    }
  }

  /** Two copied bytes followed by copies cannot complete a separator the printer missed. */
  lemma NoSeparatorFormed(s: bytes, last: byte)
    requires s != [] && !IsLineSeparator(s, last) && last >= 0x80
    ensures !IsLineSeparator([s[0]] + DumpChars(s[1..]), last)
  {
    var z := DumpChars(s[1..]);
    var w := [s[0]] + z;
    FirstPrinted(s[1..]);
    if |w| >= 3 && w[1] == 0x80 && w[2] == last {
      FirstPrinted(s[2..]);
      assert s[1..][1..] == s[2..] && z[1..] == DumpChars(s[2..]);
      assert z[1..][0] == w[2];
    }
  }

  lemma {:induction false} DumpedCharsClean(s: bytes)
    ensures Clean(DumpChars(s))
    decreases |s|
  {
    if s != [] {
      var y, rest := DumpStep(s).0, s[DumpStep(s).1..];
      StepIsSafe(s);
      DumpedCharsClean(rest);
      hide DumpStep;
      if Printable(y) {
        PrintableIsTidy(y);
        CleanConcat(y, DumpChars(rest));
      } else {
        NoSeparatorFormed(s, 0xA8);
        NoSeparatorFormed(s, 0xA9);
        PrependClean(s[0], DumpChars(rest));
      }
    }
  }

  lemma PrependClean(b: byte, z: bytes)
    requires Clean(z) && b > 0x1F && !IsLineSeparator([b] + z, 0xA8) && !IsLineSeparator([b] + z, 0xA9)
    ensures Clean([b] + z)
  {
    var w := [b] + z;
    forall k | 0 <= k < |w| ensures !IsLineSeparator(w[k..], 0xA8) && !IsLineSeparator(w[k..], 0xA9) {
      if k > 0 { assert w[k..] == z[k - 1..]; }
      else { assert w[0..] == w; }
    }
  }

  lemma DumpedStringTidy(s: bytes)
    ensures Tidy(DumpString(s))
  {
    DumpedCharsClean(s);
    hide DumpChars;
    assert Printable([QUOTE]);
    PrintableIsTidy([QUOTE]);
    CleanConcat(DumpChars(s), [QUOTE]);
    CleanConcat([QUOTE], DumpChars(s) + [QUOTE]);
  }

  lemma {:induction false} NatTextPrintable(n: nat)
    ensures Printable(NatText(n))
    decreases n
  {
    if n >= 10 { NatTextPrintable(n / 10); }
  }

  /** No dump contains a control character or a JavaScript line separator. */
  lemma {:induction false} DumpIsClean(v: Json, fmt: real -> bytes)
    requires forall x :: Printable(fmt(x))
    ensures Tidy(Dump(v, fmt))
    decreases v
  {
    match v
    case Null => PrintableIsTidy(NULL);
    case Bool(b) => PrintableIsTidy(TRUE); PrintableIsTidy(FALSE);
    case Int(n) => NatTextPrintable(Abs(n)); PrintableIsTidy(IntText(n));
    case Dbl(d) => PrintableIsTidy(NULL); if d.Finite? { PrintableIsTidy(fmt(d.x)); }
    case Str(s) => DumpedStringTidy(s);
    case Arr(items) => DumpItemsClean(items, true, fmt); Bracketed(LBRACKET, DumpItems(items, true, fmt), RBRACKET);
    case Obj(ms) => DumpMembersClean(ms, true, fmt); Bracketed(LBRACE, DumpMembers(ms, true, fmt), RBRACE);
  }

  lemma Bracketed(l: byte, s: bytes, r: byte)
    requires s == [] || Tidy(s)
    requires 0x20 <= l <= 0x7E && 0x20 <= r <= 0x7E
    ensures Tidy([l] + (s + [r]))
  {
    assert Printable([l]) && Printable([r]);
    PrintableIsTidy([l]);
    PrintableIsTidy([r]);
    if s == [] { assert s + [r] == [r]; } else { TidyConcat(s, [r]); }
    TidyConcat([l], s + [r]);
  }

  lemma TidySep(first: bool, s: bytes)
    requires Tidy(s)
    ensures Tidy(Sep(first) + s)
  {
    if first { assert [] + s == s; }
    else { assert Printable(SEPARATOR); PrintableIsTidy(SEPARATOR); TidyConcat(SEPARATOR, s); }
  }

  lemma {:induction false} DumpItemsClean(xs: seq<Json>, first: bool, fmt: real -> bytes)
    requires forall x :: Printable(fmt(x))
    ensures xs != [] ==> Tidy(DumpItems(xs, first, fmt))
    decreases xs
  {
    if xs != [] {
      DumpIsClean(xs[0], fmt);
      DumpItemsClean(xs[1..], false, fmt);
      var y, z := Dump(xs[0], fmt), DumpItems(xs[1..], false, fmt);
      hide Tidy, Dump;
      if xs[1..] == [] { assert y + z == y; } else { TidyConcat(y, z); }
      TidySep(first, y + z);
    }
  }

  lemma {:induction false} DumpMembersClean(ms: seq<Member>, first: bool, fmt: real -> bytes)
    requires forall x :: Printable(fmt(x))
    ensures ms != [] ==> Tidy(DumpMembers(ms, first, fmt))
    decreases ms
  {
    if ms != [] {
      DumpIsClean(ms[0].value, fmt);
      DumpedStringTidy(ms[0].key);
      DumpMembersClean(ms[1..], false, fmt);
      assert Printable(KEY_SEPARATOR);
      PrintableIsTidy(KEY_SEPARATOR);
      var k, v, z := DumpString(ms[0].key), Dump(ms[0].value, fmt), DumpMembers(ms[1..], false, fmt);
      hide Tidy, Dump, DumpString;
      TidyConcat(KEY_SEPARATOR, v);
      TidyConcat(k, KEY_SEPARATOR + v);
      var y := k + (KEY_SEPARATOR + v);
      if ms[1..] == [] { assert y + z == y; } else { TidyConcat(y, z); }
      TidySep(first, y + z);
    }
  }
}
