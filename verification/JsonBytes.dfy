/** What parsing and printing do to single bytes and short texts, spelled out character by
    character: the constants and tables that the grammar and the code share. */
module JsonBytes {
  import opened Options
  import opened Bytes
  import opened Utf8
  import opened JsonValue
  import opened JsonGrammar
  import opened JsonScan
  import opened JsonComplete
  import opened JsonMeaning
  import opened JsonDump
  import opened JsonParsing

  /* ----- escapes ----- */

  /** A literal of one character, from just behind its opening quote. */
  lemma OneChunk(x: Chunk, t: bytes)
    requires ValidChunk(x)
    ensures var y := ChunkYield(x) + [QUOTE];
      ScanString(y + t, 0, -1, []) == Ok(ChunkBytes(x), |y|)
  {
    var y := ChunkYield(x) + [QUOTE];
    var s := y + t;
    assert [x][1..] == [] && ChunksYield([x]) == ChunkYield(x) + [];
    assert ChunkYield(x) + [] == ChunkYield(x);
    OneDenotes(x);
    hide HasAt, ChunkYield, ChunksYield, ScanString, ValidChunk, ChunkBytes, DenotePending;
    WholeText(s);
    HasAtSplit(s, 0, y, t);
    StringAt(s, 0, -1, [], [x]);
  }

  lemma OneDenotes(x: Chunk)
    requires ValidChunk(x)
    ensures [] + DenotePending(-1, [x]) == ChunkBytes(x)
  {
    NothingPending();
    assert [x][1..] == [];
    hide EncodeUtf8, EscapedByte, HexValue, IsHex4;
    var none: bytes := [];
    var y := ChunkBytes(x);
    assert none + y == y && y + none == y && DenoteChunks([]) == none;
  }

  lemma OneEscape(c: byte, b: byte, t: bytes)
    requires EscapedByte(c) == Some(b)
    ensures ScanString([0x5C, c, 0x22] + t, 0, -1, []) == Ok([b], 3)
  {
    OneChunk(Esc(c), t);
    hide ScanString, EscapedByte;
    assert ChunkYield(Esc(c)) + [QUOTE] == [0x5C, c, 0x22];
  }

  lemma BadEscape(c: byte, t: bytes)
    requires c != 0x75 && EscapedByte(c).None?
    ensures ScanString([0x5C, c, 0x22] + t, 0, -1, []) == Fail
  {
    var s := [0x5C, c, 0x22] + t;
    assert s[0] == 0x5C && s[1] == c;
    hide EncodeUtf8, EscapedByte, IsHex4, HexValue;
  }

  /** The eight escapes of one character, and no other: quote, backslash, slash, and b, f, n, r
      and t for the control characters that they name. */
  lemma EscapesRead(t: bytes)
    ensures ScanString([0x5C, 0x22, 0x22] + t, 0, -1, []) == Ok([0x22], 3)
    ensures ScanString([0x5C, 0x5C, 0x22] + t, 0, -1, []) == Ok([0x5C], 3)
    ensures ScanString([0x5C, 0x2F, 0x22] + t, 0, -1, []) == Ok([0x2F], 3)
    ensures ScanString([0x5C, 0x62, 0x22] + t, 0, -1, []) == Ok([0x08], 3)
    ensures ScanString([0x5C, 0x66, 0x22] + t, 0, -1, []) == Ok([0x0C], 3)
    ensures ScanString([0x5C, 0x6E, 0x22] + t, 0, -1, []) == Ok([0x0A], 3)
    ensures ScanString([0x5C, 0x72, 0x22] + t, 0, -1, []) == Ok([0x0D], 3)
    ensures ScanString([0x5C, 0x74, 0x22] + t, 0, -1, []) == Ok([0x09], 3)
  {
    OneEscape(0x22, 0x22, t);
    OneEscape(0x5C, 0x5C, t);
    OneEscape(0x2F, 0x2F, t);
    OneEscape(0x62, 0x08, t);
    OneEscape(0x66, 0x0C, t);
    OneEscape(0x6E, 0x0A, t);
    OneEscape(0x72, 0x0D, t);
    OneEscape(0x74, 0x09, t);
    hide ScanString, EscapedByte;
  }

  lemma NoOtherEscape(c: byte, t: bytes)
    requires c !in Text("\"\\/bfnrtu")
    ensures ScanString([0x5C, c, 0x22] + t, 0, -1, []) == Fail
  {
    var known := Text("\"\\/bfnrtu");
    assert known[0] == 0x22 && known[1] == 0x5C && known[2] == 0x2F && known[3] == 0x62 && known[4] == 0x66;
    assert known[5] == 0x6E && known[6] == 0x72 && known[7] == 0x74 && known[8] == 0x75;
    BadEscape(c, t);
    hide ScanString;
  }

  /** Any other byte stands for itself, but a control character must be escaped. */
  lemma RawBytes(b: byte, t: bytes)
    requires b != 0x22 && b != 0x5C
    ensures ScanString([b, 0x22] + t, 0, -1, []) == if b >= 0x20 then Ok([b], 2) else Fail
  {
    if b >= 0x20 {
      OneChunk(Raw(b), t);
      assert ChunkYield(Raw(b)) + [QUOTE] == [b, 0x22];
    } else {
      assert ([b, 0x22] + t)[0] == b;
    }
    hide EncodeUtf8, EscapedByte, IsHex4, HexValue;
  }

  /** \u and four hexadecimal digits of either case are the code unit that they spell; other
      characters are refused. */
  lemma UnicodeEscapes(h: bytes, u: int, t: bytes)
    requires |h| == 4
    ensures Spells(h, u) ==> ScanString(([0x5C, 0x75] + h + [0x22]) + t, 0, -1, []) == Ok(EncodeUtf8(u), 7)
    ensures (exists k :: 0 <= k < 4 && h[k] !in Text("0123456789abcdefABCDEF")) ==>
      ScanString(([0x5C, 0x75] + h + [0x22]) + t, 0, -1, []) == Fail
  {
    hide Spells, EncodeUtf8, HexValue, IsHex4;
    if Spells(h, u) {
      SpellsHex(h, u);
      hide ScanString;
      OneChunk(Uni(h), t);
      assert ChunkYield(Uni(h)) + [QUOTE] == [0x5C, 0x75] + h + [0x22];
    }
    if exists k :: 0 <= k < 4 && h[k] !in Text("0123456789abcdefABCDEF") {
      NotHex(h);
      BadUnicode(h, t);
    }
  }

  lemma BadUnicode(h: bytes, t: bytes)
    requires |h| == 4 && !IsHex4(h)
    ensures ScanString(([0x5C, 0x75] + h + [0x22]) + t, 0, -1, []) == Fail
  {
    var s := ([0x5C, 0x75] + h + [0x22]) + t;
    assert s[0] == 0x5C && s[1] == 0x75 && s[2..6] == h;
    hide EncodeUtf8, HexValue, IsHex4;
  }

  lemma NotHex(h: bytes)
    requires |h| == 4 && exists k :: 0 <= k < 4 && h[k] !in Text("0123456789abcdefABCDEF")
    ensures !IsHex4(h)
  {
    var k :| 0 <= k < 4 && h[k] !in Text("0123456789abcdefABCDEF");
    if IsHex(h[k]) { HexNumeral(h[k]); }
  }

  lemma HexNumeral(b: byte)
    requires IsHex(b)
    ensures b in Text("0123456789abcdefABCDEF")
  {
    var all := Text("0123456789abcdefABCDEF");
    if b <= 0x39 { assert all[b - 0x30] == b; }
    else if b <= 0x46 { assert all[16 + b - 0x41] == b; }
    else { assert all[10 + b - 0x61] == b; }
  }

  /* ----- short texts ----- */

  lemma TreeParses(t: Tree, before: Gap, after: Gap, c: Config)
    requires Valid(t, c.mode) && ValidGap(before, c.mode) && ValidGap(after, c.mode)
    ensures Parse(GapYield(before) + (Yield(t) + GapYield(after)), c) ==
      if Height(t) <= MAX_DEPTH then Some(Denote(t, c)) else None
  {
    hide GapYield, Yield, Valid, Height, Denote, Parse, ValidGap;
    DocumentParses(Document(Item(before, t, after), None), c);
    assert GapYield(after) + [] == GapYield(after);
  }

  lemma BareTree(t: Tree, c: Config)
    requires Valid(t, c.mode) && Height(t) <= MAX_DEPTH
    ensures Parse(Yield(t), c) == Some(Denote(t, c))
  {
    hide GapYield, Yield, Valid, Height, Denote, Parse;
    TreeParses(t, [], [], c);
    NoGap();
    assert [] + (Yield(t) + []) == Yield(t);
  }

  lemma Keywords(c: Config)
    ensures Parse(Text("null"), c) == Some(Null)
    ensures Parse(Text("true"), c) == Some(Bool(true)) && Parse(Text("false"), c) == Some(Bool(false))
  {
    BareTree(TNull, c);
    BareTree(TTrue, c);
    BareTree(TFalse, c);
    hide Parse;
    assert Text("null") == NULL;
    assert Text("true") == TRUE;
    assert Text("false") == FALSE;
    hide Text;
  }

  lemma EmptyTexts(c: Config)
    ensures Parse([0x5B, 0x5D], c) == Some(Arr([])) && Parse([0x7B, 0x7D], c) == Some(Obj([]))
    ensures Parse([0x22, 0x22], c) == Some(Str([]))
  {
    BareTree(TEmptyArray([]), c);
    BareTree(TEmptyObject([]), c);
    BareTree(TString([]), c);
    hide Parse;
    NoGap();
    assert [0x5B, 0x5D] == [0x5B] + ([] + [0x5D]);
    assert [0x7B, 0x7D] == [0x7B] + ([] + [0x7D]);
    assert [0x22, 0x22] == [0x22] + ([] + [0x22]);
  }

  /** The texts of one byte: the ten digits. */
  lemma OneByteTexts(b: byte, c: Config)
    ensures Parse([b], c) == if 0x30 <= b <= 0x39 then Some(Int(b as int - 0x30)) else None
  {
    if 0x30 <= b <= 0x39 {
      OneDigit(b);
      NumberText(Number(false, [b], None, None), [b], c);
    } else {
      OneByteFails([b], c);
    }
    hide Parse, DenoteNumber, ValidNumber;
  }

  lemma OneDigit(b: byte)
    requires 0x30 <= b <= 0x39
    ensures var n := Number(false, [b], None, None);
      && ValidNumber(n) && NumberYield(n) == [b]
      && forall strtod :: DenoteNumber(n, strtod) == Int(b as int - 0x30)
  {
    assert [b][..0] == [] && [b] + ([] + []) == [b] && [] + [b] == [b];
    assert DigitsValue([b]) == b as int - 0x30;
  }

  lemma OneByteFails(s: bytes, c: Config)
    requires |s| == 1 && !(0x30 <= s[0] <= 0x39)
    ensures Parse(s, c) == None
  {
    if NextToken(s, 0, c.mode).Some? {
      assert NextToken(s, 0, c.mode) == Some(0);
      assert NextToken(s, 1, c.mode) == None;
      hide NextToken;
      assert ScanNumber(s, 0, c.strtod) == Fail;
      assert ScanString(s, 1, -1, []) == Fail;
      hide ScanString, ScanNumber, ScanItems, ScanFields;
    }
  }

  /** White space is the four bytes space, tab, line feed and carriage return. */
  lemma WhiteSpace(b: byte, mode: Mode)
    ensures NextToken([b, 0x6E], 0, mode) ==
      if b in Text(" \t\n\r") then Some(1) else if b == 0x2F && mode == COMMENTS then None else Some(0)
  {
    var ws := Text(" \t\n\r");
    assert ws == [0x20, 0x09, 0x0A, 0x0D];
    var s := [b, 0x6E];
    if b in ws { SkipOneSpace(s, 0, mode); } else if b != 0x2F || mode == STANDARD { SkipNothing(s, 0, mode); }
    SkipNothing(s, 1, mode);
  }

  lemma NumberText(n: Number, text: bytes, c: Config)
    requires ValidNumber(n) && NumberYield(n) == text
    ensures Parse(text, c) == Some(DenoteNumber(n, c.strtod))
  {
    BareTree(TNumber(n), c);
    hide Parse;
  }

  /** An integer text of at most nine characters is an int, every longer one a double. */
  lemma IntegerTexts(neg: bool, ds: bytes, c: Config)
    requires ds != [] && (forall k :: 0 <= k < |ds| ==> 0x30 <= ds[k] <= 0x39) && (ds[0] == 0x30 ==> |ds| == 1)
    ensures var text := if neg then [0x2D] + ds else ds;
      Parse(text, c).Some? &&
      if |text| <= 9 then Parse(text, c).value.Int? else Parse(text, c).value == Dbl(c.strtod(text))
  {
    var n := Number(neg, ds, None, None);
    var text := if neg then [0x2D] + ds else ds;
    assert ds + ([] + []) == ds && [] + ds == ds;
    NumberText(n, text, c);
    hide Parse, IntegerValue;
  }

  /** Some numbers in full. */
  lemma MinusHundredTwenty(c: Config)
    ensures Parse(Text("-120"), c) == Some(Int(-120))
  {
    var n := Number(true, [0x31, 0x32, 0x30], None, None);
    HundredTwenty();
    assert Text("-120") == [0x2D, 0x31, 0x32, 0x30] == NumberYield(n);
    NumberText(n, Text("-120"), c);
    hide Parse, Text, DigitsValue;
  }

  lemma BothParts(c: Config)
    ensures Parse(Text("-1.5E+2"), c) == Some(Dbl(c.strtod(Text("-1.5E+2"))))
  {
    var x := Number(true, [0x31], Some([0x35]), Some(Exponent(0x45, Some(0x2B), [0x32])));
    assert Text("-1.5E+2") == [0x2D] + ([0x31] + ([0x2E, 0x35] + ([0x45] + ([0x2B] + [0x32]))));
    assert NumberYield(x) == Text("-1.5E+2");
    hide Text, NumberYield;
    NumberText(x, Text("-1.5E+2"), c);
    hide Parse;
  }

  lemma SmallExponent(c: Config)
    ensures Parse(Text("20e-3"), c) == Some(Dbl(c.strtod(Text("20e-3"))))
  {
    var y := Number(false, [0x32, 0x30], None, Some(Exponent(0x65, Some(0x2D), [0x33])));
    assert Text("20e-3") == [] + ([0x32, 0x30] + ([] + ([0x65] + ([0x2D] + [0x33]))));
    assert NumberYield(y) == Text("20e-3");
    hide Text, NumberYield;
    NumberText(y, Text("20e-3"), c);
    hide Parse;
  }

  /** Digits count in tens. */
  lemma OneMoreDigit(ds: bytes, b: byte)
    ensures DigitsValue(ds + [b]) == 10 * DigitsValue(ds) + (b as int - 0x30)
  {
    assert (ds + [b])[..|ds|] == ds;
  }

  lemma HundredTwenty()
    ensures DigitsValue([0x31, 0x32, 0x30]) == 120
  {
    OneMoreDigit([], 0x31);
    OneMoreDigit([0x31], 0x32);
    OneMoreDigit([0x31, 0x32], 0x30);
    assert DigitsValue([]) == 0;
    assert [] + [0x31] == [0x31] && [0x31] + [0x32] == [0x31, 0x32] && [0x31, 0x32] + [0x30] == [0x31, 0x32, 0x30];
    hide DigitsValue;
  }

  /* ----- nesting ----- */

  /** `k` brackets inside one another. */
  function Brackets(k: nat): bytes
    requires k > 0
  {
    if k == 1 then Text("[]") else Text("[") + (Brackets(k - 1) + Text("]"))
  }

  function BracketTree(k: nat): Tree
    requires k > 0
  {
    if k == 1 then TEmptyArray([]) else TArray(LastItem(Item([], BracketTree(k - 1), [])))
  }

  lemma {:induction false} BracketsYield(k: nat, mode: Mode)
    requires k > 0
    ensures Valid(BracketTree(k), mode) && Yield(BracketTree(k)) == Brackets(k) && Height(BracketTree(k)) == k - 1
  {
    NoGap();
    assert Text("[]") == [0x5B] + ([] + [0x5D]) && Text("[") == [0x5B] && Text("]") == [0x5D];
    if k > 1 {
      BracketsYield(k - 1, mode);
      assert [] + (Brackets(k - 1) + ([] + [0x5D])) == Brackets(k - 1) + [0x5D];
    }
  }

  /** Two hundred levels around an empty array are accepted, and not one more. */
  lemma NestingLimit(k: nat, c: Config)
    requires k > 0
    ensures Parse(Brackets(k), c).Some? <==> k <= 201
  {
    BracketsYield(k, c.mode);
    hide Yield, Valid, Height, Denote, Parse, Brackets, BracketTree;
    var t := BracketTree(k);
    TreeParses(t, [], [], c);
    NoGap();
    assert [] + (Yield(t) + []) == Yield(t);
  }

  /* ----- failures ----- */

  /** What `parse_multi` is left with when its first value fails: the empty string behind a
      quote, null behind anything else. */
  lemma FirstValueFails(s: bytes, c: Config)
    requires s != [] && s[0] !in [0x20, 0x09, 0x0A, 0x0D, 0x2F] && ScanValue(s, 0, 0, c) == Fail
    ensures ScanMulti(s, 0, 0, c) == ([if s[0] == 0x22 then Str([]) else Null], 0)
  {
    SkipNothing(s, 0, c.mode);
    hide SkipGarbage, ScanValue;
  }

  /* ----- comments ----- */

  predicate NoStarSlash(text: bytes) {
    && (forall k :: 0 <= k < |text| - 1 ==> text[k] == 0x2A ==> text[k + 1] != 0x2F)
    && (text != [] ==> text[|text| - 1] != 0x2A)
  }

  /** Comments before a value are skipped in COMMENTS mode and refused otherwise. */
  lemma Comments(text: bytes, strtod: bytes -> Double)
    ensures 0x0A !in text ==> Parse(([0x2F, 0x2F] + text + [0x0A]) + NULL, Config(COMMENTS, strtod)) == Some(Null)
    ensures NoStarSlash(text) ==>
      Parse(([0x2F, 0x2A] + text + [0x2A, 0x2F]) + NULL, Config(COMMENTS, strtod)) == Some(Null)
    ensures Parse([0x2F] + text, Config(STANDARD, strtod)) == None
  {
    hide Parse;
    var c := Config(COMMENTS, strtod);
    NoGap();
    assert NULL + [] == NULL;
    if 0x0A !in text {
      TreeParses(TNull, [Line(text)], [], c);
      OneGapItem(Line(text));
    }
    if NoStarSlash(text) {
      Closes(text);
      TreeParses(TNull, [Block(text)], [], c);
      OneGapItem(Block(text));
    }
    SlashFails([0x2F] + text, Config(STANDARD, strtod));
  }

  lemma OneGapItem(x: GapItem)
    ensures GapYield([x]) == GapItemYield(x)
  {
    assert [x][1..] == [] && GapItemYield(x) + [] == GapItemYield(x);
  }

  lemma Closes(text: bytes)
    requires NoStarSlash(text)
    ensures ClosesAtEnd(text)
  {
    var w := text + [STAR, SLASH];
    forall k | 0 <= k < |text| ensures !(w[k] == STAR && w[k + 1] == SLASH) {
      assert w[k] == text[k];
      if k < |text| - 1 { assert w[k + 1] == text[k + 1]; }
    }
  }

  lemma SlashFails(s: bytes, c: Config)
    requires s != [] && s[0] == 0x2F && c.mode == STANDARD
    ensures Parse(s, c) == None
  {
    SkipNothing(s, 0, c.mode);
    hide SkipGarbage, ScanString, ScanNumber, ScanItems, ScanFields;
    assert ScanValue(s, 0, 0, c) == Fail;
  }

  /* ----- printing ----- */

  /** How a byte that starts no line separator is printed. */
  lemma PrintedBytes(s: bytes)
    requires s != [] && s[0] != 0xE2
    ensures var rest := DumpChars(s[1..]);
      match s[0]
      case 0x22 => DumpChars(s) == Text("\\\"") + rest
      case 0x5C => DumpChars(s) == Text("\\\\") + rest
      case 0x08 => DumpChars(s) == Text("\\b") + rest
      case 0x0C => DumpChars(s) == Text("\\f") + rest
      case 0x0A => DumpChars(s) == Text("\\n") + rest
      case 0x0D => DumpChars(s) == Text("\\r") + rest
      case 0x09 => DumpChars(s) == Text("\\t") + rest
      case b => DumpChars(s) == (if b < 0x20 then ControlText(b) else [b]) + rest
  {
    assert Text("\\\"") == [0x5C, 0x22] && Text("\\\\") == [0x5C, 0x5C] && Text("\\b") == [0x5C, 0x62];
    assert Text("\\f") == [0x5C, 0x66] && Text("\\n") == [0x5C, 0x6E] && Text("\\r") == [0x5C, 0x72];
    assert Text("\\t") == [0x5C, 0x74];
    if s[0] < 0x20 { ControlIs(s[0]); }
  }

  /** \u and the number of a control character in four lower-case hexadecimal numerals */
  function ControlText(b: byte): bytes
    requires b < 0x20
  {
    Text("\\u00") + [LOWER[b / 16] as int, LOWER[b % 16] as int]
  }

  lemma ControlIs(b: byte)
    requires b < 0x20
    ensures ControlText(b) == [BACKSLASH, LETTER_U] + Hex4(b)
  {
    assert Text("\\u00") == [0x5C, 0x75, 0x30, 0x30];
    var lo := b % 16;
    if lo < 10 { assert LOWER[lo] as int == 0x30 + lo; } else { assert LOWER[lo] as int == 0x61 + (lo - 10); }
    assert LOWER[b / 16] as int == 0x30 + b / 16;
  }

  /** The separators U+2028 and U+2029, and any other character that shares their first byte. */
  lemma PrintedSeparators(s: bytes)
    requires s != [] && s[0] == 0xE2
    ensures |s| >= 3 && s[1] == 0x80 && s[2] == 0xA8 ==>
      DumpChars(s) == [0x5C, 0x75, 0x32, 0x30, 0x32, 0x38] + DumpChars(s[3..])
    ensures |s| >= 3 && s[1] == 0x80 && s[2] == 0xA9 ==>
      DumpChars(s) == [0x5C, 0x75, 0x32, 0x30, 0x32, 0x39] + DumpChars(s[3..])
    ensures !(|s| >= 3 && s[1] == 0x80 && (s[2] == 0xA8 || s[2] == 0xA9)) ==>
      DumpChars(s) == [0xE2] + DumpChars(s[1..])
  {
    DumpOne(s);
    hide DumpChars, DumpChunks, DumpChunk, Hex4;
  }

  /** Scalars, and the separators of arrays and objects, as they are printed. */
  lemma PrintedTexts(x: bytes, d: Double, fmt: real -> bytes)
    ensures Dump(Null, fmt) == Text("null")
    ensures Dump(Bool(true), fmt) == Text("true") && Dump(Bool(false), fmt) == Text("false")
    ensures Dump(Dbl(d), fmt) == if d.Finite? then fmt(d.x) else Text("null")
    ensures Dump(Str(x), fmt) == [0x22] + (DumpChars(x) + [0x22]) && DumpChars([]) == []
    ensures Dump(Arr([]), fmt) == [0x5B, 0x5D] && Dump(Obj([]), fmt) == [0x7B, 0x7D]
  {
    assert Text("null") == NULL;
    assert Text("true") == TRUE;
    assert Text("false") == FALSE;
    hide Text;
  }

  /** Elements are set apart by a comma and a space: what one more element adds. */
  lemma PrintedItems(xs: seq<Json>, a: Json, fmt: real -> bytes)
    ensures Dump(Arr([a]), fmt) == [0x5B] + (Dump(a, fmt) + [0x5D])
    ensures xs != [] ==> var d := Dump(Arr(xs), fmt);
      d != [] && Dump(Arr(xs + [a]), fmt) == d[..|d| - 1] + ([0x2C, 0x20] + Dump(a, fmt)) + [0x5D]
  {
    hide Dump;
    ItemsLast([], true, a, fmt);
    assert [] + [a] == [a] && [] + Dump(a, fmt) == Dump(a, fmt) && DumpItems([], true, fmt) == [];
    ArrayText([a], fmt);
    if xs != [] {
      ItemsLast(xs, true, a, fmt);
      ArrayText(xs, fmt);
      ArrayText(xs + [a], fmt);
      hide DumpItems;
      Reopened(0x5B, DumpItems(xs, true, fmt), [0x2C, 0x20] + Dump(a, fmt), 0x5D);
    }
  }

  lemma Reopened(l: byte, y: bytes, z: bytes, r: byte)
    ensures var d := [l] + (y + [r]); d != [] && [l] + ((y + z) + [r]) == d[..|d| - 1] + z + [r]
  {
    var d := [l] + (y + [r]);
    assert d[..|d| - 1] == [l] + y;
  }

  lemma ArrayText(xs: seq<Json>, fmt: real -> bytes)
    ensures Dump(Arr(xs), fmt) == [0x5B] + (DumpItems(xs, true, fmt) + [0x5D])
  {}

  lemma {:induction false} ItemsLast(xs: seq<Json>, first: bool, a: Json, fmt: real -> bytes)
    ensures DumpItems(xs + [a], first, fmt) ==
      DumpItems(xs, first, fmt) + ((if first && xs == [] then [] else [0x2C, 0x20]) + Dump(a, fmt))
    decreases |xs|
  {
    hide Dump;
    if xs == [] {
      assert xs + [a] == [a] && [a][1..] == [] && DumpItems([], false, fmt) == [];
      assert Dump(a, fmt) + [] == Dump(a, fmt) && [] + (Sep(first) + Dump(a, fmt)) == Sep(first) + Dump(a, fmt);
    } else {
      assert (xs + [a])[1..] == xs[1..] + [a] && (xs + [a])[0] == xs[0];
      ItemsLast(xs[1..], false, a, fmt);
      var z := [0x2C, 0x20] + Dump(a, fmt);
      Assoc(Dump(xs[0], fmt), DumpItems(xs[1..], false, fmt), z);
      Assoc(Sep(first), Dump(xs[0], fmt) + DumpItems(xs[1..], false, fmt), z);
    }
  }

  /** Members are a key, a colon and a space, and a value, set apart like elements. */
  lemma PrintedMembers(ms: seq<Member>, m: Member, fmt: real -> bytes)
    ensures Dump(Obj([m]), fmt) == [0x7B] + (MemberText(m, fmt) + [0x7D])
    ensures ms != [] ==> var d := Dump(Obj(ms), fmt);
      d != [] && Dump(Obj(ms + [m]), fmt) == d[..|d| - 1] + ([0x2C, 0x20] + MemberText(m, fmt)) + [0x7D]
  {
    MembersLast([], true, m, fmt);
    assert [] + [m] == [m] && [] + MemberText(m, fmt) == MemberText(m, fmt) && DumpMembers([], true, fmt) == [];
    ObjectText([m], fmt);
    if ms != [] {
      MembersLast(ms, true, m, fmt);
      ObjectText(ms, fmt);
      ObjectText(ms + [m], fmt);
      hide Dump, DumpMembers, MemberText;
      Reopened(0x7B, DumpMembers(ms, true, fmt), [0x2C, 0x20] + MemberText(m, fmt), 0x7D);
    }
  }

  function MemberText(m: Member, fmt: real -> bytes): bytes {
    Dump(Str(m.key), fmt) + ([0x3A, 0x20] + Dump(m.value, fmt))
  }

  lemma ObjectText(ms: seq<Member>, fmt: real -> bytes)
    ensures Dump(Obj(ms), fmt) == [0x7B] + (DumpMembers(ms, true, fmt) + [0x7D])
  {}

  lemma MemberIs(m: Member, fmt: real -> bytes)
    ensures MemberText(m, fmt) == DumpString(m.key) + (KEY_SEPARATOR + Dump(m.value, fmt))
  {
    hide DumpString;
  }

  lemma {:induction false} MembersLast(ms: seq<Member>, first: bool, m: Member, fmt: real -> bytes)
    ensures DumpMembers(ms + [m], first, fmt) ==
      DumpMembers(ms, first, fmt) + ((if first && ms == [] then [] else [0x2C, 0x20]) + MemberText(m, fmt))
    decreases |ms|
  {
    MemberIs(m, fmt);
    hide Dump, DumpString, MemberText;
    var y := MemberText(m, fmt);
    if ms == [] {
      assert ms + [m] == [m] && [m][1..] == [] && DumpMembers([], false, fmt) == [];
      assert y + [] == y && [] + (Sep(first) + y) == Sep(first) + y;
    } else {
      assert (ms + [m])[1..] == ms[1..] + [m] && (ms + [m])[0] == ms[0];
      MembersLast(ms[1..], false, m, fmt);
      MemberIs(ms[0], fmt);
      var x, z := MemberText(ms[0], fmt), [0x2C, 0x20] + y;
      assert DumpMembers(ms, first, fmt) == Sep(first) + (x + DumpMembers(ms[1..], false, fmt));
      Assoc(x, DumpMembers(ms[1..], false, fmt), z);
      Assoc(Sep(first), x + DumpMembers(ms[1..], false, fmt), z);
    }
  }

  /** Integers are printed in decimal. */
  lemma PrintedIntegers(n: nat)
    ensures n < 10 ==> IntText(n) == [0x30 + n]
    ensures n >= 10 ==> IntText(n) == IntText(n / 10) + [0x30 + n % 10]
    ensures n > 0 ==> IntText(-(n as int)) == [0x2D] + IntText(n)
  {
    assert n > 0 ==> Abs(-(n as int)) == n;
    assert [] + NatText(n) == NatText(n);
    if n >= 10 { assert [] + NatText(n / 10) == NatText(n / 10); }
  }
}
