/** What an accepted text means: duplicate keys, escaped Unicode, and comments. */
module JsonMeaning {
  import opened Options
  import opened Bytes
  import opened Utf8
  import opened JsonValue
  import opened JsonGrammar
  import opened JsonScan
  import opened JsonComplete
  import opened JsonSound

  /* ----- objects: sorted keys, the last duplicate wins ----- */

  function Lookup(ms: seq<Member>, key: bytes): Option<Json> {
    if ms == [] then None
    else if ms[0].key == key then Some(ms[0].value)
    else Lookup(ms[1..], key)
  }

  predicate AllAbove(ms: seq<Member>, key: bytes) {
    forall k :: 0 <= k < |ms| ==> BytesLess(key, ms[k].key)
  }

  lemma {:induction false} LookupAbove(ms: seq<Member>, key: bytes)
    requires AllAbove(ms, key)
    ensures Lookup(ms, key) == None
  {
    if ms != [] {
      BytesTrichotomy(key, ms[0].key);
      LookupAbove(ms[1..], key);
    }
  }

  lemma SortedCons(m: Member, ms: seq<Member>)
    requires KeysSorted(ms) && AllAbove(ms, m.key)
    ensures KeysSorted([m] + ms)
  {}

  lemma SortedTail(ms: seq<Member>)
    requires ms != [] && KeysSorted(ms)
    ensures KeysSorted(ms[1..]) && AllAbove(ms[1..], ms[0].key)
  {}

  lemma AboveTransitive(ms: seq<Member>, low: bytes, key: bytes)
    requires BytesLess(low, key) && AllAbove(ms, key)
    ensures AllAbove(ms, low)
  {
    forall k | 0 <= k < |ms| ensures BytesLess(low, ms[k].key) { BytesTransitive(low, key, ms[k].key); }
  }

  /** `data[key] = value` keeps the map sorted and changes only `key`. */
  lemma {:induction false} PutIsUpdate(ms: seq<Member>, key: bytes, value: Json)
    requires KeysSorted(ms)
    ensures KeysSorted(Put(ms, key, value))
    ensures forall q :: Lookup(Put(ms, key, value), q) == if q == key then Some(value) else Lookup(ms, q)
    ensures forall low :: BytesLess(low, key) && AllAbove(ms, low) ==> AllAbove(Put(ms, key, value), low)
  {
    if ms != [] {
      var m := Member(key, value);
      SortedTail(ms);
      BytesTrichotomy(key, ms[0].key);
      if ms[0].key == key {
        SortedCons(m, ms[1..]);
        assert Put(ms, key, value)[1..] == ms[1..];
      } else if BytesLess(key, ms[0].key) {
        AboveTransitive(ms[1..], key, ms[0].key);
        assert ms == [ms[0]] + ms[1..];
        SortedCons(m, ms);
        LookupAbove(ms, key);
        assert Put(ms, key, value)[1..] == ms;
      } else {
        PutIsUpdate(ms[1..], key, value);
        SortedCons(ms[0], Put(ms[1..], key, value));
        assert Put(ms, key, value)[1..] == Put(ms[1..], key, value);
        forall low | BytesLess(low, key) && AllAbove(ms, low) ensures AllAbove(Put(ms, key, value), low) {
          assert BytesLess(low, ms[0].key);
          assert AllAbove(ms[1..], low);
        }
      }
    }
  }

  /** The value of the last member written with `key`. */
  function LastValue(xs: Fields, key: bytes, c: Config): Option<Json>
    requires ValidFields(xs, c.mode)
  {
    var here := if DenoteChunks(xs.field.key) == key then Some(Denote(xs.field.value, c)) else None;
    match xs
    case LastField(_) => here
    case MoreFields(_, rest) => if LastValue(rest, key, c).Some? then LastValue(rest, key, c) else here
  }

  /** An object holds for each key the value of its last occurrence, in sorted key order. */
  lemma {:induction false} LastDuplicateWins(xs: Fields, c: Config, ms: seq<Member>, key: bytes)
    requires ValidFields(xs, c.mode) && KeysSorted(ms)
    ensures KeysSorted(DenoteFields(xs, c, ms))
    ensures Lookup(DenoteFields(xs, c, ms), key) ==
      if LastValue(xs, key, c).Some? then LastValue(xs, key, c) else Lookup(ms, key)
  {
    var k, v := DenoteChunks(xs.field.key), Denote(xs.field.value, c);
    PutIsUpdate(ms, k, v);
    if xs.MoreFields? { LastDuplicateWins(xs.rest, c, Put(ms, k, v), key); }
  }

  predicate ValuesWellFormed(ms: seq<Member>) {
    forall k :: 0 <= k < |ms| ==> WellFormed(ms[k].value)
  }

  lemma {:induction false} PutMembers(ms: seq<Member>, key: bytes, value: Json)
    requires WellFormed(value) && ValuesWellFormed(ms)
    ensures ValuesWellFormed(Put(ms, key, value))
  {
    if ms != [] {
      PutMembers(ms[1..], key, value);
      hide WellFormed;
      assert WellFormed(ms[0].value);
      var r, q := Put(ms, key, value), Put(ms[1..], key, value);
      forall k | 0 <= k < |r| ensures WellFormed(r[k].value) {
        assert r[k].value == value || r[k] in ms || (k > 0 && r[k] == q[k - 1]);
      }
    }
  }

  /** Every value the parser can produce has sorted, distinct keys at every level. */
  lemma {:induction false} DenoteWellFormed(t: Tree, c: Config)
    requires Valid(t, c.mode)
    ensures WellFormed(Denote(t, c))
    decreases t
  {
    match t
    case TArray(items) => DenoteItemsWellFormed(items, c);
    case TObject(fields) => DenoteFieldsWellFormed(fields, c, []);
    case _ =>
  }

  lemma {:induction false} DenoteItemsWellFormed(xs: Items, c: Config)
    requires ValidItems(xs, c.mode)
    ensures forall k :: 0 <= k < |DenoteItems(xs, c)| ==> WellFormed(DenoteItems(xs, c)[k])
    decreases xs
  {
    hide WellFormed;
    DenoteWellFormed(xs.item.value, c);
    if xs.MoreItems? { DenoteItemsWellFormed(xs.rest, c); }
  }

  lemma {:induction false} DenoteFieldsWellFormed(xs: Fields, c: Config, ms: seq<Member>)
    requires ValidFields(xs, c.mode) && KeysSorted(ms) && ValuesWellFormed(ms)
    ensures KeysSorted(DenoteFields(xs, c, ms)) && ValuesWellFormed(DenoteFields(xs, c, ms))
    decreases xs
  {
    var k, v := DenoteChunks(xs.field.key), Denote(xs.field.value, c);
    DenoteWellFormed(xs.field.value, c);
    PutIsUpdate(ms, k, v);
    PutMembers(ms, k, v);
    if xs.MoreFields? { DenoteFieldsWellFormed(xs.rest, c, Put(ms, k, v)); }
  }

  lemma ParseWellFormed(s: bytes, c: Config)
    ensures Parse(s, c).Some? ==> WellFormed(Parse(s, c).value)
  {
    if Parse(s, c).Some? {
      var d := DocumentOf(s, c);
      DenoteWellFormed(d.item.value, c);
    }
  }

  /* ----- Unicode text written as escapes ----- */

  function LeadOf(x: int): int { 0xD800 + (x - 0x10000) / 0x400 }

  function TrailOf(x: int): int { 0xDC00 + (x - 0x10000) % 0x400 }

  /** UTF-16 code units of a text (section 7 of RFC 8259). */
  function Utf16(scalars: seq<int>): seq<int> {
    if scalars == [] then []
    else
      var x := scalars[0];
      (if x < 0x10000 then [x] else [LeadOf(x), TrailOf(x)]) + Utf16(scalars[1..])
  }

  function Utf8Text(scalars: seq<int>): bytes {
    if scalars == [] then [] else EncodeUtf8(scalars[0]) + Utf8Text(scalars[1..])
  }

  predicate AllScalars(scalars: seq<int>) { forall k :: 0 <= k < |scalars| ==> IsScalar(scalars[k]) }

  /** `cs` writes the code units as \u escapes, in any mixture of hex letter cases. */
  predicate Escapes(cs: seq<Chunk>, units: seq<int>) {
    |cs| == |units| &&
    forall k :: 0 <= k < |cs| ==> cs[k].Uni? && Spells(cs[k].h, units[k])
  }

  const UPPER := "0123456789ABCDEF"
  const LOWER := "0123456789abcdef"

  predicate IsNumeral(b: byte, d: int) { 0 <= d < 16 && (b == UPPER[d] as int || b == LOWER[d] as int) }

  /** Four hexadecimal numerals, each in either letter case, for the code unit `u`. */
  predicate Spells(h: bytes, u: int) {
    && |h| == 4 && IsNumeral(h[0], u / 4096) && IsNumeral(h[1], u / 256 % 16)
    && IsNumeral(h[2], u / 16 % 16) && IsNumeral(h[3], u % 16)
  }

  lemma NumeralIs(b: byte, d: int)
    requires IsNumeral(b, d)
    ensures IsHex(b) && HexDigit(b) == d
  {
    if d < 10 { assert UPPER[d] as int == 0x30 + d && LOWER[d] as int == 0x30 + d; }
    else { assert UPPER[d] as int == 0x41 + (d - 10) && LOWER[d] as int == 0x61 + (d - 10); }
  }

  /** `strtol` of the four digits of an escape is what they spell. */
  lemma SpellsHex(h: bytes, u: int)
    requires Spells(h, u)
    ensures IsHex4(h) && HexValue(h) == u
  {
    hide HexDigit, IsHex;
    NumeralIs(h[0], u / 4096);
    NumeralIs(h[1], u / 256 % 16);
    NumeralIs(h[2], u / 16 % 16);
    NumeralIs(h[3], u % 16);
    hide IsNumeral;
    Base16Digits(u);
  }

  lemma Base16Digits(u: int)
    ensures u == 4096 * (u / 4096) + 256 * (u / 256 % 16) + 16 * (u / 16 % 16) + u % 16
  {
    var x := u / 16;
    var y := x / 16;
    assert u == 16 * x + u % 16 && x == 16 * y + x % 16 && y == 16 * (y / 16) + y % 16;
    assert u / 256 == y && u / 4096 == y / 16;
  }

  lemma {:induction false} EscapesDenote(scalars: seq<int>, cs: seq<Chunk>)
    requires AllScalars(scalars) && Escapes(cs, Utf16(scalars))
    ensures ValidChunks(cs) && DenoteChunks(cs) == Utf8Text(scalars)
    decreases |scalars|
  {
    hide HexValue, EncodeUtf8, IsHex4, DenoteChunks, Spells;
    if scalars != [] {
      var x, rest := scalars[0], scalars[1..];
      assert IsScalar(x);
      if x < 0x10000 {
        EscapesRest(cs, [x], Utf16(rest));
        SpellsHex(cs[0].h, x);
        EscapesDenote(rest, cs[1..]);
        SingleDenotes(cs[0], cs[1..], x);
        assert cs == [cs[0]] + cs[1..];
      } else {
        EscapesRest(cs, [LeadOf(x), TrailOf(x)], Utf16(rest));
        SpellsHex(cs[0].h, LeadOf(x));
        SpellsHex(cs[1].h, TrailOf(x));
        EscapesDenote(rest, cs[2..]);
        PairDenotes(cs[0], cs[1], cs[2..], x);
        assert cs == [cs[0], cs[1]] + cs[2..];
      }
    } else {
      NoChunks();
    }
  }

  lemma NoChunks()
    ensures DenoteChunks([]) == []
  {}

  lemma EscapesRest(cs: seq<Chunk>, first: seq<int>, rest: seq<int>)
    requires Escapes(cs, first + rest)
    ensures Escapes(cs[..|first|], first) && Escapes(cs[|first|..], rest)
  {
    hide Spells;
    forall k | 0 <= k < |rest| ensures (first + rest)[|first| + k] == rest[k] {}
  }

  lemma SingleDenotes(c: Chunk, cs: seq<Chunk>, x: int)
    requires c.Uni? && IsHex4(c.h) && HexValue(c.h) == x && !IsLead(x) && ValidChunks(cs)
    ensures ValidChunks([c] + cs) && DenoteChunks([c] + cs) == EncodeUtf8(x) + DenoteChunks(cs)
  {
    hide HexValue, EncodeUtf8, IsHex4;
    assert ([c] + cs)[1..] == cs;
  }

  lemma PairDenotes(c: Chunk, d: Chunk, cs: seq<Chunk>, x: int)
    requires 0x10000 <= x < 0x110000 && ValidChunks(cs)
    requires c.Uni? && IsHex4(c.h) && HexValue(c.h) == LeadOf(x)
    requires d.Uni? && IsHex4(d.h) && HexValue(d.h) == TrailOf(x)
    ensures ValidChunks([c, d] + cs) && DenoteChunks([c, d] + cs) == EncodeUtf8(x) + DenoteChunks(cs)
  {
    PairOf(x);
    hide HexValue, EncodeUtf8, IsHex4, LeadOf, TrailOf, PairCode, IsLead, IsTrail;
    assert ([c, d] + cs)[2..] == cs;
  }

  lemma PairOf(x: int)
    requires 0x10000 <= x < 0x110000
    ensures IsLead(LeadOf(x)) && IsTrail(TrailOf(x)) && PairCode(LeadOf(x), TrailOf(x)) == x
  {}

  /** Reading a string literal that spells any Unicode text in \u escapes gives exactly the
      UTF-8 encoding of the text. */
  lemma EscapedTextParses(scalars: seq<int>, cs: seq<Chunk>, t: bytes)
    requires AllScalars(scalars) && Escapes(cs, Utf16(scalars))
    ensures ScanString(StringYield(cs) + t, 1, -1, []) == Ok(Utf8Text(scalars), |StringYield(cs)|)
  {
    hide StringYield, ScanString, Escapes, DenoteChunks, Utf8Text, Utf16, AllScalars, ValidChunks;
    EscapesDenote(scalars, cs);
    LiteralParses(cs, t);
  }

  lemma LiteralParses(cs: seq<Chunk>, t: bytes)
    requires ValidChunks(cs)
    ensures ScanString(StringYield(cs) + t, 1, -1, []) == Ok(DenoteChunks(cs), |StringYield(cs)|)
  {
    hide HasAt, StringYield, ScanString, DenoteChunks, ValidChunks;
    var s := StringYield(cs) + t;
    WholeText(s);
    HasAtSplit(s, 0, StringYield(cs), t);
    StringLiteralAt(s, 0, cs);
  }

  /* ----- comments ----- */

  /** The tree with every gap emptied: its tokens and nothing else. */
  function Strip(t: Tree): Tree {
    match t
    case TEmptyArray(_) => TEmptyArray([])
    case TArray(items) => TArray(StripItems(items))
    case TEmptyObject(_) => TEmptyObject([])
    case TObject(fields) => TObject(StripFields(fields))
    case _ => t
  }

  function StripItems(xs: Items): Items {
    var x := Item([], Strip(xs.item.value), []);
    match xs
    case LastItem(_) => LastItem(x)
    case MoreItems(_, rest) => MoreItems(x, StripItems(rest))
  }

  function StripFields(xs: Fields): Fields {
    var x := Field([], xs.field.key, [], [], Strip(xs.field.value), []);
    match xs
    case LastField(_) => LastField(x)
    case MoreFields(_, rest) => MoreFields(x, StripFields(rest))
  }

  lemma {:induction false} SameMeaning(t: Tree, u: Tree, c: Config, e: Config)
    requires Strip(t) == Strip(u) && Valid(t, c.mode) && Valid(u, e.mode) && c.strtod == e.strtod
    ensures Denote(t, c) == Denote(u, e) && Height(t) == Height(u)
    decreases t
  {
    match t
    case TArray(items) => SameMeaningItems(items, u.items, c, e);
    case TObject(fields) => SameMeaningFields(fields, u.fields, c, e, []);
    case _ =>
  }

  lemma {:induction false} SameMeaningItems(xs: Items, ys: Items, c: Config, e: Config)
    requires StripItems(xs) == StripItems(ys) && ValidItems(xs, c.mode) && ValidItems(ys, e.mode)
      && c.strtod == e.strtod
    ensures DenoteItems(xs, c) == DenoteItems(ys, e) && ItemsHeight(xs) == ItemsHeight(ys)
    decreases xs
  {
    SameMeaning(xs.item.value, ys.item.value, c, e);
    if xs.MoreItems? { SameMeaningItems(xs.rest, ys.rest, c, e); }
  }

  lemma {:induction false} SameMeaningFields(xs: Fields, ys: Fields, c: Config, e: Config, ms: seq<Member>)
    requires StripFields(xs) == StripFields(ys) && ValidFields(xs, c.mode) && ValidFields(ys, e.mode)
      && c.strtod == e.strtod
    ensures DenoteFields(xs, c, ms) == DenoteFields(ys, e, ms) && FieldsHeight(xs) == FieldsHeight(ys)
    decreases xs
  {
    SameMeaning(xs.field.value, ys.field.value, c, e);
    if xs.MoreFields? {
      SameMeaningFields(xs.rest, ys.rest, c, e, Put(ms, DenoteChunks(xs.field.key), Denote(xs.field.value, c)));
    }
  }

  /** Take any text that standard parsing accepts. Rewriting the gaps between its tokens to
      any mixture of white space and comments leaves what comment-mode parsing returns. */
  lemma CommentsAreTransparent(s: bytes, strtod: bytes -> Double) returns (d: Document)
    requires Parse(s, Config(STANDARD, strtod)).Some?
    ensures ValidDocument(d, STANDARD) && DocumentYield(d) == s
    ensures forall e: Document :: ValidDocument(e, COMMENTS) && Strip(e.item.value) == Strip(d.item.value) ==>
      Parse(DocumentYield(e), Config(COMMENTS, strtod)) == Parse(s, Config(STANDARD, strtod))
  {
    var std, com := Config(STANDARD, strtod), Config(COMMENTS, strtod);
    d := DocumentOf(s, std);
    forall e: Document | ValidDocument(e, COMMENTS) && Strip(e.item.value) == Strip(d.item.value)
      ensures Parse(DocumentYield(e), com) == Parse(s, std)
    {
      SameMeaning(d.item.value, e.item.value, std, com);
      DocumentParses(e, com);
    }
  }
}
