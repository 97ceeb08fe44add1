/** The JSON text grammar (sections 2 to 7 of RFC 8259, with the comment extension) as
    concrete syntax trees: what bytes a tree spells and what value it denotes. */
module JsonGrammar {
  import opened Arith
  import opened Options
  import opened Bytes
  import opened Utf8
  import opened JsonValue

  const QUOTE: byte := 0x22
  const SLASH: byte := 0x2F
  const STAR: byte := 0x2A
  const BACKSLASH: byte := 0x5C
  const NEWLINE: byte := 0x0A
  const SPACE: byte := 0x20
  const COMMA: byte := 0x2C
  const COLON: byte := 0x3A
  const LBRACKET: byte := 0x5B
  const RBRACKET: byte := 0x5D
  const LBRACE: byte := 0x7B
  const RBRACE: byte := 0x7D
  const MINUS: byte := 0x2D
  const PLUS: byte := 0x2B
  const DOT: byte := 0x2E
  const LETTER_U: byte := 0x75

  const TRUE: bytes := [0x74, 0x72, 0x75, 0x65]
  const FALSE: bytes := [0x66, 0x61, 0x6C, 0x73, 0x65]
  const NULL: bytes := [0x6E, 0x75, 0x6C, 0x6C]

  const MAX_DEPTH := 200

  /** enum JsonParse */
  datatype Mode = STANDARD | COMMENTS

  /** The parsing mode, and the C library's strtod as seen by the parser: a function of
      the characters of the number token. */
  datatype Config = Config(mode: Mode, strtod: bytes -> Double)

  /* ----- gaps between tokens ----- */

  datatype GapItem = Space(b: byte) | Line(text: bytes) | Block(text: bytes)

  type Gap = seq<GapItem>

  predicate IsWs(b: byte) { b == 0x20 || b == 0x0D || b == 0x0A || b == 0x09 }

  function GapItemYield(x: GapItem): bytes {
    match x
    case Space(b) => [b]
    case Line(text) => [SLASH, SLASH] + text + [NEWLINE]
    case Block(text) => [SLASH, STAR] + text + [STAR, SLASH]
  }

  /** The closing star-slash is the first one after the opening. */
  predicate ClosesAtEnd(text: bytes) {
    var w := text + [STAR, SLASH];
    forall k :: 0 <= k < |text| ==> !(w[k] == STAR && w[k + 1] == SLASH)
  }

  predicate ValidGapItem(x: GapItem, mode: Mode) {
    match x
    case Space(b) => IsWs(b)
    case Line(text) => mode == COMMENTS && NEWLINE !in text
    case Block(text) => mode == COMMENTS && ClosesAtEnd(text)
  }

  function GapYield(g: Gap): bytes {
    if g == [] then [] else GapItemYield(g[0]) + GapYield(g[1..])
  }

  predicate ValidGap(g: Gap, mode: Mode) {
    forall k :: 0 <= k < |g| ==> ValidGapItem(g[k], mode)
  }

  /* ----- strings ----- */

  /** One character of a string literal: a raw byte, a two-character escape, or a \u escape. */
  datatype Chunk = Raw(b: byte) | Esc(c: byte) | Uni(h: bytes)

  predicate IsHex(b: byte) { 0x61 <= b <= 0x66 || 0x41 <= b <= 0x46 || 0x30 <= b <= 0x39 }

  function HexDigit(b: byte): (d: nat)
    requires IsHex(b)
    ensures d < 16
  {
    if b >= 0x61 then b - 0x61 + 10 else if b >= 0x41 then b - 0x41 + 10 else b - 0x30
  }

  predicate IsHex4(h: bytes) { |h| == 4 && IsHex(h[0]) && IsHex(h[1]) && IsHex(h[2]) && IsHex(h[3]) }

  function HexValue(h: bytes): (v: nat)
    requires IsHex4(h)
    ensures v <= 0xFFFF
  {
    4096 * HexDigit(h[0]) + 256 * HexDigit(h[1]) + 16 * HexDigit(h[2]) + HexDigit(h[3])
  }

  function EscapedByte(c: byte): Option<byte> {
    match c
    case 0x62 => Some(0x08)
    case 0x66 => Some(0x0C)
    case 0x6E => Some(0x0A)
    case 0x72 => Some(0x0D)
    case 0x74 => Some(0x09)
    case _ => if c == QUOTE || c == BACKSLASH || c == SLASH then Some(c) else None
  }

  predicate ValidChunk(x: Chunk) {
    match x
    case Raw(b) => b >= 0x20 && b != QUOTE && b != BACKSLASH
    case Esc(c) => EscapedByte(c).Some?
    case Uni(h) => IsHex4(h)
  }

  function ChunkYield(x: Chunk): bytes {
    match x
    case Raw(b) => [b]
    case Esc(c) => [BACKSLASH, c]
    case Uni(h) => [BACKSLASH, LETTER_U] + h
  }

  function ChunksYield(cs: seq<Chunk>): bytes {
    if cs == [] then [] else ChunkYield(cs[0]) + ChunksYield(cs[1..])
  }

  predicate ValidChunks(cs: seq<Chunk>) {
    forall k :: 0 <= k < |cs| ==> ValidChunk(cs[k])
  }

  predicate IsLead(cp: int) { 0xD800 <= cp <= 0xDBFF }

  predicate IsTrail(cp: int) { 0xDC00 <= cp <= 0xDFFF }

  /** The code point of a surrogate pair (section 7 of RFC 8259). */
  function PairCode(lead: int, trail: int): int
    requires IsLead(lead) && IsTrail(trail)
  {
    0x10000 + 0x400 * (lead - 0xD800) + (trail - 0xDC00)
  }

  /** The string that a literal denotes: an escaped lead surrogate immediately followed by
      an escaped trail surrogate is one character, any other \u escape stands alone. */
  function DenoteChunks(cs: seq<Chunk>): bytes
    requires ValidChunks(cs)
  {
    if cs == [] then []
    else match cs[0]
      case Raw(b) => [b] + DenoteChunks(cs[1..])
      case Esc(c) => [EscapedByte(c).value] + DenoteChunks(cs[1..])
      case Uni(h) =>
        if IsLead(HexValue(h)) && |cs| > 1 && cs[1].Uni? && IsTrail(HexValue(cs[1].h)) then
          EncodeUtf8(PairCode(HexValue(h), HexValue(cs[1].h))) + DenoteChunks(cs[2..])
        else
          EncodeUtf8(HexValue(h)) + DenoteChunks(cs[1..])
  }

  /* ----- numbers ----- */

  datatype Exponent = Exponent(mark: byte, sign: Option<byte>, digits: bytes)

  datatype Number = Number(neg: bool, whole: bytes, frac: Option<bytes>, exp: Option<Exponent>)

  predicate IsDigit(b: byte) { 0x30 <= b <= 0x39 }

  predicate AllDigits(ds: bytes) { forall k :: 0 <= k < |ds| ==> IsDigit(ds[k]) }

  predicate ValidExponent(e: Exponent) {
    && (e.mark == 0x65 || e.mark == 0x45)
    && (e.sign.Some? ==> e.sign.value == PLUS || e.sign.value == MINUS)
    && e.digits != [] && AllDigits(e.digits)
  }

  predicate ValidNumber(n: Number) {
    && n.whole != [] && AllDigits(n.whole) && (n.whole[0] == 0x30 ==> |n.whole| == 1)
    && (n.frac.Some? ==> n.frac.value != [] && AllDigits(n.frac.value))
    && (n.exp.Some? ==> ValidExponent(n.exp.value))
  }

  function SignYield(neg: bool): bytes { if neg then [MINUS] else [] }

  function FracYield(frac: Option<bytes>): bytes {
    if frac.Some? then [DOT] + frac.value else []
  }

  function ExpSign(e: Exponent): bytes {
    if e.sign.Some? then [e.sign.value] else []
  }

  function ExpYield(exp: Option<Exponent>): bytes {
    if exp.None? then []
    else [exp.value.mark] + (ExpSign(exp.value) + exp.value.digits)
  }

  function NumberYield(n: Number): bytes {
    SignYield(n.neg) + (n.whole + (FracYield(n.frac) + ExpYield(n.exp)))
  }

  function DigitsValue(ds: bytes): int {
    if ds == [] then 0 else 10 * DigitsValue(ds[..|ds| - 1]) + (ds[|ds| - 1] as int - 0x30)
  }

  function IntegerValue(neg: bool, ds: bytes): int {
    if neg then -DigitsValue(ds) else DigitsValue(ds)
  }

  /** std::numeric_limits<int>::digits10 */
  const INT_DIGITS10 := 9

  function Pow10(k: nat): nat { if k == 0 then 1 else 10 * Pow10(k - 1) }

  lemma {:induction false} DigitsBound(ds: bytes)
    requires AllDigits(ds)
    ensures 0 <= DigitsValue(ds) < Pow10(|ds|)
  {
    if ds != [] { DigitsBound(ds[..|ds| - 1]); }
  }

  lemma {:induction false} Pow10Mono(a: nat, b: nat)
    requires a <= b
    ensures Pow10(a) <= Pow10(b)
    decreases b
  {
    if a < b { Pow10Mono(a, b - 1); }
  }

  /** An integer token of at most nine characters always fits an int. */
  lemma ShortIntegerFits(neg: bool, ds: bytes)
    requires AllDigits(ds) && |SignYield(neg) + ds| <= INT_DIGITS10
    ensures -0x8000_0000 <= IntegerValue(neg, ds) < 0x8000_0000
  {
    DigitsBound(ds);
    Pow10Mono(|ds|, 9);
    assert Pow10(9) == 1_000_000_000 by {
      assert Pow10(3) == 1000 && Pow10(6) == 1000 * Pow10(3) && Pow10(9) == 1000 * Pow10(6);
    }
  }

  function DenoteNumber(n: Number, strtod: bytes -> Double): Json
    requires ValidNumber(n)
  {
    if n.frac.None? && n.exp.None? && |SignYield(n.neg) + n.whole| <= INT_DIGITS10 then
      ShortIntegerFits(n.neg, n.whole);
      Int(IntegerValue(n.neg, n.whole))
    else
      Dbl(strtod(NumberYield(n)))
  }

  /* ----- values ----- */

  datatype Tree =
    | TNull
    | TTrue
    | TFalse
    | TNumber(number: Number)
    | TString(chunks: seq<Chunk>)
    | TEmptyArray(gap: Gap)
    | TArray(items: Items)
    | TEmptyObject(gap: Gap)
    | TObject(fields: Fields)

  datatype Item = Item(before: Gap, value: Tree, after: Gap)

  datatype Items = LastItem(item: Item) | MoreItems(item: Item, rest: Items)

  datatype Field = Field(before: Gap, key: seq<Chunk>, beforeColon: Gap, afterColon: Gap, value: Tree, after: Gap)

  datatype Fields = LastField(field: Field) | MoreFields(field: Field, rest: Fields)

  /** A whole text. `tail` is a line comment that the end of the text cuts off. */
  datatype Document = Document(item: Item, tail: Option<bytes>)

  function StringYield(cs: seq<Chunk>): bytes { [QUOTE] + (ChunksYield(cs) + [QUOTE]) }

  function Yield(t: Tree): bytes {
    match t
    case TNull => NULL
    case TTrue => TRUE
    case TFalse => FALSE
    case TNumber(n) => NumberYield(n)
    case TString(cs) => StringYield(cs)
    case TEmptyArray(gap) => [LBRACKET] + (GapYield(gap) + [RBRACKET])
    case TArray(items) => [LBRACKET] + ItemsYield(items)
    case TEmptyObject(gap) => [LBRACE] + (GapYield(gap) + [RBRACE])
    case TObject(fields) => [LBRACE] + FieldsYield(fields)
  }

  function ItemsYield(xs: Items): bytes {
    GapYield(xs.item.before) + (Yield(xs.item.value) + (GapYield(xs.item.after) +
      match xs
      case LastItem(_) => [RBRACKET]
      case MoreItems(_, rest) => [COMMA] + ItemsYield(rest)))
  }

  /** A member up to its colon. */
  function KeyYield(x: Field): bytes {
    GapYield(x.before) + (StringYield(x.key) + (GapYield(x.beforeColon) + [COLON]))
  }

  function FieldsYield(xs: Fields): bytes {
    KeyYield(xs.field) +
      (GapYield(xs.field.afterColon) + (Yield(xs.field.value) + (GapYield(xs.field.after) +
        match xs
        case LastField(_) => [RBRACE]
        case MoreFields(_, rest) => [COMMA] + FieldsYield(rest))))
  }

  function TailYield(tail: Option<bytes>): bytes {
    if tail.Some? then [SLASH, SLASH] + tail.value else []
  }

  function DocumentYield(d: Document): bytes {
    GapYield(d.item.before) + (Yield(d.item.value) + (GapYield(d.item.after) + TailYield(d.tail)))
  }

  predicate Valid(t: Tree, mode: Mode) {
    match t
    case TNumber(n) => ValidNumber(n)
    case TString(cs) => ValidChunks(cs)
    case TEmptyArray(gap) => ValidGap(gap, mode)
    case TArray(items) => ValidItems(items, mode)
    case TEmptyObject(gap) => ValidGap(gap, mode)
    case TObject(fields) => ValidFields(fields, mode)
    case _ => true
  }

  predicate ValidItems(xs: Items, mode: Mode) {
    && ValidGap(xs.item.before, mode) && Valid(xs.item.value, mode) && ValidGap(xs.item.after, mode)
    && (xs.MoreItems? ==> ValidItems(xs.rest, mode))
  }

  predicate ValidKey(x: Field, mode: Mode) {
    ValidGap(x.before, mode) && ValidChunks(x.key) && ValidGap(x.beforeColon, mode)
  }

  predicate ValidFields(xs: Fields, mode: Mode) {
    && ValidKey(xs.field, mode)
    && ValidGap(xs.field.afterColon, mode) && Valid(xs.field.value, mode) && ValidGap(xs.field.after, mode)
    && (xs.MoreFields? ==> ValidFields(xs.rest, mode))
  }

  predicate ValidDocument(d: Document, mode: Mode) {
    && ValidGap(d.item.before, mode) && Valid(d.item.value, mode) && ValidGap(d.item.after, mode)
    && (d.tail.Some? ==> mode == COMMENTS && NEWLINE !in d.tail.value)
  }

  /** Nesting height: scalars and empty containers are flat. */
  function Height(t: Tree): nat {
    match t
    case TArray(items) => 1 + ItemsHeight(items)
    case TObject(fields) => 1 + FieldsHeight(fields)
    case _ => 0
  }

  function ItemsHeight(xs: Items): nat {
    match xs
    case LastItem(x) => Height(x.value)
    case MoreItems(x, rest) => Max(Height(x.value), ItemsHeight(rest))
  }

  function FieldsHeight(xs: Fields): nat {
    match xs
    case LastField(x) => Height(x.value)
    case MoreFields(x, rest) => Max(Height(x.value), FieldsHeight(rest))
  }

  /** `data[key] = value` on a std::map listed in key order */
  function Put(ms: seq<Member>, key: bytes, value: Json): seq<Member> {
    if ms == [] then [Member(key, value)]
    else if ms[0].key == key then [Member(key, value)] + ms[1..]
    else if BytesLess(key, ms[0].key) then [Member(key, value)] + ms
    else [ms[0]] + Put(ms[1..], key, value)
  }

  function Denote(t: Tree, c: Config): Json
    requires Valid(t, c.mode)
  {
    match t
    case TNull => Null
    case TTrue => Bool(true)
    case TFalse => Bool(false)
    case TNumber(n) => DenoteNumber(n, c.strtod)
    case TString(cs) => Str(DenoteChunks(cs))
    case TEmptyArray(_) => Arr([])
    case TArray(items) => Arr(DenoteItems(items, c))
    case TEmptyObject(_) => Obj([])
    case TObject(fields) => Obj(DenoteFields(fields, c, []))
  }

  function DenoteItems(xs: Items, c: Config): seq<Json>
    requires ValidItems(xs, c.mode)
  {
    match xs
    case LastItem(x) => [Denote(x.value, c)]
    case MoreItems(x, rest) => [Denote(x.value, c)] + DenoteItems(rest, c)
  }

  /** Members are entered left to right on top of those already in `ms`. */
  function DenoteFields(xs: Fields, c: Config, ms: seq<Member>): seq<Member>
    requires ValidFields(xs, c.mode)
  {
    var ms1 := Put(ms, DenoteChunks(xs.field.key), Denote(xs.field.value, c));
    match xs
    case LastField(_) => ms1
    case MoreFields(_, rest) => DenoteFields(rest, c, ms1)
  }
}
