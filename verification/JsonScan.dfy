/** What each `JsonParser` routine computes, as functions of the text and the cursor.
    A failed parse is the value `Fail`; nothing else is said about it. */
module JsonScan {
  import opened Options
  import opened Bytes
  import opened Bits
  import opened Utf8
  import opened JsonValue
  import opened JsonGrammar

  /** A result and the cursor after it. */
  datatype Scan<+T> = Fail | Ok(value: T, pos: nat)

  /* ----- white space and comments ----- */

  function SkipWs(s: bytes, i: nat): (j: nat)
    requires i <= |s|
    ensures i <= j <= |s|
    decreases |s| - i
  {
    if i < |s| && IsWs(s[i]) then SkipWs(s, i + 1) else i
  }

  /** First newline at or after `i`, or the end of the text. */
  function LineEnd(s: bytes, i: nat): (j: nat)
    requires i <= |s|
    ensures i <= j <= |s|
    decreases |s| - i
  {
    if i < |s| && s[i] != NEWLINE then LineEnd(s, i + 1) else i
  }

  /** Just after the first star-slash at or after `i`. */
  function BlockEnd(s: bytes, i: nat): (r: Option<nat>)
    ensures r.Some? ==> i < r.value <= |s|
    decreases |s| - i
  {
    if i + 2 > |s| then None
    else if s[i] == STAR && s[i + 1] == SLASH then Some(i + 2)
    else BlockEnd(s, i + 1)
  }

  datatype CommentScan = NoComment | Comment(pos: nat) | BadComment

  function SkipComment(s: bytes, i: nat): (r: CommentScan)
    requires i <= |s|
    ensures r.Comment? ==> i < r.pos <= |s|
  {
    if At(s, i) != SLASH then NoComment
    else if i + 1 == |s| then BadComment
    else if s[i + 1] == SLASH then Comment(LineEnd(s, i + 2))
    else if s[i + 1] == STAR then
      match BlockEnd(s, i + 2)
      case Some(j) => Comment(j)
      case None => BadComment
    else BadComment
  }

  function SkipGarbage(s: bytes, i: nat, mode: Mode): (r: Option<nat>)
    requires i <= |s|
    ensures r.Some? ==> i <= r.value <= |s|
    decreases |s| - i
  {
    var j := SkipWs(s, i);
    if mode == STANDARD then Some(j)
    else match SkipComment(s, j)
      case NoComment => Some(j)
      case Comment(k) => SkipGarbage(s, k, mode)
      case BadComment => None
  }

  /** Position of the next token, if the text has one. */
  function NextToken(s: bytes, i: nat, mode: Mode): (r: Option<nat>)
    requires i <= |s|
    ensures r.Some? ==> i <= r.value < |s|
  {
    match SkipGarbage(s, i, mode)
    case Some(j) => if j == |s| then None else Some(j)
    case None => None
  }

  /* ----- strings ----- */

  /** The expression that reassembles a surrogate pair. */
  function Reassemble(lead: int, trail: int): int
    requires IsLead(lead) && IsTrail(trail)
  {
    BitOr(Shl(lead - 0xD800, 10), trail - 0xDC00) + 0x10000
  }

  /** A string from just after its opening quote (or from the middle of it): `last` is the
      code point of the directly preceding \u escape, not yet written to `out`, or -1. */
  function ScanString(s: bytes, i: nat, last: int, out: bytes): (r: Scan<bytes>)
    requires i <= |s|
    ensures r.Ok? ==> i < r.pos <= |s|
    decreases |s| - i
  {
    if i == |s| then Fail
    else if s[i] == QUOTE then Ok(out + EncodeUtf8(last), i + 1)
    else if s[i] <= 0x1F then Fail
    else if s[i] != BACKSLASH then ScanString(s, i + 1, -1, out + EncodeUtf8(last) + [s[i]])
    else if i + 1 == |s| then Fail
    else if s[i + 1] == LETTER_U then
      if i + 6 > |s| || !IsHex4(s[i + 2..i + 6]) then Fail
      else
        var cp := HexValue(s[i + 2..i + 6]);
        if IsLead(last) && IsTrail(cp) then ScanString(s, i + 6, -1, out + EncodeUtf8(Reassemble(last, cp)))
        else ScanString(s, i + 6, cp, out + EncodeUtf8(last))
    else
      match EscapedByte(s[i + 1])
      case Some(b) => ScanString(s, i + 2, -1, out + EncodeUtf8(last) + [b])
      case None => Fail
  }

  /* ----- numbers and literals ----- */

  function SkipDigits(s: bytes, i: nat): (j: nat)
    requires i <= |s|
    ensures i <= j <= |s| && AllDigits(s[i..j]) && !IsDigit(At(s, j))
    decreases |s| - i
  {
    if i < |s| && IsDigit(s[i]) then
      var j := SkipDigits(s, i + 1);
      assert s[i..j] == [s[i]] + s[i + 1..j];
      j
    else i
  }

  /** std::atoi on a token that is an optional minus and digits. */
  function Atoi(token: bytes): int {
    if token != [] && token[0] == MINUS then IntegerValue(true, token[1..]) else IntegerValue(false, token)
  }

  lemma AtoiFits(token: bytes, neg: bool, ds: bytes)
    requires token == SignYield(neg) + ds && AllDigits(ds) && |token| <= INT_DIGITS10
    ensures Atoi(token) == IntegerValue(neg, ds)
    ensures -0x8000_0000 <= Atoi(token) < 0x8000_0000
  {
    ShortIntegerFits(neg, ds);
    if neg { assert token[1..] == ds; } else { assert token == ds; }
  }

  /** End of the integer part, if it is well formed. */
  function WholeEnd(s: bytes, j: nat): (r: Option<nat>)
    requires j <= |s|
    ensures r.Some? ==> j < r.value <= |s| && AllDigits(s[j..r.value])
  {
    if At(s, j) == 0x30 then if IsDigit(At(s, j + 1)) then None else Some(j + 1)
    else if IsDigit(At(s, j)) then Some(SkipDigits(s, j))
    else None
  }

  function FracEnd(s: bytes, k: nat): (r: Option<nat>)
    requires k <= |s|
    ensures r.Some? ==> k <= r.value <= |s|
  {
    if At(s, k) != DOT then Some(k)
    else if IsDigit(At(s, k + 1)) then Some(SkipDigits(s, k + 1))
    else None
  }

  predicate IsExpMark(b: byte) { b == 0x65 || b == 0x45 }

  function ExpEnd(s: bytes, k: nat): (r: Option<nat>)
    requires k <= |s|
    ensures r.Some? ==> k <= r.value <= |s|
  {
    if !IsExpMark(At(s, k)) then Some(k)
    else
      var m := if At(s, k + 1) == PLUS || At(s, k + 1) == MINUS then k + 2 else k + 1;
      if IsDigit(At(s, m)) then Some(SkipDigits(s, m)) else None
  }

  /** The number token that starts at `i`. */
  function ScanNumber(s: bytes, i: nat, strtod: bytes -> Double): (r: Scan<Json>)
    requires i <= |s|
    ensures r.Ok? ==> i < r.pos <= |s|
  {
    var j := if At(s, i) == MINUS then i + 1 else i;
    match WholeEnd(s, j)
    case None => Fail
    case Some(k) => ScanAfterWhole(s, i, j, k, strtod)
  }

  /** The same, given a sign in [i, j) and an integer part in [j, k). */
  function ScanAfterWhole(s: bytes, i: nat, j: nat, k: nat, strtod: bytes -> Double): (r: Scan<Json>)
    requires i <= j < k <= |s| && s[i..j] == SignYield(j > i) && AllDigits(s[j..k])
    ensures r.Ok? ==> k <= r.pos <= |s|
  {
    if At(s, k) != DOT && !IsExpMark(At(s, k)) && k - i <= INT_DIGITS10 then
      assert s[i..k] == s[i..j] + s[j..k];
      AtoiFits(s[i..k], j > i, s[j..k]);
      Ok(Int(Atoi(s[i..k])), k)
    else
      match FracEnd(s, k)
      case None => Fail
      case Some(m) =>
        match ExpEnd(s, m)
        case None => Fail
        case Some(n) => Ok(Dbl(strtod(s[i..n])), n)
  }

  function ScanLiteral(s: bytes, i: nat, word: bytes, value: Json): (r: Scan<Json>)
    requires i <= |s| && word != []
    ensures r.Ok? ==> i < r.pos <= |s|
  {
    if HasAt(s, i, word) then Ok(value, i + |word|) else Fail
  }

  /* ----- values ----- */

  /** `parse_json(depth)` with the cursor at `i` */
  function ScanValue(s: bytes, i: nat, depth: nat, c: Config): (r: Scan<Json>)
    requires i <= |s|
    ensures r.Ok? ==> i < r.pos <= |s|
    decreases |s| - i, 0
  {
    if depth > MAX_DEPTH then Fail
    else match NextToken(s, i, c.mode)
      case None => Fail
      case Some(j) =>
        var ch := s[j];
        if ch == MINUS || IsDigit(ch) then ScanNumber(s, j, c.strtod)
        else if ch == TRUE[0] then ScanLiteral(s, j, TRUE, Bool(true))
        else if ch == FALSE[0] then ScanLiteral(s, j, FALSE, Bool(false))
        else if ch == NULL[0] then ScanLiteral(s, j, NULL, Null)
        else if ch == QUOTE then
          match ScanString(s, j + 1, -1, [])
          case Ok(str, k) => Ok(Str(str), k)
          case Fail => Fail
        else if ch == LBRACE then
          match NextToken(s, j + 1, c.mode)
          case None => Fail
          case Some(k) =>
            if s[k] == RBRACE then Ok(Obj([]), k + 1)
            else match ScanFields(s, k, depth, c, [])
              case Ok(ms, m) => Ok(Obj(ms), m)
              case Fail => Fail
        else if ch == LBRACKET then
          match NextToken(s, j + 1, c.mode)
          case None => Fail
          case Some(k) =>
            if s[k] == RBRACKET then Ok(Arr([]), k + 1)
            else match ScanItems(s, k, depth, c)
              case Ok(vs, m) => Ok(Arr(vs), m)
              case Fail => Fail
        else Fail
  }

  /** The elements of a nonempty array from the cursor up to and including the bracket. */
  function ScanItems(s: bytes, i: nat, depth: nat, c: Config): (r: Scan<seq<Json>>)
    requires i <= |s|
    ensures r.Ok? ==> i < r.pos <= |s|
    decreases |s| - i, 1
  {
    match ScanValue(s, i, depth + 1, c)
    case Fail => Fail
    case Ok(v, j) => ScanItemsAfter(s, j, v, depth, c)
  }

  /** The same once the first element `v` has been read. */
  function ScanItemsAfter(s: bytes, j: nat, v: Json, depth: nat, c: Config): (r: Scan<seq<Json>>)
    requires j <= |s|
    ensures r.Ok? ==> j < r.pos <= |s|
    decreases |s| - j, 2
  {
    match NextToken(s, j, c.mode)
    case None => Fail
    case Some(k) =>
      if s[k] == RBRACKET then Ok([v], k + 1)
      else if s[k] != COMMA then Fail
      else match ScanItems(s, k + 1, depth, c)
        case Ok(vs, m) => Ok([v] + vs, m)
        case Fail => Fail
  }

  /** A member's key, up to and including the colon. */
  function ScanKey(s: bytes, i: nat, mode: Mode): (r: Scan<bytes>)
    requires i <= |s|
    ensures r.Ok? ==> i < r.pos <= |s|
  {
    match NextToken(s, i, mode)
    case None => Fail
    case Some(j) =>
      if s[j] != QUOTE then Fail
      else match ScanString(s, j + 1, -1, [])
        case Fail => Fail
        case Ok(key, k) =>
          match NextToken(s, k, mode)
          case None => Fail
          case Some(m) => if s[m] == COLON then Ok(key, m + 1) else Fail
  }

  /** The members of a nonempty object, entered on top of `ms`. */
  function ScanFields(s: bytes, i: nat, depth: nat, c: Config, ms: seq<Member>): (r: Scan<seq<Member>>)
    requires i <= |s|
    ensures r.Ok? ==> i < r.pos <= |s|
    decreases |s| - i, 1
  {
    match ScanKey(s, i, c.mode)
    case Fail => Fail
    case Ok(key, j) =>
      match ScanValue(s, j, depth + 1, c)
      case Fail => Fail
      case Ok(v, k) => ScanFieldsAfter(s, k, depth, c, Put(ms, key, v))
  }

  /** The same once a member has been entered. */
  function ScanFieldsAfter(s: bytes, k: nat, depth: nat, c: Config, ms: seq<Member>): (r: Scan<seq<Member>>)
    requires k <= |s|
    ensures r.Ok? ==> k < r.pos <= |s|
    decreases |s| - k, 2
  {
    match NextToken(s, k, c.mode)
    case None => Fail
    case Some(m) =>
      if s[m] == RBRACE then Ok(ms, m + 1)
      else if s[m] != COMMA then Fail
      else ScanFields(s, m + 1, depth, c, ms)
  }

  /** `Json::parse` */
  function Parse(s: bytes, c: Config): (r: Option<Json>) {
    match ScanValue(s, 0, 0, c)
    case Fail => None
    case Ok(v, j) => if SkipGarbage(s, j, c.mode) == Some(|s|) then Some(v) else None
  }
}
