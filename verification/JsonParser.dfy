/** `JsonParser`, the cursor machine with its sticky failure flag, proved against the
    functions of `JsonScan`; and `Json::parse` and `Json::parse_multi` on top of it. */
module JsonParsing {
  import opened Options
  import opened Bytes
  import opened Utf8
  import opened JsonValue
  import opened JsonGrammar
  import opened JsonScan
  import opened JsonComplete

  /** What `parse_json` hands back when it fails: a failed top-level string is the empty
      string, everything else is null. */
  function FailedValue(s: bytes, i: nat, depth: nat, c: Config): Json
    requires i <= |s|
  {
    var t := NextToken(s, i, c.mode);
    if depth <= MAX_DEPTH && t.Some? && s[t.value] == QUOTE then Str([]) else Null
  }

  /** Elements already read, in front of the rest of the array. */
  function Prepend(vs: seq<Json>, r: Scan<seq<Json>>): Scan<seq<Json>> {
    match r
    case Ok(ws, pos) => Ok(vs + ws, pos)
    case Fail => Fail
  }

  class JsonParser {
    const str: bytes
    const cfg: Config
    var i: nat
    var failed: bool

    constructor (str: bytes, cfg: Config)
      ensures this.str == str && this.cfg == cfg && i == 0 && !failed && Valid()
    {
      this.str, this.cfg, i, failed := str, cfg, 0, false;
    }

    /** The cursor never leaves the text. */
    predicate Valid()
      reads this
    {
      i <= |str|
    }

    method ConsumeWhitespace()
      requires Valid()
      modifies this`i
      ensures Valid() && i == SkipWs(str, old(i))
    {
      while IsWs(At(str, i))
        invariant Valid() && SkipWs(str, i) == SkipWs(str, old(i))
        decreases |str| - i
      {
        i := i + 1;
      }
    }

    method ConsumeComment() returns (found: bool)
      requires Valid()
      modifies this
      ensures Valid() && old(i) <= i
      ensures match SkipComment(str, old(i))
        case NoComment => !found && i == old(i) && failed == old(failed)
        case Comment(k) => found && i == k && failed == old(failed)
        case BadComment => !found && failed
    {
      found := false;
      if At(str, i) == SLASH {
        i := i + 1;
        if i == |str| {
          failed := true;
          return;
        }
        if str[i] == SLASH {
          i := i + 1;
          while i < |str| && str[i] != NEWLINE
            invariant Valid() && old(i) <= i && failed == old(failed) && LineEnd(str, i) == LineEnd(str, old(i) + 2)
          {
            i := i + 1;
          }
          found := true;
        } else if str[i] == STAR {
          i := i + 1;
          if i > |str| - 2 {
            failed := true;
            return;
          }
          while !(str[i] == STAR && str[i + 1] == SLASH)
            invariant old(i) + 2 <= i <= |str| - 2 && failed == old(failed)
            invariant BlockEnd(str, i) == BlockEnd(str, old(i) + 2)
            decreases |str| - i
          {
            i := i + 1;
            if i > |str| - 2 {
              failed := true;
              return;
            }
          }
          i := i + 2;
          found := true;
        } else {
          failed := true;
        }
      }
    }

    method ConsumeGarbage()
      requires Valid()
      modifies this
      ensures Valid() && old(i) <= i && (old(failed) ==> failed)
      ensures !old(failed) ==> failed == SkipGarbage(str, old(i), cfg.mode).None?
      ensures !failed ==> SkipGarbage(str, old(i), cfg.mode) == Some(i)
    {
      ConsumeWhitespace();
      SkipWsStops(str, old(i));
      if cfg.mode == COMMENTS {
        var found := true;
        while found
          invariant Valid() && old(i) <= i && failed == old(failed)
          invariant SkipWs(str, i) == i
          invariant SkipGarbage(str, i, cfg.mode) == SkipGarbage(str, old(i), cfg.mode)
          invariant !found ==> SkipGarbage(str, i, cfg.mode) == Some(i)
          decreases |str| - i, found
        {
          found := ConsumeComment();
          if failed { return; }
          label L: ConsumeWhitespace();
          SkipWsStops(str, old@L(i));
        }
      }
    }

    method GetNextToken() returns (ch: byte)
      requires Valid()
      modifies this
      ensures Valid() && old(i) <= i && (old(failed) ==> failed)
      ensures !old(failed) ==> failed == NextToken(str, old(i), cfg.mode).None?
      ensures failed ==> ch == 0
      ensures !failed ==> NextToken(str, old(i), cfg.mode) == Some(i - 1) && ch == str[i - 1] && old(i) < i
    {
      ConsumeGarbage();
      if failed { return 0; }
      if i == |str| {
        failed := true;
        return 0;
      }
      ch := str[i];
      i := i + 1;
    }

    method ParseString() returns (out: bytes)
      requires Valid()
      modifies this
      ensures Valid() && old(i) <= i
      ensures match ScanString(str, old(i), -1, [])
        case Ok(v, j) => out == v && i == j && failed == old(failed)
        case Fail => out == [] && failed
    {
      hide EncodeUtf8, Reassemble, HexValue, IsLead, IsTrail, EscapedByte;
      out := [];
      var last: int := -1;
      while true
        invariant Valid() && old(i) <= i && failed == old(failed)
        invariant ScanString(str, i, last, out) == ScanString(str, old(i), -1, [])
        decreases |str| - i
      {
        if i == |str| {
          failed := true;
          return [];
        }
        var ch := str[i];
        i := i + 1;
        if ch == QUOTE {
          out := out + EncodeUtf8(last);
          return;
        }
        if ch <= 0x1F {
          failed := true;
          return [];
        }
        if ch != BACKSLASH {
          out := out + EncodeUtf8(last);
          last := -1;
          out := out + [ch];
          continue;
        }
        if i == |str| {
          failed := true;
          return [];
        }
        ch := str[i];
        i := i + 1;
        if ch == LETTER_U {
          var esc := str[i..if i + 4 <= |str| then i + 4 else |str|];
          if |esc| < 4 || !IsHex4(esc) {
            failed := true;
            return [];
          }
          var codepoint := HexValue(esc);
          if IsLead(last) && IsTrail(codepoint) {
            out := out + EncodeUtf8(Reassemble(last, codepoint));
            last := -1;
          } else {
            out := out + EncodeUtf8(last);
            last := codepoint;
          }
          i := i + 4;
          continue;
        }
        out := out + EncodeUtf8(last);
        last := -1;
        match EscapedByte(ch) {
          case Some(b) => out := out + [b];
          case None =>
            failed := true;
            return [];
        }
      }
    }

    method SkipAllDigits()
      requires Valid()
      modifies this`i
      ensures Valid() && i == SkipDigits(str, old(i))
    {
      while IsDigit(At(str, i))
        invariant Valid() && SkipDigits(str, i) == SkipDigits(str, old(i))
        decreases |str| - i
      {
        i := i + 1;
      }
    }

    method ParseNumber() returns (v: Json)
      requires Valid() && !failed
      modifies this
      ensures Valid() && old(i) <= i
      ensures match ScanNumber(str, old(i), cfg.strtod)
        case Ok(w, j) => v == w && i == j && !failed
        case Fail => v == Null && failed
    {
      hide WholeEnd, ScanAfterWhole;
      var start := i;
      if At(str, i) == MINUS { i := i + 1; }
      var whole := i;
      SkipWhole();
      if failed { return Null; }
      SignSlice(str, start, whole);
      v := ParseFraction(start, whole);
    }

    /** The integer part. */
    method SkipWhole()
      requires Valid() && !failed
      modifies this
      ensures Valid() && old(i) <= i
      ensures match WholeEnd(str, old(i))
        case Some(k) => i == k && !failed
        case None => failed
    {
      if At(str, i) == 0x30 {
        i := i + 1;
        if IsDigit(At(str, i)) { failed := true; }
      } else if IsDigit(At(str, i)) {
        i := i + 1;
        SkipAllDigits();
      } else {
        failed := true;
      }
    }

    /** `parse_number` from the end of the integer part on. */
    method ParseFraction(start: nat, whole: nat) returns (v: Json)
      requires Valid() && !failed && start <= whole < i
      requires str[start..whole] == SignYield(whole > start) && AllDigits(str[whole..i])
      modifies this
      ensures Valid() && old(i) <= i
      ensures match ScanAfterWhole(str, start, whole, old(i), cfg.strtod)
        case Ok(w, j) => v == w && i == j && !failed
        case Fail => v == Null && failed
    {
      if At(str, i) != DOT && !IsExpMark(At(str, i)) && i - start <= INT_DIGITS10 {
        IntegerToken(str, start, whole, i);
        return Int(Atoi(str[start..i]));
      }

      hide Atoi, FracEnd, ExpEnd;
      SkipFraction();
      if failed { return Null; }
      SkipExponent();
      if failed { return Null; }
      return Dbl(cfg.strtod(str[start..i]));
    }

    /** The decimal part, if there is one. */
    method SkipFraction()
      requires Valid()
      modifies this
      ensures Valid() && old(i) <= i
      ensures match FracEnd(str, old(i))
        case Some(k) => i == k && failed == old(failed)
        case None => failed
    {
      if At(str, i) == DOT {
        i := i + 1;
        if !IsDigit(At(str, i)) {
          failed := true;
          return;
        }
        SkipAllDigits();
      }
    }

    /** The exponent part, if there is one. */
    method SkipExponent()
      requires Valid()
      modifies this
      ensures Valid() && old(i) <= i
      ensures match ExpEnd(str, old(i))
        case Some(k) => i == k && failed == old(failed)
        case None => failed
    {
      if IsExpMark(At(str, i)) {
        i := i + 1;
        if At(str, i) == PLUS || At(str, i) == MINUS { i := i + 1; }
        if !IsDigit(At(str, i)) {
          failed := true;
          return;
        }
        SkipAllDigits();
      }
    }

    method Expect(expected: bytes, res: Json) returns (v: Json)
      requires Valid() && 0 < i && expected != []
      modifies this
      ensures Valid() && old(i) <= i + 1
      ensures match ScanLiteral(str, old(i) - 1, expected, res)
        case Ok(w, j) => v == w && i == j && failed == old(failed)
        case Fail => v == Null && failed
    {
      i := i - 1;
      if HasAt(str, i, expected) {
        i := i + |expected|;
        return res;
      }
      failed := true;
      return Null;
    }

    /** `parse_json`: it succeeds exactly when `ScanValue` does, with its value and cursor;
        called after a failure it stays failed. */
    method ParseJson(depth: nat) returns (v: Json)
      requires Valid() && depth <= MAX_DEPTH + 1
      modifies this
      ensures Valid() && (old(failed) ==> failed && v == Null)
      ensures !old(failed) ==> match ScanValue(str, old(i), depth, cfg)
        case Ok(w, j) => v == w && i == j && !failed
        case Fail => failed && v == FailedValue(str, old(i), depth, cfg)
      decreases MAX_DEPTH + 1 - depth, 2
    {
      hide NextToken, ScanNumber, ScanString, ScanLiteral, ScanItems, ScanFields;
      if depth > MAX_DEPTH {
        failed := true;
        return Null;
      }
      var ch := GetNextToken();
      if failed { return Null; }

      if ch == MINUS || IsDigit(ch) {
        i := i - 1;
        v := ParseNumber();
      } else if ch == TRUE[0] {
        v := Expect(TRUE, Bool(true));
      } else if ch == FALSE[0] {
        v := Expect(FALSE, Bool(false));
      } else if ch == NULL[0] {
        v := Expect(NULL, Null);
      } else if ch == QUOTE {
        var s := ParseString();
        v := Str(s);
      } else if ch == LBRACE {
        v := ParseObject(depth);
      } else if ch == LBRACKET {
        v := ParseArray(depth);
      } else {
        failed := true;
        v := Null;
      }
    }

    /** The object branch of `parse_json`, entered after its brace. */
    method ParseObject(depth: nat) returns (v: Json)
      requires Valid() && !failed && depth <= MAX_DEPTH
      modifies this
      ensures Valid()
      ensures match ObjectFrom(str, old(i), depth, cfg)
        case Ok(w, j) => v == w && i == j && !failed
        case Fail => failed && v == Null
      decreases MAX_DEPTH + 1 - depth, 1
    {
      hide NextToken, ScanString, ScanValue;
      var data: seq<Member> := [];
      var ch := GetNextToken();
      if ch == RBRACE { return Obj(data); }
      ghost var goal := if failed then Fail else ScanFields(str, i - 1, depth, cfg, []);
      if !failed { NextTokenSettles(str, old(i), i - 1, cfg.mode); }
      while true
        invariant Valid() && (failed ==> ch == 0 && goal == Fail)
        invariant !failed ==> 0 < i && ch == str[i - 1] && NextToken(str, i - 1, cfg.mode) == Some(i - 1)
        invariant !failed ==> ScanFields(str, i - 1, depth, cfg, data) == goal
        decreases !failed, |str| - i
      {
        hide ScanKey;
        if ch != QUOTE {
          if !failed { NotAKey(str, i - 1, cfg.mode); }
          failed := true;
          return Null;
        }
        var key, value := ParseMember(depth);
        data := Put(data, key, value);
        if failed { return Null; }
        ghost var mid := i;
        assert goal == ScanFieldsAfter(str, mid, depth, cfg, data);
        hide ScanFields, Put;
        ch := GetNextToken();
        if ch == RBRACE { break; }
        if ch != COMMA {
          failed := true;
          return Null;
        }
        ghost var comma := i;
        assert goal == ScanFields(str, comma, depth, cfg, data);
        ch := GetNextToken();
        if !failed {
          NextTokenSettles(str, comma, i - 1, cfg.mode);
          ScanFieldsFrom(str, comma, i - 1, depth, cfg, data);
        } else {
          NoFields(str, comma, depth, cfg, data);
        }
      }
      return Obj(data);
    }

    /** One member, entered after the opening quote of its key. */
    method ParseMember(depth: nat) returns (key: bytes, value: Json)
      requires Valid() && !failed && depth <= MAX_DEPTH && 0 < i
      requires str[i - 1] == QUOTE && NextToken(str, i - 1, cfg.mode) == Some(i - 1)
      modifies this
      ensures Valid()
      ensures match ScanKey(str, old(i) - 1, cfg.mode)
        case Fail => failed
        case Ok(k, j) =>
          match ScanValue(str, j, depth + 1, cfg)
          case Ok(v, m) => key == k && value == v && i == m && !failed
          case Fail => failed
      decreases MAX_DEPTH + 1 - depth, 0
    {
      hide NextToken, ScanString, ScanValue;
      value := Null;
      key := ParseString();
      if failed { return; }
      var ch := GetNextToken();
      if ch != COLON {
        failed := true;
        return;
      }
      value := ParseJson(depth + 1);
    }

    /** The array branch of `parse_json`, entered after its bracket. */
    method ParseArray(depth: nat) returns (v: Json)
      requires Valid() && !failed && depth <= MAX_DEPTH && 0 < i
      modifies this
      ensures Valid()
      ensures match ArrayFrom(str, old(i), depth, cfg)
        case Ok(w, j) => v == w && i == j && !failed
        case Fail => failed && v == Null
      decreases MAX_DEPTH + 1 - depth, 0
    {
      hide NextToken, ScanValue;
      var data: seq<Json> := [];
      var ch := GetNextToken();
      if ch == RBRACKET { return Arr(data); }
      ghost var goal := if failed then Fail else ScanItems(str, i - 1, depth, cfg);
      PrependNothing(goal);
      hide ScanItems, ScanItemsAfter, Prepend;
      while true
        invariant Valid() && 0 < i && (failed ==> goal == Fail)
        invariant !failed ==> Prepend(data, ScanItems(str, i - 1, depth, cfg)) == goal
        decreases !failed, |str| - i
      {
        i := i - 1;
        if !failed { FirstElement(str, i, depth, cfg, data); }
        var value := ParseJson(depth + 1);
        ghost var before := data;
        data := data + [value];
        if failed { return Null; }
        AfterElement(str, i, value, depth, cfg, before);
        ch := GetNextToken();
        if ch == RBRACKET { break; }
        if ch != COMMA {
          failed := true;
          return Null;
        }
        ghost var comma := i;
        ch := GetNextToken();
        if !failed {
          ScanItemsFrom(str, comma, i - 1, depth, cfg);
        } else {
          NoItems(str, comma, depth, cfg, data);
        }
      }
      return Arr(data);
    }
  }

  lemma IntegerToken(s: bytes, i: nat, j: nat, k: nat)
    requires i <= j <= k <= |s| && s[i..j] == SignYield(j > i) && AllDigits(s[j..k]) && k - i <= INT_DIGITS10
    ensures -0x8000_0000 <= Atoi(s[i..k]) < 0x8000_0000
  {
    hide AllDigits, Atoi;
    assert s[i..k] == s[i..j] + s[j..k];
    AtoiFits(s[i..k], j > i, s[j..k]);
  }

  lemma SignSlice(s: bytes, i: nat, j: nat)
    requires i <= j <= i + 1 && j <= |s| && (j > i ==> s[i] == MINUS)
    ensures s[i..j] == SignYield(j > i)
  {}

  function ObjectFrom(s: bytes, i: nat, depth: nat, c: Config): Scan<Json>
    requires i <= |s|
  {
    match NextToken(s, i, c.mode)
    case None => Fail
    case Some(k) =>
      if s[k] == RBRACE then Ok(Obj([]), k + 1)
      else match ScanFields(s, k, depth, c, [])
        case Ok(ms, m) => Ok(Obj(ms), m)
        case Fail => Fail
  }

  function ArrayFrom(s: bytes, i: nat, depth: nat, c: Config): Scan<Json>
    requires i <= |s|
  {
    match NextToken(s, i, c.mode)
    case None => Fail
    case Some(k) =>
      if s[k] == RBRACKET then Ok(Arr([]), k + 1)
      else match ScanItems(s, k, depth, c)
        case Ok(vs, m) => Ok(Arr(vs), m)
        case Fail => Fail
  }

  lemma PrependNothing(r: Scan<seq<Json>>)
    ensures Prepend([], r) == r
  {
    if r.Ok? { assert [] + r.value == r.value; }
  }

  lemma FirstElement(s: bytes, i: nat, depth: nat, c: Config, data: seq<Json>)
    requires i <= |s|
    ensures Prepend(data, ScanItems(s, i, depth, c)) ==
      match ScanValue(s, i, depth + 1, c)
      case Fail => Fail
      case Ok(v, j) => Prepend(data, ScanItemsAfter(s, j, v, depth, c))
  {
    hide ScanValue, ScanItemsAfter;
  }

  lemma AfterElement(s: bytes, j: nat, v: Json, depth: nat, c: Config, data: seq<Json>)
    requires j <= |s|
    ensures Prepend(data, ScanItemsAfter(s, j, v, depth, c)) ==
      match NextToken(s, j, c.mode)
      case None => Fail
      case Some(k) =>
        if s[k] == RBRACKET then Ok(data + [v], k + 1)
        else if s[k] != COMMA then Fail
        else Prepend(data + [v], ScanItems(s, k + 1, depth, c))
  {
    hide NextToken, ScanItems;
    if NextToken(s, j, c.mode).Some? {
      var r := ScanItems(s, NextToken(s, j, c.mode).value + 1, depth, c);
      if r.Ok? { Assoc(data, [v], r.value); }
    }
  }

  lemma NotAKey(s: bytes, i: nat, mode: Mode)
    requires i < |s| && NextToken(s, i, mode) == Some(i) && s[i] != QUOTE
    ensures ScanKey(s, i, mode) == Fail
  {
    hide NextToken, ScanString;
  }

  lemma NoFields(s: bytes, i: nat, depth: nat, c: Config, ms: seq<Member>)
    requires i <= |s| && NextToken(s, i, c.mode).None?
    ensures ScanFields(s, i, depth, c, ms) == Fail
  {}

  lemma NoItems(s: bytes, i: nat, depth: nat, c: Config, data: seq<Json>)
    requires i <= |s| && NextToken(s, i, c.mode).None?
    ensures Prepend(data, ScanItems(s, i, depth, c)) == Fail
  {}

  /** `Json::parse`; `ok` is false when the source reports an error. */
  method ParseText(text: bytes, cfg: Config) returns (result: Json, ok: bool)
    ensures ok <==> Parse(text, cfg).Some?
    ensures result == if ok then Parse(text, cfg).value else Null
  {
    var parser := new JsonParser(text, cfg);
    result := parser.ParseJson(0);
    parser.ConsumeGarbage();
    if parser.failed { return Null, false; }
    if parser.i != |text| { return Null, false; }
    return result, true;
  }

  /** `Json::parse_multi` from cursor `i`: the values read, and the stop position, which
      stays at `stop` until another value has been read cleanly. */
  function ScanMulti(s: bytes, i: nat, stop: nat, c: Config): (r: (seq<Json>, nat))
    requires i <= |s|
    decreases |s| - i
  {
    if i == |s| then ([], stop)
    else match ScanValue(s, i, 0, c)
      case Fail => ([FailedValue(s, i, 0, c)], stop)
      case Ok(v, j) =>
        match SkipGarbage(s, j, c.mode)
        case None => ([v], stop)
        case Some(k) =>
          var r := ScanMulti(s, k, k, c);
          ([v] + r.0, r.1)
  }

  method ParseMulti(text: bytes, cfg: Config) returns (values: seq<Json>, stop: nat, ok: bool)
    ensures (values, stop) == ScanMulti(text, 0, 0, cfg)
    ensures ok <==> stop == |text|
  {
    var parser := new JsonParser(text, cfg);
    stop := 0;
    values := [];
    assert [] + ScanMulti(text, 0, 0, cfg).0 == ScanMulti(text, 0, 0, cfg).0;
    while parser.i != |text| && !parser.failed
      invariant parser.str == text && parser.cfg == cfg && parser.Valid() && !parser.failed && parser.i == stop
      invariant var r := ScanMulti(text, parser.i, stop, cfg); ScanMulti(text, 0, 0, cfg) == (values + r.0, r.1)
      decreases |text| - parser.i
    {
      ghost var i, before := parser.i, values;
      var value := parser.ParseJson(0);
      values := values + [value];
      if parser.failed {
        assert ScanMulti(text, i, stop, cfg) == ([value], stop);
        break;
      }
      ghost var j := parser.i;
      parser.ConsumeGarbage();
      if parser.failed {
        assert ScanMulti(text, i, stop, cfg) == ([value], stop);
        break;
      }
      stop := parser.i;
      Assoc(before, [value], ScanMulti(text, stop, stop, cfg).0);
    }
    if !parser.failed { assert values + [] == values; }
    ok := !parser.failed;
  }
}
