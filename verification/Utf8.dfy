/** UTF-8 encoding of one code point, against sections 3 and 4 of RFC 3629. */
module Utf8 {
  import opened Bytes
  import opened Bits

  /** static_cast<char> of a non-negative long */
  function Char(x: nat): byte { x % 256 }

  /** `JsonParser::encode_utf8`: what it appends for `pt`; -1 stands for "no code point". */
  function EncodeUtf8(pt: int): bytes {
    if pt < 0 then []
    else if pt < 0x80 then [Char(pt)]
    else if pt < 0x800 then
      [Char(BitOr(Shr(pt, 6), 0xC0)), Char(BitOr(BitAnd(pt, 0x3F), 0x80))]
    else if pt < 0x10000 then
      [Char(BitOr(Shr(pt, 12), 0xE0)), Char(BitOr(BitAnd(Shr(pt, 6), 0x3F), 0x80)),
       Char(BitOr(BitAnd(pt, 0x3F), 0x80))]
    else
      [Char(BitOr(Shr(pt, 18), 0xF0)), Char(BitOr(BitAnd(Shr(pt, 12), 0x3F), 0x80)),
       Char(BitOr(BitAnd(Shr(pt, 6), 0x3F), 0x80)), Char(BitOr(BitAnd(pt, 0x3F), 0x80))]
  }

  predicate IsScalar(pt: int) { 0 <= pt < 0xD800 || 0xE000 <= pt < 0x110000 }

  predicate IsTail(b: byte) { 0x80 <= b <= 0xBF }

  /** The UTF8-char production of section 4 of RFC 3629. */
  predicate IsUtf8Char(b: bytes) {
    match |b|
    case 1 => b[0] <= 0x7F
    case 2 => 0xC2 <= b[0] <= 0xDF && IsTail(b[1])
    case 3 =>
      IsTail(b[2]) &&
      ((b[0] == 0xE0 && 0xA0 <= b[1] <= 0xBF) || (0xE1 <= b[0] <= 0xEC && IsTail(b[1])) ||
       (b[0] == 0xED && 0x80 <= b[1] <= 0x9F) || (0xEE <= b[0] <= 0xEF && IsTail(b[1])))
    case 4 =>
      IsTail(b[2]) && IsTail(b[3]) &&
      ((b[0] == 0xF0 && 0x90 <= b[1] <= 0xBF) || (0xF1 <= b[0] <= 0xF3 && IsTail(b[1])) ||
       (b[0] == 0xF4 && 0x80 <= b[1] <= 0x8F))
    case _ => false
  }

  /** Section 3 of RFC 3629: the character number spelled by the free bits. */
  function DecodeUtf8Char(b: bytes): int
    requires IsUtf8Char(b)
  {
    var x: seq<int> := b;
    match |x|
    case 1 => x[0]
    case 2 => (x[0] - 0xC0) * 64 + (x[1] - 0x80)
    case 3 => (x[0] - 0xE0) * 4096 + (x[1] - 0x80) * 64 + (x[2] - 0x80)
    case _ => (x[0] - 0xF0) * 262144 + (x[1] - 0x80) * 4096 + (x[2] - 0x80) * 64 + (x[3] - 0x80)
  }

  lemma Pow2Values()
    ensures Pow2(4) == 16 && Pow2(6) == 64 && Pow2(7) == 128
    ensures Pow2(10) == 1024 && Pow2(12) == 4096 && Pow2(18) == 262144
  {
    assert Pow2(4) == 16 && Pow2(6) == 4 * Pow2(4) && Pow2(7) == 2 * Pow2(6);
    assert Pow2(10) == 8 * Pow2(7);
    Pow2Add(6, 6);
    Pow2Add(6, 12);
  }

  lemma LeadOr(x: nat)
    ensures x < 32 ==> BitOr(x, 0xC0) == x + 0xC0
    ensures x < 16 ==> BitOr(x, 0xE0) == x + 0xE0
    ensures x < 8 ==> BitOr(x, 0xF0) == x + 0xF0
  {
    Pow2Values();
    if x < 32 { OrDisjoint(x, 3, 6); }
    if x < 16 { OrDisjoint(x, 14, 4); }
    if x < 8 { OrDisjoint(x, 15, 4); }
  }

  lemma TailOr(x: nat)
    ensures BitOr(BitAnd(x, 0x3F), 0x80) == 0x80 + x % 64
  {
    Pow2Values();
    AndMask(x, 6);
    var r := x % 64;
    assert BitAnd(x, 0x3F) == r;
    OrDisjoint(r, 2, 6);
  }

  lemma CharOfByte(x: byte)
    ensures Char(x) == x
  {}

  lemma LeadByte(x: nat)
    ensures x < 32 ==> Char(BitOr(x, 0xC0)) == x + 0xC0
    ensures x < 16 ==> Char(BitOr(x, 0xE0)) == x + 0xE0
    ensures x < 8 ==> Char(BitOr(x, 0xF0)) == x + 0xF0
  {
    hide Char, BitOr;
    LeadOr(x);
    if x < 32 { CharOfByte(x + 0xC0); }
    if x < 16 { CharOfByte(x + 0xE0); }
    if x < 8 { CharOfByte(x + 0xF0); }
  }

  lemma TailByte(x: nat)
    ensures Char(BitOr(BitAnd(x, 0x3F), 0x80)) == 0x80 + x % 64
  {
    hide Char, BitOr, BitAnd;
    TailOr(x);
    CharOfByte(0x80 + x % 64);
  }

  lemma ShrValues(x: nat)
    ensures Shr(x, 6) == x / 64 && Shr(x, 12) == x / 4096 && Shr(x, 18) == x / 262144
  {
    Pow2Values();
  }

  /** The encoding in plain arithmetic: the base-64 digits of `pt` behind their markers. */
  function Utf8Bytes(pt: int): bytes
    requires 0 <= pt < 0x110000
  {
    Base64Digits(pt);
    var d0, d1, d2, d3 := pt % 64, pt / 64 % 64, pt / 4096 % 64, pt / 262144;
    if pt < 0x80 then [pt]
    else if pt < 0x800 then [0xC0 + d1, 0x80 + d0]
    else if pt < 0x10000 then [0xE0 + d2, 0x80 + d1, 0x80 + d0]
    else [0xF0 + d3, 0x80 + d2, 0x80 + d1, 0x80 + d0]
  }

  lemma Base64Digits(pt: int)
    requires 0 <= pt < 0x110000
    ensures pt == pt % 64 + 64 * (pt / 64 % 64) + 4096 * (pt / 4096 % 64) + 262144 * (pt / 262144)
    ensures pt / 262144 <= 4
    ensures pt < 0x800 ==> pt / 64 == pt / 64 % 64 < 32
    ensures pt < 0x10000 ==> pt / 4096 == pt / 4096 % 64 < 16
  {
    var q := pt / 64;
    var p := q / 64;
    assert pt == 64 * q + pt % 64 && q == 64 * p + q % 64 && p == 64 * (p / 64) + p % 64;
    assert pt / 4096 == p;
    assert pt / 262144 == p / 64;
  }

  lemma EncodeArithmetic(pt: int)
    requires 0 <= pt < 0x110000
    ensures EncodeUtf8(pt) == Utf8Bytes(pt)
  {
    if pt < 0x80 { CharOfByte(pt); }
    else if pt < 0x800 { EncodeTwo(pt); }
    else if pt < 0x10000 { EncodeThree(pt); }
    else { EncodeFour(pt); }
    hide EncodeUtf8, Char, BitOr, BitAnd, Shr;
  }

  lemma EncodeTwo(pt: int)
    requires 0x80 <= pt < 0x800
    ensures EncodeUtf8(pt) == [0xC0 + pt / 64 % 64, 0x80 + pt % 64]
  {
    hide Char, BitOr, BitAnd, Shr;
    ShrValues(pt);
    Base64Digits(pt);
    LeadByte(pt / 64);
    TailByte(pt);
  }

  lemma EncodeThree(pt: int)
    requires 0x800 <= pt < 0x10000
    ensures EncodeUtf8(pt) == [0xE0 + pt / 4096 % 64, 0x80 + pt / 64 % 64, 0x80 + pt % 64]
  {
    hide Char, BitOr, BitAnd, Shr;
    ShrValues(pt);
    Base64Digits(pt);
    LeadByte(pt / 4096);
    TailByte(pt / 64);
    TailByte(pt);
  }

  lemma EncodeFour(pt: int)
    requires 0x10000 <= pt < 0x110000
    ensures pt / 262144 < 8
    ensures EncodeUtf8(pt) ==
      [0xF0 + pt / 262144, 0x80 + pt / 4096 % 64, 0x80 + pt / 64 % 64, 0x80 + pt % 64]
  {
    hide Char, BitOr, BitAnd, Shr;
    ShrValues(pt);
    Base64Digits(pt);
    LeadByte(pt / 262144);
    TailByte(pt / 4096);
    TailByte(pt / 64);
    TailByte(pt);
  }

  lemma DigitsDecode(pt: int)
    requires IsScalar(pt)
    ensures IsUtf8Char(Utf8Bytes(pt)) && DecodeUtf8Char(Utf8Bytes(pt)) == pt
  {
    if pt >= 0x10000 { DigitsDecodeFour(pt); }
    else if pt >= 0x800 { DigitsDecodeThree(pt); }
    else { Base64Digits(pt); }
  }

  lemma DigitsDecodeThree(pt: int)
    requires IsScalar(pt) && 0x800 <= pt < 0x10000
    ensures IsUtf8Char(Utf8Bytes(pt)) && DecodeUtf8Char(Utf8Bytes(pt)) == pt
  {
    Base64Digits(pt);
    var d0, d1, d2 := pt % 64, pt / 64 % 64, pt / 4096 % 64;
    assert pt == d0 + 64 * d1 + 4096 * d2;
    assert Utf8Bytes(pt) == [0xE0 + d2, 0x80 + d1, 0x80 + d0];
    hide Utf8Bytes;
  }

  lemma DigitsDecodeFour(pt: int)
    requires 0x10000 <= pt < 0x110000
    ensures IsUtf8Char(Utf8Bytes(pt)) && DecodeUtf8Char(Utf8Bytes(pt)) == pt
  {
    Base64Digits(pt);
    var d0, d1, d2, d3 := pt % 64, pt / 64 % 64, pt / 4096 % 64, pt / 262144;
    assert pt == d0 + 64 * d1 + 4096 * d2 + 262144 * d3;
    assert Utf8Bytes(pt) == [0xF0 + d3, 0x80 + d2, 0x80 + d1, 0x80 + d0];
    hide Utf8Bytes;
  }

  /** `encode_utf8` of a Unicode scalar value is a well-formed UTF-8 character that
      decodes back to it. */
  lemma EncodeDecode(pt: int)
    requires IsScalar(pt)
    ensures IsUtf8Char(EncodeUtf8(pt)) && DecodeUtf8Char(EncodeUtf8(pt)) == pt
  {
    EncodeArithmetic(pt);
    DigitsDecode(pt);
  }

  /** No other byte string is a UTF-8 character for the same scalar value. */
  lemma DecodeEncode(b: bytes)
    requires IsUtf8Char(b)
    ensures IsScalar(DecodeUtf8Char(b)) && EncodeUtf8(DecodeUtf8Char(b)) == b
  {
    var pt := DecodeUtf8Char(b);
    BytesDecode(b);
    hide DecodeUtf8Char, Utf8Bytes, EncodeUtf8;
    EncodeArithmetic(pt);
  }

  lemma BytesDecode(b: bytes)
    requires IsUtf8Char(b)
    ensures IsScalar(DecodeUtf8Char(b)) && Utf8Bytes(DecodeUtf8Char(b)) == b
  {
    var pt := DecodeUtf8Char(b);
    match |b|
    case 1 =>
    case 2 => DigitsUnique(pt, 0, 0, b[0] as int - 0xC0, b[1] as int - 0x80);
    case 3 => DigitsUnique(pt, 0, b[0] as int - 0xE0, b[1] as int - 0x80, b[2] as int - 0x80);
    case _ => DigitsUnique(pt, b[0] as int - 0xF0, b[1] as int - 0x80, b[2] as int - 0x80, b[3] as int - 0x80);
  }

  lemma DigitsUnique(pt: int, d3: nat, d2: nat, d1: nat, d0: nat)
    requires d2 < 64 && d1 < 64 && d0 < 64 && pt == d0 + 64 * d1 + 4096 * d2 + 262144 * d3
    ensures pt % 64 == d0 && pt / 64 % 64 == d1 && pt / 4096 % 64 == d2 && pt / 262144 == d3
  {
    var q := d1 + 64 * d2 + 4096 * d3;
    assert pt == 64 * q + d0 && q == 64 * (d2 + 64 * d3) + d1;
    assert pt / 64 == q && q / 64 == d2 + 64 * d3;
    assert pt / 4096 == q / 64 && pt / 262144 == d3;
  }

  /** Characters of the examples in section 7 of RFC 3629. */
  lemma Rfc3629Examples()
    ensures EncodeUtf8(0x41) == [0x41] && EncodeUtf8(0x2262) == [0xE2, 0x89, 0xA2]
    ensures EncodeUtf8(0x391) == [0xCE, 0x91] && EncodeUtf8(0xD55C) == [0xED, 0x95, 0x9C]
    ensures EncodeUtf8(0x65E5) == [0xE6, 0x97, 0xA5] && EncodeUtf8(0x233B4) == [0xF0, 0xA3, 0x8E, 0xB4]
  {
    hide EncodeUtf8;
    EncodeArithmetic(0x41);
    EncodeArithmetic(0x2262);
    EncodeArithmetic(0x391);
    EncodeArithmetic(0xD55C);
    EncodeArithmetic(0x65E5);
    EncodeArithmetic(0x233B4);
  }
}
