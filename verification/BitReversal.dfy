/** Three ways to reverse the bits of a word, all proved to be the one reversal. */
module BitReversal {

  /* ----- what reversal means ----- */

  function Bit32(x: bv32, k: bv6): bv32
    requires k < 32
  {
    (x >> k) & 1
  }

  /** Bit k of `y` is bit 31 - k of `x`. */
  ghost predicate Mirror32(x: bv32, y: bv32) {
    forall k: bv6 :: k < 32 ==> Bit32(y, k) == Bit32(x, 31 - k)
  }

  lemma MirrorUnique32(x: bv32, y: bv32, z: bv32)
    requires Mirror32(x, y) && Mirror32(x, z)
    ensures y == z
  {
    if y != z {
      var k := DifferingBit32(y, z);
      assert false;
    }
  }

  ghost function DifferingBit32(y: bv32, z: bv32): (k: bv6)
    requires y != z
    ensures k < 32 && Bit32(y, k) != Bit32(z, k)
  {
    var d := y ^ z;
    var k: bv6 := if d & 0xffff == 0 then 16 else 0;
    var k := if (d >> k) & 0xff == 0 then k + 8 else k;
    var k := if (d >> k) & 0xf == 0 then k + 4 else k;
    var k := if (d >> k) & 0x3 == 0 then k + 2 else k;
    if (d >> k) & 0x1 == 0 then k + 1 else k
  }

  function Bit64(x: bv64, k: bv7): bv64
    requires k < 64
  {
    (x >> k) & 1
  }

  /** Bit k of `y` is bit 63 - k of `x`. */
  ghost predicate Mirror64(x: bv64, y: bv64) {
    forall k: bv7 :: k < 64 ==> Bit64(y, k) == Bit64(x, 63 - k)
  }

  lemma MirrorUnique64(x: bv64, y: bv64, z: bv64)
    requires Mirror64(x, y) && Mirror64(x, z)
    ensures y == z
  {
    if y != z {
      var k := DifferingBit64(y, z);
      assert false;
    }
  }

  ghost function DifferingBit64(y: bv64, z: bv64): (k: bv7)
    requires y != z
    ensures k < 64 && Bit64(y, k) != Bit64(z, k)
  {
    var d := y ^ z;
    var k: bv7 := if d & 0xffffffff == 0 then 32 else 0;
    var k := if (d >> k) & 0xffff == 0 then k + 16 else k;
    var k := if (d >> k) & 0xff == 0 then k + 8 else k;
    var k := if (d >> k) & 0xf == 0 then k + 4 else k;
    var k := if (d >> k) & 0x3 == 0 then k + 2 else k;
    if (d >> k) & 0x1 == 0 then k + 1 else k
  }

  /** The reversed byte, bit by bit. */
  function Flip(b: bv8): bv8 {
    ((b & 1) << 7) | ((b & 2) << 5) | ((b & 4) << 3) | ((b & 8) << 1)
    | ((b & 16) >> 1) | ((b & 32) >> 3) | ((b & 64) >> 5) | ((b & 128) >> 7)
  }

  /* ----- swar ----- */

  function Swar32(x: bv32): bv32 {
    var x := ((x & 0xaaaaaaaa) >> 1) | ((x & 0x55555555) << 1);
    var x := ((x & 0xcccccccc) >> 2) | ((x & 0x33333333) << 2);
    var x := ((x & 0xf0f0f0f0) >> 4) | ((x & 0x0f0f0f0f) << 4);
    var x := ((x & 0xff00ff00) >> 8) | ((x & 0x00ff00ff) << 8);
    (x >> 16) | (x << 16)
  }

  function Swar64(x: bv64): bv64 {
    Word64(Swar32(Low32(x)), Swar32(Low32(x >> 32)))
  }

  function Word64(high: bv32, low: bv32): bv64 { ((high as bv64) << 32) | (low as bv64) }

  /** The conversion of a 64-bit word to uint32_t. */
  function Low32(x: bv64): bv32 { (x & 0xffffffff) as bv32 }

  lemma SwarMirrors32(x: bv32)
    ensures Mirror32(x, Swar32(x))
  {
    forall k: bv6 | k < 32 ensures Bit32(Swar32(x), k) == Bit32(x, 31 - k) {}
  }

  lemma SwarMirrors64(x: bv64)
    ensures Mirror64(x, Swar64(x))
  {
    forall k: bv7 | k < 64 ensures Bit64(Swar64(x), k) == Bit64(x, 63 - k) {}
  }

  /* ----- lookup ----- */

  /** The table of reversed bytes, sixteen to a row. */
  const ROW0: seq<bv8> :=
    [0x00, 0x80, 0x40, 0xC0, 0x20, 0xA0, 0x60, 0xE0, 0x10, 0x90, 0x50, 0xD0, 0x30, 0xB0, 0x70, 0xF0]
  const ROW1: seq<bv8> :=
    [0x08, 0x88, 0x48, 0xC8, 0x28, 0xA8, 0x68, 0xE8, 0x18, 0x98, 0x58, 0xD8, 0x38, 0xB8, 0x78, 0xF8]
  const ROW2: seq<bv8> :=
    [0x04, 0x84, 0x44, 0xC4, 0x24, 0xA4, 0x64, 0xE4, 0x14, 0x94, 0x54, 0xD4, 0x34, 0xB4, 0x74, 0xF4]
  const ROW3: seq<bv8> :=
    [0x0C, 0x8C, 0x4C, 0xCC, 0x2C, 0xAC, 0x6C, 0xEC, 0x1C, 0x9C, 0x5C, 0xDC, 0x3C, 0xBC, 0x7C, 0xFC]
  const ROW4: seq<bv8> :=
    [0x02, 0x82, 0x42, 0xC2, 0x22, 0xA2, 0x62, 0xE2, 0x12, 0x92, 0x52, 0xD2, 0x32, 0xB2, 0x72, 0xF2]
  const ROW5: seq<bv8> :=
    [0x0A, 0x8A, 0x4A, 0xCA, 0x2A, 0xAA, 0x6A, 0xEA, 0x1A, 0x9A, 0x5A, 0xDA, 0x3A, 0xBA, 0x7A, 0xFA]
  const ROW6: seq<bv8> :=
    [0x06, 0x86, 0x46, 0xC6, 0x26, 0xA6, 0x66, 0xE6, 0x16, 0x96, 0x56, 0xD6, 0x36, 0xB6, 0x76, 0xF6]
  const ROW7: seq<bv8> :=
    [0x0E, 0x8E, 0x4E, 0xCE, 0x2E, 0xAE, 0x6E, 0xEE, 0x1E, 0x9E, 0x5E, 0xDE, 0x3E, 0xBE, 0x7E, 0xFE]
  const ROW8: seq<bv8> :=
    [0x01, 0x81, 0x41, 0xC1, 0x21, 0xA1, 0x61, 0xE1, 0x11, 0x91, 0x51, 0xD1, 0x31, 0xB1, 0x71, 0xF1]
  const ROW9: seq<bv8> :=
    [0x09, 0x89, 0x49, 0xC9, 0x29, 0xA9, 0x69, 0xE9, 0x19, 0x99, 0x59, 0xD9, 0x39, 0xB9, 0x79, 0xF9]
  const ROWA: seq<bv8> :=
    [0x05, 0x85, 0x45, 0xC5, 0x25, 0xA5, 0x65, 0xE5, 0x15, 0x95, 0x55, 0xD5, 0x35, 0xB5, 0x75, 0xF5]
  const ROWB: seq<bv8> :=
    [0x0D, 0x8D, 0x4D, 0xCD, 0x2D, 0xAD, 0x6D, 0xED, 0x1D, 0x9D, 0x5D, 0xDD, 0x3D, 0xBD, 0x7D, 0xFD]
  const ROWC: seq<bv8> :=
    [0x03, 0x83, 0x43, 0xC3, 0x23, 0xA3, 0x63, 0xE3, 0x13, 0x93, 0x53, 0xD3, 0x33, 0xB3, 0x73, 0xF3]
  const ROWD: seq<bv8> :=
    [0x0B, 0x8B, 0x4B, 0xCB, 0x2B, 0xAB, 0x6B, 0xEB, 0x1B, 0x9B, 0x5B, 0xDB, 0x3B, 0xBB, 0x7B, 0xFB]
  const ROWE: seq<bv8> :=
    [0x07, 0x87, 0x47, 0xC7, 0x27, 0xA7, 0x67, 0xE7, 0x17, 0x97, 0x57, 0xD7, 0x37, 0xB7, 0x77, 0xF7]
  const ROWF: seq<bv8> :=
    [0x0F, 0x8F, 0x4F, 0xCF, 0x2F, 0xAF, 0x6F, 0xEF, 0x1F, 0x9F, 0x5F, 0xDF, 0x3F, 0xBF, 0x7F, 0xFF]

  const TABLE: seq<seq<bv8>> := [
    ROW0, ROW1, ROW2, ROW3, ROW4, ROW5, ROW6, ROW7,
    ROW8, ROW9, ROWA, ROWB, ROWC, ROWD, ROWE, ROWF
  ]

  lemma TableFits(b: bv8)
    ensures (b >> 4) as int < |TABLE| && (b & 15) as int < |TABLE[(b >> 4) as int]|
  {}

  /** `table[b]` */
  function Entry(b: bv8): bv8 {
    TableFits(b);
    TABLE[(b >> 4) as int][(b & 15) as int]
  }

  /** Every entry of the table is the reversed byte. */
  lemma EntryFlips(b: bv8)
    ensures Entry(b) == Flip(b)
  {
    TableFits(b);
    match b >> 4 {
      case 0 => assert ROW0[(b & 15) as int] == Flip(0x0 + (b & 15));
      case 1 => assert ROW1[(b & 15) as int] == Flip(0x10 + (b & 15));
      case 2 => assert ROW2[(b & 15) as int] == Flip(0x20 + (b & 15));
      case 3 => assert ROW3[(b & 15) as int] == Flip(0x30 + (b & 15));
      case 4 => assert ROW4[(b & 15) as int] == Flip(0x40 + (b & 15));
      case 5 => assert ROW5[(b & 15) as int] == Flip(0x50 + (b & 15));
      case 6 => assert ROW6[(b & 15) as int] == Flip(0x60 + (b & 15));
      case 7 => assert ROW7[(b & 15) as int] == Flip(0x70 + (b & 15));
      case 8 => assert ROW8[(b & 15) as int] == Flip(0x80 + (b & 15));
      case 9 => assert ROW9[(b & 15) as int] == Flip(0x90 + (b & 15));
      case 10 => assert ROWA[(b & 15) as int] == Flip(0xa0 + (b & 15));
      case 11 => assert ROWB[(b & 15) as int] == Flip(0xb0 + (b & 15));
      case 12 => assert ROWC[(b & 15) as int] == Flip(0xc0 + (b & 15));
      case 13 => assert ROWD[(b & 15) as int] == Flip(0xd0 + (b & 15));
      case 14 => assert ROWE[(b & 15) as int] == Flip(0xe0 + (b & 15));
      case 15 => assert ROWF[(b & 15) as int] == Flip(0xf0 + (b & 15));
    }
  }

  /** The conversions of a word to uint8_t. */
  function Low8_32(x: bv32): bv8 { (x & 0xff) as bv8 }

  function Low8_64(x: bv64): bv8 { (x & 0xff) as bv8 }

  /** Bytes, lowest first, shifted to their places and or-ed. */
  function FromBytes32(b0: bv8, b1: bv8, b2: bv8, b3: bv8): bv32 {
    (b0 as bv32) | ((b1 as bv32) << 8) | ((b2 as bv32) << 16) | ((b3 as bv32) << 24)
  }

  function FromBytes64(b0: bv8, b1: bv8, b2: bv8, b3: bv8, b4: bv8, b5: bv8, b6: bv8, b7: bv8): bv64 {
    (b0 as bv64) | ((b1 as bv64) << 8) | ((b2 as bv64) << 16) | ((b3 as bv64) << 24)
    | ((b4 as bv64) << 32) | ((b5 as bv64) << 40) | ((b6 as bv64) << 48) | ((b7 as bv64) << 56)
  }

  function Lookup32(x: bv32): bv32 {
    FromBytes32(Entry(Low8_32(x >> 24)),
      Entry(Low8_32(x >> 16)),
      Entry(Low8_32(x >> 8)),
      Entry(Low8_32(x)))
  }

  function Lookup64(x: bv64): bv64 {
    Word64(Lookup32(Low32(x)), Lookup32(Low32(x >> 32)))
  }

  /* ----- muldiv ----- */

  /** On a 32-bit machine, where the product wraps around. */
  function MulDiv32Byte(b: bv8): bv8 {
    var w := b as bv32;
    Low8_32((((w * 0x0802) & 0x22110) | ((w * 0x8020) & 0x88440)) * 0x10101 >> 16)
  }

  function MulDiv64Byte(b: bv8): bv8 {
    Low8_64((((b as bv64) * 0x0202020202) & 0x010884422010) % 1023)
  }

  lemma MulDiv32ByteFlips(b: bv8)
    ensures MulDiv32Byte(b) == Flip(b)
  {}

  lemma MulDiv64ByteFlips(b: bv8)
    ensures MulDiv64Byte(b) == Flip(b)
  {}

  function MulDiv32Word32(x: bv32): bv32 {
    FromBytes32(MulDiv32Byte(Low8_32(x >> 24)),
      MulDiv32Byte(Low8_32(x >> 16)),
      MulDiv32Byte(Low8_32(x >> 8)),
      MulDiv32Byte(Low8_32(x)))
  }

  function MulDiv32Word64(x: bv64): bv64 {
    FromBytes64(MulDiv32Byte(Low8_64(x >> 56)),
      MulDiv32Byte(Low8_64(x >> 48)),
      MulDiv32Byte(Low8_64(x >> 40)),
      MulDiv32Byte(Low8_64(x >> 32)),
      MulDiv32Byte(Low8_64(x >> 24)),
      MulDiv32Byte(Low8_64(x >> 16)),
      MulDiv32Byte(Low8_64(x >> 8)),
      MulDiv32Byte(Low8_64(x)))
  }

  function MulDiv64Word32(x: bv32): bv32 {
    FromBytes32(MulDiv64Byte(Low8_32(x >> 24)),
      MulDiv64Byte(Low8_32(x >> 16)),
      MulDiv64Byte(Low8_32(x >> 8)),
      MulDiv64Byte(Low8_32(x)))
  }

  function MulDiv64Word64(x: bv64): bv64 {
    FromBytes64(MulDiv64Byte(Low8_64(x >> 56)),
      MulDiv64Byte(Low8_64(x >> 48)),
      MulDiv64Byte(Low8_64(x >> 40)),
      MulDiv64Byte(Low8_64(x >> 32)),
      MulDiv64Byte(Low8_64(x >> 24)),
      MulDiv64Byte(Low8_64(x >> 16)),
      MulDiv64Byte(Low8_64(x >> 8)),
      MulDiv64Byte(Low8_64(x)))
  }

  /* ----- they all reverse ----- */

  function FlipBytes32(x: bv32): bv32 {
    FromBytes32(Flip(Low8_32(x >> 24)),
      Flip(Low8_32(x >> 16)),
      Flip(Low8_32(x >> 8)),
      Flip(Low8_32(x)))
  }

  function FlipBytes64(x: bv64): bv64 {
    FromBytes64(Flip(Low8_64(x >> 56)),
      Flip(Low8_64(x >> 48)),
      Flip(Low8_64(x >> 40)),
      Flip(Low8_64(x >> 32)),
      Flip(Low8_64(x >> 24)),
      Flip(Low8_64(x >> 16)),
      Flip(Low8_64(x >> 8)),
      Flip(Low8_64(x)))
  }

  /** Reversed bytes in reversed order are the reversed word. */
  lemma FlipBytesMirror32(x: bv32)
    ensures Mirror32(x, FlipBytes32(x))
  {
    forall k: bv6 | k < 32 ensures Bit32(FlipBytes32(x), k) == Bit32(x, 31 - k) {}
  }

  lemma FlipBytesMirror64(x: bv64)
    ensures Mirror64(x, FlipBytes64(x))
  {
    forall k: bv7 | k < 64 ensures Bit64(FlipBytes64(x), k) == Bit64(x, 63 - k) {}
  }

  lemma LookupIsBytewise(x: bv32)
    ensures Lookup32(x) == FlipBytes32(x)
  {
    hide Flip, Entry, MulDiv32Byte, MulDiv64Byte, FromBytes32, FromBytes64, Low8_32, Low8_64;
    EntryFlips(Low8_32(x));
    EntryFlips(Low8_32(x >> 8));
    EntryFlips(Low8_32(x >> 16));
    EntryFlips(Low8_32(x >> 24));
  }

  lemma MulDiv32IsBytewise32(x: bv32)
    ensures MulDiv32Word32(x) == FlipBytes32(x)
  {
    hide Flip, Entry, MulDiv32Byte, MulDiv64Byte, FromBytes32, FromBytes64, Low8_32, Low8_64;
    MulDiv32ByteFlips(Low8_32(x));
    MulDiv32ByteFlips(Low8_32(x >> 8));
    MulDiv32ByteFlips(Low8_32(x >> 16));
    MulDiv32ByteFlips(Low8_32(x >> 24));
  }

  lemma MulDiv32IsBytewise64(x: bv64)
    ensures MulDiv32Word64(x) == FlipBytes64(x)
  {
    hide Flip, Entry, MulDiv32Byte, MulDiv64Byte, FromBytes32, FromBytes64, Low8_32, Low8_64;
    MulDiv32ByteFlips(Low8_64(x));
    MulDiv32ByteFlips(Low8_64(x >> 8));
    MulDiv32ByteFlips(Low8_64(x >> 16));
    MulDiv32ByteFlips(Low8_64(x >> 24));
    MulDiv32ByteFlips(Low8_64(x >> 32));
    MulDiv32ByteFlips(Low8_64(x >> 40));
    MulDiv32ByteFlips(Low8_64(x >> 48));
    MulDiv32ByteFlips(Low8_64(x >> 56));
  }

  lemma MulDiv64IsBytewise32(x: bv32)
    ensures MulDiv64Word32(x) == FlipBytes32(x)
  {
    hide Flip, Entry, MulDiv32Byte, MulDiv64Byte, FromBytes32, FromBytes64, Low8_32, Low8_64;
    MulDiv64ByteFlips(Low8_32(x));
    MulDiv64ByteFlips(Low8_32(x >> 8));
    MulDiv64ByteFlips(Low8_32(x >> 16));
    MulDiv64ByteFlips(Low8_32(x >> 24));
  }

  lemma MulDiv64IsBytewise64(x: bv64)
    ensures MulDiv64Word64(x) == FlipBytes64(x)
  {
    hide Flip, Entry, MulDiv32Byte, MulDiv64Byte, FromBytes32, FromBytes64, Low8_32, Low8_64;
    MulDiv64ByteFlips(Low8_64(x));
    MulDiv64ByteFlips(Low8_64(x >> 8));
    MulDiv64ByteFlips(Low8_64(x >> 16));
    MulDiv64ByteFlips(Low8_64(x >> 24));
    MulDiv64ByteFlips(Low8_64(x >> 32));
    MulDiv64ByteFlips(Low8_64(x >> 40));
    MulDiv64ByteFlips(Low8_64(x >> 48));
    MulDiv64ByteFlips(Low8_64(x >> 56));
  }

  /** On every word the algorithms agree, and what they compute is the reversal. */
  lemma AllReverse32(x: bv32)
    ensures Mirror32(x, Swar32(x))
    ensures Swar32(x) == Lookup32(x) == MulDiv32Word32(x) == MulDiv64Word32(x)
  {
    hide Mirror32, Swar32, Lookup32, FlipBytes32, MulDiv32Word32, MulDiv64Word32;
    SwarMirrors32(x);
    FlipBytesMirror32(x);
    MirrorUnique32(x, Swar32(x), FlipBytes32(x));
    LookupIsBytewise(x);
    MulDiv32IsBytewise32(x);
    MulDiv64IsBytewise32(x);
  }

  lemma LookupIsSwar64(x: bv64)
    ensures Lookup64(x) == Swar64(x)
  {
    hide Swar32, Lookup32, Word64, Mirror32;
    AllReverse32(Low32(x));
    AllReverse32(Low32(x >> 32));
  }

  /** On every word the algorithms agree, and what they compute is the reversal. */
  lemma AllReverse64(x: bv64)
    ensures Mirror64(x, Swar64(x))
    ensures Swar64(x) == Lookup64(x) == MulDiv32Word64(x) == MulDiv64Word64(x)
  {
    hide Mirror64, Swar32, Swar64, FlipBytes64, MulDiv32Word64, MulDiv64Word64;
    SwarMirrors64(x);
    FlipBytesMirror64(x);
    MirrorUnique64(x, Swar64(x), FlipBytes64(x));
    LookupIsSwar64(x);
    MulDiv32IsBytewise64(x);
    MulDiv64IsBytewise64(x);
  }

  /** Reversing twice gives the word back. */
  lemma Involution32(x: bv32)
    ensures Swar32(Swar32(x)) == x
    ensures Lookup32(Lookup32(x)) == x
    ensures MulDiv32Word32(MulDiv32Word32(x)) == x && MulDiv64Word32(MulDiv64Word32(x)) == x
  {
    hide Swar32, Swar64, Lookup32, Lookup64, MulDiv32Word32, MulDiv64Word32, Mirror32;
    AllReverse32(x);
    AllReverse32(Swar32(x));
    MirrorBack32(x, Swar32(x));
    MirrorUnique32(Swar32(x), x, Swar32(Swar32(x)));
  }

  lemma MirrorBack32(x: bv32, y: bv32)
    requires Mirror32(x, y)
    ensures Mirror32(y, x)
  {
    hide Bit32;
    forall k: bv6 | k < 32 ensures Bit32(x, k) == Bit32(y, 31 - k) {
      assert Bit32(y, 31 - k) == Bit32(x, 31 - (31 - k));
      assert 31 - (31 - k) == k;
    }
  }

  /** Reversing twice gives the word back. */
  lemma Involution64(x: bv64)
    ensures Swar64(Swar64(x)) == x
    ensures Lookup64(Lookup64(x)) == x
    ensures MulDiv32Word64(MulDiv32Word64(x)) == x && MulDiv64Word64(MulDiv64Word64(x)) == x
  {
    hide Swar32, Swar64, Lookup32, Lookup64, MulDiv32Word64, MulDiv64Word64, Mirror64;
    AllReverse64(x);
    AllReverse64(Swar64(x));
    MirrorBack64(x, Swar64(x));
    MirrorUnique64(Swar64(x), x, Swar64(Swar64(x)));
  }

  lemma MirrorBack64(x: bv64, y: bv64)
    requires Mirror64(x, y)
    ensures Mirror64(y, x)
  {
    hide Bit64;
    forall k: bv7 | k < 64 ensures Bit64(x, k) == Bit64(y, 63 - k) {
      assert Bit64(y, 63 - k) == Bit64(x, 63 - (63 - k));
      assert 63 - (63 - k) == k;
    }
  }
}
