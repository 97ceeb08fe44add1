/** The 23 packed bytes of recyclr_msg_header. */
module MessageHeader {
  import opened Bytes
  import opened LittleEndian

  const HEADER_LEN := 23
  const MSG_MAGIC := 0x8370202083702020
  const TEST_OP: byte := 1
  const OPEN_CONNECTION: byte := 2
  const ACK_OPEN_CONNECTION: byte := 3

  type u32 = x: int | 0 <= x < 0x1_0000_0000
  type u64 = x: int | 0 <= x < 0x1_0000_0000_0000_0000

  datatype Header = Header(code: byte, dest: byte, priority: byte, ts: u64, payloadLen: u32, magic: u64)

  lemma Pow256Values()
    ensures Pow256(4) == 0x1_0000_0000 && Pow256(8) == 0x1_0000_0000_0000_0000
  {
    assert Pow256(2) == 0x1_0000;
    assert Pow256(4) == 0x1_0000 * Pow256(2);
    assert Pow256(6) == 0x1_0000 * Pow256(4);
    assert Pow256(8) == 0x1_0000 * Pow256(6);
  }

  function Encode(h: Header): (b: bytes)
    ensures |b| == HEADER_LEN
  {
    [h.code, h.dest, h.priority] + ToLE(h.ts, 8) + ToLE(h.payloadLen, 4) + ToLE(h.magic, 8)
  }

  function Decode(b: bytes): Header
    requires |b| == HEADER_LEN
  {
    Pow256Values();
    Header(b[0], b[1], b[2], FromLE(b[3..11]), FromLE(b[11..15]), FromLE(b[15..23]))
  }

  lemma Fields(three: bytes, ts: bytes, len: bytes, magic: bytes)
    requires |three| == 3 && |ts| == 8 && |len| == 4 && |magic| == 8
    ensures var b := three + ts + len + magic;
      b[..3] == three && b[3..11] == ts && b[11..15] == len && b[15..23] == magic
  {}

  lemma DecodeEncode(h: Header)
    ensures Decode(Encode(h)) == h
  {
    hide FromLE, ToLE;
    Pow256Values();
    FromToLE(h.ts, 8);
    FromToLE(h.payloadLen, 4);
    FromToLE(h.magic, 8);
    var three := [h.code, h.dest, h.priority];
    Fields(three, ToLE(h.ts, 8), ToLE(h.payloadLen, 4), ToLE(h.magic, 8));
    assert Encode(h)[..3] == three;
  }

  lemma EncodeDecode(b: bytes)
    requires |b| == HEADER_LEN
    ensures Encode(Decode(b)) == b
  {
    ToFromLE(b[3..11]);
    ToFromLE(b[11..15]);
    ToFromLE(b[15..23]);
    assert b == [b[0], b[1], b[2]] + b[3..11] + b[11..15] + b[15..23];
  }

  /** Where the fields lie: three bytes, then time stamp, payload length and magic, each lowest
      byte first. */
  lemma Layout(h: Header)
    ensures var b := Encode(h);
      && b[0] == h.code && b[1] == h.dest && b[2] == h.priority
      && (forall i :: 0 <= i < 8 ==> b[3 + i] == h.ts / Pow256(i) % 256)
      && (forall i :: 0 <= i < 4 ==> b[11 + i] == h.payloadLen / Pow256(i) % 256)
      && (forall i :: 0 <= i < 8 ==> b[15 + i] == h.magic / Pow256(i) % 256)
  {
    forall i | 0 <= i < 8 ensures ToLE(h.ts, 8)[i] == h.ts / Pow256(i) % 256 { ToLEAt(h.ts, 8, i); }
    forall i | 0 <= i < 4 ensures ToLE(h.payloadLen, 4)[i] == h.payloadLen / Pow256(i) % 256 {
      ToLEAt(h.payloadLen, 4, i);
    }
    forall i | 0 <= i < 8 ensures ToLE(h.magic, 8)[i] == h.magic / Pow256(i) % 256 { ToLEAt(h.magic, 8, i); }
    hide ToLE, Pow256;
  }

  const MAGIC_BYTES: bytes := [0x20, 0x20, 0x70, 0x83, 0x20, 0x20, 0x70, 0x83]

  lemma MagicBytes()
    ensures ToLE(MSG_MAGIC, 8) == MAGIC_BYTES
  {
    var low := MAGIC_BYTES[4..];
    assert FromLE(low[2..]) == 0x8370 && FromLE(low) == 0x83702020;
    assert FromLE(MAGIC_BYTES[2..]) == 0x837020208370;
    assert FromLE(MAGIC_BYTES) == MSG_MAGIC;
    ToFromLE(MAGIC_BYTES);
  }

  /** A handshake as it lies on the wire: code 2, no payload, and the magic. */
  lemma OpeningBytes(dest: byte, priority: byte, ts: bytes)
    requires |ts| == 8
    ensures var h := Decode([2, dest, priority] + ts + [0, 0, 0, 0] + MAGIC_BYTES);
      h.magic == MSG_MAGIC && h.code == OPEN_CONNECTION && h.payloadLen == 0
  {
    Fields([2, dest, priority], ts, [0, 0, 0, 0], MAGIC_BYTES);
    MagicBytes();
    Pow256Values();
    FromToLE(MSG_MAGIC, 8);
    var zeros: bytes := [0, 0, 0, 0];
    assert FromLE(zeros[2..]) == 0 && FromLE(zeros) == 0;
    var b := [2, dest, priority] + ts + zeros + MAGIC_BYTES;
    assert b[..3][0] == b[0];
    hide FromLE, ToLE;
  }
}
