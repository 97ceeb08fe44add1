/** Cutting a bit string, a byte string or a number into parts of given bit counts. */
module SplitBitstrings {
  import opened Arith
  import opened Bits
  import opened Bytes
  import opened LittleEndian

  /* ----- what a cut means ----- */

  /** The `count` bits of `n` from bit `offset` on. */
  function Slice(n: nat, offset: nat, count: nat): nat {
    Shr(n, offset) % Pow2(count)
  }

  function Sum(counts: seq<nat>): nat {
    if counts == [] then 0 else counts[0] + Sum(counts[1..])
  }

  /** Consecutive cuts. */
  function Slices(n: nat, offset: nat, counts: seq<nat>): (parts: seq<nat>)
    ensures |parts| == |counts|
    decreases counts
  {
    if counts == [] then [] else [Slice(n, offset, counts[0])] + Slices(n, offset + counts[0], counts[1..])
  }

  /** The parts put together again, the first one lowest. */
  function Join(parts: seq<nat>, counts: seq<nat>): nat
    requires |parts| == |counts|
  {
    if counts == [] then 0 else parts[0] + Join(parts[1..], counts[1..]) * Pow2(counts[0])
  }

  /* ----- arithmetic of slices ----- */

  lemma {:induction false} DivDiv(n: nat, a: nat, b: nat)
    ensures Shr(n, a + b) == Shr(Shr(n, a), b)
  {
    var p, q := Pow2(a), Pow2(b);
    Pow2Add(a, b);
    var x := Shr(n, a);
    var y := Shr(x, b);
    Division(n, p);
    Division(x, q);
    var r, t := n % p, x % q;
    Rearrange(y, q, t, p, r);
    assert n == y * (p * q) + (t * p + r);
    Below(t, q, p, r);
    Remainder(n, y, p * q, t * p + r);
  }

  lemma Division(n: nat, m: nat)
    requires m > 0
    ensures n == (n / m) * m + n % m && 0 <= n % m < m
  {}

  lemma Rearrange(y: nat, q: nat, t: nat, p: nat, r: nat)
    ensures (y * q + t) * p + r == y * (p * q) + (t * p + r)
  {}

  lemma Distribute(t: nat, d: nat, p: nat)
    ensures (t + 1 + d) * p == t * p + p + d * p && d * p >= 0
  {}

  lemma Below(t: nat, q: nat, p: nat, r: nat)
    requires t < q && r < p
    ensures t * p + r < p * q
  {
    Distribute(t, q - 1 - t, p);
    assert p * q == (t + 1 + (q - 1 - t)) * p;
  }

  /** Two adjacent slices make one. */
  lemma {:induction false} SliceSplit(n: nat, offset: nat, a: nat, b: nat)
    ensures Slice(n, offset, a + b) == Slice(n, offset, a) + Slice(n, offset + a, b) * Pow2(a)
  {
    var x, p, q := Shr(n, offset), Pow2(a), Pow2(b);
    Pow2Add(a, b);
    DivDiv(n, offset, a);
    var y := Shr(x, a);
    Division(x, p);
    Division(y, q);
    var r, t := x % p, y % q;
    Rearrange(y / q, q, t, p, r);
    Below(t, q, p, r);
    QuotientIsNat(y, q);
    Remainder(x, y / q, p * q, t * p + r);
  }

  /** Bits above the slice do not matter. */
  lemma {:induction false} SliceLow(x: nat, y: nat, m: nat, offset: nat, count: nat)
    requires offset + count <= m
    ensures Slice(x + y * Pow2(m), offset, count) == Slice(x, offset, count)
  {
    hide Pow2;
    var rest := m - offset - count;
    Pow2Add(offset + count, rest);
    Pow2Add(offset, count);
    Factors(y, Pow2(rest), Pow2(count), Pow2(offset));
    SliceAdds(x, y * Pow2(rest), offset, count);
  }

  lemma SliceAdds(x: nat, z: nat, offset: nat, count: nat)
    ensures Slice(x + (z * Pow2(count)) * Pow2(offset), offset, count) == Slice(x, offset, count)
  {
    hide Pow2;
    QuotientAdds(x, z * Pow2(count), Pow2(offset));
    QuotientAdds(Shr(x, offset), z, Pow2(count));
  }

  lemma Factors(y: nat, r: nat, q: nat, p: nat)
    ensures y * ((p * q) * r) == ((y * r) * q) * p
  {
    assert (p * q) * r == (r * q) * p;
    assert ((y * r) * q) * p == y * ((r * q) * p) by {
      assert (y * r) * q == y * (r * q);
      Assoc3(y, r * q, p);
    }
  }

  lemma Assoc3(a: nat, b: nat, c: nat)
    ensures (a * b) * c == a * (b * c)
  {}

  lemma QuotientAdds(x: nat, z: nat, p: nat)
    requires p > 0
    ensures (x + z * p) / p == x / p + z && (x + z * p) % p == x % p
  {
    Division(x, p);
    QuotientIsNat(x, p);
    assert x + z * p == (x / p + z) * p + x % p;
    Remainder(x + z * p, x / p + z, p, x % p);
  }

  /** A cut bit by bit: its `j`-th bit is the string's bit `offset + j`, and above the count there
      is none. */
  lemma SliceBits(n: nat, offset: nat, count: nat, j: nat)
    ensures Bit(Slice(n, offset, count), j) == if j < count then Bit(n, offset + j) else 0
  {
    var x, q := Shr(n, offset), Pow2(count);
    Division(x, q);
    QuotientIsNat(x, q);
    DivDiv(n, offset, j);
    if j < count {
      SliceLow(x % q, x / q, count, j, 1);
      assert Slice(x, j, 1) == Slice(x % q, j, 1);
      OneBit(x, j);
      OneBit(x % q, j);
    } else {
      Pow2Mono(count, j);
      Remainder(x % q, 0, Pow2(j), x % q);
    }
  }

  lemma OneBit(x: nat, j: nat)
    ensures Slice(x, j, 1) == Bit(x, j)
  {
    assert Pow2(1) == 2;
  }

  lemma SliceOfNone(n: nat, offset: nat)
    ensures Slice(n, offset, 0) == 0
  {}

  /** What lies inside one byte of the string. */
  lemma {:induction false} SliceOfByte(s: bytes, cur: nat, offset: nat, count: nat)
    requires cur < |s| && offset + count <= 8
    ensures Slice(FromLE(s), 8 * cur + offset, count) == Slice(s[cur], offset, count)
  {
    hide Pow2, Pow256, FromLE;
    FromLESplit(s, cur);
    Pow256IsPow2(cur);
    var high := FromLE(s[cur..]);
    Remainder(FromLE(s), high, Pow256(cur), FromLE(s[..cur]));
    assert Shr(FromLE(s), 8 * cur) == high;
    DivDiv(FromLE(s), 8 * cur, offset);
    assert Slice(FromLE(s), 8 * cur + offset, count) == Slice(high, offset, count);
    FirstByte(s[cur..]);
    SliceLow(s[cur], FromLE(s[cur..][1..]), 8, offset, count);
  }

  lemma FirstByte(s: bytes)
    requires s != []
    ensures FromLE(s) == s[0] + FromLE(s[1..]) * Pow2(8)
  {
    assert Pow2(4) == 16;
    assert Pow2(8) == 256;
  }

  /** Or-ing the next slice onto those before it. */
  lemma OrSlice(n: nat, offset: nat, done: nat, bits: nat, width: nat)
    requires done + bits <= width
    ensures BitOr(Slice(n, offset, done), Shl(Slice(n, offset + done, bits), done) % Pow2(width)) ==
      Slice(n, offset, done + bits)
  {
    hide Pow2, BitOr, Shr;
    var piece := Slice(n, offset + done, bits);
    SliceSplit(n, offset, done, bits);
    Pow2Add(done, bits);
    Below(piece, Pow2(bits), Pow2(done), 0);
    Pow2Mono(done + bits, width);
    Remainder(Shl(piece, done), 0, Pow2(width), Shl(piece, done));
    OrDisjoint(Slice(n, offset, done), piece, done);
  }

  /* ----- lists of cuts ----- */

  /** Cuts put together again are the one slice they cover: every bit is recovered. */
  lemma {:induction false} SlicesJoin(n: nat, offset: nat, counts: seq<nat>)
    ensures Join(Slices(n, offset, counts), counts) == Slice(n, offset, Sum(counts))
    decreases counts
  {
    if counts == [] {
      SliceOfNone(n, offset);
    } else {
      SlicesJoin(n, offset + counts[0], counts[1..]);
      SliceSplit(n, offset, counts[0], Sum(counts[1..]));
      assert Slices(n, offset, counts)[1..] == Slices(n, offset + counts[0], counts[1..]);
    }
  }

  /** Cut from end to end by any counts, a byte string can be rebuilt from its parts. */
  lemma {:induction false} CutsRecover(s: bytes, counts: seq<nat>)
    requires Sum(counts) == 8 * |s|
    ensures ToLE(Join(Slices(FromLE(s), 0, counts), counts), |s|) == s
  {
    var n := FromLE(s);
    SlicesJoin(n, 0, counts);
    Pow256IsPow2(|s|);
    assert Shr(n, 0) == n;
    Remainder(n, 0, Pow256(|s|), n);
    ToFromLE(s);
  }

  /** Where the k-th cut of a list lies. */
  lemma {:induction false} SlicesAt(n: nat, offset: nat, counts: seq<nat>, k: nat)
    requires k < |counts|
    ensures Slices(n, offset, counts)[k] == Slice(n, offset + Sum(counts[..k]), counts[k])
    decreases k
  {
    if k > 0 {
      SlicesAt(n, offset + counts[0], counts[1..], k - 1);
      assert counts[..k][1..] == counts[1..][..k - 1];
    }
  }

  /* ----- split_bitstring ----- */

  class SplitBitstring {
    const source: bytes
    /** Bits of the unsigned type that `cut` returns. */
    const width: nat
    var cur: nat
    var offset: nat

    constructor (source: bytes, width: nat, bitOffset: nat)
      requires bitOffset <= 8 * |source|
      ensures Valid() && BitOffset() == bitOffset && this.source == source && this.width == width
    {
      this.source := source;
      this.width := width;
      cur := bitOffset / 8;
      offset := bitOffset % 8;
    }

    predicate Valid()
      reads this
    {
      cur <= |source| && offset < 8 && (cur == |source| ==> offset == 0)
    }

    predicate Eos()
      reads this
    {
      cur >= |source|
    }

    function BitOffset(): nat
      reads this
    {
      offset + cur * 8
    }

    function RestCount(): nat
      requires Valid()
      reads this
    {
      |source| * 8 - BitOffset()
    }

    method Cut(count: nat) returns (result: nat)
      requires Valid() && !Eos() && count <= width && count <= RestCount()
      modifies this
      ensures Valid() && BitOffset() == old(BitOffset()) + count
      ensures result == Slice(FromLE(source), old(BitOffset()), count)
    {
      hide Pow2, BitOr, BitAnd, Slice, FromLE, Shl;
      ghost var n, first := FromLE(source), BitOffset();
      result := 0;
      SliceOfNone(n, first);
      var done := 0;
      while done < count
        invariant Valid() && done <= count
        invariant BitOffset() == first + done
        invariant result == Slice(n, first, done)
      {
        var bits := count - done;
        if bits > 8 - offset { bits := 8 - offset; }
        SliceOfByte(source, cur, offset, bits);
        MaskedByte(source[cur], offset, bits);
        OrSlice(n, first, done, bits, width);
        result := BitOr(result, Shl(BitAnd(Shr(source[cur], offset), Shl(1, bits) - 1), done) % Pow2(width));
        offset := offset + bits;
        if offset == 8 {
          offset := 0;
          cur := cur + 1;
        }
        done := done + bits;
      }
    }

    method SafeCut(count: nat) returns (result: nat)
      requires Valid() && Min(count, RestCount()) <= width
      modifies this
      ensures Valid() && BitOffset() == old(BitOffset()) + Min(count, old(RestCount()))
      ensures result == Slice(FromLE(source), old(BitOffset()), Min(count, old(RestCount())))
    {
      hide Slice;
      SliceOfNone(FromLE(source), BitOffset());
      if Eos() { return 0; }
      var rest := (|source| - cur - 1) * 8 + (8 - offset);
      var n := if rest < count then rest else count;
      if n == 0 { return 0; }
      result := Cut(n);
    }

    method Reset()
      modifies this
      ensures Valid() && BitOffset() == 0
    {
      cur := 0;
      offset := 0;
    }
  }

  lemma MaskedByte(b: byte, offset: nat, bits: nat)
    ensures Shl(1, bits) > 0
    ensures BitAnd(Shr(b, offset), Shl(1, bits) - 1) == Slice(b, offset, bits)
  {
    AndMask(Shr(b, offset), bits);
  }

  /** No cut starts at the end of the string or takes more than is left, nor more than `width`
      bits. */
  predicate Cuttable(counts: seq<nat>, width: nat, rest: nat) {
    counts == [] || (0 < rest && counts[0] <= width && counts[0] <= rest
      && Cuttable(counts[1..], width, rest - counts[0]))
  }

  /** Any list of cuts that the string can bear: consecutive slices, the k-th one behind those
      before it, offset and rest in balance, all cut bits recoverable. */
  method CutAll(s: SplitBitstring, counts: seq<nat>) returns (parts: seq<nat>)
    requires s.Valid() && Cuttable(counts, s.width, s.RestCount())
    modifies s
    ensures s.Valid() && s.BitOffset() == old(s.BitOffset()) + Sum(counts)
    ensures s.BitOffset() + s.RestCount() == 8 * |s.source|
    ensures parts == Slices(FromLE(s.source), old(s.BitOffset()), counts)
    ensures forall k :: 0 <= k < |counts| ==>
      parts[k] == Slice(FromLE(s.source), old(s.BitOffset()) + Sum(counts[..k]), counts[k])
    ensures Join(parts, counts) == Slice(FromLE(s.source), old(s.BitOffset()), Sum(counts))
    decreases counts
  {
    hide Slice, FromLE;
    ghost var n, first := FromLE(s.source), s.BitOffset();
    if counts == [] {
      parts := [];
    } else {
      var part := s.Cut(counts[0]);
      var others := CutAll(s, counts[1..]);
      parts := [part] + others;
    }
    SlicesJoin(n, first, counts);
    forall k | 0 <= k < |counts| ensures parts[k] == Slice(n, first + Sum(counts[..k]), counts[k]) {
      SlicesAt(n, first, counts, k);
    }
  }

  /* ----- byte_splitter ----- */

  class ByteSplitter {
    const source: bytes
    const width: nat
    var cur: nat

    constructor (source: bytes, width: nat, bitOffset: nat)
      requires bitOffset % 8 == 0 && bitOffset < 8 * |source|
      ensures Valid() && BitOffset() == bitOffset && this.source == source && this.width == width
    {
      this.source := source;
      this.width := width;
      cur := bitOffset / 8;
    }

    predicate Valid()
      reads this
    {
      cur <= |source|
    }

    predicate Eos()
      reads this
    {
      cur >= |source|
    }

    function BitOffset(): nat
      reads this
    {
      cur * 8
    }

    function RestCount(): nat
      requires Valid()
      reads this
    {
      |source| * 8 - BitOffset()
    }

    /** On whole bytes it cuts what `SplitBitstring.Cut` does. */
    method Cut(count: nat) returns (result: nat)
      requires Valid() && !Eos() && count % 8 == 0 && count <= width && count <= RestCount()
      modifies this
      ensures Valid() && BitOffset() == old(BitOffset()) + count
      ensures result == Slice(FromLE(source), old(BitOffset()), count)
    {
      hide Pow2, BitOr, Slice, FromLE, Shl;
      ghost var n, first := FromLE(source), BitOffset();
      result := 0;
      SliceOfNone(n, first);
      var i := 0;
      while i < count
        invariant Valid() && i <= count && i % 8 == 0
        invariant BitOffset() == first + i
        invariant result == Slice(n, first, i)
      {
        SliceOfByte(source, cur, 0, 8);
        WholeByte(source[cur]);
        OrSlice(n, first, i, 8, width);
        result := BitOr(result, Shl(source[cur], i) % Pow2(width));
        cur := cur + 1;
        i := i + 8;
      }
    }

    /** The rest that it computes leaves out the current byte: short of the end it stops after
        at most `RestCount() - 8` bits, and cuts what was asked for, as far as there is a rest,
        exactly when one byte more than that remains. */
    method SafeCut(count: nat) returns (result: nat)
      requires Valid()
      requires !Eos() ==> var n := Min(count, RestCount() - 8); n % 8 == 0 && n <= width
      modifies this
      ensures Valid() && BitOffset() >= old(BitOffset())
      ensures result == Slice(FromLE(source), old(BitOffset()), BitOffset() - old(BitOffset()))
      ensures !old(Eos()) ==> BitOffset() == old(BitOffset()) + Min(count, old(RestCount()) - 8)
      ensures BitOffset() == old(BitOffset()) + Min(count, old(RestCount())) <==>
        old(Eos()) || count <= old(RestCount()) - 8
    {
      hide Slice;
      SliceOfNone(FromLE(source), BitOffset());
      if Eos() { return 0; }
      var rest := (|source| - cur - 1) * 8;
      var n := if rest < count then rest else count;
      if n == 0 { return 0; }
      result := Cut(n);
    }

    method Reset()
      modifies this
      ensures Valid() && BitOffset() == 0
    {
      cur := 0;
    }
  }

  /** One byte, eight bits asked for: nothing is cut, and the eight bits are still to come. */
  method LastByteMissed(b: byte) returns (s: ByteSplitter, result: nat)
    ensures fresh(s) && s.Valid() && s.source == [b] && s.width == 32
    ensures result == 0 && s.BitOffset() == 0 && s.RestCount() == 8
  {
    s := new ByteSplitter([b], 32, 0);
    result := s.SafeCut(8);
    SliceOfNone(FromLE([b]), 0);
  }

  lemma WholeByte(b: byte)
    ensures Slice(b, 0, 8) == b
  {
    assert Pow2(4) == 16;
    assert Pow2(8) == 256;
    assert Shr(b, 0) == b;
  }

  /* ----- number_splitter ----- */

  /** Over an unsigned number of `width` bits. */
  class NumberSplitter {
    const number: nat
    const width: nat
    var shift: nat

    constructor (number: nat, width: nat, initialOffset: nat)
      requires number < Pow2(width) && initialOffset < width
      ensures BitOffset() == initialOffset && this.number == number && this.width == width
    {
      this.number := number;
      this.width := width;
      shift := initialOffset;
    }

    predicate Eos()
      reads this
    {
      shift >= width
    }

    function BitOffset(): nat
      reads this
    {
      shift
    }

    function RestCount(): nat
      requires BitOffset() <= width
      reads this
    {
      width - shift
    }

    /** The mask is built in a signed int, hence the bound of 31. */
    method Cut(count: nat) returns (result: nat)
      requires !Eos() && count < width && count < 31
      modifies this
      ensures BitOffset() == old(BitOffset()) + count
      ensures result == Slice(number, old(BitOffset()), count)
    {
      AndMask(Shr(number, shift), count);
      result := BitAnd(Shr(number, shift), Shl(1, count) - 1);
      shift := shift + count;
    }

    /** Past the end of the number it cuts nothing. */
    method SafeCut(count: nat) returns (result: nat)
      requires !Eos() ==> Min(count, RestCount()) < Min(width, 31)
      modifies this
      ensures var n := if old(Eos()) then 0 else Min(count, width - old(BitOffset()));
        BitOffset() == old(BitOffset()) + n && result == Slice(number, old(BitOffset()), n)
    {
      hide Slice;
      SliceOfNone(number, shift);
      if Eos() { return 0; }
      var rest := RestCount();
      var n := if rest < count then rest else count;
      if n == 0 { return 0; }
      result := Cut(n);
    }

    method Reset()
      modifies this
      ensures BitOffset() == 0
    {
      shift := 0;
    }
  }

  /** A number and its bytes are cut alike, by any counts from any common position. */
  method CutAlike(s: SplitBitstring, n: NumberSplitter, counts: seq<nat>) returns (a: seq<nat>, b: seq<nat>)
    requires s.Valid() && s.source == ToLE(n.number, |s.source|)
    requires n.width == 8 * |s.source| > 0 && n.number < Pow2(n.width)
    requires s.BitOffset() == n.BitOffset() && Cuttable(counts, Min(s.width, Min(n.width - 1, 30)), s.RestCount())
    modifies s, n
    ensures a == b == Slices(n.number, old(n.BitOffset()), counts)
    ensures s.Valid() && s.BitOffset() == n.BitOffset() == old(n.BitOffset()) + Sum(counts)
    decreases counts
  {
    hide Slice, FromLE, ToLE, Pow2;
    a, b := [], [];
    if counts == [] { return; }
    Pow256IsPow2(|s.source|);
    FromToLE(n.number, |s.source|);
    var p := s.Cut(counts[0]);
    var q := n.Cut(counts[0]);
    a, b := CutAlike(s, n, counts[1..]);
    a, b := [p] + a, [q] + b;
  }
}
