/** The circular byte buffer of a connection, proved a bounded FIFO. */
module Ring {
  import opened Arith
  import opened Options
  import opened Bytes

  /** The ring index `k` places after `start`. */
  function Idx(start: nat, k: nat, capacity: nat): nat
    requires start < capacity && k <= capacity
  {
    if start + k < capacity then start + k else start + k - capacity
  }

  lemma IdxIsModulo(start: nat, k: nat, capacity: nat)
    requires start < capacity && k <= capacity
    ensures Idx(start, k, capacity) == (start + k) % capacity
  {}

  /* ----- which cells `peek` reads ----- */

  /** Ring indices that `peek` of an `n`-byte object copies, in order; None when a copy would
      leave the ring or the destination. `first` is computed as in the source, from the size;
      the second copy is placed `first` objects, not bytes, into the destination. */
  function PeekCells(start: nat, end: nat, size: nat, capacity: nat, n: nat): Option<seq<nat>> {
    if end < start then
      var first := size - start;
      if first < 0 || first > n || size > capacity || n > capacity
        || (first < n && first * n + (n - first) > n) then None
      else Some(seq(first, k => start + k) + seq(n - first, k => first + k))
    else if start + n > capacity then None
    else Some(seq(n, k => start + k))
  }

  /** The cells of the next `n` stored bytes. */
  function PopCells(start: nat, capacity: nat, n: nat): seq<nat>
    requires start < capacity && n <= capacity
  {
    seq(n, k requires 0 <= k < n => Idx(start, k, capacity))
  }

  /** What a caller can check before peeking `n` bytes. */
  predicate PeekGood(start: nat, end: nat, size: nat, capacity: nat, n: nat) {
    start + n <= capacity && (end < start ==> size == start + n)
  }

  /** `peek` reads the bytes that the next `pop` would return exactly under `PeekGood`; the
      branch for wrapped contents is wrong in every other state that reaches it. */
  lemma PeekExact(start: nat, end: nat, size: nat, capacity: nat, n: nat)
    requires start < capacity && 0 < n <= size <= capacity && end == Idx(start, size, capacity)
    ensures PeekCells(start, end, size, capacity, n) == Some(PopCells(start, capacity, n)) <==>
      PeekGood(start, end, size, capacity, n)
  {
    var cells, pop := PeekCells(start, end, size, capacity, n), PopCells(start, capacity, n);
    if PeekGood(start, end, size, capacity, n) {
      assert cells.value == pop;
    } else if cells.Some? {
      assert pop[0] == start;
      if end < start { NoRoomForBoth(size - start, n); }
      assert cells.value[0] == if size == start then 0 else start;
      assert pop[n - 1] == Idx(start, n - 1, capacity);
    }
  }

  lemma NoRoomForBoth(first: nat, n: nat)
    requires first < n && first * n + (n - first) <= n
    ensures first == 0
  {}

  /** An unwrapped buffer, and one that starts at the head, can be peeked. */
  lemma PeekGoodWhenUnwrapped(start: nat, end: nat, size: nat, capacity: nat, n: nat)
    requires start < capacity && 0 < n <= size <= capacity && end == Idx(start, size, capacity)
    requires start == 0 || start < end
    ensures PeekGood(start, end, size, capacity, n)
  {}

  /* ----- the stored bytes ----- */

  /** The `size` bytes of `ring` from `start` on, around the end. */
  function Stored(ring: bytes, start: nat, size: nat): (s: bytes)
    requires size <= |ring| && (|ring| > 0 ==> start < |ring|) && (|ring| == 0 ==> start == 0)
    ensures |s| == size
    ensures forall k :: 0 <= k < size ==> s[k] == ring[Idx(start, k, |ring|)]
  {
    if start + size <= |ring| then ring[start..start + size] else ring[start..] + ring[..start + size - |ring|]
  }

  /** The bytes in the given cells. */
  function Gathered(ring: bytes, cells: seq<nat>): (s: bytes)
    requires forall k :: 0 <= k < |cells| ==> cells[k] < |ring|
    ensures |s| == |cells| && forall k :: 0 <= k < |cells| ==> s[k] == ring[cells[k]]
  {
    seq(|cells|, k requires 0 <= k < |cells| => ring[cells[k]])
  }

  /** `src` copied into `dst` at `at`. */
  function Copied(dst: bytes, at: nat, src: bytes): (r: bytes)
    requires at + |src| <= |dst|
    ensures |r| == |dst|
    ensures forall k :: 0 <= k < |r| ==> r[k] == if at <= k < at + |src| then src[k - at] else dst[k]
  {
    dst[..at] + src + dst[at + |src|..]
  }

  lemma NothingRead(dst: bytes, contents: bytes)
    ensures Copied(dst, 0, contents[..0]) == dst && contents[0..] == contents
  {}

  lemma TwoCopies(dst: bytes, a: bytes, b: bytes)
    requires |a| + |b| <= |dst|
    ensures Copied(Copied(dst, 0, a), |a|, b) == Copied(dst, 0, a + b)
  {}

  /** Writing behind the stored bytes appends, whether or not the write wraps. */
  lemma WriteAppends(ring: bytes, start: nat, size: nat, src: bytes)
    requires start < |ring| && size + |src| <= |ring| && size < |ring|
    ensures var end := Idx(start, size, |ring|);
      if end + |src| <= |ring| then Stored(Copied(ring, end, src), start, size + |src|) ==
        Stored(ring, start, size) + src
      else
        var room := |ring| - end;
        Stored(Copied(Copied(ring, end, src[..room]), 0, src[room..]), start, size + |src|) ==
          Stored(ring, start, size) + src
  {
    hide Stored, Copied;
    var end := Idx(start, size, |ring|);
    if end + |src| <= |ring| {
      assert Stored(Copied(ring, end, src), start, size + |src|) == Stored(ring, start, size) + src;
    } else {
      var room := |ring| - end;
      var once := Copied(ring, end, src[..room]);
      assert Stored(Copied(once, 0, src[room..]), start, size + |src|) == Stored(ring, start, size) + src;
    }
  }

  lemma ReadDrops(ring: bytes, start: nat, size: nat, count: nat)
    requires start < |ring| && count <= size <= |ring| && count < |ring|
    ensures Stored(ring, Idx(start, count, |ring|), size - count) == Stored(ring, start, size)[count..]
    ensures Stored(ring, start, count) == Stored(ring, start, size)[..count]
  {
    hide Stored;
    var s := Stored(ring, start, size);
    assert Stored(ring, start, count) == s[..count];
    assert Stored(ring, Idx(start, count, |ring|), size - count) == s[count..];
  }

  lemma PeekedBytes(ring: bytes, start: nat, end: nat, size: nat, n: nat)
    requires start < |ring| && 0 < n <= size <= |ring| && end == Idx(start, size, |ring|)
    requires PeekCells(start, end, size, |ring|, n).Some?
    ensures var cells := PeekCells(start, end, size, |ring|, n).value;
      && |cells| == n && (forall k :: 0 <= k < n ==> cells[k] < |ring|)
      && (end < start ==> size == start || size == start + n <= |ring|)
      && (!(end < start) ==> start + n <= |ring|)
      && (if end < start && size == start then Gathered(ring, cells) == ring[..n] && n <= |ring|
          else start + n <= |ring| && Gathered(ring, cells) == ring[start..start + n])
      && (PeekGood(start, end, size, |ring|, n) ==> Gathered(ring, cells) == Stored(ring, start, size)[..n])
  {
    if end < start && size - start < n { NoRoomForBoth(size - start, n); }
  }

  /* ----- the class ----- */

  method Memcpy(dst: array<byte>, at: nat, src: seq<byte>)
    requires at + |src| <= dst.Length
    modifies dst
    ensures dst[..] == Copied(old(dst[..]), at, src)
  {
    for k := 0 to |src|
      invariant dst[..] == Copied(old(dst[..]), at, src[..k])
    {
      dst[at + k] := src[k];
    }
    assert src[..|src|] == src;
  }

  class RingBuffer {
    var start: nat
    var end: nat
    var size: nat
    const capacity: nat
    const ring: array<byte>

    constructor (capacity: nat)
      ensures Valid() && Contents() == [] && this.capacity == capacity && start == 0 && fresh(ring)
    {
      this.capacity := capacity;
      start, end, size := 0, 0, 0;
      ring := new byte[capacity];
    }

    predicate Valid()
      reads this
    {
      && ring.Length == capacity && size <= capacity
      && (capacity == 0 ==> start == 0 && end == 0)
      && (capacity > 0 ==> start < capacity && end == Idx(start, size, capacity))
      && (size == 0 ==> start == 0 && end == 0)
    }

    /** The stored bytes, oldest first. */
    function Contents(): (s: seq<byte>)
      requires Valid()
      reads this, ring
      ensures |s| == size
    {
      Stored(ring[..], start, size)
    }

    /** `get_space` */
    function Space(): nat
      requires Valid()
      reads this
    {
      capacity - size
    }

    /** `write`: takes what fits and appends it. */
    method Write(buffer: seq<byte>) returns (written: nat)
      requires Valid()
      modifies this, ring
      ensures Valid() && written == Min(|buffer|, old(Space()))
      ensures Contents() == old(Contents()) + buffer[..written]
      ensures start == old(start)
    {
      hide Stored, Copied;
      if |buffer| == 0 {
        assert Contents() + [] == Contents();
        return 0;
      }
      written := Min(|buffer|, capacity - size);
      if written == 0 {
        assert Contents() + [] == Contents();
        return;
      }
      WriteAppends(ring[..], start, size, buffer[..written]);
      if written <= capacity - end {
        Memcpy(ring, end, buffer[..written]);
        end := end + written;
        if end == capacity { end := 0; }
      } else {
        var endLen := capacity - end;
        var wrapLen := written - endLen;
        assert buffer[..endLen] == buffer[..written][..endLen]
          && buffer[endLen..written] == buffer[..written][endLen..];
        Memcpy(ring, end, buffer[..endLen]);
        Memcpy(ring, 0, buffer[endLen..written]);
        end := wrapLen;
      }
      size := size + written;
    }

    /** `read`: copies out up to `len` bytes from the front. */
    method Read(dst: array<byte>, len: nat) returns (count: nat)
      requires Valid() && dst != ring && Min(len, size) <= dst.Length
      modifies this, dst
      ensures Valid() && count == Min(len, old(size))
      ensures dst[..] == Copied(old(dst[..]), 0, old(Contents())[..count])
      ensures Contents() == old(Contents())[count..]
      ensures start == if size == 0 then 0 else Idx(old(start), count, capacity)
    {
      hide Stored, Copied, PeekGood;
      count := Min(len, size);
      if len == 0 || count == 0 {
        NothingRead(dst[..], Contents());
        return 0;
      }
      CopyOut(dst, count);
      if count < capacity { ReadDrops(ring[..], start, size, count); }
      if count <= capacity - start {
        start := start + count;
        if start == capacity { start := 0; }
      } else {
        start := count - (capacity - start);
      }
      size := size - count;
      if size == 0 {
        start := 0;
        end := 0;
      }
    }

    /** The two copying branches of `read`. */
    method CopyOut(dst: array<byte>, count: nat)
      requires Valid() && dst != ring && 0 < count <= size && count <= dst.Length
      modifies dst
      ensures dst[..] == Copied(old(dst[..]), 0, Contents()[..count])
    {
      hide Stored, Copied;
      if count <= capacity - start {
        Chunk(start, start + count);
        Memcpy(dst, 0, ring[start..start + count]);
      } else {
        var endLen := capacity - start;
        var wrapLen := count - endLen;
        TwoChunks(wrapLen);
        TwoCopies(dst[..], ring[start..], ring[..wrapLen]);
        Memcpy(dst, 0, ring[start..]);
        Memcpy(dst, endLen, ring[..wrapLen]);
      }
    }

    lemma Chunk(i: nat, j: nat)
      requires Valid() && i == start < j <= capacity && j - i <= size
      ensures ring[i..j] == Contents()[..j - i]
    {}

    lemma TwoChunks(wrapLen: nat)
      requires Valid() && capacity > 0 && capacity - start + wrapLen <= size
      ensures ring[start..] + ring[..wrapLen] == Contents()[..capacity - start + wrapLen]
    {}

    method ReadAll(dst: array<byte>, bufferLen: nat) returns (count: nat)
      requires Valid() && dst != ring && bufferLen <= dst.Length
      modifies this, dst
      ensures Valid() && count == if bufferLen < old(size) then 0 else old(size)
      ensures dst[..] == Copied(old(dst[..]), 0, old(Contents())[..count])
      ensures Contents() == old(Contents())[count..]
    {
      if bufferLen < size {
        assert Contents()[0..] == Contents();
        return 0;
      }
      count := Read(dst, size);
    }

    /** `peek` of an object of `n` bytes, wherever it stays within the ring and the object. It
        copies the cells of `PeekCells`: under `PeekGood`, those that `pop` would. */
    method Peek(dst: array<byte>, n: nat) returns (ok: bool)
      requires Valid() && dst != ring && n <= dst.Length && 0 < n
      requires n <= size ==> PeekCells(start, end, size, capacity, n).Some?
      modifies dst
      ensures ok <==> n <= size
      ensures ok ==> var cells := PeekCells(start, end, size, capacity, n).value;
        && |cells| == n && (forall k :: 0 <= k < n ==> cells[k] < capacity)
        && dst[..] == Copied(old(dst[..]), 0, Gathered(ring[..], cells))
      ensures ok && PeekGood(start, end, size, capacity, n) ==> dst[..] == Copied(old(dst[..]), 0, Contents()[..n])
      ensures !ok ==> dst[..] == old(dst[..])
    {
      hide Stored, Copied, Gathered, PeekCells, PeekGood;
      if size < n { return false; }
      PeekedBytes(ring[..], start, end, size, n);
      if end < start {
        var startBytes := size - start;
        NothingRead(dst[..], ring[start..]);
        Memcpy(dst, 0, ring[start..start + startBytes]);
        // Copying no bytes does nothing, wherever to.
        if startBytes < n { Memcpy(dst, startBytes * n, ring[startBytes..n]); }
      } else {
        Memcpy(dst, 0, ring[start..start + n]);
      }
      return true;
    }

    /** `pop` of an object of `n` bytes, and `pop_buf` */
    method Pop(dst: array<byte>, n: nat) returns (ok: bool)
      requires Valid() && dst != ring && n <= dst.Length
      modifies this, dst
      ensures Valid() && (ok <==> n <= old(size))
      ensures ok ==> dst[..] == Copied(old(dst[..]), 0, old(Contents())[..n]) && Contents() == old(Contents())[n..]
      ensures !ok ==> dst[..] == old(dst[..]) && Contents() == old(Contents())
    {
      if size < n { return false; }
      var count := Read(dst, n);
      return true;
    }
  }

  /** A wrapped buffer on which `peek` of a 23-byte header is wrong: 60 bytes written into a
      buffer of 64, 30 read, 10 more written. */
  method PeekFails() returns (rb: RingBuffer)
    ensures fresh(rb) && rb.Valid() && rb.capacity == 64 && rb.start == 30 && rb.end == 6 && rb.size == 40
    ensures PeekCells(rb.start, rb.end, rb.size, rb.capacity, 23) == None
  {
    hide Stored, Copied;
    rb := new RingBuffer(64);
    var scratch := new byte[64];
    var written := rb.Write(seq(60, k => 0));
    var count := rb.Read(scratch, 30);
    written := rb.Write(seq(10, k => 0));
  }

  /* ----- whole histories ----- */

  /** The buffer as a bounded FIFO. */
  datatype Op = WriteOp(buffer: bytes) | ReadOp(len: nat) | ReadAllOp(len: nat) | PopOp(len: nat)

  datatype Fifo = Fifo(contents: bytes, capacity: nat)

  function Taken(q: Fifo, op: Op): nat {
    match op
    case WriteOp(_) => 0
    case ReadOp(len) => Min(len, |q.contents|)
    case ReadAllOp(len) => if len < |q.contents| then 0 else |q.contents|
    case PopOp(len) => if len <= |q.contents| then len else 0
  }

  function Accepted(q: Fifo, op: Op): bytes {
    if op.WriteOp? then
      if |q.contents| <= q.capacity then op.buffer[..Min(|op.buffer|, q.capacity - |q.contents|)] else []
    else []
  }

  /** The state after `op`: the contracts of the methods above, read as one step. */
  function After(q: Fifo, op: Op): Fifo {
    q.(contents := q.contents[Taken(q, op)..] + Accepted(q, op))
  }

  function FifoRun(q: Fifo, ops: seq<Op>): (Fifo, bytes, bytes) {
    if ops == [] then (q, [], [])
    else
      var (q1, accepted, returned) := FifoRun(q, ops[..|ops| - 1]);
      var op := ops[|ops| - 1];
      (After(q1, op), accepted + Accepted(q1, op), returned + q1.contents[..Taken(q1, op)])
  }

  /** Over any sequence of operations the bytes accepted are the bytes returned, in order,
      followed by the bytes still stored; and the buffer never overfills. */
  lemma {:induction false} FifoConserves(capacity: nat, ops: seq<Op>)
    ensures var (q, accepted, returned) := FifoRun(Fifo([], capacity), ops);
      accepted == returned + q.contents && |q.contents| <= capacity == q.capacity
    decreases |ops|
  {
    if ops != [] {
      FifoConserves(capacity, ops[..|ops| - 1]);
      var (q1, accepted, returned) := FifoRun(Fifo([], capacity), ops[..|ops| - 1]);
      var op := ops[|ops| - 1];
      var k := Taken(q1, op);
      assert q1.contents == q1.contents[..k] + q1.contents[k..];
      Assoc(returned, q1.contents[..k], q1.contents[k..]);
      Assoc(returned + q1.contents[..k], q1.contents[k..], Accepted(q1, op));
    }
  }

  /** One operation on the real buffer is one step of the FIFO. */
  method DriveOne(rb: RingBuffer, op: Op, scratch: array<byte>) returns (accepted: bytes, returned: bytes)
    requires rb.Valid() && scratch != rb.ring && scratch.Length >= rb.capacity
    requires op.ReadAllOp? || op.PopOp? ==> op.len <= scratch.Length
    modifies rb, rb.ring, scratch
    ensures rb.Valid()
    ensures var q := Fifo(old(rb.Contents()), rb.capacity);
      Fifo(rb.Contents(), rb.capacity) == After(q, op) && accepted == Accepted(q, op)
        && returned == q.contents[..Taken(q, op)]
  {
    hide Stored;
    accepted, returned := [], [];
    ghost var s := rb.Contents();
    match op {
      case WriteOp(buffer) =>
        var n := rb.Write(buffer);
        accepted := buffer[..n];
        assert s[0..] == s && s[..0] == [];
      case ReadOp(len) =>
        var n := rb.Read(scratch, len);
        returned := scratch[..n];
        assert s[n..] + [] == s[n..];
      case ReadAllOp(len) =>
        var n := rb.ReadAll(scratch, len);
        returned := scratch[..n];
        assert s[n..] + [] == s[n..];
      case PopOp(len) =>
        var ok := rb.Pop(scratch, len);
        if ok {
          returned := scratch[..len];
          assert s[len..] + [] == s[len..];
        } else {
          assert s[0..] + [] == s && s[..0] == [];
        }
    }
  }

  /** Over any sequence of writes, reads, pops and `read_all`, the real buffer accepts, returns
      and stores what the FIFO does: the bytes accepted are those returned, then those stored. */
  method Drive(rb: RingBuffer, ops: seq<Op>, scratch: array<byte>) returns (accepted: bytes, returned: bytes)
    requires rb.Valid() && rb.Contents() == [] && scratch != rb.ring && scratch.Length >= rb.capacity
    requires forall k :: 0 <= k < |ops| ==> ops[k].ReadAllOp? || ops[k].PopOp? ==> ops[k].len <= scratch.Length
    modifies rb, rb.ring, scratch
    ensures rb.Valid()
    ensures (Fifo(rb.Contents(), rb.capacity), accepted, returned) == FifoRun(Fifo([], rb.capacity), ops)
    ensures accepted == returned + rb.Contents()
  {
    hide Stored, After, Accepted, Taken;
    accepted, returned := [], [];
    for i := 0 to |ops|
      invariant rb.Valid()
      invariant (Fifo(rb.Contents(), rb.capacity), accepted, returned) == FifoRun(Fifo([], rb.capacity), ops[..i])
    {
      assert ops[..i + 1][..i] == ops[..i] && ops[..i + 1][i] == ops[i];
      var a, r := DriveOne(rb, ops[i], scratch);
      accepted, returned := accepted + a, returned + r;
    }
    assert ops[..|ops|] == ops;
    FifoConserves(rb.capacity, ops);
  }
}
