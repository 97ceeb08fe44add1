/** Every run of a connection computes one function of the byte stream, however the stream
    is cut into deliveries. */
module ConnectionRuns {
  import opened Bytes
  import opened MessageHeader
  import opened ConnectionSpec

  lemma HeadOfAppend(b: bytes, future: bytes, n: nat)
    requires n <= |b|
    ensures (b + future)[..n] == b[..n] && (b + future)[n..] == b[n..] + future
  {}

  lemma DeliverKeepsTotal(k: Conn, chunk: bytes, capacity: nat, future: bytes)
    requires |k.inbuf| + |chunk| <= capacity
    ensures Total(Deliver(k, chunk, capacity), future) == Total(k, chunk + future)
  {
    Assoc(k.inbuf, chunk, future);
    hide Handshake, Frames, Payload;
  }

  lemma ReceiveKeepsTotal(k: Conn, chunk: bytes, capacity: nat, future: bytes)
    requires Ok(k) && k.phase == ReceivePayload && |k.inbuf| + |chunk| <= capacity
    ensures Ok(Receive(k, chunk, capacity))
    ensures Total(Receive(k, chunk, capacity), future) == Total(k, chunk + future)
  {
    DeliverKeepsTotal(k, chunk, capacity, future);
    var d := Deliver(k, chunk, capacity);
    var len := d.header.payloadLen;
    if |d.inbuf| >= len {
      HeadOfAppend(d.inbuf, future, len);
      hide Frames;
    }
  }

  lemma OpenKeepsTotal(k: Conn, future: bytes)
    requires k.phase == OpenConnection && k.lastSend == 0 && k.replies == []
    ensures Ok(Open(k))
    ensures k.header.payloadLen == 0 ==>
      Total(Open(k), future) == Then(Ack(1), Frames(k.inbuf + future))
    ensures k.header.payloadLen != 0 ==> Total(Open(k), future) == Meaning([], Refused(k.inbuf + future))
  {
    hide Frames;
  }

  lemma HandshakeKeepsTotal(k: Conn, chunk: bytes, capacity: nat, future: bytes)
    requires Ok(k) && k.phase == AwaitHandshake
    ensures Ok(Tick(k, chunk, capacity))
    ensures Total(Tick(k, chunk, capacity), future) == Total(k, future)
  {
    if |k.inbuf| >= HEADER_LEN {
      HeadOfAppend(k.inbuf, future, HEADER_LEN);
      var h := Decode(k.inbuf[..HEADER_LEN]);
      var j := k.(header := h, inbuf := k.inbuf[HEADER_LEN..]);
      if h.magic == MSG_MAGIC && h.code == OPEN_CONNECTION { OpenKeepsTotal(j.(phase := OpenConnection), future); }
      hide Decode, Frames;
    }
  }

  lemma ChannelKeepsTotal(k: Conn, chunk: bytes, capacity: nat, future: bytes)
    requires k.phase == HandleOpenChannel && Fits(k, RunState(chunk), capacity)
    ensures Ok(Tick(k, chunk, capacity))
    ensures Total(Tick(k, chunk, capacity), future) == Total(k, Received(k, RunState(chunk)) + future)
  {
    var arrived := Received(k, RunState(chunk));
    assert [] + future == future;
    if |k.inbuf| >= HEADER_LEN {
      HeadOfAppend(k.inbuf, arrived + future, HEADER_LEN);
      var h := Decode(k.inbuf[..HEADER_LEN]);
      var j := k.(header := h, inbuf := k.inbuf[HEADER_LEN..], lastSend := h.dest, phase := ReceivePayload);
      if CallsRecv(k) { ReceiveKeepsTotal(j, chunk, capacity, future); }
      hide Decode, Payload, Receive;
    }
  }

  lemma TickKeepsTotal(k: Conn, chunk: bytes, capacity: nat, future: bytes)
    requires Ok(k) && Fits(k, RunState(chunk), capacity)
    ensures Ok(Tick(k, chunk, capacity))
    ensures Total(Tick(k, chunk, capacity), future) == Total(k, Received(k, RunState(chunk)) + future)
  {
    assert [] + future == future;
    match k.phase
    case AwaitHandshake => HandshakeKeepsTotal(k, chunk, capacity, future);
    case HandleOpenChannel => ChannelKeepsTotal(k, chunk, capacity, future);
    case ReceivePayload => ReceiveKeepsTotal(k, chunk, capacity, future);
    case SendMsg =>
      hide Frames;
      Assoc(k.replies, [Answer((k.lastSend + 1) % 256)], Frames(k.inbuf + future).replies);
    case _ =>
  }

  lemma {:induction false} RunKeepsTotal(es: seq<Event>, capacity: nat, future: bytes)
    requires AllFit(es, capacity)
    ensures var (k, stream) := Run(es, capacity); Ok(k) && Total(k, future) == Handshake(stream + future)
    decreases |es|
  {
    if es == [] {
      assert [] + Handshake([] + future).replies == Handshake([] + future).replies;
    } else {
      var n := |es| - 1;
      var e := es[n];
      var (k, stream) := Run(es[..n], capacity);
      assert AllFit(es[..n], capacity) by { PrefixFits(es, capacity, n); }
      assert Fits(k, e, capacity);
      RunKeepsTotal(es[..n], capacity, Received(k, e) + future);
      Assoc(stream, Received(k, e), future);
      hide Handshake, Total, Tick, Deliver;
      match e
      case Arrive(chunk) => DeliverKeepsTotal(k, chunk, capacity, future); DeliverKeepsOk(k, chunk, capacity);
      case RunState(chunk) => TickKeepsTotal(k, chunk, capacity, future);
    }
  }

  lemma DeliverKeepsOk(k: Conn, chunk: bytes, capacity: nat)
    requires Ok(k)
    ensures Ok(Deliver(k, chunk, capacity))
  {}

  lemma PrefixFits(es: seq<Event>, capacity: nat, n: nat)
    requires n <= |es| && AllFit(es, capacity)
    ensures AllFit(es[..n], capacity)
  {
    forall m | 0 <= m < n ensures Fits(Run(es[..n][..m], capacity).0, es[..n][m], capacity) {
      assert es[..n][..m] == es[..m];
    }
  }

  lemma AfterFits(k: Conn, e: Event, capacity: nat)
    requires |k.inbuf| <= capacity && Fits(k, e, capacity)
    ensures |After(k, e, capacity).inbuf| <= capacity
  {
    hide Decode;
  }

  lemma {:induction false} RunFits(es: seq<Event>, capacity: nat)
    requires AllFit(es, capacity)
    ensures |Run(es, capacity).0.inbuf| <= capacity
    decreases |es|
  {
    if es != [] {
      var n := |es| - 1;
      PrefixFits(es, capacity, n);
      RunFits(es[..n], capacity);
      assert Fits(Run(es[..n], capacity).0, es[n], capacity);
      AfterFits(Run(es[..n], capacity).0, es[n], capacity);
    }
  }

  /** Running the state function again, with nothing on the socket, changes nothing. */
  predicate Quiescent(k: Conn, capacity: nat) { Tick(k, [], capacity) == k }

  /** Where the connection itself stands. */
  function Standing(k: Conn): End {
    match k.phase
    case AwaitHandshake => NeedsHandshake(k.inbuf)
    case OpenConnection => Refused(k.inbuf)
    case ReceivePayload => NeedsPayload(k.header.payloadLen, k.inbuf)
    case Closed => ShutDown(k.inbuf)
    case _ => NeedsHeader(k.inbuf)
  }

  lemma QuiescentIsFinished(k: Conn, capacity: nat)
    requires Ok(k) && Quiescent(k, capacity) && |k.inbuf| <= capacity
    ensures Total(k, []) == Meaning(k.replies, Standing(k))
  {
    assert k.inbuf + [] == k.inbuf && k.replies + [] == k.replies;
    if |k.inbuf| >= HEADER_LEN && (k.phase == AwaitHandshake || k.phase == HandleOpenChannel) {
      TickConsumes(k, capacity);
    }
    hide Decode;
  }

  lemma TickConsumes(k: Conn, capacity: nat)
    requires |k.inbuf| >= HEADER_LEN && (k.phase == AwaitHandshake || k.phase == HandleOpenChannel)
      && |k.inbuf| <= capacity
    ensures Tick(k, [], capacity) != k
  {
    assert |k.inbuf[HEADER_LEN..]| < |k.inbuf|;
    hide Decode;
  }

  /** However a stream is cut into deliveries and interleaved with state() steps, provided
      nothing overflows, the replies queued are always a prefix of those of one function of
      the whole stream, and once nothing more happens replies and state equal it. */
  lemma ChunkIndependence(es: seq<Event>, capacity: nat)
    requires AllFit(es, capacity)
    ensures var (k, stream) := Run(es, capacity);
      && k.replies <= Handshake(stream).replies
      && (Quiescent(k, capacity) ==> Handshake(stream) == Meaning(k.replies, Standing(k)))
  {
    var (k, stream) := Run(es, capacity);
    RunKeepsTotal(es, capacity, []);
    RunFits(es, capacity);
    assert stream + [] == stream;
    if Quiescent(k, capacity) { QuiescentIsFinished(k, capacity); }
    hide Handshake, Rest;
  }

  /* ----- what the stream function says ----- */

  function HeaderAt(b: bytes, n: nat): Header
    requires HEADER_LEN * (n + 1) <= |b|
  {
    Decode(b[HEADER_LEN * n..HEADER_LEN * (n + 1)])
  }

  /** The `n`th header-sized block opens the connection: it is a payload-free handshake, and
      all blocks before it carry the magic but some other code. */
  predicate OpensAt(b: bytes, n: nat) {
    && HEADER_LEN * (n + 1) <= |b|
    && HeaderAt(b, n).magic == MSG_MAGIC && HeaderAt(b, n).code == OPEN_CONNECTION && HeaderAt(b, n).payloadLen == 0
    && forall j :: 0 <= j < n ==> HeaderAt(b, j).magic == MSG_MAGIC && HeaderAt(b, j).code != OPEN_CONNECTION
  }

  lemma HeaderShift(b: bytes, n: nat)
    requires HEADER_LEN * (n + 2) <= |b|
    ensures HeaderAt(b[HEADER_LEN..], n) == HeaderAt(b, n + 1)
  {
    assert b[HEADER_LEN..][HEADER_LEN * n..HEADER_LEN * (n + 1)] == b[HEADER_LEN * (n + 1)..HEADER_LEN * (n + 2)];
    hide Decode;
  }

  lemma OpensShift(b: bytes, n: nat)
    requires |b| >= HEADER_LEN && HeaderAt(b, 0).magic == MSG_MAGIC && HeaderAt(b, 0).code != OPEN_CONNECTION
    ensures OpensAt(b[HEADER_LEN..], n) <==> OpensAt(b, n + 1)
  {
    hide HeaderAt;
    var c := b[HEADER_LEN..];
    if HEADER_LEN * (n + 2) <= |b| {
      forall j | 0 <= j <= n ensures HeaderAt(c, j) == HeaderAt(b, j + 1) { HeaderShift(b, j); }
      if OpensAt(c, n) {
        forall j | 0 <= j < n + 1 ensures HeaderAt(b, j).magic == MSG_MAGIC && HeaderAt(b, j).code != OPEN_CONNECTION {
          if j > 0 { assert HeaderAt(c, j - 1) == HeaderAt(b, j); }
        }
      }
    }
  }

  /* ----- the first header ----- */

  /** The first header carries the magic but does not open the connection. */
  predicate SkipsFirst(b: bytes) {
    HEADER_LEN <= |b| && Decode(b[..HEADER_LEN]).magic == MSG_MAGIC && Decode(b[..HEADER_LEN]).code != OPEN_CONNECTION
  }

  /** Until it has popped a header, a connection awaiting the handshake holds all that it has
      received; afterwards it awaits it only because the first header was skipped. */
  predicate Awaiting(k: Conn, stream: bytes) {
    k.phase == AwaitHandshake ==> if k.header == NO_HEADER then k.inbuf == stream else SkipsFirst(stream)
  }

  lemma SkipsFirstAppend(b: bytes, more: bytes)
    ensures |b| >= HEADER_LEN ==> (SkipsFirst(b + more) <==> SkipsFirst(b))
    ensures SkipsFirst(b) ==> SkipsFirst(b + more)
  {
    if |b| >= HEADER_LEN { HeadOfAppend(b, more, HEADER_LEN); }
    hide Decode;
  }

  /** A step that leaves a connection awaiting its first header leaves it untouched. */
  lemma TickAwaits(k: Conn, chunk: bytes, capacity: nat)
    requires Tick(k, chunk, capacity).phase == AwaitHandshake
    ensures k.phase == AwaitHandshake && !CallsRecv(k)
    ensures Tick(k, chunk, capacity) == k || SkipsFirst(k.inbuf)
    ensures Tick(k, chunk, capacity) == k || Tick(k, chunk, capacity).header != NO_HEADER
  {
    hide Decode;
  }

  lemma {:induction false} RunAwaits(es: seq<Event>, capacity: nat)
    requires AllFit(es, capacity)
    ensures Awaiting(Run(es, capacity).0, Run(es, capacity).1)
    decreases |es|
  {
    if es != [] {
      var n := |es| - 1;
      var (k, stream) := Run(es[..n], capacity);
      PrefixFits(es, capacity, n);
      RunAwaits(es[..n], capacity);
      assert Fits(k, es[n], capacity);
      SkipsFirstAppend(stream, Received(k, es[n]));
      hide Tick, SkipsFirst;
      match es[n]
      case Arrive(chunk) =>
      case RunState(chunk) =>
        if Tick(k, chunk, capacity).phase == AwaitHandshake {
          TickAwaits(k, chunk, capacity);
          assert stream + [] == stream;
        }
    }
  }

  /** What a run has received only grows. */
  lemma {:induction false} RunPrefix(es: seq<Event>, capacity: nat, n: nat)
    requires n <= |es|
    ensures Run(es[..n], capacity).1 <= Run(es, capacity).1
    decreases |es|
  {
    if n == |es| {
      assert es[..n] == es;
    } else {
      var before := es[..|es| - 1];
      assert before[..n] == es[..n];
      RunPrefix(before, capacity, n);
    }
  }

  /** A run that awaits the handshake behind an earlier header has skipped the first header of
      its stream. */
  lemma RunSkips(es: seq<Event>, capacity: nat, n: nat)
    requires n <= |es| && AllFit(es, capacity)
    requires var k := Run(es[..n], capacity).0; k.phase == AwaitHandshake && k.header != NO_HEADER
    ensures SkipsFirst(Run(es, capacity).1)
  {
    hide Run, SkipsFirst, AllFit;
    PrefixFits(es, capacity, n);
    RunAwaits(es[..n], capacity);
    RunPrefix(es, capacity, n);
    var early, late := Run(es[..n], capacity).1, Run(es, capacity).1;
    SkipsFirstAppend(early, late[|early|..]);
    assert early + late[|early|..] == late;
  }

  predicate AllAnswers(rs: seq<Reply>) { forall k :: 0 <= k < |rs| ==> rs[k].Answer? }

  lemma {:induction false} FramesAnswer(b: bytes)
    ensures AllAnswers(Frames(b).replies)
    decreases |b|
  {
    if |b| >= HEADER_LEN {
      var h, rest := Decode(b[..HEADER_LEN]), b[HEADER_LEN..];
      if h.magic != MSG_MAGIC || h.payloadLen == 0 { FramesAnswer(rest); }
      else if |rest| >= h.payloadLen { FramesAnswer(rest[h.payloadLen..]); }
      hide Decode;
    }
  }

  /** No message is queued before a payload-free handshake with the magic has been read; the
      first is then the acknowledgement, and the rest answer frames. */
  lemma {:induction false} AckOpensTheChannel(b: bytes)
    ensures Handshake(b).replies != [] <==> exists n: nat :: OpensAt(b, n)
    ensures Handshake(b).replies != [] ==> Handshake(b).replies[0] == Ack(1) && AllAnswers(Handshake(b).replies[1..])
    decreases |b|
  {
    if |b| >= HEADER_LEN {
      var rest := b[HEADER_LEN..];
      var h := HeaderAt(b, 0);
      assert b[..HEADER_LEN] == b[HEADER_LEN * 0..HEADER_LEN * 1];
      hide Decode, OpensAt;
      if h.magic == MSG_MAGIC && h.code != OPEN_CONNECTION {
        AckOpensTheChannel(rest);
        OpensLater(b);
      } else {
        OpensNow(b);
        FramesAnswer(rest);
      }
    } else {
      assert forall n: nat :: !OpensAt(b, n);
    }
  }

  lemma OpensLater(b: bytes)
    requires |b| >= HEADER_LEN && HeaderAt(b, 0).magic == MSG_MAGIC && HeaderAt(b, 0).code != OPEN_CONNECTION
    ensures (exists n: nat :: OpensAt(b, n)) <==> exists n: nat :: OpensAt(b[HEADER_LEN..], n)
  {
    var rest := b[HEADER_LEN..];
    assert !OpensAt(b, 0);
    hide OpensAt, HeaderAt;
    if n: nat :| OpensAt(rest, n) { OpensShift(b, n); }
    if n: nat :| OpensAt(b, n) {
      OpensShift(b, n - 1);
      assert OpensAt(rest, n - 1);
    }
  }

  lemma OpensNow(b: bytes)
    requires |b| >= HEADER_LEN && (HeaderAt(b, 0).magic != MSG_MAGIC || HeaderAt(b, 0).code == OPEN_CONNECTION)
    ensures (exists n: nat :: OpensAt(b, n)) <==>
      var h := HeaderAt(b, 0); h.magic == MSG_MAGIC && h.code == OPEN_CONNECTION && h.payloadLen == 0
  {
    hide HeaderAt;
    assert forall n: nat :: OpensAt(b, n) ==> n == 0;
    var h := HeaderAt(b, 0);
    if h.magic == MSG_MAGIC && h.code == OPEN_CONNECTION && h.payloadLen == 0 { assert OpensAt(b, 0); }
  }

  /** A header and the payload it announces; one without the magic stands alone. */
  datatype Frame = Frame(header: Header, payload: bytes)

  predicate WholeFrame(f: Frame) {
    if f.header.magic == MSG_MAGIC then f.header.payloadLen == |f.payload| else f.payload == []
  }

  predicate AllWhole(fs: seq<Frame>) { forall k :: 0 <= k < |fs| ==> WholeFrame(fs[k]) }

  function FramesBytes(fs: seq<Frame>): bytes {
    if fs == [] then [] else Encode(fs[0].header) + (fs[0].payload + FramesBytes(fs[1..]))
  }

  /** A frame cut off in its header or in its payload. */
  predicate CutOff(tail: bytes) {
    |tail| < HEADER_LEN ||
    (Decode(tail[..HEADER_LEN]).magic == MSG_MAGIC && |tail| - HEADER_LEN < Decode(tail[..HEADER_LEN]).payloadLen)
  }

  function CutOffEnd(tail: bytes): End {
    if |tail| < HEADER_LEN then NeedsHeader(tail)
    else NeedsPayload(Decode(tail[..HEADER_LEN]).payloadLen, tail[HEADER_LEN..])
  }

  /** A frame with the magic and a payload is answered. */
  function FirstAnswer(f: Frame): seq<Reply> {
    if f.header.magic != MSG_MAGIC || f.payload == [] then [] else [Answer((f.header.dest as int + 1) % 256)]
  }

  function AnswersTo(fs: seq<Frame>): seq<Reply> {
    if fs == [] then [] else FirstAnswer(fs[0]) + AnswersTo(fs[1..])
  }

  /** A stream of whole frames, the last one perhaps cut off, gets exactly one answer for each
      whole nonempty frame, in order, with the frame's destination plus one modulo 256. */
  lemma {:induction false} EachFrameAnswered(fs: seq<Frame>, tail: bytes)
    requires AllWhole(fs) && CutOff(tail)
    ensures Frames(FramesBytes(fs) + tail) == Meaning(AnswersTo(fs), CutOffEnd(tail))
    decreases |fs|
  {
    hide Encode, Decode;
    if fs == [] {
      assert [] + tail == tail;
    } else {
      EachFrameAnswered(fs[1..], tail);
      FirstFrameAnswered(fs[0], FramesBytes(fs[1..]) + tail);
      Assoc(Encode(fs[0].header), fs[0].payload + FramesBytes(fs[1..]), tail);
      Assoc(fs[0].payload, FramesBytes(fs[1..]), tail);
      hide Frames, FirstAnswer;
      var f := fs[0];
      assert FramesBytes(fs) + tail == Encode(f.header) + (f.payload + (FramesBytes(fs[1..]) + tail));
    }
  }

  lemma FirstFrameAnswered(f: Frame, more: bytes)
    requires WholeFrame(f)
    ensures var m := Frames(more);
      Frames(Encode(f.header) + (f.payload + more)) == m.(replies := FirstAnswer(f) + m.replies)
  {
    var b := Encode(f.header) + (f.payload + more);
    DecodeEncode(f.header);
    hide Encode, Decode;
    assert b[..HEADER_LEN] == Encode(f.header) && b[HEADER_LEN..] == f.payload + more;
    if FirstAnswer(f) == [] {
      assert f.payload + more == more && [] + Frames(more).replies == Frames(more).replies;
    } else {
      assert (f.payload + more)[|f.payload|..] == more;
    }
  }

  /** Every byte stream is such a stream of frames. */
  lemma {:induction false} FramesOf(b: bytes) returns (fs: seq<Frame>, tail: bytes)
    ensures AllWhole(fs) && CutOff(tail) && b == FramesBytes(fs) + tail
    decreases |b|
  {
    hide Encode, Decode;
    if CutOff(b) {
      fs, tail := [], b;
      assert [] + tail == tail;
    } else {
      var h, rest := Decode(b[..HEADER_LEN]), b[HEADER_LEN..];
      EncodeDecode(b[..HEADER_LEN]);
      var len := if h.magic == MSG_MAGIC then h.payloadLen else 0;
      var more;
      more, tail := FramesOf(rest[len..]);
      var f := Frame(h, rest[..len]);
      fs := [f] + more;
      assert fs[1..] == more;
      Assoc(f.payload, FramesBytes(more), tail);
      Assoc(Encode(h), f.payload + FramesBytes(more), tail);
      assert rest == rest[..len] + rest[len..] && b == b[..HEADER_LEN] + rest;
    }
  }

  /* ----- every message of every run ----- */

  /** Behind the header that opens the connection the stream is read as frames. */
  lemma {:induction false} OpenedStream(b: bytes, n: nat)
    requires OpensAt(b, n)
    ensures Handshake(b) == Then(Ack(1), Frames(b[HEADER_LEN * (n + 1)..]))
    decreases n
  {
    var rest := b[HEADER_LEN..];
    assert b[..HEADER_LEN] == b[HEADER_LEN * 0..HEADER_LEN * 1];
    hide Decode, Frames;
    if n > 0 {
      assert HeaderAt(b, 0).magic == MSG_MAGIC && HeaderAt(b, 0).code != OPEN_CONNECTION;
      OpensShift(b, n - 1);
      OpenedStream(rest, n - 1);
      assert rest[HEADER_LEN * n..] == b[HEADER_LEN * (n + 1)..];
    }
  }

  /** The bytes of a payload-free handshake with the magic open a connection at once. */
  lemma OpeningOpens(dest: byte, priority: byte, ts: bytes, more: bytes)
    requires |ts| == 8
    ensures var b := ([2, dest, priority] + ts + [0, 0, 0, 0] + MAGIC_BYTES) + more;
      OpensAt(b, 0) && Handshake(b) == Then(Ack(1), Frames(more))
  {
    var first := [2, dest, priority] + ts + [0, 0, 0, 0] + MAGIC_BYTES;
    var b := first + more;
    OpeningBytes(dest, priority, ts);
    hide Decode, Frames;
    assert b[HEADER_LEN * 0..HEADER_LEN * 1] == first && b[HEADER_LEN * 1..] == more;
    assert OpensAt(b, 0);
    OpenedStream(b, 0);
  }

  /** In every run, however cut, the messages queued are the acknowledgement and then, in order,
      one answer for each whole nonempty frame behind the opening header: a prefix of these at
      any time, and all of them once nothing more happens. */
  lemma RunAnswers(es: seq<Event>, capacity: nat, n: nat, fs: seq<Frame>, tail: bytes)
    requires AllFit(es, capacity)
    requires var stream := Run(es, capacity).1;
      OpensAt(stream, n) && stream[HEADER_LEN * (n + 1)..] == FramesBytes(fs) + tail
    requires AllWhole(fs) && CutOff(tail)
    ensures var k := Run(es, capacity).0;
      && k.replies <= [Ack(1)] + AnswersTo(fs)
      && (Quiescent(k, capacity) ==> k.replies == [Ack(1)] + AnswersTo(fs) && Standing(k) == CutOffEnd(tail))
  {
    ChunkIndependence(es, capacity);
    OpenedStream(Run(es, capacity).1, n);
    EachFrameAnswered(fs, tail);
    hide Handshake, Frames, OpensAt, FramesBytes, AnswersTo, CutOff, Quiescent, Standing, Run, AllFit;
  }

  /** Until a stream opens the connection, no message is queued. */
  lemma RunSilent(es: seq<Event>, capacity: nat)
    requires AllFit(es, capacity) && !exists n: nat :: OpensAt(Run(es, capacity).1, n)
    ensures Run(es, capacity).0.replies == []
  {
    ChunkIndependence(es, capacity);
    AckOpensTheChannel(Run(es, capacity).1);
    hide Handshake, OpensAt, Quiescent, Standing, Run, AllFit;
  }
}
