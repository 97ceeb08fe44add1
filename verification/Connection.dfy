/** The Connection object: its state functions over the two ring buffers, proved to run the
    machine of `ConnectionSpec`. */
module Connections {
  import opened Bytes
  import opened MessageHeader
  import opened ConnectionSpec
  import opened ConnectionRuns
  import Ring

  const SEND_BUFFER_LEN := 0x10_0000
  const ANSWER_LEN := 123

  /** A queued message, its time stamp and padding aside. */
  function ReplyOf(message: bytes): Reply
    requires |message| >= HEADER_LEN
  {
    var h := Decode(message[..HEADER_LEN]);
    if h.code == ACK_OPEN_CONNECTION then Ack(h.dest) else Answer(h.dest)
  }

  /** The `k`-th message sent over a connection, as its reader sees it: one whole frame with the
      magic, the acknowledgement of 23 bytes first and answers of 123 bytes after it. */
  predicate IsMessage(m: bytes, k: nat) {
    |m| >= 23 &&
    var h := Decode(m[..23]);
    && h.magic == 0x8370202083702020 && h.payloadLen == |m| - 23 && h.priority == 0
    && (if k == 0 then h.code == 3 && |m| == 23 else h.code == 1 && h.ts == 0 && |m| == 123)
  }

  predicate WellFormedMessages(ms: seq<bytes>) { forall k :: 0 <= k < |ms| ==> IsMessage(ms[k], k) }

  lemma MessageIs(h: Header, padding: bytes, k: nat)
    requires h.magic == MSG_MAGIC && h.payloadLen == |padding| && h.priority == 0
    requires if k == 0 then h.code == ACK_OPEN_CONNECTION && |padding| == 0
      else h.code == TEST_OP && h.ts == 0 && |padding| == 100
    ensures IsMessage(Encode(h) + padding, k)
  {
    assert (Encode(h) + padding)[..HEADER_LEN] == Encode(h);
    DecodeEncode(h);
    hide Encode, Decode;
  }

  function Concat(ms: seq<bytes>): bytes {
    if ms == [] then [] else ms[0] + Concat(ms[1..])
  }

  /** The header of an answer after the destination `last`. */
  function AnswerHeader(last: u64): Header { Header(1, (last + 1) % 256, 0, 0, 100, MSG_MAGIC) }

  /** To its reader everything that a connection sends is a stream of whole frames, one for each
      message. */
  lemma {:induction false} MessagesAreFrames(ms: seq<bytes>, k: nat) returns (fs: seq<Frame>)
    requires forall j :: 0 <= j < |ms| ==> IsMessage(ms[j], k + j)
    ensures |fs| == |ms| && AllWhole(fs) && FramesBytes(fs) == Concat(ms)
    decreases |ms|
  {
    hide Encode, Decode;
    fs := [];
    if ms != [] {
      var m := ms[0];
      assert IsMessage(ms[0], k + 0);
      var h := Decode(m[..HEADER_LEN]);
      EncodeDecode(m[..HEADER_LEN]);
      forall j | 0 <= j < |ms| - 1 ensures IsMessage(ms[1..][j], k + 1 + j) {
        assert IsMessage(ms[j + 1], k + (j + 1));
      }
      var more := MessagesAreFrames(ms[1..], k + 1);
      var f := Frame(h, m[HEADER_LEN..]);
      fs := [f] + more;
      assert fs[1..] == more && WholeFrame(f);
      assert m == m[..HEADER_LEN] + m[HEADER_LEN..];
      Assoc(m[..HEADER_LEN], m[HEADER_LEN..], FramesBytes(more));
    }
  }

  predicate AllMessages(ms: seq<bytes>) { forall k :: 0 <= k < |ms| ==> |ms[k]| >= HEADER_LEN }

  function RepliesOf(ms: seq<bytes>): (rs: seq<Reply>)
    requires AllMessages(ms)
    ensures |rs| == |ms|
  {
    if ms == [] then [] else RepliesOf(ms[..|ms| - 1]) + [ReplyOf(ms[|ms| - 1])]
  }

  lemma ReplyAppended(ms: seq<bytes>, h: Header, padding: bytes)
    requires AllMessages(ms)
    ensures var m := Encode(h) + padding;
      && AllMessages(ms + [m])
      && RepliesOf(ms + [m]) == RepliesOf(ms) + [if h.code == ACK_OPEN_CONNECTION then Ack(h.dest) else Answer(h.dest)]
  {
    var m := Encode(h) + padding;
    assert (ms + [m])[..|ms|] == ms;
    assert m[..HEADER_LEN] == Encode(h);
    DecodeEncode(h);
    hide Encode, Decode;
  }

  /** Copied over all of its destination, a byte string replaces it. */
  lemma Whole(raw: bytes, src: bytes)
    requires |raw| == |src| && exists before: bytes :: |before| == |src| && raw == Ring.Copied(before, 0, src)
    ensures raw == src
  {}

  class Connection {
    const inBuf: Ring.RingBuffer
    const outBuf: Ring.RingBuffer
    var header: Header
    var lastSend: u64
    var phase: Phase
    /** What prepare_send has put into the out buffer, message by message. */
    ghost var queued: seq<bytes>

    constructor (bufferSize: nat)
      requires bufferSize >= ANSWER_LEN
      ensures Valid() && View() == INITIAL && inBuf.capacity == bufferSize && inBuf.start == 0
      ensures fresh(inBuf) && fresh(outBuf) && fresh(inBuf.ring) && fresh(outBuf.ring)
    {
      inBuf := new Ring.RingBuffer(bufferSize);
      outBuf := new Ring.RingBuffer(bufferSize);
      header := NO_HEADER;
      lastSend := 0;
      phase := AwaitHandshake;
      queued := [];
    }

    /** Between steps the out buffer is always empty, so no reply is cut short by it. */
    ghost predicate Buffers()
      reads this, inBuf, outBuf, inBuf.ring, outBuf.ring
    {
      && inBuf != outBuf && inBuf.ring != outBuf.ring
      && inBuf.Valid() && outBuf.Valid() && outBuf.Contents() == []
      && outBuf.capacity >= ANSWER_LEN && AllMessages(queued)
    }

    /** What has been sent is well formed, and nothing has before the connection is open. */
    ghost predicate Valid()
      reads this, inBuf, outBuf, inBuf.ring, outBuf.ring
    {
      && Buffers() && WellFormedMessages(queued)
      && (queued == [] <==> phase.AwaitHandshake? || phase.OpenConnection? || phase.Closed?)
    }

    ghost function View(): Conn
      requires Buffers()
      reads this, inBuf, outBuf, inBuf.ring, outBuf.ring
    {
      Conn(phase, header, lastSend, inBuf.Contents(), RepliesOf(queued))
    }

    /** The first `HEADER_LEN` bytes held can be peeked. */
    predicate HandshakeReadable()
      reads this, inBuf
    {
      phase == AwaitHandshake && inBuf.size >= HEADER_LEN ==>
        Ring.PeekGood(inBuf.start, inBuf.end, inBuf.size, inBuf.capacity, HEADER_LEN)
    }

    /** `recv`: `chunk` is all that the socket holds. */
    method Recv(chunk: bytes)
      requires Valid() && |chunk| < RECV_BUFFER_LEN
      modifies inBuf, inBuf.ring
      ensures Valid() && View() == Deliver(old(View()), chunk, inBuf.capacity)
      ensures var room := inBuf.capacity - old(inBuf.size);
        inBuf.Contents() == old(inBuf.Contents()) + if |chunk| <= room then chunk else chunk[..room]
      ensures inBuf.start == old(inBuf.start)
    {
      hide Ring.Stored;
      if |chunk| > 0 {
        var n := inBuf.Write(chunk);
        assert n == |chunk| ==> chunk[..n] == chunk;
      } else {
        assert inBuf.Contents() + chunk == inBuf.Contents();
      }
    }

    /** `send`: everything in the out buffer is taken out of it for the socket, whatever the
        socket accepts; more than the local buffer holds stays where it is. */
    method Send() returns (taken: bytes)
      requires outBuf.Valid()
      modifies outBuf
      ensures outBuf.Valid()
      ensures old(outBuf.size) <= SEND_BUFFER_LEN ==> taken == old(outBuf.Contents()) && outBuf.Contents() == []
      ensures old(outBuf.size) > SEND_BUFFER_LEN ==> taken == [] && outBuf.Contents() == old(outBuf.Contents())
    {
      hide Ring.Stored, Ring.Idx;
      if outBuf.size == 0 { return []; }
      var big := new byte[SEND_BUFFER_LEN];
      ghost var contents := outBuf.Contents();
      var count := outBuf.ReadAll(big, SEND_BUFFER_LEN);
      taken := big[..count];
      assert taken == contents[..count];
    }

    /** `prepare_send(..., true)` */
    method PrepareSend(buffer: bytes)
      requires Buffers() && HEADER_LEN <= |buffer| <= ANSWER_LEN
      modifies this`queued, outBuf, outBuf.ring
      ensures Buffers() && queued == old(queued) + [buffer]
      ensures inBuf.Contents() == old(inBuf.Contents())
    {
      hide Ring.Stored;
      var written := outBuf.Write(buffer);
      assert written == |buffer| && buffer[..written] == buffer;
      assert outBuf.Contents() == buffer by { assert [] + buffer == buffer; }
      var taken := Send();
      queued := queued + [taken];
    }

    method PopHeader() returns (h: Header)
      requires Valid() && inBuf.size >= HEADER_LEN
      modifies inBuf
      ensures Valid() && h == Decode(old(inBuf.Contents())[..HEADER_LEN])
      ensures inBuf.Contents() == old(inBuf.Contents())[HEADER_LEN..]
    {
      hide Ring.Stored, Decode;
      var raw := new byte[HEADER_LEN];
      var ok := inBuf.Pop(raw, HEADER_LEN);
      Whole(raw[..], old(inBuf.Contents())[..HEADER_LEN]);
      h := Decode(raw[..]);
    }

    /** `state`: `chunk` is what recv finds if this run of the state function calls it, `now`
        the clock. */
    method State(chunk: bytes, now: u64)
      requires Valid() && HandshakeReadable() && |chunk| < RECV_BUFFER_LEN
      modifies this, inBuf, inBuf.ring, outBuf, outBuf.ring
      ensures Valid() && View() == Tick(old(View()), chunk, inBuf.capacity)
      ensures phase == AwaitHandshake && header == NO_HEADER ==> inBuf.start == old(inBuf.start)
    {
      hide Ring.Stored, Decode, Open, Receive;
      match phase {
        case AwaitHandshake => Handshaking(chunk, now);
        case OpenConnection => Opening(now);
        case HandleOpenChannel => HandlingOpenChannel(chunk);
        case ReceivePayload => ReceivingPayload(chunk);
        case SendMsg => SendingMsg();
        case Closed =>
      }
    }

    /** `await_handshake` */
    method Handshaking(chunk: bytes, now: u64)
      requires Valid() && HandshakeReadable() && phase == AwaitHandshake
      modifies this, inBuf, outBuf, outBuf.ring
      ensures Valid() && View() == Tick(old(View()), chunk, inBuf.capacity)
      ensures phase == AwaitHandshake && header == NO_HEADER ==> inBuf.start == old(inBuf.start)
    {
      hide Ring.Stored, Decode, Open;
      if inBuf.size == 0 || inBuf.size < HEADER_LEN { return; }

      var raw := new byte[HEADER_LEN];
      Ring.PeekExact(inBuf.start, inBuf.end, inBuf.size, inBuf.capacity, HEADER_LEN);
      var ok := inBuf.Peek(raw, HEADER_LEN);
      Whole(raw[..], inBuf.Contents()[..HEADER_LEN]);
      if Decode(raw[..]).magic != MSG_MAGIC {
        phase := Closed;
        return;
      }

      header := PopHeader();
      assert header.magic == MSG_MAGIC && header != NO_HEADER;
      if header.code != OPEN_CONNECTION { return; }
      phase := OpenConnection;
      Opening(now);
    }

    /** `open_connection` */
    method Opening(now: u64)
      requires Valid() && phase == OpenConnection
      modifies this, outBuf, outBuf.ring
      ensures Valid() && View() == Open(old(View())) && phase != AwaitHandshake
      ensures queued == if old(header.payloadLen) != 0 then []
        else [Encode(Header(3, ((old(lastSend) + 1) % 0x1_0000_0000_0000_0000) % 256, 0, now, 0, MSG_MAGIC))]
    {
      hide Ring.Stored, Ring.Idx, Encode, Decode, RepliesOf, ReplyOf, AllMessages, IsMessage;
      if header.payloadLen != 0 { return; }
      lastSend := (lastSend + 1) % 0x1_0000_0000_0000_0000;
      var response := Header(ACK_OPEN_CONNECTION, lastSend % 256, 0, now, 0, MSG_MAGIC);
      ReplyAppended(queued, response, []);
      MessageIs(response, [], 0);
      assert Encode(response) + [] == Encode(response);
      PrepareSend(Encode(response));
      phase := HandleOpenChannel;
    }

    /** `handle_open_channel` */
    method HandlingOpenChannel(chunk: bytes)
      requires Valid() && phase == HandleOpenChannel && |chunk| < RECV_BUFFER_LEN
      modifies this, inBuf, inBuf.ring
      ensures Valid() && View() == Tick(old(View()), chunk, inBuf.capacity) && phase != AwaitHandshake
    {
      hide Ring.Stored, Decode, Receive;
      if inBuf.size < HEADER_LEN { return; }
      header := PopHeader();
      if header.magic != MSG_MAGIC { return; }
      lastSend := header.dest;
      if header.payloadLen == 0 { return; }
      phase := ReceivePayload;
      ReceivingPayload(chunk);
    }

    /** `receive_msg_payload` */
    method ReceivingPayload(chunk: bytes)
      requires Valid() && phase == ReceivePayload && |chunk| < RECV_BUFFER_LEN
      modifies this`phase, inBuf, inBuf.ring
      ensures Valid() && View() == Receive(old(View()), chunk, inBuf.capacity) && phase != AwaitHandshake
    {
      hide Ring.Stored, Deliver;
      Recv(chunk);
      if inBuf.size < header.payloadLen { return; }
      var output := new byte[header.payloadLen];
      var ok := inBuf.Pop(output, header.payloadLen);
      phase := SendMsg;
    }

    /** `send_msg`: the 100 bytes behind the header are whatever the stack held. */
    method SendingMsg()
      requires Valid() && phase == SendMsg
      modifies this, outBuf, outBuf.ring
      ensures Valid() && View() == Tick(old(View()), [], inBuf.capacity)
      ensures exists padding: bytes ::
        |padding| == 100 && queued == old(queued) + [Encode(AnswerHeader(old(lastSend))) + padding]
    {
      hide Ring.Stored, Ring.Idx, Encode, Decode, RepliesOf, ReplyOf, AllMessages, IsMessage;
      header := Header(TEST_OP, (lastSend + 1) % 256, 0, 0, 100, MSG_MAGIC);
      var padding := new byte[100];
      ReplyAppended(queued, header, padding[..]);
      MessageIs(header, padding[..], |queued|);
      PrepareSend(Encode(header) + padding[..]);
      phase := HandleOpenChannel;
    }
  }

  /** Until a header has been popped the input buffer starts at its head, so the handshake
      can be peeked. */
  lemma FirstHandshakeReadable(c: Connection)
    requires c.inBuf.Valid() && c.inBuf.start == 0
    ensures c.HandshakeReadable()
  {
    if c.inBuf.size >= HEADER_LEN {
      Ring.PeekGoodWhenUnwrapped(c.inBuf.start, c.inBuf.end, c.inBuf.size, c.inBuf.capacity, HEADER_LEN);
    }
  }

  /** The object carries out a run of the machine, event by event. It can stop only at a
      handshake that cannot be peeked, and that only behind a first header that was skipped: a
      run whose first header opens or refuses the connection is carried out completely, and
      its replies are those due for the stream. */
  method Drive(c: Connection, es: seq<Event>, clock: nat -> u64) returns (done: nat)
    requires c.Valid() && c.View() == INITIAL && c.inBuf.start == 0
    requires forall n :: 0 <= n < |es| ==> |es[n].chunk| < RECV_BUFFER_LEN
    modifies c, c.inBuf, c.inBuf.ring, c.outBuf, c.outBuf.ring
    ensures c.Valid() && done <= |es|
    ensures c.View() == Run(es[..done], c.inBuf.capacity).0 && WellFormedMessages(c.queued)
    ensures done < |es| ==> es[done].RunState? && !c.HandshakeReadable() && c.header != NO_HEADER
    ensures var stream := Run(es, c.inBuf.capacity).1;
      AllFit(es, c.inBuf.capacity) && !SkipsFirst(stream) ==>
        && done == |es|
        && RepliesOf(c.queued) <= Handshake(stream).replies
        && (Quiescent(c.View(), c.inBuf.capacity) ==>
          Handshake(stream) == Meaning(RepliesOf(c.queued), Standing(c.View())))
  {
    hide Tick, Deliver, Ring.Stored, Ring.PeekGood;
    done := 0;
    while done < |es|
      invariant c.Valid() && done <= |es|
      invariant c.View() == Run(es[..done], c.inBuf.capacity).0
      invariant c.phase == AwaitHandshake && c.header == NO_HEADER ==> c.inBuf.start == 0
    {
      assert es[..done + 1][..done] == es[..done] && es[..done + 1][done] == es[done];
      ghost var before := c.View();
      match es[done] {
        case Arrive(chunk) =>
          c.Recv(chunk);
          DeliverKeepsPhase(before, chunk, c.inBuf.capacity);
        case RunState(chunk) =>
          if !c.HandshakeReadable() {
            if c.header == NO_HEADER { FirstHandshakeReadable(c); }
            break;
          }
          c.State(chunk, clock(done));
          if c.phase == AwaitHandshake { TickAwaits(before, chunk, c.inBuf.capacity); }
      }
      done := done + 1;
    }
    RunDone(c, es, done);
  }

  lemma DeliverKeepsPhase(k: Conn, chunk: bytes, capacity: nat)
    ensures var d := Deliver(k, chunk, capacity); d.phase == k.phase && d.header == k.header
  {}

  lemma RunDone(c: Connection, es: seq<Event>, done: nat)
    requires c.Valid() && done <= |es| && c.View() == Run(es[..done], c.inBuf.capacity).0
    requires done < |es| ==> c.phase == AwaitHandshake && c.header != NO_HEADER
    ensures var stream := Run(es, c.inBuf.capacity).1;
      AllFit(es, c.inBuf.capacity) && !SkipsFirst(stream) ==>
        && done == |es|
        && RepliesOf(c.queued) <= Handshake(stream).replies
        && (Quiescent(c.View(), c.inBuf.capacity) ==>
          Handshake(stream) == Meaning(RepliesOf(c.queued), Standing(c.View())))
  {
    hide Run, SkipsFirst, Handshake, Quiescent, Standing;
    if AllFit(es, c.inBuf.capacity) {
      if done < |es| { RunSkips(es, c.inBuf.capacity, done); }
      else {
        assert es[..done] == es;
        ChunkIndependence(es, c.inBuf.capacity);
      }
    }
  }
}
