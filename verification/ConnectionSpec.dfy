/** The framing protocol of a connection: its state machine on values, and the one function
    of the whole byte stream that every run of it computes. */
module ConnectionSpec {
  import opened Bytes
  import opened MessageHeader

  /** Which state function `_state_fn` points at. */
  datatype Phase = AwaitHandshake | OpenConnection | HandleOpenChannel | ReceivePayload | SendMsg | Closed

  /** A queued message without its time stamp. */
  datatype Reply = Ack(dest: byte) | Answer(dest: byte)

  /** `inbuf` is what the input ring buffer holds, `replies` everything queued so far. */
  datatype Conn = Conn(phase: Phase, header: Header, lastSend: u64, inbuf: bytes, replies: seq<Reply>)

  const NO_HEADER := Header(0, 0, 0, 0, 0, 0)

  const INITIAL := Conn(AwaitHandshake, NO_HEADER, 0, [], [])

  /** `recv`: the ring buffer keeps what fits. */
  function Deliver(k: Conn, chunk: bytes, capacity: nat): Conn {
    if |k.inbuf| + |chunk| <= capacity then k.(inbuf := k.inbuf + chunk)
    else if |k.inbuf| <= capacity then k.(inbuf := k.inbuf + chunk[..capacity - |k.inbuf|])
    else k
  }

  /** `open_connection` */
  function Open(k: Conn): Conn {
    if k.header.payloadLen != 0 then k
    else
      var n := (k.lastSend + 1) % 0x1_0000_0000_0000_0000;
      k.(phase := HandleOpenChannel, lastSend := n, replies := k.replies + [Ack(n % 256)])
  }

  /** `receive_msg_payload`, its `recv` delivering `chunk` */
  function Receive(k: Conn, chunk: bytes, capacity: nat): Conn {
    var d := Deliver(k, chunk, capacity);
    if |d.inbuf| < d.header.payloadLen then d
    else d.(inbuf := d.inbuf[d.header.payloadLen..], phase := SendMsg)
  }

  /** `state()`, the state function run once; `chunk` is what `recv` finds if it is called. */
  function Tick(k: Conn, chunk: bytes, capacity: nat): Conn {
    match k.phase
    case AwaitHandshake =>
      if |k.inbuf| < HEADER_LEN then k
      else
        var h := Decode(k.inbuf[..HEADER_LEN]);
        if h.magic != MSG_MAGIC then k.(phase := Closed)
        else
          var j := k.(header := h, inbuf := k.inbuf[HEADER_LEN..]);
          if h.code != OPEN_CONNECTION then j else Open(j.(phase := OpenConnection))
    case OpenConnection => Open(k)
    case HandleOpenChannel =>
      if |k.inbuf| < HEADER_LEN then k
      else
        var h := Decode(k.inbuf[..HEADER_LEN]);
        var j := k.(header := h, inbuf := k.inbuf[HEADER_LEN..]);
        if h.magic != MSG_MAGIC then j
        else if h.payloadLen == 0 then j.(lastSend := h.dest)
        else Receive(j.(lastSend := h.dest, phase := ReceivePayload), chunk, capacity)
    case ReceivePayload => Receive(k, chunk, capacity)
    case SendMsg =>
      var h := Header(TEST_OP, (k.lastSend + 1) % 256, 0, 0, 100, MSG_MAGIC);
      k.(phase := HandleOpenChannel, header := h, replies := k.replies + [Answer(h.dest)])
    case Closed => k
  }

  /** Whether that run of the state function calls `recv`. */
  predicate CallsRecv(k: Conn) {
    match k.phase
    case ReceivePayload => true
    case HandleOpenChannel =>
      |k.inbuf| >= HEADER_LEN &&
      (var h := Decode(k.inbuf[..HEADER_LEN]); h.magic == MSG_MAGIC && h.payloadLen != 0)
    case _ => false
  }

  /* ----- what a byte stream means ----- */

  /** Where a stream leaves the protocol, with the bytes not yet consumed. */
  datatype End =
    | NeedsHandshake(rest: bytes)
    | Refused(rest: bytes)
    | ShutDown(rest: bytes)
    | NeedsHeader(rest: bytes)
    | NeedsPayload(len: nat, rest: bytes)

  datatype Meaning = Meaning(replies: seq<Reply>, end: End)

  function Then(r: Reply, m: Meaning): Meaning { m.(replies := [r] + m.replies) }

  /** Headers before the connection is open. */
  function Handshake(b: bytes): Meaning {
    if |b| < HEADER_LEN then Meaning([], NeedsHandshake(b))
    else
      var h, rest := Decode(b[..HEADER_LEN]), b[HEADER_LEN..];
      if h.magic != MSG_MAGIC then Meaning([], ShutDown(b))
      else if h.code != OPEN_CONNECTION then Handshake(rest)
      else if h.payloadLen != 0 then Meaning([], Refused(rest))
      else Then(Ack(1), Frames(rest))
  }

  /** Frames on an open connection: each header with the magic and a payload is answered once
      its payload is complete; other headers are skipped. */
  function Frames(b: bytes): Meaning
    decreases |b|
  {
    if |b| < HEADER_LEN then Meaning([], NeedsHeader(b))
    else
      var h, rest := Decode(b[..HEADER_LEN]), b[HEADER_LEN..];
      if h.magic != MSG_MAGIC || h.payloadLen == 0 then Frames(rest)
      else Payload(h.payloadLen, h.dest, rest)
  }

  function Payload(len: nat, dest: byte, b: bytes): Meaning
    requires len > 0
    decreases |b|
  {
    if |b| < len then Meaning([], NeedsPayload(len, b))
    else Then(Answer((dest as int + 1) % 256), Frames(b[len..]))
  }

  /** What a connection still makes of the bytes `b` to come. */
  function Rest(k: Conn, b: bytes): Meaning {
    match k.phase
    case AwaitHandshake => Handshake(b)
    case OpenConnection => Meaning([], Refused(b))
    case HandleOpenChannel => Frames(b)
    case ReceivePayload => if k.header.payloadLen > 0 then Payload(k.header.payloadLen, k.lastSend % 256, b)
      else Frames(b)
    case SendMsg => Then(Answer((k.lastSend + 1) % 256), Frames(b))
    case Closed => Meaning([], ShutDown(b))
  }

  /** Replies queued so far, and those that the held bytes followed by `future` still bring. */
  function Total(k: Conn, future: bytes): Meaning {
    var m := Rest(k, k.inbuf + future);
    m.(replies := k.replies + m.replies)
  }

  predicate Ok(k: Conn) {
    match k.phase
    case AwaitHandshake => k.lastSend == 0 && k.replies == []
    case OpenConnection => k.header.payloadLen != 0
    case ReceivePayload => k.header.payloadLen > 0 && k.lastSend < 256
    case SendMsg => k.lastSend < 256
    case _ => true
  }

  /* ----- runs ----- */

  /** Bytes arrive on the socket, or the state function runs. */
  datatype Event = Arrive(chunk: bytes) | RunState(chunk: bytes)

  function After(k: Conn, e: Event, capacity: nat): Conn {
    match e
    case Arrive(chunk) => Deliver(k, chunk, capacity)
    case RunState(chunk) => Tick(k, chunk, capacity)
  }

  /** The bytes that the event takes off the socket. */
  function Received(k: Conn, e: Event): bytes {
    match e
    case Arrive(chunk) => chunk
    case RunState(chunk) => if CallsRecv(k) then chunk else []
  }

  /** The local buffer of `recv`. Were it filled, the source would take the peer for gone. */
  const RECV_BUFFER_LEN := 0x10_0000

  /** Nothing is lost to a full input buffer, and `recv` does not fill its local one. */
  predicate Fits(k: Conn, e: Event, capacity: nat) {
    |k.inbuf| + |Received(k, e)| <= capacity && |e.chunk| < RECV_BUFFER_LEN
  }

  function Run(es: seq<Event>, capacity: nat): (Conn, bytes) {
    if es == [] then (INITIAL, [])
    else
      var (k, stream) := Run(es[..|es| - 1], capacity);
      var e := es[|es| - 1];
      (After(k, e, capacity), stream + Received(k, e))
  }

  predicate AllFit(es: seq<Event>, capacity: nat) {
    forall n :: 0 <= n < |es| ==> Fits(Run(es[..n], capacity).0, es[n], capacity)
  }
}
