/** cplatform/cmsgevent.cpp: the framing of messages on a connection, as functions of the
    receiver's state and the bytes that have arrived.

    A message travels as the size of its head (a host `int`), the serialised head, and the body,
    whose size the head carries. The receiver is called whenever bytes have arrived and must put
    messages together however the stream was cut into pieces.

    Serialising and parsing a head (protobuf) are parameters. */
module MsgFraming {
  import opened ByteValue
  import opened CTypes
  import opened HostMemory

  type bytes = seq<uchar>

  const MAX_MSG_SIZE: nat := 8192

  datatype Option<+T> = None | Some(value: T)

  /** cmsg::CMsgHead; `fields` stands for everything the framing does not look at. */
  datatype Head = Head(msgSize: int32, msgType: int, fields: bytes)

  /** What ParseFromArray returns and leaves in the head. */
  datatype Parsed = Parsed(ok: bool, head: Head)

  type Parser = bytes -> Parsed

  /** A CMsg being received: its size and the bytes received so far. */
  datatype Part = Part(size: nat, got: bytes) {
    predicate Valid() { |got| <= size <= MAX_MSG_SIZE }
    predicate Recved() { |got| == size }
  }

  const EMPTY := Part(0, [])

  /** The fields head_, msg_ and pbHead_ of a CMsgEvent. The body is not started before the head
      is complete. */
  datatype Rx = Rx(head: Part, msg: Part, pbHead: Option<Head>) {
    predicate Valid() {
      head.Valid() && msg.Valid() && (head.size == 0 || !head.Recved() ==> msg == EMPTY)
    }
  }

  const START := Rx(EMPTY, EMPTY, None)

  /** CMsgEvent::clear keeps the parsed head. */
  function Clear(rx: Rx): (r: Rx) {
    rx.(head := EMPTY, msg := EMPTY)
  }

  /** A call of the message callback. */
  datatype Dispatch = Dispatch(head: Head, body: bytes)

  function Min(x: nat, y: nat): (r: nat) { if x <= y then x else y }

  /** `readMsg(&head_.size_, 4)` into a zero variable; fewer bytes than four fill its first bytes. */
  function ReadSize(e: Endian, got: bytes): (size: int32)
    requires |got| <= 4
  {
    S32(Pattern(e, got + Zeros(4 - |got|)))
  }

  function Zeros(n: nat): (zeros: bytes) { seq(n, _ => 0 as uchar) }

  // ----- CMsgEvent::recvMsg: the result, the new state and the bytes left to read

  function RecvMsg(e: Endian, parse: Parser, rx: Rx, input: bytes): (r: (bool, Rx, bytes))
    requires rx.Valid()
    ensures r.1.Valid() && |r.2| <= |input|
    ensures r.0 && rx.head.size == 0 ==> |r.2| < |input|
  {
    if rx.head.size == 0 then
      var n := Min(4, |input|);
      var size := ReadSize(e, input[..n]);
      if n == 0 || size <= 0 then (false, rx, input[n..])
      else if size > MAX_MSG_SIZE then (false, rx, input[n..])
      else RecvHead(parse, rx.(head := Part(size, [])), input[n..])
    else RecvHead(parse, rx, input)
  }

  function RecvHead(parse: Parser, rx: Rx, input: bytes): (r: (bool, Rx, bytes))
    requires rx.Valid()
    ensures r.1.Valid() && |r.2| <= |input|
  {
    if rx.head.Recved() then RecvBody(rx, input)
    else
      var n := Min(rx.head.size - |rx.head.got|, |input|);
      var rx1 := rx.(head := Part(rx.head.size, rx.head.got + input[..n]));
      if n == 0 then (true, rx, input)
      else if !rx1.head.Recved() then (true, rx1, input[n..])
      else
        var p := parse(rx1.head.got);
        var rx2 := rx1.(pbHead := Some(p.head));
        if !p.ok then (false, rx2, input[n..])
        else if p.head.msgSize == 0 then (true, rx2.(msg := Part(0, [])), input[n..])
        else if p.head.msgSize < 0 || p.head.msgSize > MAX_MSG_SIZE then (false, rx2, input[n..])
        else RecvBody(rx2.(msg := Part(p.head.msgSize, [])), input[n..])
  }

  function RecvBody(rx: Rx, input: bytes): (r: (bool, Rx, bytes))
    requires rx.Valid()
    ensures r.0 && r.1.Valid() && r.1.pbHead == rx.pbHead && |r.2| <= |input|
  {
    var n := Min(rx.msg.size - |rx.msg.got|, |input|);
    (true, rx.(msg := Part(rx.msg.size, rx.msg.got + input[..n])), input[n..])
  }

  /** CMsgEvent::readCb: the new state, the bytes left in the input buffer, and the messages
      handed to the callback. */
  function ReadCb(e: Endian, parse: Parser, rx: Rx, input: bytes): (r: (Rx, bytes, seq<Dispatch>))
    requires rx.Valid()
    ensures r.0.Valid()
    decreases |input|, rx.head.size
  {
    var (ok, rx1, rest) := RecvMsg(e, parse, rx, input);
    if !ok then (Clear(rx1), rest, [])
    else if rx1.pbHead.None? || !rx1.msg.Recved() then (rx1, rest, [])
    else
      var (rx2, rest2, log) := ReadCb(e, parse, Clear(rx1), rest);
      (rx2, rest2, [Dispatch(rx1.pbHead.value, rx1.msg.got)] + log)
  }

  // ----- what is sent

  /** A message on the wire: the serialised head, the head and the body. */
  datatype Frame = Frame(hb: bytes, head: Head, body: bytes)

  /** The size limits that the receiver enforces, and a head that announces the body. */
  predicate Deliverable(parse: Parser, f: Frame) {
    && 0 < |f.hb| <= MAX_MSG_SIZE && |f.body| <= MAX_MSG_SIZE
    && parse(f.hb) == Parsed(true, f.head) && f.head.msgSize == |f.body|
  }

  function Wire(e: Endian, f: Frame): (w: bytes)
    ensures |w| == 4 + |f.hb| + |f.body|
  {
    Memory(e, 4, |f.hb|) + f.hb + f.body
  }

  function WireAll(e: Endian, fs: seq<Frame>): (w: bytes) {
    if fs == [] then [] else Wire(e, fs[0]) + WireAll(e, fs[1..])
  }

  function Messages(fs: seq<Frame>): (log: seq<Dispatch>)
    ensures |log| == |fs|
  {
    if fs == [] then [] else [Dispatch(fs[0].head, fs[0].body)] + Messages(fs[1..])
  }

  /** How many of the frames are complete within the first p bytes. */
  function Complete(fs: seq<Frame>, p: nat): (k: nat)
    ensures k <= |fs|
  {
    if fs == [] || 4 + |fs[0].hb| + |fs[0].body| > p then 0
    else 1 + Complete(fs[1..], p - (4 + |fs[0].hb| + |fs[0].body|))
  }

  /** The number of bytes of the next frame among the first p. */
  function Remainder(fs: seq<Frame>, p: nat): (r: nat) {
    if fs == [] || 4 + |fs[0].hb| + |fs[0].body| > p then p
    else Remainder(fs[1..], p - (4 + |fs[0].hb| + |fs[0].body|))
  }

  /** What is handed over of three parts written one after the other, up to the first that is empty or
      refused. `accepts(i)` is the success of the i-th write. */
  function WrittenUntilFailure(parts: seq<bytes>, accepts: nat -> bool, i: nat): (r: (bytes, bool))
    requires i <= |parts|
    decreases |parts| - i
  {
    if i == |parts| then ([], true)
    else if parts[i] == [] || !accepts(i) then ([], false)
    else
      var (rest, ok) := WrittenUntilFailure(parts, accepts, i + 1);
      (parts[i] + rest, ok)
  }
}
