/** cplatform/cmsg.h and cplatform/cmsgevent.cpp: the classes CMsg and CMsgEvent, updated in place,
    proved against the functions of MsgFraming. */
module MsgEvent {
  import opened ByteValue
  import opened CTypes
  import opened HostMemory
  import F = MsgFraming
  import D = MsgDelivery
  import C = MsgConnections

  /** A message head or body being received into a buffer of its own. */
  class CMsg {
    var size: int32
    var recvSize: int32
    var data: array?<uchar>

    constructor ()
      ensures Valid() && Value() == F.EMPTY && data == null
    {
      size, recvSize, data := 0, 0, null;
    }

    ghost predicate Valid()
      reads this
    {
      0 <= recvSize <= size <= F.MAX_MSG_SIZE && (size > 0 ==> data != null && data.Length == size)
    }

    ghost function Value(): (r: F.Part)
      requires Valid()
      reads this, data
    {
      if size == 0 then F.EMPTY else F.Part(size, data[..recvSize])
    }

    method Alloc(s: int32) returns (ok: bool)
      modifies this
      ensures ok <==> 0 < s <= 8192
      ensures ok ==> Valid() && Value() == F.Part(s, []) && data != null && fresh(data)
      ensures !ok ==> size == old(size) && recvSize == old(recvSize) && data == old(data)
    {
      if s <= 0 || s > F.MAX_MSG_SIZE {
        return false;
      }
      data := new uchar[s];
      size := s;
      recvSize := 0;
      return true;
    }

    predicate Recved()
      reads this
    {
      size >= 0 && recvSize == size
    }

    method Clear()
      modifies this
      ensures Valid() && Value() == F.EMPTY && data == null
    {
      size, recvSize, data := 0, 0, null;
    }
  }

  /** One end of a connection, and of the connections that follow it. `connected` says whether there is a
      `bev_`; `input` is what it has received and not yet handed out, `output` what has been handed
      out for sending, and `delivered` lists the calls of the message callback. */
  class CMsgEvent {
    const e: Endian
    const parse: F.Parser
    const head: CMsg
    const msg: CMsg
    var pbHead: F.Option<F.Head>
    var connected: bool
    var input: F.bytes
    var output: F.bytes
    var delivered: seq<F.Dispatch>

    constructor (e: Endian, parse: F.Parser)
      ensures connected && Has([], []) && output == []
      ensures this.e == e && this.parse == parse && fresh(head) && fresh(msg)
    {
      this.e, this.parse := e, parse;
      head := new CMsg();
      msg := new CMsg();
      pbHead, connected, input, output, delivered := F.None, true, [], [], [];
    }

    ghost predicate Separate()
      reads this, head, msg
    {
      head != msg && (head.data == null || head.data != msg.data)
    }

    ghost predicate Valid()
      reads this, head, msg, head.data, msg.data
    {
      Separate() && head.Valid() && msg.Valid() && Value().Valid() && (!connected ==> input == [])
    }

    ghost function Value(): (r: F.Rx)
      requires head.Valid() && msg.Valid()
      reads this, head, msg, head.data, msg.data
    {
      F.Rx(head.Value(), msg.Value(), pbHead)
    }

    /** CComeTask::readMsg into part of a buffer: nothing without a connection, otherwise as many bytes as
        there are, up to n. */
    method ReadMsg(dst: array<uchar>, from: nat, n: nat) returns (len: nat)
      requires from + n <= dst.Length
      modifies this`input, dst
      ensures len == if connected then F.Min(n, |old(input)|) else 0
      ensures input == old(input)[len..]
      ensures dst[..] == old(dst[..from]) + old(input)[..len] + old(dst[from + len..])
    {
      if !connected {
        return 0;
      }
      len := if n <= |input| then n else |input|;
      forall i | 0 <= i < len {
        dst[from + i] := input[i];
      }
      input := input[len..];
    }

    /** `readMsg(&head_.size_, sizeof(head_.size_))` */
    method ReadSize() returns (len: nat)
      requires head.size == 0 && (!connected ==> input == [])
      modifies this`input, head`size
      ensures len == F.Min(4, |old(input)|) && input == old(input)[len..]
      ensures head.size == F.ReadSize(e, old(input)[..len])
    {
      var mem := new uchar[4](_ => 0);
      ghost var before := input;
      len := ReadMsg(mem, 0, 4);
      assert mem[..] == before[..len] + F.Zeros(4 - len);
      head.size := S32(Pattern(e, mem[..]));
    }

    // ----- recvMsg, step by step from the last

    /** Receives the body. */
    method RecvBody()
      requires Valid() && head.size > 0 && head.Recved()
      modifies this`input, msg`recvSize, msg.data
      ensures Valid() && msg.data == old(msg.data)
      ensures var (_, rx, rest) := F.RecvBody(old(Value()), old(input));
              Value() == rx && input == rest
    {
      if !msg.Recved() {
        ghost var got := msg.data[..msg.recvSize];
        var len := ReadMsg(msg.data, msg.recvSize, msg.size - msg.recvSize);
        if len <= 0 {
          return;
        }
        msg.recvSize := msg.recvSize + len;
        assert msg.data[..msg.recvSize] == got + old(input)[..len];
      }
    }

    /** Receives the head, and then the body. */
    method RecvHead() returns (ok: bool)
      requires Valid() && head.size > 0
      modifies this`input, this`pbHead, head`recvSize, head.data, msg, msg.data
      ensures msg.data == old(msg.data) || fresh(msg.data)
      ensures var (ok', rx, rest) := F.RecvHead(parse, old(Value()), old(input));
              ok == ok' && input == rest && pbHead == rx.pbHead && (ok ==> Valid() && Value() == rx)
    {
      hide F.RecvBody;
      if !head.Recved() {
        ghost var got := head.data[..head.recvSize];
        var len := ReadMsg(head.data, head.recvSize, head.size - head.recvSize);
        if len <= 0 {
          return true;
        }
        head.recvSize := head.recvSize + len;
        assert head.data[..head.recvSize] == got + old(input)[..len];
        if !head.Recved() {
          return true;
        }
        var parsed := parse(head.data[..head.size]);
        pbHead := F.Some(parsed.head);
        if !parsed.ok {
          return false;
        }
        if parsed.head.msgSize == 0 {
          msg.size := 0;
          return true;
        }
        var roomy := msg.Alloc(parsed.head.msgSize);
        if !roomy {
          return false;
        }
      }
      RecvBody();
      return true;
    }

    method RecvMsg() returns (ok: bool)
      requires Valid()
      modifies this`input, this`pbHead, head, head.data, msg, msg.data
      ensures head.data == old(head.data) || fresh(head.data)
      ensures msg.data == old(msg.data) || fresh(msg.data)
      ensures var (ok', rx, rest) := F.RecvMsg(e, parse, old(Value()), old(input));
              ok == ok' && input == rest && pbHead == rx.pbHead && (ok ==> Valid() && Value() == rx)
    {
      if head.size == 0 {
        var len := ReadSize();
        if len <= 0 || head.size <= 0 {
          return false;
        }
        var roomy := head.Alloc(head.size);
        if !roomy {
          return false;
        }
      }
      ok := RecvHead();
    }

    /** CMsgEvent::clear */
    method Clear()
      requires head != msg && (!connected ==> input == [])
      modifies head, msg
      ensures Valid() && Value() == D.Idle(pbHead)
      ensures head.data == null && msg.data == null
    {
      head.Clear();
      msg.Clear();
    }

    /** `readCb(pbHead_, msg)`: the message that has been received goes to the callback. */
    method Callback(h: F.Head)
      requires msg.Valid() && msg.Recved()
      modifies this`delivered
      ensures delivered == old(delivered) + [F.Dispatch(h, msg.Value().got)]
    {
      var body: F.bytes := if msg.size == 0 then [] else msg.data[..msg.size];
      delivered := delivered + [F.Dispatch(h, body)];
    }

    /** The event loop calls this when input has arrived. */
    method ReadCb()
      requires Valid()
      modifies this`input, this`pbHead, this`delivered, head, head.data, msg, msg.data
      ensures Valid()
      ensures var (rx, rest, log) := F.ReadCb(e, parse, old(Value()), old(input));
              Value() == rx && input == rest && delivered == old(delivered) + log
    {
      hide F.RecvMsg, F.ReadCb, LoopAt;
      ghost var v0, i0 := Value(), input;
      ghost var log: seq<F.Dispatch> := [];
      LoopStarts(e, parse, v0, i0);
      while true
        invariant Valid() && delivered == old(delivered) + log
        invariant head.data == null || head.data == old(head.data) || fresh(head.data)
        invariant msg.data == null || msg.data == old(msg.data) || fresh(msg.data)
        invariant LoopAt(e, parse, v0, i0, Value(), input, log)
        decreases |input|, head.size
      {
        ghost var before, unread := Value(), input;
        var ok := RecvMsg();
        LoopContinues(e, parse, v0, i0, before, unread, log);
        if !ok {
          Clear();
          return;
        }
        if pbHead.None? {
          return;
        }
        if !msg.Recved() {
          return;
        }
        Callback(pbHead.value);
        log := log + [delivered[|delivered| - 1]];
        Clear();
      }
    }

    // ----- connection after connection

    /** The object has been through the connections `past`, and the current one has brought `chunks`. */
    ghost predicate Has(past: seq<C.Connection>, chunks: seq<F.bytes>)
      reads this, head, msg, head.data, msg.data
    {
      Valid() && var conn := D.After(e, parse, C.Between(e, parse, past), chunks);
                 Value() == conn.rx && input == conn.input && delivered == C.AllDelivered(e, parse, past) + conn.log
    }

    /** Bytes arrive and the event loop calls readCb. */
    method Receive(chunk: F.bytes, ghost past: seq<C.Connection>, ghost chunks: seq<F.bytes>)
      requires connected && Has(past, chunks)
      modifies this`input, this`pbHead, this`delivered, head, head.data, msg, msg.data
      ensures Has(past, chunks + [chunk])
    {
      hide F.ReadCb, D.After, C.Between, C.AllDelivered, Valid;
      OneMoreChunk(e, parse, C.Between(e, parse, past), chunks, chunk);
      BeginRead(chunk);
      ReadCb();
    }

    /** The event loop has received a chunk. */
    method BeginRead(chunk: F.bytes)
      requires connected && Valid()
      modifies this`input
      ensures Valid() && Value() == old(Value()) && input == old(input) + chunk
    {
      input := input + chunk;
    }

    /** CComeTask::closeBev, as eventCb calls it on an end of file, an error or a timeout: the unread input
        goes with the connection, the message being received stays. */
    method CloseBev(ghost past: seq<C.Connection>, ghost fs: seq<F.Frame>, ghost chunks: seq<F.bytes>)
      requires Has(past, chunks)
      modifies this`connected, this`input
      ensures !connected && Has(past + [C.Connection(fs, chunks, false)], [])
    {
      OneMoreConnection(e, parse, past, C.Connection(fs, chunks, false));
      connected, input := false, [];
    }

    /** CMsgEvent::close: the message being received is dropped too; the parsed head stays. */
    method Close(ghost past: seq<C.Connection>, ghost fs: seq<F.Frame>, ghost chunks: seq<F.bytes>)
      requires Has(past, chunks)
      modifies this`connected, this`input, head, msg
      ensures !connected && Has(past + [C.Connection(fs, chunks, true)], [])
    {
      OneMoreConnection(e, parse, past, C.Connection(fs, chunks, true));
      Clear();
      connected, input := false, [];
    }

    /** CComeTask::connect: with no `bev_` there is a new one. */
    method Connect(ghost past: seq<C.Connection>)
      requires Has(past, [])
      modifies this`connected
      ensures connected && Has(past, [])
    {
      connected := true;
    }

    // ----- sending

    /** CComeTask::writeMsg; a write of nothing is an error. `accepted` is the success of
        `bufferevent_write`. */
    method WriteMsg(data: F.bytes, accepted: bool) returns (ok: bool)
      modifies this`output
      ensures ok <==> connected && data != [] && accepted
      ensures output == if ok then old(output) + data else old(output)
    {
      if !connected || |data| <= 0 {
        return false;
      }
      if !accepted {
        return false;
      }
      output := output + data;
      return true;
    }

    /** The size, the head and the body go out one after the other until a write fails, and the result is
        whether none did; a part that has gone out stays out. `ser` is SerializeAsString, and
        `accepts(i)` the success of the i-th `bufferevent_write`. */
    method SendMsg(h: F.Option<F.Head>, m: F.Option<F.bytes>, ser: F.Head -> F.bytes, accepts: nat -> bool)
      returns (ok: bool)
      requires m.Some? ==> |m.value| < 0x8000_0000
      requires h.Some? && m.Some? ==> |ser(h.value.(msgSize := |m.value|))| < 0x8000_0000
      modifies this`output
      ensures h.None? || m.None? || !connected ==> !ok && output == old(output)
      ensures h.Some? && m.Some? && connected ==>
                var hb := ser(h.value.(msgSize := |m.value|));
                var (written, all) := F.WrittenUntilFailure([Memory(e, 4, |hb|), hb, m.value], accepts, 0);
                ok == all && output == old(output) + written
    {
      if h.None? || m.None? {
        return false;
      }
      var sent := h.value.(msgSize := |m.value|);
      var headStr := ser(sent);
      ghost var before := output;
      ghost var parts := [Memory(e, 4, |headStr|), headStr, m.value];
      if connected {
        UnfoldWritten(parts, accepts);
        Concatenated(before, parts[0], parts[1], parts[2]);
      }
      var res := WriteMsg(Memory(e, 4, |headStr|), accepts(0));
      if !res {
        return false;
      }
      res := WriteMsg(headStr, accepts(1));
      if !res {
        return false;
      }
      res := WriteMsg(m.value, accepts(2));
      if !res {
        return false;
      }
      return true;
    }
  }

  lemma OneMoreChunk(e: Endian, parse: F.Parser, rx0: F.Rx, chunks: seq<F.bytes>, chunk: F.bytes)
    requires rx0.Valid()
    ensures var prev := D.After(e, parse, rx0, chunks);
            var (rx, rest, log) := F.ReadCb(e, parse, prev.rx, prev.input + chunk);
            D.After(e, parse, rx0, chunks + [chunk]) == D.Conn(rx, rest, prev.log + log)
  {
    hide F.ReadCb;
    assert (chunks + [chunk])[..|chunks|] == chunks;
  }

  lemma OneMoreConnection(e: Endian, parse: F.Parser, past: seq<C.Connection>, c: C.Connection)
    ensures var rx := D.After(e, parse, C.Between(e, parse, past), c.chunks).rx;
            C.Between(e, parse, past + [c]) == if c.closed then F.Clear(rx) else rx
    ensures C.AllDelivered(e, parse, past + [c]) ==
            C.AllDelivered(e, parse, past) + D.After(e, parse, C.Between(e, parse, past), c.chunks).log
  {
    hide D.After;
    assert (past + [c])[..|past|] == past;
  }

  lemma UnfoldWritten(parts: seq<F.bytes>, accepts: nat -> bool)
    requires |parts| == 3 && parts[0] != []
    ensures F.WrittenUntilFailure(parts, accepts, 0) ==
            if !accepts(0) then ([], false)
            else if parts[1] == [] || !accepts(1) then (parts[0], false)
            else if parts[2] == [] || !accepts(2) then (parts[0] + parts[1], false)
            else (parts[0] + parts[1] + parts[2], true)
  {
    var a, b, c := parts[0], parts[1], parts[2];
    assert c + [] == c && b + [] == b && a + [] == a && a + (b + c) == a + b + c;
    assert F.WrittenUntilFailure(parts, accepts, 3) == ([], true);
    assert F.WrittenUntilFailure(parts, accepts, 2) == if c == [] || !accepts(2) then ([], false) else (c, true);
    assert F.WrittenUntilFailure(parts, accepts, 1) ==
           if b == [] || !accepts(1) then ([], false) else if c == [] || !accepts(2) then (b, false) else (b + c, true);
  }

  lemma Concatenated(s: F.bytes, a: F.bytes, b: F.bytes, c: F.bytes)
    ensures s + [] == s && s + a + b == s + (a + b) && s + a + b + c == s + (a + b + c)
  {
  }

  /** What goes out is always a beginning of the frame, up to the first part that is empty or refused, and
      the result is true exactly if there is no such part. */
  lemma WhatGoesOut(e: Endian, f: F.Frame, accepts: nat -> bool)
    ensures var (written, all) := F.WrittenUntilFailure([Memory(e, 4, |f.hb|), f.hb, f.body], accepts, 0);
            (all <==> f.hb != [] && f.body != [] && accepts(0) && accepts(1) && accepts(2))
            && written == F.Wire(e, f)[..if !accepts(0) then 0
                                         else if f.hb == [] || !accepts(1) then 4
                                         else if !accepts(2) then 4 + |f.hb|
                                         else 4 + |f.hb| + |f.body|]
  {
    UnfoldWritten([Memory(e, 4, |f.hb|), f.hb, f.body], accepts);
    assert F.Wire(e, f) == Memory(e, 4, |f.hb|) + (f.hb + f.body);
    assert F.Wire(e, f)[..4] == Memory(e, 4, |f.hb|);
    assert F.Wire(e, f)[..4 + |f.hb|] == Memory(e, 4, |f.hb|) + f.hb;
  }

  /** With every write accepted: the result is false although the complete frame has gone out if the body
      is empty, and a lone size of zero has gone out if the head is. */
  lemma WrittenWhenAccepted(e: Endian, f: F.Frame, accepts: nat -> bool)
    requires accepts(0) && accepts(1) && accepts(2)
    ensures var (written, all) := F.WrittenUntilFailure([Memory(e, 4, |f.hb|), f.hb, f.body], accepts, 0);
            (all <==> f.hb != [] && f.body != [])
            && written == if f.hb == [] then [0, 0, 0, 0] else F.Wire(e, f)
  {
    UnfoldWritten([Memory(e, 4, |f.hb|), f.hb, f.body], accepts);
    if f.hb == [] {
      ZeroSize(e);
    } else if f.body == [] {
      assert F.Wire(e, f) == Memory(e, 4, |f.hb|) + f.hb;
    }
  }

  /** A refused write can leave part of a frame behind: what has gone out is the whole frame exactly if head
      and size were accepted and the body was accepted or empty. */
  lemma WholeFrameWritten(e: Endian, f: F.Frame, accepts: nat -> bool)
    requires f.hb != []
    ensures F.WrittenUntilFailure([Memory(e, 4, |f.hb|), f.hb, f.body], accepts, 0).0 == F.Wire(e, f) <==>
            accepts(0) && accepts(1) && (accepts(2) || f.body == [])
  {
    UnfoldWritten([Memory(e, 4, |f.hb|), f.hb, f.body], accepts);
    if f.body == [] {
      assert F.Wire(e, f) == Memory(e, 4, |f.hb|) + f.hb;
    }
  }

  lemma ZeroSize(e: Endian)
    ensures Memory(e, 4, 0) == [0, 0, 0, 0]
  {
    D.SmallSizeBytes(0);
  }

  /** What one end sends with several calls is the stream of their frames. */
  lemma {:induction false} SentStream(e: Endian, fs: seq<F.Frame>, f: F.Frame)
    ensures F.WireAll(e, fs + [f]) == F.WireAll(e, fs) + F.Wire(e, f)
  {
    hide F.Wire;
    if fs == [] {
      assert [f][1..] == [] && fs + [f] == [f];
      assert F.WireAll(e, [f]) == F.Wire(e, f) + [];
    } else {
      SentStream(e, fs[1..], f);
      assert (fs + [f])[1..] == fs[1..] + [f];
    }
  }

  /** The loop of readCb, begun with v0 and i0, has come to v and i and made the deliveries log. */
  ghost predicate LoopAt(e: Endian, parse: F.Parser, v0: F.Rx, i0: F.bytes, v: F.Rx, i: F.bytes, log: seq<F.Dispatch>) {
    v0.Valid() && v.Valid()
    && var (rx, rest, more) := F.ReadCb(e, parse, v, i);
       F.ReadCb(e, parse, v0, i0) == (rx, rest, log + more)
  }

  lemma LoopStarts(e: Endian, parse: F.Parser, v0: F.Rx, i0: F.bytes)
    requires v0.Valid()
    ensures LoopAt(e, parse, v0, i0, v0, i0, [])
  {
    var log := F.ReadCb(e, parse, v0, i0).2;
    assert [] + log == log;
  }

  /** What one call of recvMsg means for the loop. */
  lemma LoopContinues(e: Endian, parse: F.Parser, v0: F.Rx, i0: F.bytes, v: F.Rx, i: F.bytes, log: seq<F.Dispatch>)
    requires LoopAt(e, parse, v0, i0, v, i, log)
    ensures var (ok, rx, rest) := F.RecvMsg(e, parse, v, i);
            if !ok then F.ReadCb(e, parse, v0, i0) == (F.Clear(rx), rest, log)
            else if rx.pbHead.None? || !rx.msg.Recved() then F.ReadCb(e, parse, v0, i0) == (rx, rest, log)
            else LoopAt(e, parse, v0, i0, D.Idle(rx.pbHead), rest, log + [F.Dispatch(rx.pbHead.value, rx.msg.got)])
  {
    hide F.RecvMsg;
    assert log + [] == log;
    var (ok, rx, rest) := F.RecvMsg(e, parse, v, i);
    if ok && rx.pbHead.Some? && rx.msg.Recved() {
      var more := F.ReadCb(e, parse, D.Idle(rx.pbHead), rest).2;
      var d := [F.Dispatch(rx.pbHead.value, rx.msg.got)];
      assert log + (d + more) == (log + d) + more;
    }
  }
}
