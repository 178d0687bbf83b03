/** When the receiver of MsgFraming delivers exactly what was sent. */
module MsgDelivery {
  import opened ByteValue
  import opened CTypes
  import opened HostMemory
  import opened MsgFraming
  import G = ByteOrderGeneric

  // ----- one call of recvMsg on the bytes of one frame

  /** The receiver when it has read j bytes of frame f, at least its size. */
  function StateAt(f: Frame, j: nat, pb: Option<Head>): (r: Rx)
    requires 4 <= j <= 4 + |f.hb| + |f.body|
  {
    if j < 4 + |f.hb| then Rx(Part(|f.hb|, f.hb[..j - 4]), EMPTY, pb)
    else Rx(Part(|f.hb|, f.hb), Part(|f.body|, f.body[..j - 4 - |f.hb|]), Some(f.head))
  }

  function Idle(pb: Option<Head>): (r: Rx) { Rx(EMPTY, EMPTY, pb) }

  lemma SizeIsRead(e: Endian, n: nat)
    requires n < 0x8000_0000
    ensures ReadSize(e, Memory(e, 4, n)) == n
  {
    assert Memory(e, 4, n) + Zeros(0) == Memory(e, 4, n);
    PatternOfMemory(e, 4, n);
    Pow256Table();
    hide *;
    SmallMod(n);
  }

  lemma SmallMod(n: nat)
    requires n < 0x8000_0000
    ensures S32(n % 0x1_0000_0000) == n
  {
  }

  lemma BodyReaches(f: Frame, k: nat, c: bytes, m: nat)
    requires k <= |f.body| && m == Min(|f.body| - k, |c|) && c[..m] == f.body[k..k + m]
    requires |f.hb| <= MAX_MSG_SIZE && 0 < |f.body| <= MAX_MSG_SIZE && |f.hb| > 0
    ensures RecvBody(StateAt(f, 4 + |f.hb| + k, None), c) == (true, StateAt(f, 4 + |f.hb| + k + m, None), c[m..])
  {
    assert f.body[..k] + c[..m] == f.body[..k + m];
  }

  lemma HeadReaches(parse: Parser, f: Frame, k: nat, pb: Option<Head>, c: bytes, m: nat)
    requires Deliverable(parse, f) && k < |f.hb|
    requires m == Min(|f.hb| + |f.body| - k, |c|) && c[..m] == (f.hb + f.body)[k..k + m]
    ensures RecvHead(parse, StateAt(f, 4 + k, pb), c) == (true, StateAt(f, 4 + k + m, pb), c[m..])
  {
    if |c| < |f.hb| - k {
      assert c == c[..m] == f.hb[k..k + m];
      assert f.hb[..k] + c == f.hb[..k + m];
    } else {
      HeadCompletes(parse, f, k, pb, c, m);
    }
  }

  lemma HeadCompletes(parse: Parser, f: Frame, k: nat, pb: Option<Head>, c: bytes, m: nat)
    requires Deliverable(parse, f) && k < |f.hb| && |c| >= |f.hb| - k
    requires m == Min(|f.hb| + |f.body| - k, |c|) && c[..m] == (f.hb + f.body)[k..k + m]
    ensures RecvHead(parse, StateAt(f, 4 + k, pb), c) == (true, StateAt(f, 4 + k + m, pb), c[m..])
  {
    hide RecvBody;
    HeadSlices(f.hb, f.body, k, c, m);
    if |f.body| > 0 {
      BodyReaches(f, 0, c[|f.hb| - k..], m - (|f.hb| - k));
    }
  }

  lemma HeadSlices(hb: bytes, body: bytes, k: nat, c: bytes, m: nat)
    requires k < |hb| <= k + m <= |hb + body| && m <= |c| && c[..m] == (hb + body)[k..k + m]
    ensures var n := |hb| - k;
            hb[..k] + c[..n] == hb && c[n..][..m - n] == body[0..0 + (m - n)] && c[n..][m - n..] == c[m..]
  {
    var n := |hb| - k;
    assert c[..n] == c[..m][..n] == hb[k..];
    assert c[n..][..m - n] == c[..m][n..];
  }

  lemma SizeReaches(e: Endian, parse: Parser, f: Frame, pb: Option<Head>, c: bytes, m: nat)
    requires Deliverable(parse, f)
    requires m == Min(|Wire(e, f)|, |c|) && c[..m] == Wire(e, f)[..m] && m >= 4
    ensures RecvMsg(e, parse, Idle(pb), c) == (true, StateAt(f, m, pb), c[m..])
  {
    hide RecvHead, ReadSize, Memory;
    assert c[..4] == Memory(e, 4, |f.hb|) by {
      assert c[..4] == c[..m][..4];
    }
    SizeIsRead(e, |f.hb|);
    assert c[4..][..m - 4] == (f.hb + f.body)[0..0 + (m - 4)] by {
      assert c[4..][..m - 4] == c[..m][4..];
      assert Wire(e, f)[4..] == f.hb + f.body;
    }
    HeadReaches(parse, f, 0, pb, c[4..], m - 4);
    assert c[4..][m - 4..] == c[m..];
    assert f.hb[..0] == [];
  }

  /** The m bytes of a frame from i on, seen from the parts of the frame. */
  lemma FrameSlice(e: Endian, f: Frame, i: nat, m: nat)
    requires i + m <= |Wire(e, f)|
    ensures i == 0 ==> Wire(e, f)[i..i + m] == Wire(e, f)[..m]
    ensures 4 <= i < 4 + |f.hb| ==> Wire(e, f)[i..i + m] == (f.hb + f.body)[i - 4..i - 4 + m]
    ensures i >= 4 + |f.hb| ==> Wire(e, f)[i..i + m] == f.body[i - 4 - |f.hb|..i - 4 - |f.hb| + m]
  {
    hide Memory;
  }

  /** Reading on from i bytes of a frame, the receiver takes all the frame's bytes that have
      arrived and no others. */
  lemma RecvReaches(e: Endian, parse: Parser, f: Frame, i: nat, pb: Option<Head>, c: bytes, m: nat)
    requires Deliverable(parse, f) && (i == 0 || 4 <= i) && i < |Wire(e, f)|
    requires m == Min(|Wire(e, f)| - i, |c|) && c[..m] == Wire(e, f)[i..i + m] && i + m >= 4
    ensures RecvMsg(e, parse, if i == 0 then Idle(pb) else StateAt(f, i, pb), c) == (true, StateAt(f, i + m, pb), c[m..])
  {
    hide RecvBody, ReadSize, Wire;
    FrameSlice(e, f, i, m);
    if i == 0 {
      hide RecvMsg;
      SizeReaches(e, parse, f, pb, c, m);
    } else if i < 4 + |f.hb| {
      HeadReaches(parse, f, i - 4, pb, c, m);
    } else {
      BodyReaches(f, i - 4 - |f.hb|, c, m);
    }
  }

  // ----- one call of readCb on the bytes of one frame

  /** The receiver when it has read i bytes of frame f. */
  function Pending(f: Frame, i: nat, pb: Option<Head>): (r: Rx)
    requires i == 0 || 4 <= i <= 4 + |f.hb| + |f.body|
  {
    if i == 0 then Idle(pb) else StateAt(f, i, pb)
  }

  lemma NothingToRead(e: Endian, parse: Parser, pb: Option<Head>)
    ensures ReadCb(e, parse, Idle(pb), []) == (Idle(pb), [], [])
  {
  }

  /** One turn of the loop of readCb. */
  lemma LoopTurn(e: Endian, parse: Parser, rx: Rx, c: bytes, rx1: Rx, rest: bytes)
    requires rx.Valid() && RecvMsg(e, parse, rx, c) == (true, rx1, rest)
    ensures rx1.Valid()
    ensures rx1.pbHead.None? || !rx1.msg.Recved() ==> ReadCb(e, parse, rx, c) == (rx1, rest, [])
    ensures rx1.pbHead.Some? && rx1.msg.Recved() ==>
              var (rx2, rest2, log) := ReadCb(e, parse, Idle(rx1.pbHead), rest);
              ReadCb(e, parse, rx, c) == (rx2, rest2, [Dispatch(rx1.pbHead.value, rx1.msg.got)] + log)
  {
  }

  lemma FrameCompletes(e: Endian, parse: Parser, f: Frame, i: nat, pb: Option<Head>, c: bytes, m: nat)
    requires Deliverable(parse, f) && (i == 0 || 4 <= i) && i + m == |Wire(e, f)| && 0 < m <= |c|
    requires c[..m] == Wire(e, f)[i..]
    ensures var (rx, rest, log) := ReadCb(e, parse, Idle(Some(f.head)), c[m..]);
            ReadCb(e, parse, Pending(f, i, pb), c) == (rx, rest, [Dispatch(f.head, f.body)] + log)
  {
    RecvReaches(e, parse, f, i, pb, c, m);
    LoopTurn(e, parse, Pending(f, i, pb), c, StateAt(f, |Wire(e, f)|, pb), c[m..]);
    assert f.body[..|f.body|] == f.body;
  }

  lemma FrameReads(e: Endian, parse: Parser, f: Frame, i: nat, pb: Option<Head>, c: bytes)
    requires Deliverable(parse, f) && (i == 0 || 4 <= i) && 4 <= i + |c| < |Wire(e, f)|
    requires c == Wire(e, f)[i..i + |c|]
    ensures RecvMsg(e, parse, Pending(f, i, pb), c) == (true, StateAt(f, i + |c|, pb), [])
  {
    assert c[..|c|] == c && c[|c|..] == [];
    RecvReaches(e, parse, f, i, pb, c, |c|);
  }

  /** More bytes of a frame, but not all of it: the receiver keeps them and waits, unless the head
      is incomplete and an earlier head is still around; then it makes a message of that one. */
  lemma FrameContinues(e: Endian, parse: Parser, f: Frame, i: nat, pb: Option<Head>, c: bytes)
    requires Deliverable(parse, f) && (i == 0 || 4 <= i) && 4 <= i + |c| < |Wire(e, f)|
    requires c == Wire(e, f)[i..i + |c|]
    ensures ReadCb(e, parse, Pending(f, i, pb), c) ==
            if i + |c| < 4 + |f.hb| && pb.Some? then (Idle(pb), [], [Dispatch(pb.value, [])])
            else (StateAt(f, i + |c|, pb), [], [])
  {
    FrameReads(e, parse, f, i, pb, c);
    LoopEnds(e, parse, Pending(f, i, pb), c, StateAt(f, i + |c|, pb));
  }

  lemma LoopEnds(e: Endian, parse: Parser, rx: Rx, c: bytes, rx1: Rx)
    requires rx.Valid() && RecvMsg(e, parse, rx, c) == (true, rx1, [])
    ensures ReadCb(e, parse, rx, c) ==
            if rx1.pbHead.Some? && rx1.msg.Recved() then (Idle(rx1.pbHead), [], [Dispatch(rx1.pbHead.value, rx1.msg.got)])
            else (rx1, [], [])
  {
    LoopTurn(e, parse, rx, c, rx1, []);
    NothingToRead(e, parse, rx1.pbHead);
    if rx1.pbHead.Some? && rx1.msg.Recved() {
      var d := [Dispatch(rx1.pbHead.value, rx1.msg.got)];
      assert d + [] == d;
    }
  }

  /** What a size field stands for when only the bytes c of it have arrived: they are its first bytes in
      memory, low ones on a little-endian machine and high ones on a big-endian one, and the others
      are zero. */
  lemma SizeOfBytes(e: Endian, c: bytes)
    requires |c| <= 4
    ensures ReadSize(e, c) == Signed(4, if e == Little then Value(c) else BigValue(c) * Pow256(4 - |c|))
    ensures |c| < 4 && e == Little ==> ReadSize(e, c) == Value(c)
  {
    ZeroBytesBehind(c, Zeros(4 - |c|));
    ConversionsAreSigned(Pattern(e, c + Zeros(4 - |c|)));
    if |c| < 4 && e == Little {
      ShortValueIsSmall(c);
    }
  }

  lemma ShortValueIsSmall(c: bytes)
    requires |c| < 4
    ensures Signed(4, Value(c)) == Value(c)
  {
    ValueInRange(c);
    Pow256Table();
    assert Pow256(0) == 1;
    assert Value(c) < 0x100_0000;
    SignedOfValue(4, Value(c));
  }

  /** One to three bytes of the size are taken for a size of their own. If that is out of range, they
      are dropped; if not, the receiver waits under the false size, or, with an earlier head still
      around, makes a message of that head. */
  lemma SizeCut(e: Endian, parse: Parser, pb: Option<Head>, c: bytes)
    requires 0 < |c| < 4
    ensures var size := if e == Little then Value(c) else Signed(4, BigValue(c) * Pow256(4 - |c|));
            ReadCb(e, parse, Idle(pb), c) ==
            if size <= 0 || size > 8192 then (Idle(pb), [], [])
            else if pb.None? then (Rx(Part(size, []), EMPTY, None), [], [])
            else (Idle(pb), [], [Dispatch(pb.value, [])])
  {
    assert c[..|c|] == c && c[|c|..] == [];
    SizeOfBytes(e, c);
    var size := ReadSize(e, c);
    if 0 < size <= MAX_MSG_SIZE {
      LoopEnds(e, parse, Idle(pb), c, Rx(Part(size, []), EMPTY, pb));
    }
  }

  /** A complete size that is not in [1, 8192] is taken from the input, and nothing else happens. */
  lemma BadSizeRejected(e: Endian, parse: Parser, pb: Option<Head>, s: bytes, more: bytes)
    requires |s| == 4
    requires var size := Signed(4, if e == Little then Value(s) else BigValue(s)); size <= 0 || size > 8192
    ensures ReadCb(e, parse, Idle(pb), s + more) == (Idle(pb), more, [])
  {
    assert (s + more)[..4] == s && (s + more)[4..] == more;
    assert Pow256(0) == 1;
    SizeOfBytes(e, s);
    hide RecvHead;
  }

  /** After a recvMsg that fails readCb clears the receiver and returns. */
  lemma FailureClears(e: Endian, parse: Parser, rx: Rx, c: bytes)
    requires rx.Valid() && !RecvMsg(e, parse, rx, c).0
    ensures var (_, rx1, rest) := RecvMsg(e, parse, rx, c);
            ReadCb(e, parse, rx, c) == (Idle(rx1.pbHead), rest, [])
  {
    hide RecvMsg;
  }

  /** The parser refuses the head, or the head announces a body of an impossible size. */
  predicate BadHead(parse: Parser, hb: bytes) {
    var p := parse(hb);
    !p.ok || p.head.msgSize < 0 || p.head.msgSize > 8192
  }

  lemma BadHeadFails(parse: Parser, pb: Option<Head>, hb: bytes, k: nat, more: bytes)
    requires k < |hb| <= 8192 && BadHead(parse, hb)
    ensures RecvHead(parse, Rx(Part(|hb|, hb[..k]), EMPTY, pb), hb[k..] + more) ==
            (false, Rx(Part(|hb|, hb), EMPTY, Some(parse(hb).head)), more)
  {
    hide RecvBody;
    var c, n := hb[k..] + more, |hb| - k;
    assert c[..n] == hb[k..] && c[n..] == more && hb[..k] + hb[k..] == hb;
  }

  /** When a bad head is complete, whatever part of it had arrived before, the receiver calls no callback,
      forgets everything but the parsed head and leaves the bytes after it unread. */
  lemma BadHeadRejected(e: Endian, parse: Parser, pb: Option<Head>, hb: bytes, k: nat, more: bytes)
    requires k < |hb| <= 8192 && BadHead(parse, hb)
    ensures ReadCb(e, parse, Rx(Part(|hb|, hb[..k]), EMPTY, pb), hb[k..] + more) ==
            (Idle(Some(parse(hb).head)), more, [])
  {
    hide ReadCb, RecvHead;
    BadHeadFails(parse, pb, hb, k, more);
    FailureClears(e, parse, Rx(Part(|hb|, hb[..k]), EMPTY, pb), hb[k..] + more);
  }

  lemma BadHeadRejectedFromSize(e: Endian, parse: Parser, pb: Option<Head>, hb: bytes, more: bytes)
    requires 0 < |hb| <= 8192 && BadHead(parse, hb)
    ensures ReadCb(e, parse, Idle(pb), Memory(e, 4, |hb|) + hb + more) == (Idle(Some(parse(hb).head)), more, [])
  {
    hide ReadCb, RecvHead;
    var c := Memory(e, 4, |hb|) + hb + more;
    assert c[..4] == Memory(e, 4, |hb|) && c[4..] == hb + more;
    SizeIsRead(e, |hb|);
    BadHeadFails(parse, pb, hb, 0, more);
    assert hb[..0] == [] && hb[0..] == hb;
    FailureClears(e, parse, Idle(pb), c);
  }

  /** A part of a head, good or bad, is kept on a receiver without an old head. */
  lemma HeadKept(e: Endian, parse: Parser, hb: bytes, k: nat)
    requires k < |hb| <= 8192
    ensures ReadCb(e, parse, START, Memory(e, 4, |hb|) + hb[..k]) == (Rx(Part(|hb|, hb[..k]), EMPTY, None), [], [])
  {
    var c := Memory(e, 4, |hb|) + hb[..k];
    assert c[..4] == Memory(e, 4, |hb|) && c[4..] == hb[..k];
    SizeIsRead(e, |hb|);
    assert hb[..k][..k] == hb[..k] && hb[..k][k..] == [] && [] + hb[..k] == hb[..k];
    assert RecvHead(parse, Rx(Part(|hb|, []), EMPTY, None), hb[..k]) ==
           (true, Rx(Part(|hb|, hb[..k]), EMPTY, None), []);
    hide RecvHead;
  }

  // ----- one call of readCb on the bytes of many frames

  /** The bytes a receiver holds of a message it has not delivered. */
  function Retained(e: Endian, rx: Rx): (r: bytes) {
    if rx.head.size == 0 then [] else Memory(e, 4, rx.head.size) + rx.head.got + rx.msg.got
  }

  ghost predicate AllDeliverable(parse: Parser, fs: seq<Frame>) {
    forall i :: 0 <= i < |fs| ==> Deliverable(parse, fs[i])
  }

  /** The position p in the stream of a connection's frames is between frames or in the body of one;
      if the receiver has never received a head (`first`), it may also be in the first head. It is
      never inside the size of a frame, nor, otherwise, inside a head. */
  predicate SafeCut(first: bool, fs: seq<Frame>, p: nat) {
    if fs == [] then p == 0
    else if p < 4 + |fs[0].hb| + |fs[0].body| then p == 0 || p >= if first then 4 else 4 + |fs[0].hb|
    else SafeCut(false, fs[1..], p - (4 + |fs[0].hb| + |fs[0].body|))
  }

  /** The state and the deliveries of a receiver that has made the right thing of p bytes. */
  function Expected(fs: seq<Frame>, p: nat, pb: Option<Head>): (r: (Rx, seq<Dispatch>))
    requires SafeCut(pb.None?, fs, p)
  {
    if fs == [] then (Idle(pb), [])
    else if p < 4 + |fs[0].hb| + |fs[0].body| then (Pending(fs[0], p, pb), [])
    else
      var (rx, log) := Expected(fs[1..], p - (4 + |fs[0].hb| + |fs[0].body|), Some(fs[0].head));
      (rx, [Dispatch(fs[0].head, fs[0].body)] + log)
  }

  lemma {:induction false} ExpectedValid(parse: Parser, fs: seq<Frame>, p: nat, pb: Option<Head>)
    requires AllDeliverable(parse, fs) && SafeCut(pb.None?, fs, p)
    ensures Expected(fs, p, pb).0.Valid()
  {
    if fs != [] && p >= 4 + |fs[0].hb| + |fs[0].body| {
      ExpectedValid(parse, fs[1..], p - (4 + |fs[0].hb| + |fs[0].body|), Some(fs[0].head));
    }
  }

  /** What readCb makes of the bytes c after the position p is what a right receiver makes of them. */
  ghost predicate RightStep(e: Endian, parse: Parser, fs: seq<Frame>, p: nat, pb: Option<Head>, c: bytes) {
    && SafeCut(pb.None?, fs, p) && SafeCut(pb.None?, fs, p + |c|)
    && var (rx, log) := Expected(fs, p, pb);
       var (rx2, log2) := Expected(fs, p + |c|, pb);
       rx.Valid() && exists out :: ReadCb(e, parse, rx, c) == (rx2, [], out) && log + out == log2
  }

  lemma StepInside(e: Endian, parse: Parser, fs: seq<Frame>, p: nat, pb: Option<Head>, c: bytes)
    requires AllDeliverable(parse, fs) && SafeCut(pb.None?, fs, p) && SafeCut(pb.None?, fs, p + |c|)
    requires fs != [] && 0 < p + |c| < |Wire(e, fs[0])| && c == Wire(e, fs[0])[p..p + |c|]
    ensures RightStep(e, parse, fs, p, pb, c)
  {
    hide ReadCb, Wire;
    ExpectedValid(parse, fs, p, pb);
    FrameContinues(e, parse, fs[0], p, pb, c);
    var out: seq<Dispatch> := [];
    assert out + out == out;
  }

  lemma StepAcross(e: Endian, parse: Parser, fs: seq<Frame>, p: nat, pb: Option<Head>, c: bytes, m: nat)
    requires AllDeliverable(parse, fs) && SafeCut(pb.None?, fs, p) && fs != [] && p < |Wire(e, fs[0])|
    requires m == |Wire(e, fs[0])| - p <= |c| && c[..m] == Wire(e, fs[0])[p..]
    requires RightStep(e, parse, fs[1..], 0, Some(fs[0].head), c[m..])
    ensures RightStep(e, parse, fs, p, pb, c)
  {
    hide ReadCb, Wire, StateAt;
    ExpectedValid(parse, fs, p, pb);
    var f := fs[0];
    FrameCompletes(e, parse, f, p, pb, c, m);
    assert Expected(fs, p, pb) == (Pending(f, p, pb), []);
    assert Expected(fs[1..], 0, Some(f.head)) == (Idle(Some(f.head)), []);
    var (rx2, log2) := Expected(fs[1..], |c[m..]|, Some(f.head));
    var out :| ReadCb(e, parse, Idle(Some(f.head)), c[m..]) == (rx2, [], out) && [] + out == log2;
    var d := [Dispatch(f.head, f.body)];
    assert ReadCb(e, parse, Pending(f, p, pb), c) == (rx2, [], d + out);
    assert [] + (d + out) == d + log2;
  }

  lemma StepLater(e: Endian, parse: Parser, fs: seq<Frame>, p: nat, pb: Option<Head>, c: bytes)
    requires fs != [] && p >= |Wire(e, fs[0])|
    requires RightStep(e, parse, fs[1..], p - |Wire(e, fs[0])|, Some(fs[0].head), c)
    ensures RightStep(e, parse, fs, p, pb, c)
  {
    hide ReadCb, Wire, Pending;
    var q, pb1 := p - |Wire(e, fs[0])|, Some(fs[0].head);
    var (rx, log) := Expected(fs[1..], q, pb1);
    var (rx2, log2) := Expected(fs[1..], q + |c|, pb1);
    var out :| ReadCb(e, parse, rx, c) == (rx2, [], out) && log + out == log2;
    var d := [Dispatch(fs[0].head, fs[0].body)];
    assert (d + log) + out == d + log2;
  }

  lemma StepNothing(e: Endian, parse: Parser, fs: seq<Frame>, pb: Option<Head>)
    ensures RightStep(e, parse, fs, 0, pb, [])
  {
    NothingToRead(e, parse, pb);
    var out: seq<Dispatch> := [];
    assert out + out == out;
  }

  /** The bytes c after the position p, seen from the second frame. */
  lemma LaterBytes(e: Endian, fs: seq<Frame>, p: nat, c: bytes)
    requires fs != [] && p + |c| <= |WireAll(e, fs)| && c == WireAll(e, fs)[p..p + |c|]
    ensures var w, rest := Wire(e, fs[0]), WireAll(e, fs[1..]);
            if p >= |w| then p - |w| + |c| <= |rest| && c == rest[p - |w|..p - |w| + |c|]
            else if p + |c| < |w| then c == w[p..p + |c|]
            else |c| - (|w| - p) <= |rest| && c[..|w| - p] == w[p..] && c[|w| - p..] == rest[..|c| - (|w| - p)]
  {
    hide Wire;
    SliceOfConcat(Wire(e, fs[0]), WireAll(e, fs[1..]), p, |c|);
  }

  lemma SliceOfConcat(w: bytes, rest: bytes, p: nat, n: nat)
    requires p + n <= |w + rest|
    ensures p >= |w| ==> (w + rest)[p..p + n] == rest[p - |w|..p - |w| + n]
    ensures p + n <= |w| ==> (w + rest)[p..p + n] == w[p..p + n]
    ensures p <= |w| <= p + n ==> (w + rest)[p..p + n][..|w| - p] == w[p..]
    ensures p <= |w| <= p + n ==> (w + rest)[p..p + n][|w| - p..] == rest[..p + n - |w|]
  {
  }

  /** From one safe position to the next, readCb does the right thing. */
  lemma {:induction false} SafeStep(e: Endian, parse: Parser, fs: seq<Frame>, p: nat, pb: Option<Head>, c: bytes)
    requires AllDeliverable(parse, fs) && SafeCut(pb.None?, fs, p) && SafeCut(pb.None?, fs, p + |c|)
    requires p + |c| <= |WireAll(e, fs)| && c == WireAll(e, fs)[p..p + |c|]
    ensures RightStep(e, parse, fs, p, pb, c)
    decreases |fs|
  {
    hide ReadCb, RightStep, Expected, Wire, WireAll;
    if fs == [] || p + |c| == 0 {
      assert c == [];
      StepNothing(e, parse, fs, pb);
    } else {
      LaterBytes(e, fs, p, c);
      var f, w := fs[0], Wire(e, fs[0]);
      if p >= |w| {
        SafeStep(e, parse, fs[1..], p - |w|, Some(f.head), c);
        StepLater(e, parse, fs, p, pb, c);
      } else if p + |c| < |w| {
        StepInside(e, parse, fs, p, pb, c);
      } else {
        SafeStep(e, parse, fs[1..], 0, Some(f.head), c[|w| - p..]);
        StepAcross(e, parse, fs, p, pb, c, |w| - p);
      }
    }
  }

  // ----- and when the bytes end in an unsafe place

  /** After the bytes c the deliveries are not the complete frames, or the bytes held and unread do
      not amount to those of the incomplete one. */
  ghost predicate WrongStep(e: Endian, parse: Parser, fs: seq<Frame>, p: nat, pb: Option<Head>, c: bytes) {
    && SafeCut(pb.None?, fs, p)
    && var (rx, log) := Expected(fs, p, pb);
       rx.Valid()
       && var (rx2, rest, out) := ReadCb(e, parse, rx, c);
          |log + out| != Complete(fs, p + |c|) || |Retained(e, rx2) + rest| != Remainder(fs, p + |c|)
  }

  lemma WrongInside(e: Endian, parse: Parser, fs: seq<Frame>, p: nat, pb: Option<Head>, c: bytes)
    requires AllDeliverable(parse, fs) && SafeCut(pb.None?, fs, p) && !SafeCut(pb.None?, fs, p + |c|)
    requires fs != [] && p + |c| < |Wire(e, fs[0])| && c == Wire(e, fs[0])[p..p + |c|]
    ensures WrongStep(e, parse, fs, p, pb, c)
  {
    assert p == 0 && Expected(fs, p, pb) == (Idle(pb), []);
    if |c| < 4 {
      SizeCut(e, parse, pb, c);
    } else {
      FrameContinues(e, parse, fs[0], 0, pb, c);
    }
  }

  lemma WrongAcross(e: Endian, parse: Parser, fs: seq<Frame>, p: nat, pb: Option<Head>, c: bytes, m: nat)
    requires AllDeliverable(parse, fs) && SafeCut(pb.None?, fs, p) && fs != [] && p < |Wire(e, fs[0])|
    requires m == |Wire(e, fs[0])| - p <= |c| && c[..m] == Wire(e, fs[0])[p..]
    requires WrongStep(e, parse, fs[1..], 0, Some(fs[0].head), c[m..])
    ensures WrongStep(e, parse, fs, p, pb, c)
  {
    hide ReadCb, Wire, StateAt, Retained;
    ExpectedValid(parse, fs, p, pb);
    var f := fs[0];
    FrameCompletes(e, parse, f, p, pb, c, m);
    assert Expected(fs, p, pb) == (Pending(f, p, pb), []);
    assert Expected(fs[1..], 0, Some(f.head)) == (Idle(Some(f.head)), []);
  }

  lemma WrongLater(e: Endian, parse: Parser, fs: seq<Frame>, p: nat, pb: Option<Head>, c: bytes)
    requires fs != [] && p >= |Wire(e, fs[0])|
    requires WrongStep(e, parse, fs[1..], p - |Wire(e, fs[0])|, Some(fs[0].head), c)
    ensures WrongStep(e, parse, fs, p, pb, c)
  {
    hide ReadCb;
  }

  /** From a safe position to an unsafe one, readCb goes wrong at once. */
  lemma {:induction false} UnsafeStep(e: Endian, parse: Parser, fs: seq<Frame>, p: nat, pb: Option<Head>, c: bytes)
    requires AllDeliverable(parse, fs) && SafeCut(pb.None?, fs, p) && !SafeCut(pb.None?, fs, p + |c|)
    requires p + |c| <= |WireAll(e, fs)| && c == WireAll(e, fs)[p..p + |c|]
    ensures WrongStep(e, parse, fs, p, pb, c)
    decreases |fs|
  {
    hide ReadCb, WrongStep, Expected, Wire;
    if fs != [] {
      LaterBytes(e, fs, p, c);
      var f, w := fs[0], Wire(e, fs[0]);
      if p >= |w| {
        UnsafeStep(e, parse, fs[1..], p - |w|, Some(f.head), c);
        WrongLater(e, parse, fs, p, pb, c);
      } else if p + |c| < |w| {
        WrongInside(e, parse, fs, p, pb, c);
      } else {
        UnsafeStep(e, parse, fs[1..], 0, Some(f.head), c[|w| - p..]);
        WrongAcross(e, parse, fs, p, pb, c, |w| - p);
      }
    }
  }

  // ----- whole connections

  /** A connection: the receiver, the unread input and the messages delivered since it began. */
  datatype Conn = Conn(rx: Rx, input: bytes, log: seq<Dispatch>)

  /** A connection that found the receiver in the state rx0, after the given chunks have arrived, with
      one call of readCb for each. */
  function After(e: Endian, parse: Parser, rx0: Rx, chunks: seq<bytes>): (conn: Conn)
    requires rx0.Valid()
    ensures conn.rx.Valid()
  {
    if chunks == [] then Conn(rx0, [], [])
    else
      var prev := After(e, parse, rx0, chunks[..|chunks| - 1]);
      var (rx, rest, log) := ReadCb(e, parse, prev.rx, prev.input + chunks[|chunks| - 1]);
      Conn(rx, rest, prev.log + log)
  }

  function Flat(chunks: seq<bytes>): (r: bytes) {
    if chunks == [] then [] else Flat(chunks[..|chunks| - 1]) + chunks[|chunks| - 1]
  }

  /** Exactly the complete frames have been delivered, and every other received byte is held or
      unread: nothing is lost, invented or delivered early. */
  predicate InSync(e: Endian, fs: seq<Frame>, received: bytes, conn: Conn) {
    var k := Complete(fs, |received|);
    conn.log == Messages(fs[..k]) && WireAll(e, fs[..k]) + Retained(e, conn.rx) + conn.input == received
  }

  lemma PendingRetained(e: Endian, f: Frame, p: nat, pb: Option<Head>)
    requires p < |Wire(e, f)| && (p == 0 || 4 <= p) && |f.hb| > 0
    ensures Retained(e, Pending(f, p, pb)) == Wire(e, f)[..p]
  {
  }

  /** The first k + 1 frames are the first one and k of the others. */
  lemma OneMoreFrame(e: Endian, fs: seq<Frame>, k: nat)
    requires fs != [] && k <= |fs| - 1
    ensures WireAll(e, fs[..k + 1]) == Wire(e, fs[0]) + WireAll(e, fs[1..][..k])
    ensures Messages(fs[..k + 1]) == [Dispatch(fs[0].head, fs[0].body)] + Messages(fs[1..][..k])
    ensures WireAll(e, fs) == Wire(e, fs[0]) + WireAll(e, fs[1..])
  {
    hide Wire;
    assert fs[..k + 1][0] == fs[0] && fs[..k + 1][1..] == fs[1..][..k];
  }

  lemma OneMoreComplete(e: Endian, fs: seq<Frame>, q: nat)
    requires fs != []
    ensures Complete(fs, |Wire(e, fs[0])| + q) == Complete(fs[1..], q) + 1
  {
  }

  lemma InSyncParts(e: Endian, fs: seq<Frame>, received: bytes, conn: Conn)
    requires InSync(e, fs, received, conn)
    ensures var k := Complete(fs, |received|);
            conn.log == Messages(fs[..k]) && WireAll(e, fs[..k]) + Retained(e, conn.rx) + conn.input == received
  {
  }

  lemma SyncLater(e: Endian, fs: seq<Frame>, q: nat, conn: Conn)
    requires fs != [] && q <= |WireAll(e, fs[1..])| && InSync(e, fs[1..], WireAll(e, fs[1..])[..q], conn)
    ensures InSync(e, fs, WireAll(e, fs)[..|Wire(e, fs[0])| + q],
                   conn.(log := [Dispatch(fs[0].head, fs[0].body)] + conn.log))
  {
    hide *;
    InSyncParts(e, fs[1..], WireAll(e, fs[1..])[..q], conn);
    OneMoreComplete(e, fs, q);
    OneMoreFrame(e, fs, Complete(fs[1..], q));
    SyncOneMore(e, fs, q, Complete(fs[1..], q), conn);
  }

  lemma SyncOneMore(e: Endian, fs: seq<Frame>, q: nat, k: nat, conn: Conn)
    requires fs != [] && q <= |WireAll(e, fs[1..])| && k <= |fs| - 1
    requires WireAll(e, fs) == Wire(e, fs[0]) + WireAll(e, fs[1..])
    requires Complete(fs, |Wire(e, fs[0])| + q) == k + 1
    requires conn.log == Messages(fs[1..][..k])
    requires WireAll(e, fs[1..][..k]) + Retained(e, conn.rx) + conn.input == WireAll(e, fs[1..])[..q]
    ensures InSync(e, fs, WireAll(e, fs)[..|Wire(e, fs[0])| + q],
                   conn.(log := [Dispatch(fs[0].head, fs[0].body)] + conn.log))
  {
    OneMoreFrame(e, fs, k);
    hide Wire, Retained, Messages, Complete, WireAll;
    Prepended(Wire(e, fs[0]), WireAll(e, fs[1..]), q, WireAll(e, fs[1..][..k]), Retained(e, conn.rx), conn.input);
  }

  lemma Prepended(w: bytes, rest: bytes, q: nat, a: bytes, b: bytes, c: bytes)
    requires q <= |rest| && a + b + c == rest[..q]
    ensures (w + a) + b + c == (w + rest)[..|w| + q]
  {
    assert (w + a) + b + c == w + (a + b + c);
  }

  lemma InSyncFrom(e: Endian, fs: seq<Frame>, received: bytes, conn: Conn, k: nat)
    requires k == Complete(fs, |received|) && conn.log == Messages(fs[..k])
    requires WireAll(e, fs[..k]) + Retained(e, conn.rx) + conn.input == received
    ensures InSync(e, fs, received, conn)
  {
  }

  lemma SyncNothing(e: Endian, fs: seq<Frame>, pb: Option<Head>)
    ensures InSync(e, fs, [], Conn(Idle(pb), [], []))
  {
  }

  lemma NoFrames(e: Endian, fs: seq<Frame>)
    ensures WireAll(e, fs[..0]) == [] && Messages(fs[..0]) == []
  {
  }

  lemma SyncInside(e: Endian, fs: seq<Frame>, p: nat, pb: Option<Head>)
    requires fs != [] && p < |Wire(e, fs[0])| && (p == 0 || 4 <= p) && |fs[0].hb| > 0
    ensures InSync(e, fs, Wire(e, fs[0])[..p], Conn(Pending(fs[0], p, pb), [], []))
  {
    assert Complete(fs, p) == 0;
    hide *;
    PendingRetained(e, fs[0], p, pb);
    NoFrames(e, fs);
    var held := Wire(e, fs[0])[..p];
    assert [] + held + [] == held && |held| == p;
    InSyncFrom(e, fs, held, Conn(Pending(fs[0], p, pb), [], []), 0);
  }

  lemma {:induction false} ExpectedInSync(e: Endian, parse: Parser, fs: seq<Frame>, p: nat, pb: Option<Head>)
    requires AllDeliverable(parse, fs) && SafeCut(pb.None?, fs, p) && p <= |WireAll(e, fs)|
    ensures var (rx, log) := Expected(fs, p, pb);
            InSync(e, fs, WireAll(e, fs)[..p], Conn(rx, [], log))
  {
    hide InSync, Wire, WireAll, Retained, Pending;
    if fs == [] {
      SyncNothing(e, fs, pb);
      NoFrames(e, fs);
      assert WireAll(e, fs)[..p] == [];
    } else {
      OneMoreFrame(e, fs, 0);
      var n := |Wire(e, fs[0])|;
      if p < n {
        SyncInside(e, fs, p, pb);
        assert WireAll(e, fs)[..p] == Wire(e, fs[0])[..p];
      } else {
        ExpectedInSync(e, parse, fs[1..], p - n, Some(fs[0].head));
        var (rx, log) := Expected(fs[1..], p - n, Some(fs[0].head));
        SyncLater(e, fs, p - n, Conn(rx, [], log));
      }
    }
  }

  /** Being in sync fixes the number of deliveries and the number of bytes held. */
  lemma {:induction false} CompleteBytes(e: Endian, fs: seq<Frame>, p: nat)
    requires p <= |WireAll(e, fs)|
    ensures |WireAll(e, fs[..Complete(fs, p)])| + Remainder(fs, p) == p
  {
    if fs != [] && p >= |Wire(e, fs[0])| {
      var k := Complete(fs, p);
      CompleteBytes(e, fs[1..], p - |Wire(e, fs[0])|);
      assert fs[..k][1..] == fs[1..][..k - 1];
    }
  }

  /** The receiver is as it should be after the chunks of a connection that found it idle, with the
      head pb left over from earlier messages. */
  ghost predicate OnTrack(e: Endian, parse: Parser, fs: seq<Frame>, pb: Option<Head>, chunks: seq<bytes>) {
    && SafeCut(pb.None?, fs, |Flat(chunks)|)
    && var (rx, log) := Expected(fs, |Flat(chunks)|, pb);
       After(e, parse, Idle(pb), chunks) == Conn(rx, [], log)
  }

  /** A connection in sync has delivered and holds the right numbers. */
  lemma InSyncCounts(e: Endian, fs: seq<Frame>, received: bytes, conn: Conn)
    requires |received| <= |WireAll(e, fs)| && InSync(e, fs, received, conn)
    ensures |conn.log| == Complete(fs, |received|)
    ensures |Retained(e, conn.rx) + conn.input| == Remainder(fs, |received|)
  {
    hide Retained, WireAll, Complete, Remainder;
    CompleteBytes(e, fs, |received|);
  }

  lemma WrongNotInSync(e: Endian, parse: Parser, fs: seq<Frame>, p: nat, pb: Option<Head>, c: bytes, prev: Conn,
                       received: bytes)
    requires WrongStep(e, parse, fs, p, pb, c) && p + |c| <= |WireAll(e, fs)| && |received| == p + |c|
    requires prev == Conn(Expected(fs, p, pb).0, [], Expected(fs, p, pb).1)
    ensures var (rx, rest, log) := ReadCb(e, parse, prev.rx, c);
            !InSync(e, fs, received, Conn(rx, rest, prev.log + log))
  {
    hide ReadCb, Expected, Retained, SafeCut, WireAll, InSync;
    var (rx, rest, log) := ReadCb(e, parse, prev.rx, c);
    if InSync(e, fs, received, Conn(rx, rest, prev.log + log)) {
      InSyncCounts(e, fs, received, Conn(rx, rest, prev.log + log));
    }
  }

  lemma OneMoreChunk(e: Endian, parse: Parser, fs: seq<Frame>, pb: Option<Head>, chunks: seq<bytes>)
    requires AllDeliverable(parse, fs) && chunks != [] && Flat(chunks) <= WireAll(e, fs)
    requires OnTrack(e, parse, fs, pb, chunks[..|chunks| - 1])
    ensures if SafeCut(pb.None?, fs, |Flat(chunks)|) then OnTrack(e, parse, fs, pb, chunks)
            else !InSync(e, fs, Flat(chunks), After(e, parse, Idle(pb), chunks))
  {
    hide ReadCb, Expected, Retained, SafeCut, InSync, WrongStep, WireAll, AllDeliverable;
    var init, c := chunks[..|chunks| - 1], chunks[|chunks| - 1];
    var p := |Flat(init)|;
    assert [] + c == c;
    assert c == WireAll(e, fs)[p..p + |c|];
    if SafeCut(pb.None?, fs, p + |c|) {
      SafeStep(e, parse, fs, p, pb, c);
    } else {
      UnsafeStep(e, parse, fs, p, pb, c);
      WrongNotInSync(e, parse, fs, p, pb, c, After(e, parse, Idle(pb), init), Flat(chunks));
    }
  }

  ghost predicate AllCutsSafe(first: bool, fs: seq<Frame>, chunks: seq<bytes>) {
    forall i :: 0 <= i <= |chunks| ==> SafeCut(first, fs, |Flat(chunks[..i])|)
  }

  ghost predicate AlwaysInSync(e: Endian, parse: Parser, fs: seq<Frame>, rx0: Rx, chunks: seq<bytes>)
    requires rx0.Valid()
  {
    forall i :: 0 <= i <= |chunks| ==> InSync(e, fs, Flat(chunks[..i]), After(e, parse, rx0, chunks[..i]))
  }

  /** Over a whole run of safely cut chunks the receiver is as it should be. */
  lemma {:induction false} SafeRunsAreOnTrack(e: Endian, parse: Parser, fs: seq<Frame>, pb: Option<Head>,
                                              chunks: seq<bytes>)
    requires AllDeliverable(parse, fs) && Flat(chunks) <= WireAll(e, fs) && AllCutsSafe(pb.None?, fs, chunks)
    ensures OnTrack(e, parse, fs, pb, chunks)
  {
    assert chunks[..|chunks|] == chunks;
    if chunks != [] {
      var init := chunks[..|chunks| - 1];
      assert forall i :: 0 <= i <= |init| ==> init[..i] == chunks[..i];
      SafeRunsAreOnTrack(e, parse, fs, pb, init);
      OneMoreChunk(e, parse, fs, pb, chunks);
    }
  }

  lemma OnTrackInSync(e: Endian, parse: Parser, fs: seq<Frame>, pb: Option<Head>, chunks: seq<bytes>)
    requires AllDeliverable(parse, fs) && Flat(chunks) <= WireAll(e, fs) && OnTrack(e, parse, fs, pb, chunks)
    ensures InSync(e, fs, Flat(chunks), After(e, parse, Idle(pb), chunks))
  {
    hide ReadCb, Expected, InSync;
    var p := |Flat(chunks)|;
    ExpectedInSync(e, parse, fs, p, pb);
    assert WireAll(e, fs)[..p] == Flat(chunks);
  }

  lemma {:induction false} FlatPrefix(chunks: seq<bytes>, i: nat)
    requires i <= |chunks|
    ensures Flat(chunks[..i]) <= Flat(chunks)
  {
    if i == |chunks| {
      assert chunks[..i] == chunks;
    } else {
      var init := chunks[..|chunks| - 1];
      FlatPrefix(init, i);
      assert init[..i] == chunks[..i];
    }
  }

  /** A connection on which the receiver stays in sync was cut safely. */
  lemma {:induction false} InSyncOnlyIfSafe(e: Endian, parse: Parser, fs: seq<Frame>, pb: Option<Head>,
                                            chunks: seq<bytes>)
    requires AllDeliverable(parse, fs) && Flat(chunks) <= WireAll(e, fs)
    requires AlwaysInSync(e, parse, fs, Idle(pb), chunks)
    ensures AllCutsSafe(pb.None?, fs, chunks)
  {
    hide ReadCb, Expected, InSync, After, SafeCut, OnTrack, WireAll, AllDeliverable;
    assert chunks[..|chunks|] == chunks;
    if chunks == [] {
      assert Flat(chunks) == [];
      SafeStart(pb.None?, fs);
    } else {
      var init := chunks[..|chunks| - 1];
      assert forall i :: 0 <= i <= |init| ==> init[..i] == chunks[..i];
      FlatPrefix(chunks, |chunks| - 1);
      InSyncOnlyIfSafe(e, parse, fs, pb, init);
      SafeRunsAreOnTrack(e, parse, fs, pb, init);
      OneMoreChunk(e, parse, fs, pb, chunks);
    }
  }

  lemma SafeStart(first: bool, fs: seq<Frame>)
    ensures SafeCut(first, fs, 0)
  {
  }

  /** For every connection that finds the receiver idle, every sequence of deliverable frames and every
      way the stream is cut into chunks: the receiver is in sync at all times if and only if every
      cut is safe. */
  lemma ConnectionInSyncExactly(e: Endian, parse: Parser, fs: seq<Frame>, pb: Option<Head>, chunks: seq<bytes>)
    requires AllDeliverable(parse, fs) && Flat(chunks) <= WireAll(e, fs)
    ensures AlwaysInSync(e, parse, fs, Idle(pb), chunks) <==> AllCutsSafe(pb.None?, fs, chunks)
  {
    if AllCutsSafe(pb.None?, fs, chunks) {
      forall i | 0 <= i <= |chunks|
        ensures InSync(e, fs, Flat(chunks[..i]), After(e, parse, Idle(pb), chunks[..i]))
      {
        hide InSync, After, SafeCut;
        assert forall j :: 0 <= j <= i ==> chunks[..i][..j] == chunks[..j];
        FlatPrefix(chunks, i);
        SafeRunsAreOnTrack(e, parse, fs, pb, chunks[..i]);
        OnTrackInSync(e, parse, fs, pb, chunks[..i]);
      }
    } else if AlwaysInSync(e, parse, fs, Idle(pb), chunks) {
      InSyncOnlyIfSafe(e, parse, fs, pb, chunks);
    }
  }

  lemma {:induction false} AllComplete(e: Endian, fs: seq<Frame>)
    ensures Complete(fs, |WireAll(e, fs)|) == |fs| && Remainder(fs, |WireAll(e, fs)|) == 0
  {
    if fs != [] {
      AllComplete(e, fs[1..]);
    }
  }

  /** When the whole stream of a connection has arrived in safe chunks, the callback has been called for
      exactly the messages that were sent, in order, and nothing is left over. */
  lemma Delivered(e: Endian, parse: Parser, fs: seq<Frame>, pb: Option<Head>, chunks: seq<bytes>)
    requires AllDeliverable(parse, fs) && Flat(chunks) == WireAll(e, fs) && AllCutsSafe(pb.None?, fs, chunks)
    ensures var conn := After(e, parse, Idle(pb), chunks);
            conn.log == Messages(fs) && conn.input == [] && conn.rx == Idle(conn.rx.pbHead)
  {
    hide ReadCb, Retained;
    SafeRunsAreOnTrack(e, parse, fs, pb, chunks);
    OnTrackInSync(e, parse, fs, pb, chunks);
    AllComplete(e, fs);
    assert fs[..|fs|] == fs;
    ExpectedEnd(fs, |WireAll(e, fs)|, pb);
  }

  /** What a right receiver is left with: between frames it is idle, and it has a head if it had one
      before or the end of the first head has arrived. */
  lemma {:induction false} ExpectedEnd(fs: seq<Frame>, p: nat, pb: Option<Head>)
    requires SafeCut(pb.None?, fs, p)
    ensures var rx := Expected(fs, p, pb).0;
            (Remainder(fs, p) == 0 ==> rx == Idle(rx.pbHead))
            && (rx.pbHead.Some? <==> pb.Some? || (fs != [] && p >= 4 + |fs[0].hb|))
  {
    if fs != [] && p >= 4 + |fs[0].hb| + |fs[0].body| {
      ExpectedEnd(fs[1..], p - (4 + |fs[0].hb| + |fs[0].body|), Some(fs[0].head));
    }
  }

  // ----- what the sender does not know

  /** A frame as the sender makes it, of whatever size. */
  predicate Sent(parse: Parser, f: Frame) {
    0 < |f.hb| < 0x8000_0000 && parse(f.hb) == Parsed(true, f.head) && f.head.msgSize == |f.body|
  }

  /** The number of frames before the first one over the receiver's limits. */
  function WithinLimits(fs: seq<Frame>): (k: nat)
    ensures k <= |fs|
  {
    if fs == [] || |fs[0].hb| > 8192 || |fs[0].body| > 8192 then 0 else 1 + WithinLimits(fs[1..])
  }

  /** A stream that arrives whole: the callback is called for exactly the frames before the first one
      over the limits. */
  lemma WholeStreamExactly(e: Endian, parse: Parser, fs: seq<Frame>, pb: Option<Head>)
    requires forall i :: 0 <= i < |fs| ==> Sent(parse, fs[i])
    ensures After(e, parse, Idle(pb), [WireAll(e, fs)]).log == Messages(fs[..WithinLimits(fs)])
  {
    WholeRead(e, parse, fs, pb);
    var c := WireAll(e, fs);
    var none: seq<bytes> := [];
    assert [c][..0] == none && [] + c == c;
    assert After(e, parse, Idle(pb), []) == Conn(Idle(pb), [], []);
    var log := ReadCb(e, parse, Idle(pb), c).2;
    assert [] + log == log;
  }

  lemma {:induction false} WholeRead(e: Endian, parse: Parser, fs: seq<Frame>, pb: Option<Head>)
    requires forall i :: 0 <= i < |fs| ==> Sent(parse, fs[i])
    ensures ReadCb(e, parse, Idle(pb), WireAll(e, fs)).2 == Messages(fs[..WithinLimits(fs)])
  {
    hide ReadCb, Wire;
    if fs == [] {
      NothingToRead(e, parse, pb);
    } else {
      var f, rest := fs[0], WireAll(e, fs[1..]);
      var w, k := Wire(e, f), WithinLimits(fs);
      if k == 0 {
        TooLargeRejected(e, parse, f, pb, rest);
      } else {
        assert (w + rest)[..|w|] == w[0..] && (w + rest)[|w|..] == rest;
        FrameCompletes(e, parse, f, 0, pb, w + rest, |w|);
        WholeRead(e, parse, fs[1..], Some(f.head));
        OneMoreFrame(e, fs, k - 1);
      }
    }
  }

  lemma TooLargeRejected(e: Endian, parse: Parser, f: Frame, pb: Option<Head>, more: bytes)
    requires Sent(parse, f) && (|f.hb| > MAX_MSG_SIZE || |f.body| > MAX_MSG_SIZE)
    ensures ReadCb(e, parse, Idle(pb), Wire(e, f) + more).2 == []
  {
    hide ReadCb, RecvBody;
    var c := Wire(e, f) + more;
    assert c[..4] == Memory(e, 4, |f.hb|);
    SizeIsRead(e, |f.hb|);
    if |f.hb| <= MAX_MSG_SIZE {
      assert c[4..][..|f.hb|] == f.hb && [] + f.hb == f.hb;
      assert !RecvHead(parse, Rx(Part(|f.hb|, []), EMPTY, pb), c[4..]).0;
    }
    FailureClears(e, parse, Idle(pb), c);
  }

  /** A single frame that arrives whole is delivered exactly if neither its head nor its body exceeds
      the limit. */
  lemma OneFrameExactly(e: Endian, parse: Parser, f: Frame, pb: Option<Head>)
    requires Sent(parse, f)
    ensures After(e, parse, Idle(pb), [Wire(e, f)]).log == [Dispatch(f.head, f.body)] <==>
            |f.hb| <= 8192 && |f.body| <= 8192
  {
    hide ReadCb, Wire;
    WholeStreamExactly(e, parse, [f], pb);
    assert WireAll(e, [f]) == Wire(e, f) by {
      assert Wire(e, f) + [] == Wire(e, f);
    }
    assert [f][..1] == [f] && [f][..0] == [];
  }

  // ----- how it goes wrong

  /** After a first message, a chunk that ends in the head of the next one, even right after its
      size, makes the receiver call the callback with the first head and an empty body; the bytes
      of the chunk are lost. */
  lemma StaleHeadDispatched(e: Endian, parse: Parser, f: Frame, g: Frame, n: nat, pb: Option<Head>)
    requires Deliverable(parse, f) && Deliverable(parse, g) && 4 <= n < 4 + |g.hb|
    ensures After(e, parse, Idle(pb), [Wire(e, f), Wire(e, g)[..n]]) ==
            Conn(Idle(Some(f.head)), [], [Dispatch(f.head, f.body), Dispatch(f.head, [])])
  {
    hide ReadCb;
    var c, d := Wire(e, f), Wire(e, g)[..n];
    var none: seq<bytes> := [];
    assert [c, d][..1] == [c] && [c][..0] == none;
    assert [] + c == c && [] + d == d && c[..|c|] == c[0..] && c[|c|..] == [];
    FrameCompletes(e, parse, f, 0, pb, c, |c|);
    NothingToRead(e, parse, Some(f.head));
    var one := [Dispatch(f.head, f.body)];
    assert After(e, parse, Idle(pb), []) == Conn(Idle(pb), [], []) && [] + (one + []) == one;
    assert After(e, parse, Idle(pb), [c]) == Conn(Idle(Some(f.head)), [], one);
    FrameContinues(e, parse, g, 0, Some(f.head), d);
  }

  lemma SmallSizeBytes(n: nat)
    requires n <= MAX_MSG_SIZE
    ensures Bytes(4, n) == [n % 256, n / 256, 0, 0]
  {
    BytesSplit(2, 2, n);
    G.Bytes2(n);
    Pow256Table();
    DivModUnique(n, 0x1_0000, 0, n);
    G.Bytes2(0);
  }

  lemma ReversedSizeValue(n: nat)
    requires n <= MAX_MSG_SIZE
    ensures Value(Reverse(Bytes(4, n))) == Shl(n / 256, 16) + Shl(n % 256, 24)
  {
    SmallSizeBytes(n);
    var s: bytes := [0, 0, n / 256, n % 256];
    assert Reverse(Bytes(4, n)) == s && s[..4] == s;
    G.Value4(s);
  }

  lemma ReversedSizeTooLarge(e: Endian, e': Endian, n: nat)
    requires e != e' && 0 < n <= MAX_MSG_SIZE
    ensures var size := ReadSize(e', Memory(e, 4, n)); size <= 0 || size > MAX_MSG_SIZE
  {
    var s := Memory(e, 4, n);
    assert s + Zeros(0) == s;
    ReversedSizeValue(n);
    BigValueIsValueReversed(Bytes(4, n));
    var x := Pattern(e', s);
    assert x == Shl(n / 256, 16) + Shl(n % 256, 24);
    hide *;
    SizeRejected(n, x);
  }

  lemma SizeRejected(n: nat, x: nat)
    requires 0 < n <= MAX_MSG_SIZE && x == Shl(n / 256, 16) + Shl(n % 256, 24)
    ensures S32(x) <= 0 || S32(x) > MAX_MSG_SIZE
  {
  }

  /** The size is in machine format: a receiver of the other byte order that is idle when a connection
      begins rejects the first frame at its size and leaves the rest of it in the input. */
  lemma OtherByteOrderRejects(e: Endian, e': Endian, parse: Parser, f: Frame, pb: Option<Head>, more: bytes)
    requires e != e' && 0 < |f.hb| <= MAX_MSG_SIZE
    ensures After(e', parse, Idle(pb), [Wire(e, f) + more]) == Conn(Idle(pb), f.hb + f.body + more, [])
  {
    var c := Wire(e, f) + more;
    ReversedSizeTooLarge(e, e', |f.hb|);
    assert c[..4] == Memory(e, 4, |f.hb|) && c[4..] == f.hb + f.body + more;
    var none: seq<bytes> := [];
    assert [c][..0] == none && [] + c == c;
    hide RecvHead;
    assert After(e', parse, Idle(pb), []) == Conn(Idle(pb), [], []);
    assert ReadCb(e', parse, Idle(pb), c) == (Idle(pb), c[4..], []);
  }
}
