/** The life of one receiving object over all its connections.

    A client object is not deleted when its connection ends; it connects again. What it has received
    of a message survives in `head_` and `msg_` unless the connection was ended by
    `CMsgEvent::close`, and the head parsed last survives in any case. */
module MsgConnections {
  import opened ByteValue
  import opened CTypes
  import opened HostMemory
  import opened MsgFraming
  import opened MsgDelivery

  /** One connection: the frames its peer sends, the chunks of them that have arrived, and whether it is
      ended by `CMsgEvent::close` (the other way is an end of file, an error or a timeout). */
  datatype Connection = Connection(fs: seq<Frame>, chunks: seq<bytes>, closed: bool) {
    function Received(): (r: nat) { |Flat(chunks)| }

    /** The end of the first head has arrived. */
    predicate HeadSeen() { fs != [] && Received() >= 4 + |fs[0].hb| }

    /** Nothing of a message is left behind in the receiver. */
    predicate CleanEnd() { closed || Remainder(fs, Received()) == 0 }
  }

  /** The receiver when the connections cs are over. */
  function Between(e: Endian, parse: Parser, cs: seq<Connection>): (rx: Rx)
    ensures rx.Valid()
  {
    if cs == [] then START
    else
      var c := cs[|cs| - 1];
      var rx := After(e, parse, Between(e, parse, cs[..|cs| - 1]), c.chunks).rx;
      if c.closed then Clear(rx) else rx
  }

  /** All calls of the message callback on the connections cs. */
  function AllDelivered(e: Endian, parse: Parser, cs: seq<Connection>): (r: seq<Dispatch>) {
    if cs == [] then []
    else
      var init, c := cs[..|cs| - 1], cs[|cs| - 1];
      AllDelivered(e, parse, init) + After(e, parse, Between(e, parse, init), c.chunks).log
  }

  ghost predicate Possible(e: Endian, parse: Parser, cs: seq<Connection>) {
    forall i :: 0 <= i < |cs| ==> AllDeliverable(parse, cs[i].fs) && Flat(cs[i].chunks) <= WireAll(e, cs[i].fs)
  }

  predicate NoHeadYet(cs: seq<Connection>) {
    forall i :: 0 <= i < |cs| ==> !cs[i].HeadSeen()
  }

  /** Every cut of every connection is safe, where only an object that has not received a head on any
      earlier connection counts as new, and every connection followed by another ends cleanly. */
  ghost predicate AllSafe(cs: seq<Connection>) {
    && (forall i :: 0 <= i < |cs| ==> AllCutsSafe(NoHeadYet(cs[..i]), cs[i].fs, cs[i].chunks))
    && (forall i :: 0 <= i < |cs| - 1 ==> cs[i].CleanEnd())
  }

  /** After every chunk of every connection exactly the messages that are complete on it have been
      delivered from it and all its other bytes are held. */
  ghost predicate AllInSync(e: Endian, parse: Parser, cs: seq<Connection>) {
    forall i :: 0 <= i < |cs| ==> AlwaysInSync(e, parse, cs[i].fs, Between(e, parse, cs[..i]), cs[i].chunks)
  }

  /** What a connection that was received rightly leaves behind. */
  lemma EndOfConnection(e: Endian, parse: Parser, c: Connection, pb: Option<Head>)
    requires AllDeliverable(parse, c.fs) && Flat(c.chunks) <= WireAll(e, c.fs)
    requires AllCutsSafe(pb.None?, c.fs, c.chunks)
    ensures var rx := After(e, parse, Idle(pb), c.chunks).rx;
            (c.CleanEnd() ==> (if c.closed then Clear(rx) else rx) == Idle(rx.pbHead))
            && (rx.pbHead.None? <==> pb.None? && !c.HeadSeen())
            && |Retained(e, rx)| == Remainder(c.fs, c.Received())
  {
    hide ReadCb, InSync, Retained;
    SafeRunsAreOnTrack(e, parse, c.fs, pb, c.chunks);
    OnTrackInSync(e, parse, c.fs, pb, c.chunks);
    ExpectedEnd(c.fs, c.Received(), pb);
    RetainedBytes(e, c.fs, Flat(c.chunks), After(e, parse, Idle(pb), c.chunks));
  }

  lemma RetainedBytes(e: Endian, fs: seq<Frame>, received: bytes, conn: Conn)
    requires InSync(e, fs, received, conn) && conn.input == [] && |received| <= |WireAll(e, fs)|
    ensures |Retained(e, conn.rx)| == Remainder(fs, |received|)
  {
    hide Retained, WireAll;
    CompleteBytes(e, fs, |received|);
  }

  lemma PossibleLast(e: Endian, parse: Parser, cs: seq<Connection>)
    requires cs != [] && Possible(e, parse, cs)
    ensures var init, c := cs[..|cs| - 1], cs[|cs| - 1];
            Possible(e, parse, init) && AllDeliverable(parse, c.fs) && Flat(c.chunks) <= WireAll(e, c.fs)
  {
    hide AllDeliverable, Flat, WireAll;
  }

  lemma NoConnections(e: Endian, parse: Parser)
    ensures AllSafe([]) && AllInSync(e, parse, []) && NoHeadYet([])
    ensures var rx := Between(e, parse, []); rx == Idle(rx.pbHead) && rx.pbHead.None?
  {
  }

  lemma LastConnection(e: Endian, parse: Parser, cs: seq<Connection>)
    requires cs != [] && Possible(e, parse, cs) && AllSafe(cs)
    ensures var init, c := cs[..|cs| - 1], cs[|cs| - 1];
            Possible(e, parse, init) && AllSafe(init) && (init != [] ==> init[|init| - 1].CleanEnd())
            && AllDeliverable(parse, c.fs) && Flat(c.chunks) <= WireAll(e, c.fs)
            && AllCutsSafe(NoHeadYet(init), c.fs, c.chunks)
  {
    hide AllCutsSafe, Remainder, AllDeliverable, Flat, WireAll;
    var init := cs[..|cs| - 1];
    assert forall i :: 0 <= i < |init| ==> init[..i] == cs[..i];
  }

  lemma BetweenLast(e: Endian, parse: Parser, cs: seq<Connection>)
    requires cs != []
    ensures var c := cs[|cs| - 1];
            var rx := After(e, parse, Between(e, parse, cs[..|cs| - 1]), c.chunks).rx;
            Between(e, parse, cs) == if c.closed then Clear(rx) else rx
    ensures NoHeadYet(cs) <==> NoHeadYet(cs[..|cs| - 1]) && !cs[|cs| - 1].HeadSeen()
  {
    hide After, Flat;
  }

  /** Between connections that were received rightly and ended cleanly the receiver is idle, and it has a
      head left exactly if the end of one has ever arrived. */
  lemma {:induction false} IdleBetween(e: Endian, parse: Parser, cs: seq<Connection>)
    requires Possible(e, parse, cs) && AllSafe(cs) && (cs != [] ==> cs[|cs| - 1].CleanEnd())
    ensures var rx := Between(e, parse, cs);
            rx == Idle(rx.pbHead) && (rx.pbHead.None? <==> NoHeadYet(cs))
    decreases |cs|
  {
    hide *;
    if cs == [] {
      NoConnections(e, parse);
    } else {
      LastConnection(e, parse, cs);
      IdleBetween(e, parse, cs[..|cs| - 1]);
      EndOfConnection(e, parse, cs[|cs| - 1], Between(e, parse, cs[..|cs| - 1]).pbHead);
      BetweenLast(e, parse, cs);
      ClearKeepsHead(After(e, parse, Between(e, parse, cs[..|cs| - 1]), cs[|cs| - 1].chunks).rx);
    }
  }

  lemma ClearKeepsHead(rx: Rx)
    ensures Clear(rx).pbHead == rx.pbHead
  {
  }

  lemma SafeExtend(init: seq<Connection>, c: Connection)
    requires AllSafe(init) && (init != [] ==> init[|init| - 1].CleanEnd())
    requires AllCutsSafe(NoHeadYet(init), c.fs, c.chunks)
    ensures AllSafe(init + [c])
  {
    hide AllCutsSafe, Remainder, NoHeadYet;
    var cs := init + [c];
    assert cs[..|init|] == init;
    assert forall i :: 0 <= i < |init| ==> init[..i] == cs[..i];
  }

  /** A receiver that holds bytes of an earlier connection is out of sync before the first byte of the
      next one. */
  lemma HeldBytesBreakSync(e: Endian, parse: Parser, fs: seq<Frame>, rx0: Rx, chunks: seq<bytes>)
    requires rx0.Valid() && Retained(e, rx0) != []
    ensures !AlwaysInSync(e, parse, fs, rx0, chunks)
  {
    var none: seq<bytes> := [];
    assert chunks[..0] == none;
    NothingComplete(e, fs);
    assert !InSync(e, fs, Flat(chunks[..0]), After(e, parse, rx0, chunks[..0]));
  }

  lemma NothingComplete(e: Endian, fs: seq<Frame>)
    ensures Complete(fs, 0) == 0 && WireAll(e, fs[..0]) == []
  {
  }

  /** For every sequence of connections of one object, whatever their peers send and however the streams
      are cut: the receiver is in sync at all times if and only if every cut is safe and every
      connection that is followed by another ends between frames or by close. */
  lemma InSyncExactly(e: Endian, parse: Parser, cs: seq<Connection>)
    requires Possible(e, parse, cs)
    ensures AllInSync(e, parse, cs) <==> AllSafe(cs)
  {
    hide *;
    if AllSafe(cs) {
      SafeObjectsInSync(e, parse, cs);
    }
    if AllInSync(e, parse, cs) {
      InSyncObjectsSafe(e, parse, cs);
    }
  }

  lemma AllInSyncLast(e: Endian, parse: Parser, cs: seq<Connection>)
    requires cs != []
    ensures var init, c := cs[..|cs| - 1], cs[|cs| - 1];
            AllInSync(e, parse, cs) <==>
            AllInSync(e, parse, init) && AlwaysInSync(e, parse, c.fs, Between(e, parse, init), c.chunks)
  {
    hide AlwaysInSync, Between;
    var init := cs[..|cs| - 1];
    assert forall i :: 0 <= i < |init| ==> init[..i] == cs[..i];
  }

  lemma {:induction false} SafeObjectsInSync(e: Endian, parse: Parser, cs: seq<Connection>)
    requires Possible(e, parse, cs) && AllSafe(cs)
    ensures AllInSync(e, parse, cs)
    decreases |cs|
  {
    hide *;
    if cs == [] {
      NoConnections(e, parse);
    } else {
      LastConnection(e, parse, cs);
      var init, c := cs[..|cs| - 1], cs[|cs| - 1];
      SafeObjectsInSync(e, parse, init);
      IdleBetween(e, parse, init);
      ConnectionInSyncExactly(e, parse, c.fs, Between(e, parse, init).pbHead, c.chunks);
      AllInSyncLast(e, parse, cs);
    }
  }

  lemma {:induction false} InSyncObjectsSafe(e: Endian, parse: Parser, cs: seq<Connection>)
    requires Possible(e, parse, cs) && AllInSync(e, parse, cs)
    ensures AllSafe(cs)
    decreases |cs|
  {
    hide *;
    if cs == [] {
      NoConnections(e, parse);
    } else {
      PossibleLast(e, parse, cs);
      AllInSyncLast(e, parse, cs);
      InSyncObjectsSafe(e, parse, cs[..|cs| - 1]);
      LastSafe(e, parse, cs[..|cs| - 1], cs[|cs| - 1]);
      assert cs[..|cs| - 1] + [cs[|cs| - 1]] == cs;
    }
  }

  lemma LastSafe(e: Endian, parse: Parser, init: seq<Connection>, c: Connection)
    requires Possible(e, parse, init) && AllSafe(init)
    requires AllDeliverable(parse, c.fs) && Flat(c.chunks) <= WireAll(e, c.fs)
    requires AlwaysInSync(e, parse, c.fs, Between(e, parse, init), c.chunks)
    ensures AllSafe(init + [c])
  {
    hide *;
    if init != [] {
      NextInSyncMeansCleanEnd(e, parse, init, c);
    }
    IdleBetween(e, parse, init);
    ConnectionInSyncExactly(e, parse, c.fs, Between(e, parse, init).pbHead, c.chunks);
    SafeExtend(init, c);
  }

  lemma NextInSyncMeansCleanEnd(e: Endian, parse: Parser, cs: seq<Connection>, next: Connection)
    requires cs != [] && Possible(e, parse, cs) && AllSafe(cs)
    requires AlwaysInSync(e, parse, next.fs, Between(e, parse, cs), next.chunks)
    ensures cs[|cs| - 1].CleanEnd()
  {
    hide ReadCb, After, SafeCut, AllCutsSafe, AlwaysInSync, Remainder, Retained;
    var init, last := cs[..|cs| - 1], cs[|cs| - 1];
    LastConnection(e, parse, cs);
    IdleBetween(e, parse, init);
    EndOfConnection(e, parse, last, Between(e, parse, init).pbHead);
    if !last.CleanEnd() {
      HeldBytesBreakSync(e, parse, next.fs, Between(e, parse, cs), next.chunks);
    }
  }

  /** Everything sent on a list of connections, each arriving whole. */
  function AllMessages(cs: seq<Connection>): (r: seq<Dispatch>) {
    if cs == [] then [] else AllMessages(cs[..|cs| - 1]) + Messages(cs[|cs| - 1].fs)
  }

  /** An object whose connections each bring their whole stream in safe chunks calls the callback for exactly
      the messages sent to it, in order. */
  lemma {:induction false} DeliveredOverall(e: Endian, parse: Parser, cs: seq<Connection>)
    requires Possible(e, parse, cs) && AllSafe(cs)
    requires forall i :: 0 <= i < |cs| ==> Flat(cs[i].chunks) == WireAll(e, cs[i].fs)
    ensures AllDelivered(e, parse, cs) == AllMessages(cs)
  {
    hide ReadCb, After, SafeCut, Between, Remainder, Flat, AllCutsSafe;
    if cs != [] {
      LastConnection(e, parse, cs);
      var init, c := cs[..|cs| - 1], cs[|cs| - 1];
      DeliveredOverall(e, parse, init);
      IdleBetween(e, parse, init);
      Delivered(e, parse, c.fs, Between(e, parse, init).pbHead, c.chunks);
    }
  }

  /** The first chunk of a new connection is enough to make the receiver call the callback with the head of
      a message from the previous one, whichever way that connection ended. */
  lemma StaleHeadAfterReconnect(e: Endian, parse: Parser, f: Frame, g: Frame, n: nat, closed: bool)
    requires Deliverable(parse, f) && Deliverable(parse, g) && 4 <= n < 4 + |g.hb|
    ensures var rx0 := Between(e, parse, [Connection([f], [Wire(e, f)], closed)]);
            rx0 == Idle(Some(f.head))
            && After(e, parse, rx0, [Wire(e, g)[..n]]) == Conn(rx0, [], [Dispatch(f.head, [])])
  {
    hide ReadCb;
    var c, d, one := Wire(e, f), Wire(e, g)[..n], Connection([f], [Wire(e, f)], closed);
    var none: seq<bytes> := [];
    assert [c][..0] == none && [d][..0] == none && [] + c == c && [] + d == d;
    assert c[..|c|] == c[0..] && c[|c|..] == [];
    FrameCompletes(e, parse, f, 0, None, c, |c|);
    NothingToRead(e, parse, Some(f.head));
    assert After(e, parse, START, []) == Conn(START, [], []);
    assert After(e, parse, START, [c]).rx == Idle(Some(f.head));
    assert [one][..0] == [];
    assert Between(e, parse, []) == START;
    var rx0 := Idle(Some(f.head));
    assert After(e, parse, rx0, []) == Conn(rx0, [], []);
    FrameContinues(e, parse, g, 0, Some(f.head), d);
    var log := [Dispatch(f.head, [])];
    assert [] + log == log;
  }
}
