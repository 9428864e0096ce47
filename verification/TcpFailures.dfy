/** Runs in which a connection goes wrong, one for each condition in the theorems about all runs. */
module TcpFailures {
  import opened Words
  import opened ByteQueues
  import opened Tcp
  import opened TcpConnections
  import opened TcpRuns

  /** The two sockets, and the bytes sent at each end. Nobody has read yet. */
  datatype View = View(a: Socket, p: Socket, aSent: seq<byte>, pSent: seq<byte>) {
    function Sock(active: bool): Socket {
      if active then a else p
    }

    function Sent(active: bool): seq<byte> {
      if active then aSent else pSent
    }

    function With(active: bool, s: Socket, sent: seq<byte>): View {
      if active then this.(a := s, aSent := sent) else this.(p := s, pSent := sent)
    }
  }

  ghost predicate Reached(s: System, v: View) {
    && Reachable(s) && v.a.Valid() && v.p.Valid()
    && s.a == Endpoint(v.a, v.aSent, [], s.a.net) && s.p == Endpoint(v.p, v.pSent, [], s.p.net)
  }

  // ----- one more step -----

  /** The end that acted put these segments on the network. */
  ghost predicate Added(s: System, s': System, active: bool, sent: set<Segment>) {
    From(s', active).net == From(s, active).net + sent && To(s', active).net == To(s, active).net
  }

  lemma Hears(s: System, v: View, active: bool, seg: Segment, o: Outcome) returns (s': System)
    requires Reached(s, v) && seg in To(s, active).net && o == Filter(v.Sock(active), seg)
    ensures Reached(s', v.With(active, o.sock, v.Sent(active))) && Added(s, s', active, o.sent)
  {
    s' := Next(s, Step(active, Deliver(seg)));
    NextIsReachable(s, Step(active, Deliver(seg)));
  }

  function Fired(s: Socket): Socket {
    s.(inQ := s.inQ.(lan := s.inQ.lsn))
  }

  lemma Fires(s: System, v: View, active: bool, seg: Segment) returns (s': System)
    requires Reached(s, v) && v.Sock(active).state !in {TimeWait, Deleted} && !FireIdle(v.Sock(active))
    requires seg == FireSegment(v.Sock(active))
    ensures Reached(s', v.With(active, Fired(v.Sock(active)), v.Sent(active))) && Added(s, s', active, {seg})
  {
    s' := Next(s, Step(active, Call.Fire));
    NextIsReachable(s, Step(active, Call.Fire));
  }

  lemma Closes(s: System, v: View, active: bool, o: Outcome) returns (s': System)
    requires Reached(s, v) && o == Tcp.Close(v.Sock(active))
    ensures Reached(s', v.With(active, o.sock, v.Sent(active))) && Added(s, s', active, o.sent)
  {
    s' := Next(s, Step(active, Call.Close));
    NextIsReachable(s, Step(active, Call.Close));
  }

  function Queued(s: Socket, bytes: seq<byte>): Socket {
    s.(outQ := s.outQ.(bytes := s.outQ.bytes + bytes))
  }

  /** A few bytes join a queue and are not fired yet. */
  lemma FewBytesQueue(s: Socket, bytes: seq<byte>)
    requires s.Valid() && MayTransfer(s) && 0 < |bytes| < 10 && |s.outQ.bytes| < 10
    ensures Tcp.Send(s, bytes) == Outcome(Queued(s, bytes), {}) && SendAccepts(s, |bytes|) == |bytes|
  {
    assert bytes[..s.outQ.Accepted(|bytes|)] == bytes;
  }

  lemma Sends(s: System, v: View, active: bool, bytes: seq<byte>) returns (s': System)
    requires Reached(s, v) && MayTransfer(v.Sock(active))
    requires 0 < |bytes| < 10 && |v.Sock(active).outQ.bytes| < 10 && |v.Sent(active)| < 0x10_0000
    ensures Reached(s', v.With(active, Queued(v.Sock(active), bytes), v.Sent(active) + bytes)) && Added(s, s', active, {})
  {
    FewBytesQueue(v.Sock(active), bytes);
    assert bytes[..|bytes|] == bytes;
    s' := Next(s, Step(active, Call.Send(bytes)));
    NextIsReachable(s, Step(active, Call.Send(bytes)));
  }

  lemma TailOfAll(data: seq<byte>)
    ensures Tail(data, |data|) == data
  {
  }

  /** What arrives in order is queued. */
  lemma TakesNext(q: Queue, data: seq<byte>)
    requires q.Valid() && ISN <= q.lsn && q.lsn + |data| < TWO_32 && 0 < |data| <= QUEUE_SIZE - |q.bytes|
    ensures TakeData(q, q.lsn, data) == q.(bytes := q.bytes + data, lsn := q.lsn + |data|)
  {
    NewBytesBelowWrap(q.lsn, |data|, q.lsn);
    assert NewBytes(q.lsn, |data|, q.lsn) == |data| == q.Accepted(|data|);
    TailOfAll(data);
    assert data[..|data|] == data;
  }

  /** The socket after data in order, with an acknowledgement that leaves `out`. */
  function Took(s: Socket, seg: Segment, out: Queue): Socket {
    Socket(if seg.fin then CloseWait else s.state,
           s.inQ.(bytes := s.inQ.bytes + seg.data, lsn := Wrap(s.inQ.lsn + |seg.data|)), out, seg.window)
  }

  lemma HearsNext(s: System, v: View, active: bool, seg: Segment, out: Queue) returns (s': System)
    requires Reached(s, v) && seg in To(s, active).net && MayTransfer(v.Sock(active))
    requires seg.ack && out == RecordAck(v.Sock(active).outQ, seg.ackno) && seg.seqno == v.Sock(active).inQ.lsn >= ISN
    requires 0 < |seg.data| <= QUEUE_SIZE - |v.Sock(active).inQ.bytes| && seg.seqno + |seg.data| < TWO_32
    ensures Reached(s', v.With(active, Took(v.Sock(active), seg, out), v.Sent(active)))
    ensures To(s', active).net == To(s, active).net && From(s, active).net <= From(s', active).net
    ensures !seg.fin ==> From(s', active).net == From(s, active).net
  {
    TakesNext(v.Sock(active).inQ, seg.data);
    s' := Hears(s, v, active, seg, Filter(v.Sock(active), seg));
  }

  // ----- the opening -----

  const SYN := Segment(ISN, 0, true, false, true, QUEUE_SIZE, [])
  const SYN_ACK := Segment(ISN, ISN + 1, true, true, false, QUEUE_SIZE, [])
  const ANSWER := Segment(ISN + 1, ISN, true, true, false, QUEUE_SIZE, [])

  // The sockets once connected. The active one's acknowledgement number is two behind.
  const ACTIVE := Socket(Established, Queue(0, [], ISN, ISN - 1), Queue(0, [], ISN + 1, ISN - 1), QUEUE_SIZE)
  const PASSIVE := Socket(Established, Queue(0, [], ISN + 1, ISN), Queue(0, [], ISN, ISN), QUEUE_SIZE)

  /** Connect, and the three segments of the handshake. */
  lemma Opens() returns (s: System)
    ensures Reached(s, View(ACTIVE, PASSIVE, [], [])) && SYN in s.a.net && ANSWER in s.a.net && s.p.net == {SYN_ACK}
  {
    InitialIsReachable();
    NextIsReachable(INITIAL, Step(true, Call.Connect));
    var s1 := Next(INITIAL, Step(true, Call.Connect));
    assert Tcp.Connect(NewSocket(Closed)).sent == {SYN};
    var v1 := View(s1.a.sock, NewSocket(Listen), [], []);
    var o2 := Filter(v1.p, SYN);
    var s2 := Hears(s1, v1, false, SYN, o2);
    assert o2.sent == {SYN_ACK};
    assert Filter(v1.a, SYN_ACK) == Outcome(ACTIVE, {ANSWER});
    var s3 := Hears(s2, v1.(p := o2.sock), true, SYN_ACK, Outcome(ACTIVE, {ANSWER}));
    assert Filter(o2.sock, ANSWER) == Outcome(PASSIVE, {});
    s := Hears(s3, View(ACTIVE, o2.sock, [], []), false, ANSWER, Outcome(PASSIVE, {}));
  }

  // ----- the opening SYN carries FIN -----

  const HALF_CLOSED := PASSIVE.(state := CloseWait)
  const PURE_ACK := Segment(ISN, ISN + 1, false, true, false, QUEUE_SIZE, [])

  /** A second copy of the SYN half-closes the established passive end, though the active one has not closed. */
  lemma RepeatedSynHalfCloses() returns (s: System)
    ensures Reached(s, View(ACTIVE, HALF_CLOSED, [], [])) && SYN in s.a.net && ANSWER in s.a.net
    ensures s.a.sock.state == Established && s.p.sock.state == CloseWait
  {
    var s0 := Opens();
    s := Hears(s0, View(ACTIVE, PASSIVE, [], []), false, SYN, Outcome(HALF_CLOSED, {PURE_ACK}));
  }

  // ----- the active opener's first acknowledgement -----

  const THIRD := Segment(ISN + 1, ISN, false, true, false, QUEUE_SIZE, [3])
  const ACKED := ACTIVE.(outQ := Queue(2, [3], ISN + 1, ISN + 1))
  const ACKING := PASSIVE.(inQ := Queue(0, [], ISN + 1, ISN + 1))

  lemma FirstAckDropsTwo()
    ensures Filter(Queued(ACTIVE, [1, 2, 3]), PURE_ACK) == Outcome(ACKED, {})
  {
    assert Wrap(ISN + 1 - (ISN - 1)) == 2;
    assert ([] + [1, 2, 3])[2..] == [3];
  }

  lemma ActiveFirstAck() returns (s: System)
    ensures Reached(s, View(ACKED, ACKING, [1, 2, 3], []))
  {
    var v := View(ACTIVE, PASSIVE, [], []);
    var s0 := Opens();
    var s1 := Sends(s0, v, true, [1, 2, 3]);
    v := View(Queued(ACTIVE, [1, 2, 3]), PASSIVE, [1, 2, 3], []);
    var s2 := Fires(s1, v, false, PURE_ACK);
    FirstAckDropsTwo();
    s := Hears(s2, v.(p := ACKING), true, PURE_ACK, Outcome(ACKED, {}));
  }

  /** The active opener sends three bytes; the first acknowledgement it hears, of none of them, drops two. The
      passive end receives the third byte as the first. */
  lemma ActiveOpenerLosesBytes() returns (s: System)
    ensures Reachable(s) && MayTransfer(s.a.sock) && MayTransfer(s.p.sock)
    ensures s.a.sent == [1, 2, 3] && s.p.read + s.p.sock.inQ.bytes == [3]
  {
    var s0 := ActiveFirstAck();
    var v := View(ACKED, ACKING, [1, 2, 3], []);
    var s1 := Fires(s0, v, true, THIRD);
    assert RecordAck(ACKING.outQ, ISN) == ACKING.outQ;
    s := HearsNext(s1, v.(a := Fired(ACKED)), false, THIRD, ACKING.outQ);
  }

  // ----- FIN_WAIT_1: the numbering moves by two under queued bytes -----

  const LAST_DATA := Segment(ISN, ISN + 1, false, true, true, QUEUE_SIZE, [1, 2])
  const SHIFTED_DATA := Segment(ISN + 2, ISN + 1, false, true, false, QUEUE_SIZE, [1, 2])
  const FIN_SENT := ACKING.(state := FinWait1, outQ := Queue(0, [1, 2], ISN, ISN))
  const SHIFTED := FIN_SENT.(state := Closing, outQ := Queue(0, [1, 2], ISN + 2, ISN))
  const HEARD := ACTIVE.(state := CloseWait, inQ := Queue(0, [1, 2], ISN + 2, ISN - 1), outQ := ACTIVE.outQ.(lan := ISN + 1))

  lemma CloseFires()
    ensures Tcp.Close(Queued(PASSIVE, [1, 2])) == Outcome(FIN_SENT, {LAST_DATA})
  {
    assert [] + [1, 2] == [1, 2] && [1, 2][..2] == [1, 2];
    assert FireLength(Queued(PASSIVE, [1, 2])) == 2;
  }

  /** The passive end closes with two bytes unacknowledged. */
  lemma ClosesWithBytes() returns (s: System)
    ensures Reached(s, View(ACTIVE, FIN_SENT, [], [1, 2])) && SYN in s.a.net && LAST_DATA in s.p.net
  {
    var s0 := Opens();
    var s1 := Sends(s0, View(ACTIVE, PASSIVE, [], []), false, [1, 2]);
    CloseFires();
    s := Closes(s1, View(ACTIVE, Queued(PASSIVE, [1, 2]), [], [1, 2]), false, Outcome(FIN_SENT, {LAST_DATA}));
  }

  /** They arrive with its FIN. */
  lemma BytesArriveWithFin() returns (s: System)
    ensures Reached(s, View(HEARD, FIN_SENT, [], [1, 2])) && SYN in s.a.net
  {
    var s0 := ClosesWithBytes();
    assert RecordAck(ACTIVE.outQ, ISN + 1) == HEARD.outQ;
    assert Took(ACTIVE, LAST_DATA, HEARD.outQ) == HEARD;
    s := HearsNext(s0, View(ACTIVE, FIN_SENT, [], [1, 2]), true, LAST_DATA, HEARD.outQ);
  }

  /** A copy of the SYN, which carries FIN, then moves the passive end's numbering by two. It fires the same two bytes
      again under new numbers, and they arrive twice. */
  lemma FinWait1RepeatsBytes() returns (s: System)
    ensures Reachable(s) && s.p.sent == [1, 2] && s.a.read + s.a.sock.inQ.bytes == [1, 2, 1, 2]
  {
    var s0 := BytesArriveWithFin();
    var v := View(HEARD, FIN_SENT, [], [1, 2]);
    assert Filter(FIN_SENT, SYN).sock == SHIFTED;
    var s1 := Hears(s0, v, false, SYN, Filter(FIN_SENT, SYN));
    v := v.(p := SHIFTED);
    assert [1, 2][..2] == [1, 2] && FireLength(SHIFTED) == 2;
    var s2 := Fires(s1, v, false, SHIFTED_DATA);
    v := v.(p := Fired(SHIFTED));
    assert RecordAck(HEARD.outQ, ISN + 1) == HEARD.outQ;
    s := HearsNext(s2, v, true, SHIFTED_DATA, HEARD.outQ);
  }

  // ----- LAST_ACK: a stale acknowledgement is recorded -----

  const FIRST_DATA := Segment(ISN, ISN + 1, false, true, false, QUEUE_SIZE, [1])
  const FIRST_ACK := Segment(ISN + 1, ISN + 1, false, true, false, QUEUE_SIZE - 1, [])
  const REST := Segment(ISN + 1, ISN + 1, false, true, false, QUEUE_SIZE, [3])

  const HALF := HALF_CLOSED.(inQ := Queue(0, [], ISN + 1, ISN + 1))
  const HEARD_ONE := ACTIVE.(inQ := Queue(0, [1], ISN + 1, ISN + 1), outQ := Queue(0, [], ISN + 1, ISN + 1))
  const WAITING := HALF.(remoteWindow := QUEUE_SIZE - 1, outQ := Queue(0, [], ISN + 1, ISN + 1))
  const LAST := WAITING.(state := LastAck, outQ := Queue(0, [2, 3], ISN + 1, ISN + 1))
  const STALE := LAST.(outQ := Queue(0, [2, 3], ISN + 1, ISN), remoteWindow := QUEUE_SIZE)
  const DROPPED := LAST.(outQ := Queue(1, [3], ISN + 1, ISN + 1))

  /** The passive end, half closed by the second SYN, sends a byte that is heard and acknowledged. */
  lemma FirstByteAcked() returns (s: System)
    ensures Reached(s, View(HEARD_ONE, WAITING, [], [1]))
    ensures ANSWER in s.a.net && FIRST_ACK in s.a.net
  {
    var s0 := RepeatedSynHalfCloses();
    var s1 := Sends(s0, View(ACTIVE, HALF_CLOSED, [], []), false, [1]);
    var v := View(ACTIVE, Queued(HALF_CLOSED, [1]), [], [1]);
    assert [] + [1] == [1] && [1][..1] == [1];
    var s2 := Fires(s1, v, false, FIRST_DATA);
    v := v.(p := Fired(v.p));
    assert RecordAck(ACTIVE.outQ, ISN + 1) == HEARD_ONE.outQ;
    var s3 := HearsNext(s2, v, true, FIRST_DATA, HEARD_ONE.outQ);
    v := v.(a := Took(ACTIVE, FIRST_DATA, HEARD_ONE.outQ));
    var s4 := Fires(s3, v, true, FIRST_ACK);
    v := v.(a := HEARD_ONE);
    var o := Filter(v.p, FIRST_ACK);
    s := Hears(s4, v, false, FIRST_ACK, o);
  }

  /** Two more bytes, and the close that leads to LAST_ACK. */
  lemma ClosesLast() returns (s: System)
    ensures Reached(s, View(HEARD_ONE, LAST, [], [1, 2, 3])) && ANSWER in s.a.net && FIRST_ACK in s.a.net
  {
    var s0 := FirstByteAcked();
    var v := View(HEARD_ONE, WAITING, [], [1]);
    var s1 := Sends(s0, v, false, [2, 3]);
    assert [1] + [2, 3] == [1, 2, 3] && [] + [2, 3] == [2, 3];
    v := View(HEARD_ONE, Queued(WAITING, [2, 3]), [], [1, 2, 3]);
    assert Tcp.Close(v.p).sock == LAST;
    s := Closes(s1, v, false, Tcp.Close(v.p));
  }

  lemma StaleThenRepeated()
    ensures Filter(LAST, ANSWER).sock == STALE && Filter(STALE, FIRST_ACK).sock == DROPPED
  {
    assert Wrap(ISN - (ISN + 1)) >= TWO_31 && Wrap(ISN + 1 - ISN) == 1;
    assert [2, 3][1..] == [3];
  }

  /** In LAST_ACK a copy of the handshake's acknowledgement sets the count back by one. A copy of the acknowledgement
      of the first byte then drops the second, and the active end receives the third in its place. */
  lemma LastAckLosesByte() returns (s: System)
    ensures Reachable(s) && s.p.sent == [1, 2, 3] && s.a.read + s.a.sock.inQ.bytes == [1, 3]
  {
    var s0 := ClosesLast();
    StaleThenRepeated();
    var v := View(HEARD_ONE, LAST, [], [1, 2, 3]);
    var s1 := Hears(s0, v, false, ANSWER, Filter(LAST, ANSWER));
    v := v.(p := STALE);
    var s2 := Hears(s1, v, false, FIRST_ACK, Filter(STALE, FIRST_ACK));
    v := v.(p := DROPPED);
    assert [3][..1] == [3] && FireLength(DROPPED) == 1;
    var s3 := Fires(s2, v, false, REST);
    assert RecordAck(HEARD_ONE.outQ, ISN + 1) == HEARD_ONE.outQ;
    s := HearsNext(s3, v.(p := Fired(DROPPED)), true, REST, HEARD_ONE.outQ);
  }

  // ----- an idle socket closes without a word -----

  /** The passive end acknowledges the handshake and closes. It is in FIN_WAIT_1, and nothing it ever sent carries FIN. */
  lemma IdleCloseIsSilent() returns (s: System)
    ensures Reachable(s) && s.a.sock.state == Established && s.p.sock.state == FinWait1
    ensures (forall seg | seg in s.p.net :: !seg.fin) && FireIdle(s.p.sock)
  {
    var v := View(ACTIVE, PASSIVE, [], []);
    var s0 := Opens();
    var s1 := Fires(s0, v, false, PURE_ACK);
    assert Tcp.Close(ACKING) == Outcome(ACKING.(state := FinWait1), {});
    s := Closes(s1, v.(p := ACKING), false, Outcome(ACKING.(state := FinWait1), {}));
  }
}
