/** Two ends of one TCP connection over a network that loses, repeats and reorders segments: every
    segment ever sent stays in the sender's `net`, and any of them may be delivered at any time, any
    number of times, or never. */
module TcpConnections {
  import opened Words
  import opened ByteQueues
  import opened Tcp

  /** A socket with its history: the bytes its user handed to TcpSocketSend and had accepted, the bytes its
      user got from TcpSocketReceive, and the segments it put on the network. */
  datatype Endpoint = Endpoint(sock: Socket, sent: seq<byte>, read: seq<byte>, net: set<Segment>)

  datatype Call = Connect | Send(bytes: seq<byte>) | Receive(nbytes: nat) | Fire | Close | Deliver(seg: Segment)

  /** `a` opens actively, `p` listens. */
  datatype System = System(a: Endpoint, p: Endpoint)

  datatype Step = Step(atActive: bool, call: Call)

  // The first data byte of each direction: the active side's SYN takes a number, the passive side's does not.
  const ACTIVE_BASE: u32 := ISN + 1
  const PASSIVE_BASE: u32 := ISN

  const INITIAL := System(Endpoint(NewSocket(Closed), [], [], {}), Endpoint(NewSocket(Listen), [], [], {}))

  // ----- steps -----

  function After(e: Endpoint, o: Outcome): Endpoint {
    e.(sock := o.sock, net := e.net + o.sent)
  }

  /** One call, with the byte queues as bounded sequences. */
  function Act(e: Endpoint, c: Call): (r: Endpoint)
    requires e.sock.Valid()
    ensures r.sock.Valid()
  {
    match c
    case Connect => After(e, Tcp.Connect(e.sock))
    case Send(bytes) =>
      After(e.(sent := e.sent + bytes[..SendAccepts(e.sock, |bytes|)]), Tcp.Send(e.sock, bytes))
    case Receive(n) =>
      if !MayTransfer(e.sock) then e
      else e.(read := e.read + e.sock.inQ.bytes[..Min(n, |e.sock.inQ.bytes|)], sock := e.sock.(inQ := e.sock.inQ.Dequeue(n)))
    case Fire => After(e, Tcp.Fire(e.sock))
    case Close => After(e, Tcp.Close(e.sock))
    case Deliver(seg) => After(e, Filter(e.sock, seg))
  }

  /** The side has not closed its own end: it may still take in data. */
  predicate Open(st: State) {
    st in {Closed, Listen, SynSent, SynReceived, Established, CloseWait}
  }

  /** The delta test of recordAck refuses this number. */
  predicate Stale(q: Queue, ackno: u32) {
    Wrap(ackno - q.lan) >= TWO_31
  }

  /** The acknowledgement is counted from the queue's first byte, or covers the whole queue. */
  predicate Counted(q: Queue, ackno: u32) {
    q.lan == q.lsn || |q.bytes| <= Wrap(ackno - q.lsn)
  }

  /** A segment whose bookkeeping at a sender leaves no queued byte lost or misnumbered
      (`TcpRuns.CountIsExact`):
      - an acknowledgement that is recorded is well counted;
      - in LAST_ACK it is not a stale one while bytes are queued, because the code records it anyway;
      - in FIN_WAIT_1 a FIN does not advance the numbering under queued bytes. */
  predicate KeepsCount(s: Socket, seg: Segment) {
    var q := s.outQ;
    match s.state
    case Established | CloseWait => seg.ack ==> Stale(q, seg.ackno) || Counted(q, seg.ackno)
    case LastAck => seg.ack && q.bytes != [] ==> !Stale(q, seg.ackno) && Counted(q, seg.ackno)
    case FinWait1 => seg.fin && !(seg.ack && seg.ackno == q.lsn) ==> q.bytes == []
    case _ => true
  }

  /** What a call needs: a delivered segment was sent by the peer, and the stream stays below sequence number 2^32. */
  predicate CallOk(e: Endpoint, peer: Endpoint, base: int, c: Call) {
    && e.sock.Valid()
    && (c.Deliver? ==> c.seg in peer.net)
    && (c.Send? ==> base + |e.sent| + SendAccepts(e.sock, |c.bytes|) < TWO_32)
  }

  /** While the peer may still take in data, a delivered segment keeps the count. */
  predicate CallCounts(e: Endpoint, peer: Endpoint, c: Call) {
    c.Deliver? && Open(peer.sock.state) ==> KeepsCount(e.sock, c.seg)
  }

  predicate StepOk(s: System, t: Step) {
    if t.atActive then CallOk(s.a, s.p, ACTIVE_BASE, t.call)
    else t.call != Connect && CallOk(s.p, s.a, PASSIVE_BASE, t.call)
  }

  predicate StepCounts(s: System, t: Step) {
    if t.atActive then CallCounts(s.a, s.p, t.call) else CallCounts(s.p, s.a, t.call)
  }

  function Next(s: System, t: Step): System
    requires StepOk(s, t)
  {
    if t.atActive then s.(a := Act(s.a, t.call)) else s.(p := Act(s.p, t.call))
  }

  // ----- what holds in every state -----

  /** Sequence number the receiver `y` should see next, counting from the first byte. */
  function Expected(y: Endpoint, base: int): int {
    base + |y.read| + |y.sock.inQ.bytes|
  }

  /** The queue holds exactly the accepted bytes from `lsn` on. */
  ghost predicate QueueInStep(q: Queue, sent: seq<byte>, base: int) {
    base <= q.lsn <= base + |sent| && q.bytes == sent[q.lsn - base..]
  }

  ghost predicate InStep(q: Queue, sent: seq<byte>, base: int) {
    && QueueInStep(q, sent, base)
    && (q.lan == q.lsn || (q.lsn == base && (q.lan == base - 1 || q.lan == base - 2)))
  }

  /** The outgoing queue of a sender whose receiver expects number `expected`. */
  ghost predicate OutgoingOk(st: State, q: Queue, sent: seq<byte>, base: int, expected: int) {
    match st
    case Closed | Listen | TimeWait | Deleted => true
    case Closing => q.bytes == []
    case _ => InStep(q, sent, base) && q.lsn <= expected
  }

  /** The segment's data are the bytes of the stream its number says they are. */
  ghost predicate TrueData(seg: Segment, sent: seq<byte>, base: int) {
    seg.data != [] ==>
      base <= seg.seqno && seg.seqno - base + |seg.data| <= |sent|
      && seg.data == sent[seg.seqno - base..seg.seqno - base + |seg.data|]
  }

  ghost predicate TrueAck(seg: Segment, base: int, expected: int) {
    seg.ack ==> base <= seg.ackno <= expected
  }

  /** The sender `x` of a direction whose receiver expects number `expected`. */
  ghost predicate SenderOk(x: Endpoint, base: int, expected: int) {
    && OutgoingOk(x.sock.state, x.sock.outQ, x.sent, base, expected)
    && (forall seg | seg in x.net :: TrueData(seg, x.sent, base))
  }

  /** The receiver `y` of a direction. */
  ghost predicate ReceiverOk(y: Endpoint, base: int) {
    && (y.sock.state in {SynReceived, Established, CloseWait} ==> y.sock.inQ.lsn == Expected(y, base))
    && (forall seg | seg in y.net :: TrueAck(seg, base, Expected(y, base)))
  }

  /** One direction of the connection, from `x` to `y`. */
  ghost predicate Direction(x: Endpoint, y: Endpoint, base: int) {
    && base + |x.sent| < TWO_32
    && y.read + y.sock.inQ.bytes <= x.sent
    && (Open(y.sock.state) ==> SenderOk(x, base, Expected(y, base)) && ReceiverOk(y, base))
  }

  predicate Idle(e: Endpoint) {
    && e.sent == [] && e.read == []
    && e.sock.outQ.bytes == [] && e.sock.inQ.bytes == [] && e.sock.inQ.lsn == e.sock.inQ.lan
  }

  /** Which states and SYN segments the handshake can produce. */
  ghost predicate Handshake(s: System) {
    && s.a.sock.state !in {Listen, SynReceived}
    && s.p.sock.state !in {Closed, SynSent}
    && (s.a.sock.state in {Closed, SynSent} ==> Idle(s.a))
    && (s.a.sock.state == SynSent ==> s.a.sock.outQ.lsn == ISN + 1)
    && (MayTransfer(s.p.sock) ==> s.p.sock.outQ.lan == s.p.sock.outQ.lsn)
    && (s.p.sock.state == Listen ==>
          && Idle(s.p) && s.p.net == {}
          && Idle(s.a) && s.a.sock.state in {Closed, SynSent, FinWait1, Deleted}
          && forall seg | seg in s.a.net :: seg.seqno == ISN)
    && (forall seg | seg in s.p.net :: seg.syn ==> seg.ack && seg.seqno == ISN && seg.ackno == ISN + 1)
  }

  /** What holds of the connection and of its stream from one end, whatever becomes of the other stream. */
  ghost predicate Flow(s: System, fromActive: bool) {
    && s.a.sock.Valid() && s.p.sock.Valid()
    && Handshake(s)
    && if fromActive then Direction(s.a, s.p, ACTIVE_BASE) else Direction(s.p, s.a, PASSIVE_BASE)
  }

  // ----- acknowledgements -----

  /** An acknowledgement within the stream keeps the queue in step exactly when the count was in step with the
      queue, or when it acknowledges every queued byte. The active opener starts two numbers behind. */
  lemma AckKeepsStepExactly(q: Queue, sent: seq<byte>, base: int, ackno: u32)
    requires q.Valid() && QueueInStep(q, sent, base)
    requires 2 <= base && q.lsn <= ackno <= base + |sent| && |q.bytes| <= QUEUE_SIZE
    requires q.lan == q.lsn || q.lan == q.lsn - 1 || q.lan == q.lsn - 2
    ensures QueueInStep(RecordAck(q, ackno), sent, base)
       <==> q.lan == q.lsn || |q.bytes| <= ackno - q.lsn
  {
    assert Wrap(ackno - q.lan) == ackno - q.lan;
  }

  /** On positions up to 2^31 apart, counted without wrapping, the delta test is the true order: an acknowledgement older than
      the last one leaves the sender untouched, any other drops as many bytes as it is ahead. */
  lemma DeltaTestIsOrder(q: Queue, x: int, y: int)
    requires q.Valid() && q.lan == Wrap(y) && -TWO_31 <= x - y < TWO_31
    ensures x < y ==> RecordAck(q, Wrap(x)) == q
    ensures x >= y ==> RecordAck(q, Wrap(x)) == q.Drop(x - y).(lsn := Wrap(x), lan := Wrap(x))
  {
    WrappedDifference(x, y);
  }

  lemma StaleAckIgnored(q: Queue, ackno: u32)
    requires q.Valid() && ackno < q.lan && q.lan - ackno <= TWO_31
    ensures RecordAck(q, ackno) == q
  {
    DeltaTestIsOrder(q, ackno, q.lan);
  }

  // ----- taking in data -----

  /** What a receiver should take when unbounded positions are known: nothing from a segment past the expected
      position, otherwise the bytes beyond it. */
  function IntendedNewBytes(pos: int, n: nat, expected: int): int {
    if pos > expected then 0 else if pos + n <= expected then 0 else pos + n - expected
  }

  /** The unsigned gap test gives the intended count exactly when the segment starts in the same run of 2^32 numbers
      as the expected byte, or holds only old bytes. */
  lemma GapTestIsRightExactly(pos: nat, n: nat, expected: nat)
    requires 0 < n < TWO_16 && -TWO_31 + TWO_16 < pos - expected < TWO_31 - TWO_16
    ensures NewBytes(Wrap(pos), n, Wrap(expected)) == IntendedNewBytes(pos, n, expected)
       <==> pos / TWO_32 == expected / TWO_32 || pos + n <= expected
  {
    var i, j := pos / TWO_32, expected / TWO_32;
    var d := pos + n - expected;
    ModShift(d, j - i);
    assert Wrap(pos) + n - Wrap(expected) == d + TWO_32 * (j - i);
    assert Signed(Wrap(d)) == d;
    if i < j {
      assert Wrap(pos) > Wrap(expected);
    } else if j < i {
      assert Wrap(pos) <= Wrap(expected);
    }
  }

  /** Across 2^32 the test errs both ways: the two new bytes of a segment that straddles it are refused, and from a
      segment eight numbers ahead more bytes are taken than it holds. */
  lemma GapTestFails()
    ensures NewBytes(Wrap(TWO_32 - 2), 4, Wrap(TWO_32)) == 0 && IntendedNewBytes(TWO_32 - 2, 4, TWO_32) == 2
    ensures NewBytes(Wrap(TWO_32 + 5), 4, Wrap(TWO_32 - 3)) == 12 && IntendedNewBytes(TWO_32 + 5, 4, TWO_32 - 3) == 0
  {
    assert Wrap(TWO_32 - 2) > Wrap(TWO_32);
  }

  // ----- one step keeps one direction -----

  /** What the handshake promises about the end that acts and the segments that reach it. */
  ghost predicate MayAct(e: Endpoint, peer: Endpoint, own: int, other: int, c: Call) {
    && (e.sock.state in {Closed, Listen, SynSent} ==> Idle(e))
    && (c == Connect ==> own == ACTIVE_BASE)
    && (e.sock.state == Listen ==> own == PASSIVE_BASE)
    && (c.Deliver? ==>
          && c.seg in peer.net
          && (e.sock.state == Listen && c.seg.syn ==> c.seg.seqno == other - 1)
          && (e.sock.state == SynSent && c.seg.syn ==>
                c.seg.seqno == other && c.seg.ack && !ModLt(c.seg.ackno, e.sock.outQ.lsn)))
  }

  /** RecordAck at a sender in step, with the count kept. */
  lemma RecordAckKeepsStep(q: Queue, sent: seq<byte>, base: int, ackno: u32, expected: int)
    requires q.Valid() && ISN <= base <= ackno <= expected <= base + |sent| < TWO_32
    requires InStep(q, sent, base) && q.lsn <= expected
    requires Stale(q, ackno) || Counted(q, ackno)
    ensures InStep(RecordAck(q, ackno), sent, base) && RecordAck(q, ackno).lsn <= expected
  {
    if ackno < q.lan {
      StaleAckIgnored(q, ackno);
    } else {
      assert Wrap(ackno - q.lan) == ackno - q.lan;
      if ackno >= q.lsn {
        AckKeepsStepExactly(q, sent, base, ackno);
      }
    }
  }

  lemma FireKeepsSender(x: Endpoint, base: u32, expected: int)
    requires 2 <= base && x.sock.Valid() && SenderOk(x, base, expected)
    requires x.sock.state in {Closed, Listen} ==> Idle(x)
    ensures SenderOk(After(x, Tcp.Fire(x.sock)), base, expected)
  {
    if x.sock.state !in {TimeWait, Deleted} {
      var n := FireLength(x.sock);
      assert x.sock.outQ.bytes[..n] != [] ==> x.sock.state !in {Closed, Listen, Closing};
      assert TrueData(FireSegment(x.sock), x.sent, base);
    }
  }

  lemma EnqueueKeepsStep(q: Queue, sent: seq<byte>, base: int, bytes: seq<byte>)
    requires q.Valid() && InStep(q, sent, base)
    ensures InStep(q.Enqueue(bytes), sent + bytes[..q.Accepted(|bytes|)], base)
  {
  }

  lemma TrueDataGrows(net: set<Segment>, sent: seq<byte>, more: seq<byte>, base: int)
    requires forall seg | seg in net :: TrueData(seg, sent, base)
    ensures forall seg | seg in net :: TrueData(seg, sent + more, base)
  {
  }

  lemma SendKeepsSender(x: Endpoint, base: u32, expected: int, bytes: seq<byte>)
    requires 2 <= base && x.sock.Valid() && SenderOk(x, base, expected)
    requires base + |x.sent| + SendAccepts(x.sock, |bytes|) < TWO_32
    ensures SenderOk(Act(x, Send(bytes)), base, expected)
  {
    var more := bytes[..SendAccepts(x.sock, |bytes|)];
    TrueDataGrows(x.net, x.sent, more, base);
    if MayTransfer(x.sock) && bytes != [] && |x.sock.outQ.bytes| < QUEUE_SIZE {
      EnqueueKeepsStep(x.sock.outQ, x.sent, base, bytes);
      var x1 := x.(sent := x.sent + more, sock := x.sock.(outQ := x.sock.outQ.Enqueue(bytes)));
      FireKeepsSender(x1, base, expected);
    } else {
      assert more == [] && x.sent + more == x.sent;
    }
  }

  lemma CloseKeepsSender(x: Endpoint, base: u32, expected: int)
    requires 2 <= base && x.sock.Valid() && SenderOk(x, base, expected)
    requires x.sock.state in {Closed, Listen} ==> Idle(x)
    ensures SenderOk(After(x, Tcp.Close(x.sock)), base, expected)
  {
    if x.sock.state in {SynSent, SynReceived, Established, FinWait1} {
      FinishKeepsSender(x, base, expected);
    } else if x.sock.state == FinWait2 {
      FireKeepsSender(x, base, expected);
    } else if x.sock.state == CloseWait {
      LastKeepsSender(x, base, expected);
    }
  }

  lemma FinishKeepsSender(x: Endpoint, base: u32, expected: int)
    requires 2 <= base && x.sock.Valid() && SenderOk(x, base, expected)
    requires x.sock.state in {SynSent, SynReceived, Established, FinWait1}
    ensures SenderOk(After(x, Tcp.Close(x.sock)), base, expected)
  {
    var x1 := x.(sock := x.sock.(state := FinWait1));
    assert SenderOk(x1, base, expected);
    FireKeepsSender(x1, base, expected);
  }

  lemma LastKeepsSender(x: Endpoint, base: u32, expected: int)
    requires 2 <= base && x.sock.Valid() && SenderOk(x, base, expected) && x.sock.state == CloseWait
    ensures SenderOk(After(x, Tcp.Close(x.sock)), base, expected)
  {
    FireKeepsSender(x, base, expected);
  }

  /** What a socket sends in reply to a segment carries no data; data leave only by `fire`. */
  lemma RepliesCarryNoData(s: Socket, seg: Segment)
    requires s.Valid()
    ensures forall r | r in Filter(s, seg).sent :: r.data == []
  {
  }

  /** What hearing a segment does to the outgoing queue, state by state. */
  ghost predicate OutgoingStep(st: State, q: Queue, seg: Segment, st': State, q': Queue)
    requires q.Valid()
  {
    match st
    case Established | CloseWait =>
      (st' == Established || st' == CloseWait) && q' == if seg.ack then RecordAck(q, seg.ackno) else q
    case LastAck =>
      if !seg.ack then q' == q && st' == LastAck
      else q' == RecordAck(q, seg.ackno).(lan := seg.ackno) && st' == if q'.bytes == [] then Deleted else LastAck
    case SynReceived =>
      st' != Closing && (q' == q || (q.lsn == seg.ackno && q' == q.(lan := seg.ackno)))
    case FinWait1 =>
      if seg.ack && seg.ackno == q.lsn then st' == FinWait2 && q' == q.(lan := seg.ackno)
      else if seg.fin then st' == Closing && q' == q.(lsn := Wrap(q.lsn + 2))
      else st' == FinWait1 && q' == q
    case Closing => st' == TimeWait || (st' == Closing && q' == q)
    case Listen => st' == Listen || (st' == SynReceived && q'.bytes == [] && q'.lsn == ISN && q'.lan == ISN - 1)
    case Closed | Deleted | TimeWait => st' == st
    case SynSent | FinWait2 => st' !in {Closing, Closed} && q' == q
  }

  lemma HeardOutgoing(s: Socket, seg: Segment)
    requires s.Valid()
    ensures var s' := Filter(s, seg).sock; OutgoingStep(s.state, s.outQ, seg, s'.state, s'.outQ)
  {
  }

  lemma LastAckKeepsStep(q: Queue, seg: Segment, sent: seq<byte>, base: int, expected: int)
    requires q.Valid() && ISN <= base <= expected <= base + |sent| < TWO_32
    requires InStep(q, sent, base) && q.lsn <= expected && seg.ack && TrueAck(seg, base, expected)
    requires q.bytes != [] ==> !Stale(q, seg.ackno) && Counted(q, seg.ackno)
    ensures var q' := RecordAck(q, seg.ackno).(lan := seg.ackno);
      q'.bytes == [] || (InStep(q', sent, base) && q'.lsn <= expected)
  {
    if q.bytes != [] {
      RecordAckKeepsStep(q, sent, base, seg.ackno, expected);
      assert RecordAck(q, seg.ackno).lan == seg.ackno;
    }
  }

  lemma StartsInStep(q: Queue, base: int)
    requires q.bytes == [] && q.lsn == base && (q.lan == base - 1 || q.lan == base - 2)
    ensures InStep(q, [], base)
  {
  }

  /** A sender in step hears a segment that keeps the count. */
  ghost predicate Hears(s: Socket, seg: Segment, st': State, q': Queue, sent: seq<byte>, base: int, expected: int) {
    && s.Valid() && ISN <= base <= expected <= base + |sent| < TWO_32
    && OutgoingOk(s.state, s.outQ, sent, base, expected)
    && OutgoingStep(s.state, s.outQ, seg, st', q')
    && TrueAck(seg, base, expected) && KeepsCount(s, seg)
    && (s.state == Listen ==> sent == [] && base == ISN)
  }

  lemma DataKeepsStep(q: Queue, seg: Segment, sent: seq<byte>, base: int, expected: int)
    requires q.Valid() && ISN <= base <= expected <= base + |sent| < TWO_32
    requires InStep(q, sent, base) && q.lsn <= expected && TrueAck(seg, base, expected)
    requires seg.ack ==> Stale(q, seg.ackno) || Counted(q, seg.ackno)
    ensures var q' := if seg.ack then RecordAck(q, seg.ackno) else q; InStep(q', sent, base) && q'.lsn <= expected
  {
    if seg.ack {
      RecordAckKeepsStep(q, sent, base, seg.ackno, expected);
    }
  }

  lemma DataStepKeeps(s: Socket, seg: Segment, st': State, q': Queue, sent: seq<byte>, base: int, expected: int)
    requires Hears(s, seg, st', q', sent, base, expected) && MayTransfer(s)
    ensures OutgoingOk(st', q', sent, base, expected)
  {
    DataKeepsStep(s.outQ, seg, sent, base, expected);
  }

  lemma LastAckStepKeeps(s: Socket, seg: Segment, st': State, q': Queue, sent: seq<byte>, base: int, expected: int)
    requires Hears(s, seg, st', q', sent, base, expected) && s.state == LastAck
    ensures OutgoingOk(st', q', sent, base, expected)
  {
    if seg.ack {
      LastAckKeepsStep(s.outQ, seg, sent, base, expected);
    }
  }

  lemma ListenStepKeeps(s: Socket, seg: Segment, st': State, q': Queue, sent: seq<byte>, base: int, expected: int)
    requires Hears(s, seg, st', q', sent, base, expected) && s.state == Listen
    ensures OutgoingOk(st', q', sent, base, expected)
  {
    if st' == SynReceived {
      StartsInStep(q', base);
    }
  }

  lemma QuietStepKeeps(s: Socket, seg: Segment, st': State, q': Queue, sent: seq<byte>, base: int, expected: int)
    requires Hears(s, seg, st', q', sent, base, expected)
    requires s.state !in {Listen, Established, CloseWait, LastAck}
    ensures OutgoingOk(st', q', sent, base, expected)
  {
  }

  lemma HearStepKeeps(s: Socket, seg: Segment, st': State, q': Queue, sent: seq<byte>, base: int, expected: int)
    requires Hears(s, seg, st', q', sent, base, expected)
    ensures OutgoingOk(st', q', sent, base, expected)
  {
    if MayTransfer(s) {
      DataStepKeeps(s, seg, st', q', sent, base, expected);
    } else if s.state == LastAck {
      LastAckStepKeeps(s, seg, st', q', sent, base, expected);
    } else if s.state == Listen {
      ListenStepKeeps(s, seg, st', q', sent, base, expected);
    } else {
      QuietStepKeeps(s, seg, st', q', sent, base, expected);
    }
  }

  lemma TrueDataJoins(net: set<Segment>, more: set<Segment>, sent: seq<byte>, base: int)
    requires (forall seg | seg in net :: TrueData(seg, sent, base)) && forall seg | seg in more :: seg.data == []
    ensures forall seg | seg in net + more :: TrueData(seg, sent, base)
  {
  }

  lemma HearKeepsSender(x: Endpoint, base: u32, expected: int, seg: Segment)
    requires ISN <= base && x.sock.Valid() && SenderOk(x, base, expected)
    requires base <= expected <= base + |x.sent| < TWO_32
    requires TrueAck(seg, base, expected) && KeepsCount(x.sock, seg)
    requires x.sock.state == Listen ==> Idle(x) && base == ISN
    ensures SenderOk(After(x, Filter(x.sock, seg)), base, expected)
  {
    var o := Filter(x.sock, seg);
    RepliesCarryNoData(x.sock, seg);
    TrueDataJoins(x.net, o.sent, x.sent, base);
    HeardOutgoing(x.sock, seg);
    HearStepKeeps(x.sock, seg, o.sock.state, o.sock.outQ, x.sent, base, expected);
  }

  lemma ConnectStarts(s: Socket)
    requires s.Valid() && s.state == Closed
    ensures var o := Tcp.Connect(s);
      o.sock.state == SynSent && o.sock.outQ == s.outQ.(lsn := ISN + 1, lan := ISN - 1)
    ensures forall seg | seg in Tcp.Connect(s).sent :: seg.data == []
  {
  }

  lemma ConnectKeepsSender(x: Endpoint, base: u32, expected: int)
    requires x.sock.Valid() && SenderOk(x, base, expected) && base == ACTIVE_BASE <= expected
    requires x.sock.state == Closed ==> Idle(x)
    ensures SenderOk(After(x, Tcp.Connect(x.sock)), base, expected)
  {
    if x.sock.state == Closed {
      ConnectStarts(x.sock);
      StartsInStep(Tcp.Connect(x.sock).sock.outQ, base);
    }
  }

  lemma ReceiveKeepsSender(x: Endpoint, base: u32, expected: int, n: nat)
    requires x.sock.Valid() && SenderOk(x, base, expected)
    ensures SenderOk(Act(x, Receive(n)), base, expected)
  {
  }

  lemma ActKeepsSender(x: Endpoint, base: u32, expected: int, c: Call)
    requires ISN <= base && x.sock.Valid() && SenderOk(x, base, expected)
    requires base <= expected <= base + |x.sent| < TWO_32
    requires x.sock.state in {Closed, Listen} ==> Idle(x)
    requires c == Connect ==> base == ACTIVE_BASE
    requires x.sock.state == Listen ==> base == PASSIVE_BASE
    requires c.Send? ==> base + |x.sent| + SendAccepts(x.sock, |c.bytes|) < TWO_32
    requires c.Deliver? ==> TrueAck(c.seg, base, expected) && KeepsCount(x.sock, c.seg)
    ensures SenderOk(Act(x, c), base, expected)
  {
    match c {
      case Connect => ConnectKeepsSender(x, base, expected);
      case Send(bytes) => SendKeepsSender(x, base, expected, bytes);
      case Receive(n) => ReceiveKeepsSender(x, base, expected, n);
      case Fire => FireKeepsSender(x, base, expected);
      case Close => CloseKeepsSender(x, base, expected);
      case Deliver(seg) => HearKeepsSender(x, base, expected, seg);
    }
  }

  lemma ActExtendsSent(x: Endpoint, c: Call)
    requires x.sock.Valid()
    ensures x.sent <= Act(x, c).sent
    ensures |Act(x, c).sent| == |x.sent| + if c.Send? then SendAccepts(x.sock, |c.bytes|) else 0
  {
  }

  /** The end that acts is the sender of this direction. */
  lemma SenderKeeps(x: Endpoint, y: Endpoint, base: u32, other: int, c: Call)
    requires ISN <= base && x.sock.Valid() && y.sock.Valid()
    requires Direction(x, y, base) && CallOk(x, y, base, c) && CallCounts(x, y, c) && MayAct(x, y, base, other, c)
    ensures Direction(Act(x, c), y, base)
  {
    ActExtendsSent(x, c);
    if Open(y.sock.state) {
      ActKeepsSender(x, base, Expected(y, base), c);
    }
  }

  // ----- the receiving end -----

  /** Below 2^32 the code takes the intended bytes, and never more than the segment holds. */
  lemma NewBytesBelowWrap(seqno: u32, n: nat, expected: u32)
    requires ISN <= seqno && seqno + n < TWO_32 && ISN <= expected
    ensures NewBytes(seqno, n, expected) == IntendedNewBytes(seqno, n, expected) <= n
  {
  }

  /** The last `n` bytes of a segment that ends `n` past `at` are the stream's bytes from `at` on. */
  lemma TailIsNext(seg: Segment, sent: seq<byte>, base: int, at: nat, n: nat, k: nat)
    requires seg.data != [] && TrueData(seg, sent, base)
    requires k <= n <= |seg.data| && seg.seqno + |seg.data| == base + at + n && at + n <= |sent|
    ensures Tail(seg.data, n)[..k] == sent[at..at + k]
  {
    assert forall i | 0 <= i < k :: Tail(seg.data, n)[i] == sent[at + i];
  }

  lemma PrefixExtends(read: seq<byte>, queued: seq<byte>, sent: seq<byte>, k: nat)
    requires read + queued <= sent && |read| + |queued| + k <= |sent|
    ensures read + (queued + sent[|read| + |queued|..|read| + |queued| + k]) <= sent
  {
    assert (read + queued) + sent[|read| + |queued|..|read| + |queued| + k] == sent[..|read| + |queued| + k];
    assert forall s: seq<byte> :: read + (queued + s) == (read + queued) + s;
  }

  lemma TakenAre(q: Queue, seqno: u32, data: seq<byte>)
    requires q.Valid() && ISN <= seqno && seqno + |data| < TWO_32 && ISN <= q.lsn && data != []
    ensures var n, q' := IntendedNewBytes(seqno, |data|, q.lsn), TakeData(q, seqno, data);
      n <= |data| && q'.bytes == q.bytes + Tail(data, n)[..q.Accepted(n)] && q'.lsn == q.lsn + q.Accepted(n)
  {
    NewBytesBelowWrap(seqno, |data|, q.lsn);
  }

  /** From a segment with true data the receiver takes exactly the next bytes of the stream, all of them bytes of
      that segment, and moves its expected number past them. */
  lemma TakenBytesAreInTheSegment(q: Queue, seg: Segment, sent: seq<byte>, base: int, read: seq<byte>)
    requires q.Valid() && ISN <= base && base + |sent| < TWO_32 && seg.data != [] && TrueData(seg, sent, base)
    requires read + q.bytes <= sent && q.lsn == base + |read| + |q.bytes|
    ensures NewBytes(seg.seqno, |seg.data|, q.lsn) <= |seg.data|
    ensures var q' := TakeData(q, seg.seqno, seg.data);
      q.bytes <= q'.bytes && read + q'.bytes <= sent && q'.lsn == base + |read| + |q'.bytes|
  {
    NewBytesBelowWrap(seg.seqno, |seg.data|, q.lsn);
    TakenAre(q, seg.seqno, seg.data);
    var n := IntendedNewBytes(seg.seqno, |seg.data|, q.lsn);
    var k := q.Accepted(n);
    if n > 0 {
      TailIsNext(seg, sent, base, |read| + |q.bytes|, n, k);
      PrefixExtends(read, q.bytes, sent, k);
    } else {
      assert q.bytes + [] == q.bytes;
    }
  }

  /** What hearing a segment does to the incoming queue, state by state. */
  ghost predicate IncomingStep(st: State, q: Queue, seg: Segment, st': State, q': Queue)
    requires q.Valid()
  {
    match st
    case Established | CloseWait => Transfers(st') && q' == TakeData(q, seg.seqno, seg.data)
    case SynReceived => st' in {SynReceived, Established} && q' == q
    case SynSent =>
      if !seg.syn then st' == SynSent && q' == q
      else q'.bytes == q.bytes && q'.lsn == seg.seqno && (seg.ack ==> st' in {SynSent, Established})
    case Listen =>
      if !seg.syn then st' == Listen && q' == q
      else st' == SynReceived && q'.bytes == [] && q'.lsn == Wrap(seg.seqno + 1)
    case Closed => st' == Closed && q' == q
    case _ => !Open(st') && q'.bytes == q.bytes
  }

  lemma HeardIncoming(s: Socket, seg: Segment)
    requires s.Valid()
    ensures var s' := Filter(s, seg).sock; IncomingStep(s.state, s.inQ, seg, s'.state, s'.inQ)
    ensures s.state == SynSent && seg.syn && seg.ack && !ModLt(seg.ackno, s.outQ.lsn) ==>
      Filter(s, seg).sock.state == Established
  {
  }

  /** An open socket acknowledges exactly the number it expects. */
  lemma RepliesAckExpected(s: Socket, seg: Segment)
    requires s.Valid()
    ensures var o := Filter(s, seg);
      Open(o.sock.state) ==>
        forall r | r in o.sent :: r.ackno == o.sock.inQ.lsn && o.sock.state in {SynReceived, Established, CloseWait}
  {
  }

  /** A socket that has closed its end stays closed. */
  lemma OpenBefore(e: Endpoint, c: Call)
    requires e.sock.Valid() && Open(Act(e, c).sock.state)
    ensures Open(e.sock.state)
  {
    if c.Deliver? {
      HeardIncoming(e.sock, c.seg);
    }
  }

  /** The numbers on data in the network lie in the stream. */
  ghost predicate Labels(net: set<Segment>, base: int, end: int) {
    forall seg | seg in net :: seg.data != [] ==> base <= seg.seqno && seg.seqno + |seg.data| <= end
  }

  /** The receiver's own count is right, whatever bytes it was given. */
  ghost predicate Receives(y: Endpoint, base: int, end: int) {
    ReceiverOk(y, base) && Expected(y, base) <= end
  }

  lemma TakenNumbers(q: Queue, seg: Segment, base: int, end: int)
    requires q.Valid() && ISN <= base <= q.lsn <= end < TWO_32
    requires seg.data != [] ==> base <= seg.seqno && seg.seqno + |seg.data| <= end
    ensures var q' := TakeData(q, seg.seqno, seg.data);
      |q.bytes| <= |q'.bytes| && q'.lsn == q.lsn + |q'.bytes| - |q.bytes| <= end
  {
    if seg.data != [] {
      TakenAre(q, seg.seqno, seg.data);
    }
  }

  /** Hearing a segment keeps the count, state by state. */
  lemma IncomingNumbers(y: Endpoint, base: u32, end: int, seg: Segment, st: State, q: Queue, st': State, q': Queue)
    requires ISN <= base && y.sock.Valid() && q == y.sock.inQ && st == y.sock.state && IncomingStep(st, q, seg, st', q')
    requires Open(st) && Receives(y, base, end) && end < TWO_32
    requires seg.data != [] ==> base <= seg.seqno && seg.seqno + |seg.data| <= end
    requires st in {Closed, Listen, SynSent} ==> Idle(y)
    requires st == Listen && seg.syn ==> seg.seqno == base - 1
    requires st == SynSent && seg.syn ==> seg.seqno == base && st' == Established
    ensures |q.bytes| <= |q'.bytes| && base + |y.read| + |q'.bytes| <= end
    ensures st' in {SynReceived, Established, CloseWait} ==> q'.lsn == base + |y.read| + |q'.bytes|
  {
    if Transfers(st) {
      TakenNumbers(q, seg, base, end);
    }
  }

  lemma HearKeepsNumbers(x: Endpoint, y: Endpoint, base: u32, own: int, end: int, seg: Segment)
    requires ISN <= base && y.sock.Valid() && Labels(x.net, base, end) && end < TWO_32
    requires Open(y.sock.state) && Receives(y, base, end)
    requires CallOk(y, x, own, Deliver(seg)) && MayAct(y, x, own, base, Deliver(seg))
    ensures var y' := Act(y, Deliver(seg)); Open(y'.sock.state) ==> Receives(y', base, end)
  {
    var s, o := y.sock, Filter(y.sock, seg);
    if Open(o.sock.state) {
      HeardIncoming(s, seg);
      IncomingNumbers(y, base, end, seg, s.state, s.inQ, o.sock.state, o.sock.inQ);
      RepliesAckExpected(s, seg);
    }
  }

  lemma FireKeepsReceiver(y: Endpoint, base: int)
    requires y.sock.Valid() && ReceiverOk(y, base)
    requires y.sock.state in {Closed, Listen, SynSent} ==> Idle(y)
    requires Open(y.sock.state)
    ensures ReceiverOk(After(y, Tcp.Fire(y.sock)), base)
  {
  }

  lemma ReceiverKeepsNumbers(x: Endpoint, y: Endpoint, base: u32, own: int, end: int, c: Call)
    requires ISN <= base && y.sock.Valid() && Labels(x.net, base, end) && end < TWO_32
    requires Open(y.sock.state) && Receives(y, base, end)
    requires CallOk(y, x, own, c) && MayAct(y, x, own, base, c)
    ensures Open(Act(y, c).sock.state) ==> Receives(Act(y, c), base, end)
  {
    match c {
      case Connect =>
      case Send(bytes) =>
        if MayTransfer(y.sock) && bytes != [] && |y.sock.outQ.bytes| < QUEUE_SIZE {
          FireKeepsReceiver(y.(sock := y.sock.(outQ := y.sock.outQ.Enqueue(bytes))), base);
        }
      case Receive(n) =>
      case Fire => FireKeepsReceiver(y, base);
      case Close =>
      case Deliver(seg) => HearKeepsNumbers(x, y, base, own, end, seg);
    }
  }

  /** What the receiver has taken stays a prefix of the stream, and only grows. */
  lemma ReceiverKeepsBytes(x: Endpoint, y: Endpoint, base: u32, own: int, c: Call)
    requires ISN <= base && y.sock.Valid() && Direction(x, y, base)
    requires CallOk(y, x, own, c) && MayAct(y, x, own, base, c)
    ensures Act(y, c).read + Act(y, c).sock.inQ.bytes <= x.sent
    ensures Expected(y, base) <= Expected(Act(y, c), base)
  {
    var q := y.sock.inQ;
    match c {
      case Receive(n) =>
        var k := Min(n, |q.bytes|);
        assert (y.read + q.bytes[..k]) + q.bytes[k..] == y.read + q.bytes;
      case Deliver(seg) =>
        HeardIncoming(y.sock, seg);
        if MayTransfer(y.sock) && seg.data != [] {
          TakenBytesAreInTheSegment(q, seg, x.sent, base, y.read);
        }
      case _ =>
    }
  }

  /** The end that acts is the receiver of this direction. */
  lemma ReceiverKeeps(x: Endpoint, y: Endpoint, base: u32, own: int, c: Call)
    requires ISN <= base && x.sock.Valid() && y.sock.Valid()
    requires Direction(x, y, base) && CallOk(y, x, own, c) && MayAct(y, x, own, base, c)
    ensures Direction(x, Act(y, c), base)
  {
    ReceiverKeepsBytes(x, y, base, own, c);
    if Open(Act(y, c).sock.state) {
      OpenBefore(y, c);
      assert |y.read + y.sock.inQ.bytes| <= |x.sent|;
      ReceiverKeepsNumbers(x, y, base, own, base + |x.sent|, c);
    }
  }
}
