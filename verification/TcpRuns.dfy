/** What every run of a connection keeps: the streams, the numbering, and exactly when a sender's count is kept. */
module TcpRuns {
  import opened Words
  import opened ByteQueues
  import opened Tcp
  import opened TcpConnections

  // ----- one step -----

  lemma ActiveHearsInHandshake(s: System, seg: Segment)
    requires Handshake(s) && CallOk(s.a, s.p, ACTIVE_BASE, Deliver(seg))
    ensures Handshake(s.(a := Act(s.a, Deliver(seg))))
  {
    HeardIncoming(s.a.sock, seg);
    HeardOutgoing(s.a.sock, seg);
  }

  lemma ActiveKeepsHandshake(s: System, c: Call)
    requires Handshake(s) && CallOk(s.a, s.p, ACTIVE_BASE, c)
    ensures Handshake(s.(a := Act(s.a, c)))
  {
    match c {
      case Deliver(seg) => ActiveHearsInHandshake(s, seg);
      case Connect =>
      case _ => assert s.p.sock.state == Listen ==> Act(s.a, c).net == s.a.net;
    }
  }

  /** The passive side's SYN goes out once, with ACK, and later segments carry none. */
  lemma PassiveSegments(e: Endpoint, c: Call)
    requires e.sock.Valid() && c != Connect && e.sock.state !in {Closed, SynSent}
    ensures forall seg | seg in Act(e, c).net - e.net :: seg.syn ==>
      e.sock.state == Listen && c.Deliver? && seg.ack && seg.seqno == ISN && seg.ackno == Wrap(c.seg.seqno + 1)
  {
  }

  lemma PassiveKeepsHandshake(s: System, c: Call)
    requires Handshake(s) && CallOk(s.p, s.a, PASSIVE_BASE, c) && c != Connect
    ensures Handshake(s.(p := Act(s.p, c)))
  {
    PassiveSegments(s.p, c);
    if c.Deliver? {
      HeardOutgoing(s.p.sock, c.seg);
      HeardIncoming(s.p.sock, c.seg);
    }
  }

  lemma HandshakeKeeps(s: System, t: Step)
    requires Handshake(s) && StepOk(s, t)
    ensures Handshake(Next(s, t))
  {
    if t.atActive {
      ActiveKeepsHandshake(s, t.call);
    } else {
      PassiveKeepsHandshake(s, t.call);
    }
  }

  /** Every call at either end keeps the flow from one end, provided a segment delivered at that end keeps its count. */
  lemma NextKeepsFlow(s: System, t: Step, fromActive: bool)
    requires Flow(s, fromActive) && StepOk(s, t) && (t.atActive == fromActive ==> StepCounts(s, t))
    ensures Flow(Next(s, t), fromActive)
  {
    HandshakeKeeps(s, t);
    if t.atActive && fromActive {
      SenderKeeps(s.a, s.p, ACTIVE_BASE, PASSIVE_BASE, t.call);
    } else if t.atActive {
      ReceiverKeeps(s.p, s.a, PASSIVE_BASE, ACTIVE_BASE, t.call);
    } else if fromActive {
      ReceiverKeeps(s.a, s.p, ACTIVE_BASE, PASSIVE_BASE, t.call);
    } else {
      SenderKeeps(s.p, s.a, PASSIVE_BASE, ACTIVE_BASE, t.call);
    }
  }

  lemma InitialFlows()
    ensures Flow(INITIAL, true) && Flow(INITIAL, false)
  {
  }

  // ----- every state of every run -----

  /** The states a connection goes through, from before the first call. */
  ghost predicate Run(states: seq<System>, steps: seq<Step>) {
    && |states| == |steps| + 1 && states[0] == INITIAL
    && forall i {:trigger steps[i]} | 0 <= i < |steps| ::
         StepOk(states[i], steps[i]) && states[i + 1] == Next(states[i], steps[i])
  }

  /** Every segment delivered at that end before state `n` keeps the count there. */
  ghost predicate Counts(states: seq<System>, steps: seq<Step>, atActive: bool, n: nat) {
    && |states| == |steps| + 1 && n <= |steps|
    && forall i {:trigger steps[i]} | 0 <= i < n :: steps[i].atActive == atActive ==> StepCounts(states[i], steps[i])
  }

  ghost predicate FlowsAt(states: seq<System>, i: nat, fromActive: bool) {
    i < |states| && Flow(states[i], fromActive)
  }

  lemma RunStep(states: seq<System>, steps: seq<Step>, i: nat)
    requires Run(states, steps) && i < |steps|
    ensures StepOk(states[i], steps[i]) && states[i + 1] == Next(states[i], steps[i])
  {
  }

  lemma StepFlows(states: seq<System>, steps: seq<Step>, i: nat, fromActive: bool)
    requires Run(states, steps) && i < |steps| && Counts(states, steps, fromActive, i + 1)
    requires FlowsAt(states, i, fromActive)
    ensures FlowsAt(states, i + 1, fromActive)
  {
    RunStep(states, steps, i);
    NextKeepsFlow(states[i], steps[i], fromActive);
  }

  lemma {:induction false} RunFlows(states: seq<System>, steps: seq<Step>, i: nat, fromActive: bool)
    requires Run(states, steps) && i < |states| && Counts(states, steps, fromActive, i)
    ensures FlowsAt(states, i, fromActive)
  {
    if i == 0 {
      InitialFlows();
    } else {
      RunFlows(states, steps, i - 1, fromActive);
      StepFlows(states, steps, i - 1, fromActive);
    }
  }

  /** The flow from one end holds in every state of every run in which the segments delivered at that end keep its
      count; what is delivered at the other end, and what becomes of the other stream, does not matter. */
  lemma RunKeepsFlow(states: seq<System>, steps: seq<Step>, i: nat, fromActive: bool)
    requires Run(states, steps) && i < |states| && Counts(states, steps, fromActive, i)
    ensures Flow(states[i], fromActive)
  {
    RunFlows(states, steps, i, fromActive);
  }

  // ----- the connection's promises -----

  function From(s: System, active: bool): Endpoint {
    if active then s.a else s.p
  }

  function To(s: System, active: bool): Endpoint {
    if active then s.p else s.a
  }

  function Base(active: bool): u32 {
    if active then ACTIVE_BASE else PASSIVE_BASE
  }

  /** No byte leaves a sender's queue before the receiver has it. */
  ghost predicate NothingLost(x: Endpoint, y: Endpoint) {
    && x.sock.outQ.lsn <= y.sock.inQ.lsn <= x.sock.outQ.lsn + |x.sock.outQ.bytes|
    && (x.sock.outQ.bytes == [] ==> y.read + y.sock.inQ.bytes == x.sent)
  }

  /** The receiver expects the number of the sender's first data byte, plus what it already took. */
  ghost predicate NumbersAgree(x: Endpoint, y: Endpoint, base: int) {
    && y.sock.inQ.lsn == base + |y.read| + |y.sock.inQ.bytes|
    && (x.sent == [] ==> y.sock.inQ.lsn == x.sock.outQ.lsn == base)
  }

  lemma FlowOf(x: Endpoint, y: Endpoint, base: u32)
    requires x.sock.Valid() && y.sock.Valid() && Direction(x, y, base)
    requires MayTransfer(x.sock) && MayTransfer(y.sock)
    ensures base <= x.sock.outQ.lsn && NothingLost(x, y) && NumbersAgree(x, y, base)
    ensures x.sock.outQ.lsn + |x.sock.outQ.bytes| == base + |x.sent|
  {
    assert InStep(x.sock.outQ, x.sent, base);
    assert |y.read + y.sock.inQ.bytes| == y.sock.inQ.lsn - base;
  }

  /** In every state of a run that keeps the sender's count, whatever is lost, repeated or reordered and whoever closes:
      what one user has read, with what waits in its queue, is a prefix of what the other user sent. */
  lemma StreamIsAPrefix(states: seq<System>, steps: seq<Step>, i: nat, fromActive: bool)
    requires Run(states, steps) && i < |states| && Counts(states, steps, fromActive, i)
    ensures var x, y := From(states[i], fromActive), To(states[i], fromActive);
      y.read + y.sock.inQ.bytes <= x.sent
  {
    RunKeepsFlow(states, steps, i, fromActive);
  }

  /** While data flow, the sender's queue starts at or before the byte its receiver expects and reaches at least up to
      it: no byte is dropped before it arrived, and an empty queue means that everything arrived. */
  lemma NothingUnreceivedIsDropped(states: seq<System>, steps: seq<Step>, i: nat, fromActive: bool)
    requires Run(states, steps) && i < |states| && Counts(states, steps, fromActive, i)
    requires MayTransfer(states[i].a.sock) && MayTransfer(states[i].p.sock)
    ensures NothingLost(From(states[i], fromActive), To(states[i], fromActive))
  {
    RunKeepsFlow(states, steps, i, fromActive);
    FlowOf(From(states[i], fromActive), To(states[i], fromActive), Base(fromActive));
  }

  // ----- the passive opener: every run -----

  lemma OpenAtStep(states: seq<System>, steps: seq<Step>, i: nat, atActive: bool)
    requires Run(states, steps) && i < |steps| && states[i].a.sock.Valid() && states[i].p.sock.Valid()
    requires Open(From(states[i + 1], atActive).sock.state)
    ensures Open(From(states[i], atActive).sock.state)
  {
    RunStep(states, steps, i);
    if steps[i].atActive == atActive {
      OpenBefore(From(states[i], atActive), steps[i].call);
    }
  }

  lemma {:induction false} RunIsValid(states: seq<System>, steps: seq<Step>, i: nat)
    requires Run(states, steps) && i < |states|
    ensures states[i].a.sock.Valid() && states[i].p.sock.Valid()
  {
    if i > 0 {
      RunIsValid(states, steps, i - 1);
      RunStep(states, steps, i - 1);
    }
  }

  /** Until the passive end closes, every segment keeps its count: its acknowledgement number is synchronised by the
      handshake. */
  lemma {:induction false} PassiveAlwaysCounts(states: seq<System>, steps: seq<Step>, i: nat)
    requires Run(states, steps) && i < |states| && Open(states[i].p.sock.state)
    ensures Counts(states, steps, false, i)
    ensures forall seg :: KeepsCount(states[i].p.sock, seg)
  {
    if i > 0 {
      RunIsValid(states, steps, i - 1);
      OpenAtStep(states, steps, i - 1, false);
      PassiveAlwaysCounts(states, steps, i - 1);
      assert Counts(states, steps, false, i);
    }
    RunKeepsFlow(states, steps, i, false);
  }

  /** In every run, until the passive opener closes: what the active end has of the passive end's stream is a prefix
      of what was sent; and while both transfer, no unreceived byte is dropped and the acknowledgement number is the
      number of the first queued byte. */
  lemma PassiveStreamIsSafe(states: seq<System>, steps: seq<Step>, i: nat)
    requires Run(states, steps) && i < |states| && Open(states[i].p.sock.state)
    ensures var s := states[i];
      && s.a.read + s.a.sock.inQ.bytes <= s.p.sent
      && (MayTransfer(s.a.sock) && MayTransfer(s.p.sock) ==>
            NothingLost(s.p, s.a) && s.p.sock.outQ.lan == s.p.sock.outQ.lsn)
  {
    PassiveAlwaysCounts(states, steps, i);
    RunKeepsFlow(states, steps, i, false);
    if MayTransfer(states[i].a.sock) && MayTransfer(states[i].p.sock) {
      NothingUnreceivedIsDropped(states, steps, i, false);
    }
  }

  // ----- numbering: every run -----

  /** A sender's numbers lie in its stream, even where the bytes under them are the wrong ones. */
  ghost predicate Labelled(x: Endpoint, base: int) {
    var q, end := x.sock.outQ, base + |x.sent|;
    && (x.sock.state !in {Closed, Listen} ==>
          base <= q.lsn && q.lsn + |q.bytes| <= end && base - 2 <= q.lan <= q.lsn)
    && Labels(x.net, base, end)
  }

  /** The numbering of one direction while both ends are open. */
  ghost predicate Numbered(x: Endpoint, y: Endpoint, base: int) {
    && base + |x.sent| < TWO_32
    && (Open(x.sock.state) && Open(y.sock.state) ==> Labelled(x, base) && Receives(y, base, base + |x.sent|))
  }

  lemma AckKeepsLabels(q: Queue, ackno: u32, base: int, end: int)
    requires q.Valid() && ISN <= base <= ackno <= end < TWO_32
    requires base <= q.lsn && q.lsn + |q.bytes| <= end && base - 2 <= q.lan <= q.lsn
    ensures var q' := RecordAck(q, ackno);
      base <= q'.lsn && q'.lsn + |q'.bytes| <= end && base - 2 <= q'.lan <= q'.lsn
  {
    if ackno < q.lan {
      StaleAckIgnored(q, ackno);
    } else {
      assert Wrap(ackno - q.lan) == ackno - q.lan;
    }
  }

  lemma HearKeepsLabels(x: Endpoint, base: u32, seg: Segment)
    requires ISN <= base && x.sock.Valid() && base + |x.sent| < TWO_32 && Labelled(x, base)
    requires x.sock.state in {Closed, Listen, SynSent} ==> Idle(x)
    requires x.sock.state == Listen ==> base == PASSIVE_BASE
    requires seg.ack ==> base <= seg.ackno <= base + |x.sent|
    ensures var x' := Act(x, Deliver(seg)); Open(x'.sock.state) ==> Labelled(x', base)
  {
    RepliesCarryNoData(x.sock, seg);
    HeardOutgoing(x.sock, seg);
    if MayTransfer(x.sock) && seg.ack {
      AckKeepsLabels(x.sock.outQ, seg.ackno, base, base + |x.sent|);
    }
  }

  lemma FireKeepsLabels(x: Endpoint, base: u32)
    requires x.sock.Valid() && Labelled(x, base) && (x.sock.state in {Closed, Listen} ==> Idle(x))
    ensures Labelled(After(x, Tcp.Fire(x.sock)), base)
  {
  }

  lemma SendKeepsLabels(x: Endpoint, base: u32, bytes: seq<byte>)
    requires x.sock.Valid() && Labelled(x, base) && MayTransfer(x.sock)
    ensures Labelled(Act(x, Send(bytes)), base)
  {
    var more := bytes[..SendAccepts(x.sock, |bytes|)];
    if bytes != [] && |x.sock.outQ.bytes| < QUEUE_SIZE {
      FireKeepsLabels(x.(sent := x.sent + more, sock := x.sock.(outQ := x.sock.outQ.Enqueue(bytes))), base);
    }
  }

  lemma ConnectKeepsLabels(x: Endpoint, base: u32)
    requires x.sock.Valid() && Labelled(x, base) && (x.sock.state == Closed ==> Idle(x)) && base == ACTIVE_BASE
    ensures Labelled(Act(x, Connect), base)
  {
    if x.sock.state == Closed {
      ConnectStarts(x.sock);
    }
  }

  lemma ActKeepsLabels(x: Endpoint, y: Endpoint, base: u32, other: int, c: Call)
    requires ISN <= base && x.sock.Valid() && base + |x.sent| < TWO_32 && Labelled(x, base)
    requires Receives(y, base, base + |x.sent|) && CallOk(x, y, base, c) && MayAct(x, y, base, other, c)
    ensures Open(Act(x, c).sock.state) ==> Labelled(Act(x, c), base)
  {
    match c {
      case Connect => ConnectKeepsLabels(x, base);
      case Send(bytes) =>
        if MayTransfer(x.sock) {
          SendKeepsLabels(x, base, bytes);
        }
      case Receive(n) =>
      case Fire => FireKeepsLabels(x, base);
      case Close =>
      case Deliver(seg) => HearKeepsLabels(x, base, seg);
    }
  }

  lemma SenderKeepsNumbers(x: Endpoint, y: Endpoint, base: u32, other: int, c: Call)
    requires ISN <= base && x.sock.Valid() && y.sock.Valid() && Numbered(x, y, base)
    requires CallOk(x, y, base, c) && MayAct(x, y, base, other, c)
    ensures Numbered(Act(x, c), y, base)
  {
    ActExtendsSent(x, c);
    if Open(Act(x, c).sock.state) && Open(y.sock.state) {
      OpenBefore(x, c);
      ActKeepsLabels(x, y, base, other, c);
    }
  }

  lemma ReceiverKeepsNumbering(x: Endpoint, y: Endpoint, base: u32, own: int, c: Call)
    requires ISN <= base && x.sock.Valid() && y.sock.Valid() && Numbered(x, y, base)
    requires CallOk(y, x, own, c) && MayAct(y, x, own, base, c)
    ensures Numbered(x, Act(y, c), base)
  {
    if Open(x.sock.state) && Open(Act(y, c).sock.state) {
      OpenBefore(y, c);
      ReceiverKeepsNumbers(x, y, base, own, base + |x.sent|, c);
    }
  }

  ghost predicate NumberedAt(states: seq<System>, i: nat) {
    && i < |states| && states[i].a.sock.Valid() && states[i].p.sock.Valid() && Handshake(states[i])
    && Numbered(states[i].a, states[i].p, ACTIVE_BASE) && Numbered(states[i].p, states[i].a, PASSIVE_BASE)
  }

  lemma NextKeepsNumbers(s: System, t: Step)
    requires s.a.sock.Valid() && s.p.sock.Valid() && Handshake(s) && StepOk(s, t)
    requires Numbered(s.a, s.p, ACTIVE_BASE) && Numbered(s.p, s.a, PASSIVE_BASE)
    ensures Numbered(Next(s, t).a, Next(s, t).p, ACTIVE_BASE) && Numbered(Next(s, t).p, Next(s, t).a, PASSIVE_BASE)
  {
    if t.atActive {
      SenderKeepsNumbers(s.a, s.p, ACTIVE_BASE, PASSIVE_BASE, t.call);
      ReceiverKeepsNumbering(s.p, s.a, PASSIVE_BASE, ACTIVE_BASE, t.call);
    } else {
      SenderKeepsNumbers(s.p, s.a, PASSIVE_BASE, ACTIVE_BASE, t.call);
      ReceiverKeepsNumbering(s.a, s.p, ACTIVE_BASE, PASSIVE_BASE, t.call);
    }
  }

  lemma {:induction false} RunKeepsNumbers(states: seq<System>, steps: seq<Step>, i: nat)
    requires Run(states, steps) && i < |states|
    ensures NumberedAt(states, i)
  {
    if i > 0 {
      RunKeepsNumbers(states, steps, i - 1);
      RunStep(states, steps, i - 1);
      HandshakeKeeps(states[i - 1], steps[i - 1]);
      NextKeepsNumbers(states[i - 1], steps[i - 1]);
    }
  }

  /** In every run, once both ends are established they agree on each other's numbering, whatever happened on the way. */
  lemma HandshakeAgrees(states: seq<System>, steps: seq<Step>, i: nat)
    requires Run(states, steps) && i < |states|
    requires MayTransfer(states[i].a.sock) && MayTransfer(states[i].p.sock)
    ensures NumbersAgree(states[i].a, states[i].p, ACTIVE_BASE)
    ensures NumbersAgree(states[i].p, states[i].a, PASSIVE_BASE)
  {
    RunKeepsNumbers(states, steps, i);
  }

  // ----- the active opener: runs in which it waits for its first acknowledgement -----

  /** Before every send the active user has received a byte, or its acknowledgement number is synchronised. */
  ghost predicate Patient(states: seq<System>, steps: seq<Step>, n: nat) {
    && |states| == |steps| + 1 && n <= |steps|
    && forall i {:trigger steps[i]} | 0 <= i < n :: steps[i].atActive && steps[i].call.Send? ==>
         Expected(states[i].a, 0) > 0 || states[i].a.sock.outQ.lan == states[i].a.sock.outQ.lsn
  }

  /** Only once synchronised does an end that transfers have bytes of either stream. */
  ghost predicate Synchronised(e: Endpoint) {
    MayTransfer(e.sock) && (e.sock.outQ.bytes != [] || Expected(e, 0) > 0) ==> e.sock.outQ.lan == e.sock.outQ.lsn
  }

  /** Every data segment carries an acknowledgement. */
  ghost predicate DataAcked(net: set<Segment>) {
    forall seg | seg in net :: seg.data != [] ==> seg.ack
  }

  lemma DataCarryAcks(e: Endpoint, c: Call)
    requires e.sock.Valid()
    ensures forall seg | seg in Act(e, c).net - e.net :: seg.data != [] ==> seg.ack
  {
    if c.Deliver? {
      RepliesCarryNoData(e.sock, c.seg);
    }
  }

  /** An acknowledgement from within the stream synchronises, if the queue was empty or already synchronised. */
  lemma AckSynchronises(q: Queue, sent: seq<byte>, base: int, ackno: u32, expected: int)
    requires q.Valid() && ISN <= base <= ackno <= expected <= base + |sent| < TWO_32
    requires InStep(q, sent, base) && q.lsn <= expected
    ensures RecordAck(q, ackno).lan == RecordAck(q, ackno).lsn
  {
    if ackno < q.lan {
      StaleAckIgnored(q, ackno);
    } else {
      assert Wrap(ackno - q.lan) == ackno - q.lan;
    }
  }

  /** An end that transfers hears a segment. */
  lemma DataKeepsSynchronised(x: Endpoint, base: u32, expected: int, seg: Segment, s': Socket)
    requires ISN <= base <= expected <= base + |x.sent| < TWO_32 && x.sock.Valid() && MayTransfer(x.sock)
    requires InStep(x.sock.outQ, x.sent, base) && x.sock.outQ.lsn <= expected && TrueAck(seg, base, expected)
    requires Synchronised(x) && (seg.data != [] ==> seg.ack) && s' == Filter(x.sock, seg).sock
    ensures KeepsCount(x.sock, seg)
    ensures Synchronised(x.(sock := s'))
  {
    var q := x.sock.outQ;
    HeardIncoming(x.sock, seg);
    HeardOutgoing(x.sock, seg);
    if seg.ack {
      AckSynchronises(q, x.sent, base, seg.ackno, expected);
      assert s'.outQ == RecordAck(q, seg.ackno);
    } else {
      assert s'.inQ == x.sock.inQ && s'.outQ == q;
    }
  }

  /** An end that does not transfer hears a segment. */
  lemma OpeningKeepsSynchronised(x: Endpoint, seg: Segment, s': Socket)
    requires x.sock.Valid() && !MayTransfer(x.sock) && x.sock.state !in {Listen, SynReceived}
    requires x.sock.state in {Closed, SynSent} ==> Idle(x)
    requires s' == Filter(x.sock, seg).sock
    ensures KeepsCount(x.sock, seg) || !Open(x.sock.state)
    ensures Synchronised(x.(sock := s'))
  {
    HeardOutgoing(x.sock, seg);
    if MayTransfer(s') {
      HeardIncoming(x.sock, seg);
      assert x.sock.state == SynSent;
    }
  }

  /** What a direction tells of a sender that hears a segment. */
  lemma SenderKnows(x: Endpoint, y: Endpoint, base: u32, seg: Segment)
    requires ISN <= base && x.sock.Valid() && y.sock.Valid() && Direction(x, y, base) && Open(y.sock.state)
    requires seg in y.net && MayTransfer(x.sock)
    ensures var expected := Expected(y, base);
      && base <= expected <= base + |x.sent| < TWO_32 && TrueAck(seg, base, expected)
      && InStep(x.sock.outQ, x.sent, base) && x.sock.outQ.lsn <= expected
  {
    assert |y.read + y.sock.inQ.bytes| <= |x.sent|;
  }

  lemma HearKeepsSynchronised(x: Endpoint, y: Endpoint, base: u32, seg: Segment)
    requires ISN <= base && x.sock.Valid() && y.sock.Valid() && Direction(x, y, base) && Open(y.sock.state)
    requires seg in y.net && DataAcked(y.net) && Synchronised(x)
    requires x.sock.state in {Closed, Listen, SynSent} ==> Idle(x)
    requires x.sock.state !in {Listen, SynReceived}
    ensures KeepsCount(x.sock, seg) || !Open(x.sock.state)
    ensures Synchronised(Act(x, Deliver(seg)))
  {
    if MayTransfer(x.sock) {
      SenderKnows(x, y, base, seg);
      DataKeepsSynchronised(x, base, Expected(y, base), seg, Filter(x.sock, seg).sock);
    } else {
      OpeningKeepsSynchronised(x, seg, Filter(x.sock, seg).sock);
    }
  }

  lemma SendKeepsSynchronised(x: Endpoint, bytes: seq<byte>)
    requires x.sock.Valid() && Synchronised(x)
    requires Expected(x, 0) > 0 || x.sock.outQ.lan == x.sock.outQ.lsn
    ensures Synchronised(Act(x, Send(bytes)))
  {
  }

  lemma QuietKeepsSynchronised(x: Endpoint, c: Call)
    requires x.sock.Valid() && Synchronised(x) && !c.Send? && !c.Deliver?
    ensures Synchronised(Act(x, c))
  {
    if c == Call.Close {
      assert !MayTransfer(Tcp.Close(x.sock).sock);
    }
  }

  lemma ActKeepsSynchronised(x: Endpoint, y: Endpoint, base: u32, c: Call)
    requires ISN <= base && x.sock.Valid() && y.sock.Valid() && Direction(x, y, base) && Open(y.sock.state)
    requires CallOk(x, y, base, c) && DataAcked(y.net) && Synchronised(x) && Open(x.sock.state)
    requires x.sock.state in {Closed, Listen, SynSent} ==> Idle(x)
    requires x.sock.state !in {Listen, SynReceived}
    requires c.Send? ==> Expected(x, 0) > 0 || x.sock.outQ.lan == x.sock.outQ.lsn
    ensures CallCounts(x, y, c)
    ensures Synchronised(Act(x, c))
  {
    match c {
      case Deliver(seg) => HearKeepsSynchronised(x, y, base, seg);
      case Send(bytes) => SendKeepsSynchronised(x, bytes);
      case _ => QuietKeepsSynchronised(x, c);
    }
  }

  /** What a patient opener's run keeps while both ends are open. */
  ghost predicate PatientAt(s: System) {
    Flow(s, true) && Open(s.a.sock.state) && Open(s.p.sock.state) && DataAcked(s.p.net) && Synchronised(s.a)
  }

  lemma NextKeepsPatience(s: System, t: Step)
    requires PatientAt(s) && StepOk(s, t)
    requires t.atActive && t.call.Send? ==> Expected(s.a, 0) > 0 || s.a.sock.outQ.lan == s.a.sock.outQ.lsn
    ensures t.atActive ==> StepCounts(s, t)
    ensures DataAcked(Next(s, t).p.net) && Synchronised(Next(s, t).a)
  {
    if t.atActive {
      ActKeepsSynchronised(s.a, s.p, ACTIVE_BASE, t.call);
    } else {
      DataCarryAcks(s.p, t.call);
    }
  }

  /** An active user who sends nothing before it has received a byte, or before its first acknowledgement, never meets
      a segment that breaks the count while both ends are open. */
  lemma {:induction false} PatientOpenerCounts(states: seq<System>, steps: seq<Step>, i: nat)
    requires Run(states, steps) && i < |states| && Patient(states, steps, i)
    requires Open(states[i].a.sock.state) && Open(states[i].p.sock.state)
    ensures Counts(states, steps, true, i) && PatientAt(states[i])
  {
    if i > 0 {
      RunIsValid(states, steps, i - 1);
      OpenAtStep(states, steps, i - 1, true);
      OpenAtStep(states, steps, i - 1, false);
      PatientOpenerCounts(states, steps, i - 1);
      PatientStep(states, steps, i - 1);
    }
    RunKeepsFlow(states, steps, i, true);
  }

  lemma PatientStep(states: seq<System>, steps: seq<Step>, i: nat)
    requires Run(states, steps) && i < |steps| && Patient(states, steps, i + 1)
    requires Counts(states, steps, true, i) && PatientAt(states[i])
    ensures Counts(states, steps, true, i + 1)
    ensures DataAcked(states[i + 1].p.net) && Synchronised(states[i + 1].a)
  {
    RunStep(states, steps, i);
    NextKeepsPatience(states[i], steps[i]);
  }

  /** A patient active user loses nothing: the passive end has a prefix of what was sent, and no unreceived byte is
      dropped. */
  lemma PatientOpenerIsSafe(states: seq<System>, steps: seq<Step>, i: nat)
    requires Run(states, steps) && i < |states| && Patient(states, steps, i)
    requires MayTransfer(states[i].a.sock) && MayTransfer(states[i].p.sock)
    ensures states[i].p.read + states[i].p.sock.inQ.bytes <= states[i].a.sent
    ensures NothingLost(states[i].a, states[i].p)
  {
    PatientOpenerCounts(states, steps, i);
    StreamIsAPrefix(states, steps, i, true);
    NothingUnreceivedIsDropped(states, steps, i, true);
  }

  // ----- leaving ESTABLISHED -----

  predicate Past(st: State) {
    st in {CloseWait, FinWait1, FinWait2, Closing, LastAck, TimeWait, Deleted}
  }

  lemma ActStaysPast(e: Endpoint, c: Call)
    requires e.sock.Valid() && Past(e.sock.state)
    ensures Past(Act(e, c).sock.state)
  {
    if c.Deliver? {
      HeardOutgoing(e.sock, c.seg);
      HeardIncoming(e.sock, c.seg);
    }
  }

  /** An end that has left ESTABLISHED never comes back to it. TcpSocketAccept hands over a socket in that state only, so
      one that was half-closed before it was accepted never is, and its listener drops every later SYN. */
  lemma {:induction false} PastForGood(states: seq<System>, steps: seq<Step>, i: nat, j: nat, active: bool)
    requires Run(states, steps) && i <= j < |states| && Past(From(states[i], active).sock.state)
    ensures Past(From(states[j], active).sock.state)
  {
    if i < j {
      PastForGood(states, steps, i, j - 1, active);
      RunIsValid(states, steps, j - 1);
      RunStep(states, steps, j - 1);
      if steps[j - 1].atActive == active {
        ActStaysPast(From(states[j - 1], active), steps[j - 1].call);
      }
    }
  }

  // ----- half-closing -----

  /** While an end is open the only FIN it sends is on the active end's opening SYN, which always has it. */
  ghost predicate Fins(s: System) {
    && (Open(s.a.sock.state) ==> forall seg | seg in s.a.net :: seg.fin ==> seg.syn && !seg.ack)
    && (Open(s.p.sock.state) ==> forall seg | seg in s.p.net :: !seg.fin)
    && (forall seg | seg in s.a.net :: seg.syn && !seg.ack ==> seg.fin)
  }

  /** What an end sends by one call: FIN only with the opening SYN, or once it has closed. */
  lemma SentFins(e: Endpoint, c: Call)
    requires e.sock.Valid()
    ensures forall seg | seg in Act(e, c).net - e.net ::
      && (seg.syn && !seg.ack ==> seg.fin && c == Connect)
      && (seg.fin && Open(Act(e, c).sock.state) ==> seg.syn && !seg.ack && c == Connect)
  {
    match c {
      case Deliver(seg) => RepliedFins(e.sock, seg);
      case Fire =>
      case Send(bytes) =>
      case Receive(n) =>
      case Connect =>
      case Close =>
    }
  }

  lemma RepliesAck(s: Socket, seg: Segment)
    requires s.Valid()
    ensures forall r | r in Filter(s, seg).sent :: r.ack
  {
  }

  lemma OpenRepliesNoFin(s: Socket, seg: Segment)
    requires s.Valid() && Open(s.state)
    ensures forall r | r in Filter(s, seg).sent :: !r.fin
  {
  }

  lemma RepliedFins(s: Socket, seg: Segment)
    requires s.Valid()
    ensures var o := Filter(s, seg); forall r | r in o.sent :: r.ack && (r.fin ==> !Open(o.sock.state))
  {
    RepliesAck(s, seg);
    if Open(s.state) {
      OpenRepliesNoFin(s, seg);
    } else {
      HeardIncoming(s, seg);
    }
  }

  lemma NextKeepsFins(s: System, t: Step)
    requires s.a.sock.Valid() && s.p.sock.Valid() && Fins(s) && StepOk(s, t)
    ensures Fins(Next(s, t))
  {
    if t.atActive {
      SentFins(s.a, t.call);
      if Open(Next(s, t).a.sock.state) {
        OpenBefore(s.a, t.call);
      }
    } else {
      SentFins(s.p, t.call);
      if Open(Next(s, t).p.sock.state) {
        OpenBefore(s.p, t.call);
      }
    }
  }

  lemma {:induction false} RunKeepsFins(states: seq<System>, steps: seq<Step>, i: nat)
    requires Run(states, steps) && i < |states|
    ensures Fins(states[i])
  {
    if i > 0 {
      RunKeepsFins(states, steps, i - 1);
      RunIsValid(states, steps, i - 1);
      RunStep(states, steps, i - 1);
      NextKeepsFins(states[i - 1], steps[i - 1]);
    }
  }

  lemma FinHalfCloses(s: Socket, seg: Segment)
    requires s.Valid() && s.state == Established
    ensures Filter(s, seg).sock.state == CloseWait <==> seg.fin
  {
  }

  /** In every run, an established end is half-closed by a peer that has not closed exactly if it is the passive end and the
      segment is a copy of the opening SYN. */
  lemma HalfClosesExactly(states: seq<System>, steps: seq<Step>, i: nat)
    requires Run(states, steps) && i < |steps| && steps[i].call.Deliver?
    requires From(states[i], steps[i].atActive).sock.state == Established
    requires Open(To(states[i], steps[i].atActive).sock.state)
    ensures var seg := steps[i].call.seg;
      From(states[i + 1], steps[i].atActive).sock.state == CloseWait <==> !steps[i].atActive && seg.syn && !seg.ack
  {
    RunKeepsFins(states, steps, i);
    RunIsValid(states, steps, i);
    RunStep(states, steps, i);
    FinHalfCloses(From(states[i], steps[i].atActive).sock, steps[i].call.seg);
  }

  // ----- the count is the exact condition -----

  /** Bytes are queued and an acknowledgement from within the stream is recorded, `r` being the queue after it. */
  ghost predicate Records(q: Queue, ackno: u32, r: Queue, sent: seq<byte>, base: int, expected: int) {
    && q.Valid() && q.bytes != [] && ISN <= base <= ackno <= expected <= base + |sent| < TWO_32
    && InStep(q, sent, base) && q.lsn <= expected && r == RecordAck(q, ackno)
  }

  lemma AheadBy(x: u32, y: u32)
    requires y <= x
    ensures Wrap(x - y) == x - y
  {
  }

  lemma NewAckExactly(q: Queue, ackno: u32, r: Queue, sent: seq<byte>, base: int, expected: int)
    requires Records(q, ackno, r, sent, base, expected) && q.lan <= ackno
    ensures !Stale(q, ackno) && r.lsn == r.lan == ackno
    ensures QueueInStep(r, sent, base) <==> Counted(q, ackno)
  {
    AheadBy(ackno, q.lan);
    AheadBy(ackno, q.lsn);
    AckKeepsStepExactly(q, sent, base, ackno);
  }

  lemma RecordAckExactly(q: Queue, ackno: u32, r: Queue, sent: seq<byte>, base: int, expected: int)
    requires Records(q, ackno, r, sent, base, expected)
    ensures InStep(r, sent, base) <==> Stale(q, ackno) || Counted(q, ackno)
    ensures InStep(r.(lan := ackno), sent, base) <==> !Stale(q, ackno) && Counted(q, ackno)
  {
    if ackno < q.lan {
      StaleAckIgnored(q, ackno);
      WrappedDifference(ackno, q.lan);
    } else {
      NewAckExactly(q, ackno, r, sent, base, expected);
    }
  }

  lemma SkippedNumbersBreakStep(q: Queue, sent: seq<byte>, base: int)
    requires q.bytes != [] && QueueInStep(q, sent, base) && base + |sent| < TWO_32
    ensures !QueueInStep(q.(lsn := Wrap(q.lsn + 2)), sent, base)
  {
    assert |q.bytes| == base + |sent| - q.lsn;
  }

  /** A sender in step, with bytes queued, takes the step of hearing a segment. */
  ghost predicate Steps(s: Socket, seg: Segment, st': State, q': Queue, sent: seq<byte>, base: int, expected: int) {
    && s.Valid() && s.outQ.bytes != [] && ISN <= base <= expected <= base + |sent| < TWO_32
    && InStep(s.outQ, sent, base) && s.outQ.lsn <= expected && TrueAck(seg, base, expected)
    && OutgoingStep(s.state, s.outQ, seg, st', q')
  }

  lemma DataExactly(s: Socket, seg: Segment, st': State, q': Queue, sent: seq<byte>, base: int, expected: int)
    requires Steps(s, seg, st', q', sent, base, expected) && MayTransfer(s)
    ensures InStep(q', sent, base) <==> KeepsCount(s, seg)
  {
    if seg.ack {
      RecordAckExactly(s.outQ, seg.ackno, q', sent, base, expected);
    }
  }

  lemma LastAckExactly(s: Socket, seg: Segment, st': State, q': Queue, sent: seq<byte>, base: int, expected: int)
    requires Steps(s, seg, st', q', sent, base, expected) && s.state == LastAck
    ensures InStep(q', sent, base) <==> KeepsCount(s, seg)
  {
    if seg.ack {
      RecordAckExactly(s.outQ, seg.ackno, RecordAck(s.outQ, seg.ackno), sent, base, expected);
    }
  }

  lemma FinWait1Exactly(s: Socket, seg: Segment, st': State, q': Queue, sent: seq<byte>, base: int, expected: int)
    requires Steps(s, seg, st', q', sent, base, expected) && s.state == FinWait1
    ensures InStep(q', sent, base) <==> KeepsCount(s, seg)
  {
    SkippedNumbersBreakStep(s.outQ, sent, base);
  }

  lemma QuietExactly(s: Socket, seg: Segment, st': State, q': Queue, sent: seq<byte>, base: int, expected: int)
    requires Steps(s, seg, st', q', sent, base, expected) && s.state in {SynSent, SynReceived, FinWait2}
    ensures InStep(q', sent, base) && KeepsCount(s, seg)
  {
  }

  /** A delivered segment leaves bytes queued in step with the stream if and only if it keeps the count: in every state
      in which a sender has a queue to send from. */
  lemma CountIsExact(s: Socket, seg: Segment, sent: seq<byte>, base: int, expected: int)
    requires s.Valid() && s.state !in {Closed, Listen, Closing, TimeWait, Deleted}
    requires ISN <= base <= expected <= base + |sent| < TWO_32
    requires InStep(s.outQ, sent, base) && s.outQ.lsn <= expected && TrueAck(seg, base, expected)
    ensures (s.outQ.bytes == [] || InStep(Filter(s, seg).sock.outQ, sent, base)) <==> KeepsCount(s, seg)
  {
    HeardOutgoing(s, seg);
    var s' := Filter(s, seg).sock;
    if s.outQ.bytes != [] {
      match s.state {
        case Established | CloseWait => DataExactly(s, seg, s'.state, s'.outQ, sent, base, expected);
        case LastAck => LastAckExactly(s, seg, s'.state, s'.outQ, sent, base, expected);
        case FinWait1 => FinWait1Exactly(s, seg, s'.state, s'.outQ, sent, base, expected);
        case _ => QuietExactly(s, seg, s'.state, s'.outQ, sent, base, expected);
      }
    }
  }

  lemma HearingCountsExactly(x: Endpoint, y: Endpoint, base: u32, seg: Segment)
    requires ISN <= base && x.sock.Valid() && Direction(x, y, base) && seg in y.net && Open(y.sock.state)
    requires x.sock.state !in {Closed, Listen, Closing, TimeWait, Deleted}
    ensures (x.sock.outQ.bytes == [] || InStep(Filter(x.sock, seg).sock.outQ, x.sent, base)) <==> KeepsCount(x.sock, seg)
  {
    assert |y.read + y.sock.inQ.bytes| <= |x.sent|;
    assert TrueAck(seg, base, Expected(y, base));
    CountIsExact(x.sock, seg, x.sent, base, Expected(y, base));
  }

  /** So it is for every delivery in a connection whose flow holds. */
  lemma DeliveryCountsExactly(s: System, seg: Segment, fromActive: bool)
    requires Flow(s, fromActive) && seg in To(s, fromActive).net && Open(To(s, fromActive).sock.state)
    requires From(s, fromActive).sock.state !in {Closed, Listen, Closing, TimeWait, Deleted}
    ensures var x := From(s, fromActive);
      (x.sock.outQ.bytes == [] || InStep(Filter(x.sock, seg).sock.outQ, x.sent, Base(fromActive)))
        <==> KeepsCount(x.sock, seg)
  {
    if fromActive {
      HearingCountsExactly(s.a, s.p, ACTIVE_BASE, seg);
    } else {
      HearingCountsExactly(s.p, s.a, PASSIVE_BASE, seg);
    }
  }

  // ----- progress -----

  lemma TakeAdvances(q: Queue, seqno: u32, data: seq<byte>)
    requires q.Valid() && ISN <= seqno <= q.lsn && data != [] && seqno + |data| < TWO_32
    ensures TakeData(q, seqno, data).lsn
        == if seqno + |data| <= q.lsn then q.lsn else Min(seqno + |data|, q.lsn + QUEUE_SIZE - |q.bytes|)
  {
    NewBytesBelowWrap(seqno, |data|, q.lsn);
  }

  /** A segment fired now is never a gap: delivered, it moves the receiver to the segment's end or fills its queue. */
  lemma DeliveredFireAdvances(x: Endpoint, y: Endpoint, base: u32)
    requires ISN <= base && x.sock.Valid() && y.sock.Valid() && Direction(x, y, base)
    requires MayTransfer(x.sock) && MayTransfer(y.sock) && FireLength(x.sock) > 0
    ensures var expected := y.sock.inQ.lsn;
      var end := x.sock.outQ.lsn + FireLength(x.sock);
      Filter(y.sock, FireSegment(x.sock)).sock.inQ.lsn
        == if end <= expected then expected else Min(end, expected + Window(y.sock))
  {
    FlowOf(x, y, base);
    var seg := FireSegment(x.sock);
    HeardIncoming(y.sock, seg);
    TakeAdvances(y.sock.inQ, seg.seqno, seg.data);
  }

  lemma AckTrims(q: Queue, sent: seq<byte>, base: int, ackno: u32)
    requires q.Valid() && ISN <= base && QueueInStep(q, sent, base) && q.lan == q.lsn
    requires q.lsn <= ackno <= base + |sent| < TWO_32
    ensures RecordAck(q, ackno).bytes == sent[ackno - base..]
  {
    assert Wrap(ackno - q.lan) == ackno - q.lan;
  }

  /** An acknowledgement fired now, delivered to a synchronised sender, leaves queued exactly the bytes that are still
      to be received. */
  lemma DeliveredAckTrims(x: Endpoint, y: Endpoint, base: u32)
    requires ISN <= base && x.sock.Valid() && y.sock.Valid() && Direction(x, y, base)
    requires MayTransfer(x.sock) && MayTransfer(y.sock) && x.sock.outQ.lan == x.sock.outQ.lsn
    ensures y.read + y.sock.inQ.bytes + Filter(x.sock, FireSegment(y.sock)).sock.outQ.bytes == x.sent
  {
    FlowOf(x, y, base);
    HeardOutgoing(x.sock, FireSegment(y.sock));
    AckTrims(x.sock.outQ, x.sent, base, y.sock.inQ.lsn);
  }

  // ----- reachable states -----

  ghost predicate Reachable(s: System) {
    exists states, steps :: Run(states, steps) && states[|steps|] == s
  }

  lemma InitialIsReachable()
    ensures Reachable(INITIAL)
  {
    assert Run([INITIAL], []);
  }

  lemma NextIsReachable(s: System, t: Step)
    requires Reachable(s) && StepOk(s, t)
    ensures Reachable(Next(s, t))
  {
    var states, steps :| Run(states, steps) && states[|steps|] == s;
    RunGoesOn(states, steps, t);
  }

  lemma RunGoesOn(states: seq<System>, steps: seq<Step>, t: Step)
    requires Run(states, steps) && StepOk(states[|steps|], t)
    ensures Run(states + [Next(states[|steps|], t)], steps + [t])
  {
    var all, every := states + [Next(states[|steps|], t)], steps + [t];
    forall i {:trigger every[i]} | 0 <= i < |every|
      ensures StepOk(all[i], every[i]) && all[i + 1] == Next(all[i], every[i])
    {
      if i < |steps| {
        RunStep(states, steps, i);
      }
    }
  }
}
