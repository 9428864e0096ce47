/** A window that closes while bytes wait: nothing but a repeated segment opens it again. */
module TcpWindows {
  import opened Words
  import opened ByteQueues
  import opened Tcp
  import opened TcpConnections
  import opened TcpRuns
  import opened TcpFailures

  /** The passive end has bytes the active one lacks and knows of no window to send them; the active end has nothing to
      send and nothing to acknowledge; nothing new is on the network. */
  ghost predicate Stalled(s: System) {
    && Flow(s, false) && MayTransfer(s.a.sock) && MayTransfer(s.p.sock)
    && Expected(s.a, PASSIVE_BASE) < PASSIVE_BASE + |s.p.sent| && s.p.sock.remoteWindow == 0
    && s.a.sock.outQ.bytes == [] && s.a.sock.inQ.lsn == s.a.sock.inQ.lan
    && NothingNew(s.p.net, s.a.sock.inQ.lsn)
  }

  ghost predicate NothingNew(net: set<Segment>, expected: int) {
    forall seg | seg in net :: !seg.fin && (seg.data != [] ==> seg.seqno + |seg.data| <= expected)
  }

  /** What needs neither user: timers, segments, and reading. */
  predicate Quiet(c: Call) {
    c.Fire? || c.Receive? || c.Deliver?
  }

  /** A segment that announces room reaches the passive end. */
  predicate OpensWindow(t: Step) {
    !t.atActive && t.call.Deliver? && t.call.seg.window > 0
  }

  // ----- the active end -----

  lemma OldDataIgnored(q: Queue, seg: Segment, base: int)
    requires q.Valid() && ISN <= base <= q.lsn
    requires seg.data != [] ==> base <= seg.seqno && seg.seqno + |seg.data| <= q.lsn
    ensures TakeData(q, seg.seqno, seg.data) == q
  {
    if seg.data != [] {
      NewBytesBelowWrap(seg.seqno, |seg.data|, q.lsn);
    }
  }

  lemma NoFinNoReply(s: Socket, seg: Segment)
    requires s.Valid() && MayTransfer(s) && !seg.fin
    ensures Filter(s, seg).sent == {} && Filter(s, seg).sock.state == s.state
  {
  }

  lemma EmptyStaysEmpty(q: Queue, ackno: u32)
    requires q.Valid() && q.bytes == []
    ensures RecordAck(q, ackno).bytes == []
  {
  }

  /** Whatever it reads or hears, the active end sends nothing and expects the same number. */
  lemma ActiveStaysSilent(s: System, c: Call)
    requires Stalled(s) && StepOk(s, Step(true, c)) && Quiet(c)
    ensures var a := Act(s.a, c);
      && a.net == s.a.net && MayTransfer(a.sock) && a.sock.outQ.bytes == []
      && a.sock.inQ.lsn == a.sock.inQ.lan == s.a.sock.inQ.lsn && Expected(a, 0) == Expected(s.a, 0)
  {
    var a := s.a.sock;
    match c {
      case Deliver(seg) =>
        HeardIncoming(a, seg);
        HeardOutgoing(a, seg);
        assert TrueData(seg, s.p.sent, PASSIVE_BASE);
        OldDataIgnored(a.inQ, seg, PASSIVE_BASE);
        NoFinNoReply(a, seg);
        EmptyStaysEmpty(a.outQ, seg.ackno);
        assert s.a.net + {} == s.a.net;
      case Fire =>
        assert FireIdle(a) && s.a.net + {} == s.a.net;
      case Receive(n) =>
    }
  }

  // ----- the passive end -----

  /** The passive end sends only segments without data, and learns the window of what it hears. */
  lemma PassiveStaysBlocked(s: System, c: Call)
    requires Stalled(s) && StepOk(s, Step(false, c)) && Quiet(c)
    ensures var p := Act(s.p, c);
      && MayTransfer(p.sock) && p.sent == s.p.sent && NothingNew(p.net, s.a.sock.inQ.lsn)
      && p.sock.remoteWindow == if c.Deliver? then c.seg.window else 0
  {
    var p := s.p.sock;
    match c {
      case Deliver(seg) =>
        HeardIncoming(p, seg);
        RepliesCarryNoData(p, seg);
        RepliedFins(p, seg);
      case Fire =>
        assert FireLength(p) == 0 && FireSegment(p).data == [];
      case Receive(n) =>
    }
  }

  /** As long as neither user sends or closes, a stalled connection stays so, with nothing sent by the end that reads,
      exactly until a segment with an open window is heard again: reading everything does not help. */
  lemma StallEndsExactly(s: System, t: Step)
    requires Stalled(s) && StepOk(s, t) && Quiet(t.call)
    ensures Stalled(Next(s, t)) <==> !OpensWindow(t)
    ensures Next(s, t).a.net == s.a.net
  {
    NextKeepsFlow(s, t, false);
    if t.atActive {
      ActiveStaysSilent(s, t.call);
    } else {
      PassiveStaysBlocked(s, t.call);
    }
  }

  /** Over every run. */
  lemma {:induction false} StallLasts(states: seq<System>, steps: seq<Step>, i: nat, j: nat)
    requires Run(states, steps) && i <= j < |states| && Stalled(states[i])
    requires forall k {:trigger steps[k]} | i <= k < j :: Quiet(steps[k].call) && !OpensWindow(steps[k])
    ensures Stalled(states[j]) && states[j].a.net == states[i].a.net
  {
    if i < j {
      StallLasts(states, steps, i, j - 1);
      RunStep(states, steps, j - 1);
      StallEndsExactly(states[j - 1], steps[j - 1]);
    }
  }

  // ----- such a connection -----

  const CHUNK := 2048

  function Zeros(n: nat): seq<byte> {
    seq(n, _ => 0)
  }

  // Once the passive end has sent `n` zeros and the active one received and acknowledged them, and read none.
  function Holds(n: nat): Socket
    requires n <= QUEUE_SIZE
  {
    Socket(Established, Queue(0, Zeros(n), ISN + n, if n == 0 then ISN - 1 else ISN + n),
           Queue(0, [], ISN + 1, if n == 0 then ISN - 1 else ISN + 1), QUEUE_SIZE)
  }

  function Knows(n: nat): Socket
    requires n <= QUEUE_SIZE
  {
    Socket(Established, Queue(0, [], ISN + 1, if n == 0 then ISN else ISN + 1), Queue(0, [], ISN + n, ISN + n), QUEUE_SIZE - n)
  }

  // Then it sends another chunk, which leaves at once.
  function Sending(n: nat): Socket
    requires n <= QUEUE_SIZE
  {
    Knows(n).(inQ := Queue(0, [], ISN + 1, ISN + 1), outQ := Queue(0, Zeros(CHUNK), ISN + n, ISN + n))
  }

  function Chunk(n: nat): Segment
    requires n <= QUEUE_SIZE
  {
    Segment(ISN + n, ISN + 1, false, true, false, QUEUE_SIZE, Zeros(CHUNK))
  }

  function ChunkAck(n: nat): Segment
    requires n <= QUEUE_SIZE
  {
    Segment(ISN + 1, ISN + n, false, true, false, QUEUE_SIZE - n, [])
  }

  lemma ChunkFires(n: nat)
    requires n + CHUNK <= QUEUE_SIZE
    ensures Tcp.Send(Knows(n), Zeros(CHUNK)) == Outcome(Sending(n), {Chunk(n)})
    ensures SendAccepts(Knows(n), CHUNK) == CHUNK
  {
    assert Zeros(CHUNK)[..CHUNK] == Zeros(CHUNK) && [] + Zeros(CHUNK) == Zeros(CHUNK);
    var s := Knows(n).(outQ := Knows(n).outQ.Enqueue(Zeros(CHUNK)));
    assert FireLength(s) == CHUNK;
  }

  lemma SendsChunk(s: System, n: nat) returns (s': System)
    requires n + CHUNK <= QUEUE_SIZE && Reached(s, View(Holds(n), Knows(n), [], Zeros(n)))
    ensures Reached(s', View(Holds(n), Sending(n), [], Zeros(n + CHUNK))) && Added(s, s', false, {Chunk(n)})
  {
    ChunkFires(n);
    assert Zeros(CHUNK)[..CHUNK] == Zeros(CHUNK) && Zeros(n) + Zeros(CHUNK) == Zeros(n + CHUNK);
    var t := Step(false, Call.Send(Zeros(CHUNK)));
    s' := Next(s, t);
    NextIsReachable(s, t);
  }

  lemma ChunkArrives(n: nat)
    requires n + CHUNK <= QUEUE_SIZE
    ensures var out := RecordAck(Holds(n).outQ, ISN + 1);
      out == Holds(n + CHUNK).outQ && Fired(Took(Holds(n), Chunk(n), out)) == Holds(n + CHUNK)
  {
    assert Zeros(n) + Zeros(CHUNK) == Zeros(n + CHUNK);
  }

  lemma ChunkAcked(n: nat)
    requires n + CHUNK <= QUEUE_SIZE
    ensures Filter(Sending(n), ChunkAck(n + CHUNK)) == Outcome(Knows(n + CHUNK), {})
  {
    assert Wrap(ISN + (n + CHUNK) - (ISN + n)) == CHUNK;
  }

  /** One more chunk is sent, received and acknowledged. */
  lemma Fills(s: System, n: nat) returns (s': System)
    requires n + CHUNK <= QUEUE_SIZE && Reached(s, View(Holds(n), Knows(n), [], Zeros(n)))
    ensures Reached(s', View(Holds(n + CHUNK), Knows(n + CHUNK), [], Zeros(n + CHUNK)))
    ensures s'.p.net == s.p.net + {Chunk(n)}
  {
    var m := n + CHUNK;
    var out := Holds(m).outQ;
    ChunkArrives(n);
    ChunkAcked(n);
    var s1 := SendsChunk(s, n);
    var s2 := HearsNext(s1, View(Holds(n), Sending(n), [], Zeros(m)), true, Chunk(n), out);
    var took := Took(Holds(n), Chunk(n), out);
    assert FireSegment(took) == ChunkAck(m);
    var s3 := Fires(s2, View(took, Sending(n), [], Zeros(m)), true, ChunkAck(m));
    s' := TcpFailures.Hears(s3, View(Holds(m), Sending(n), [], Zeros(m)), false, ChunkAck(m), Outcome(Knows(m), {}));
  }

  lemma {:induction false} FillsUpTo(rounds: nat) returns (s: System)
    requires rounds * CHUNK <= QUEUE_SIZE
    ensures Reached(s, View(Holds(rounds * CHUNK), Knows(rounds * CHUNK), [], Zeros(rounds * CHUNK)))
    ensures NothingNew(s.p.net, ISN + rounds * CHUNK)
  {
    if rounds == 0 {
      s := TcpFailures.Opens();
      assert Holds(0) == ACTIVE && Knows(0) == PASSIVE;
    } else {
      var s0 := FillsUpTo(rounds - 1);
      s := Fills(s0, (rounds - 1) * CHUNK);
    }
  }

  lemma ReachedFlows(s: System)
    requires Reachable(s) && Open(s.p.sock.state)
    ensures Flow(s, false)
  {
    var states, steps :| Run(states, steps) && states[|steps|] == s;
    PassiveAlwaysCounts(states, steps, |steps|);
    RunKeepsFlow(states, steps, |steps|, false);
  }

  /** The active end's queue is filled and not read; the passive end has one more byte to send. */
  lemma StallIsReached() returns (s: System)
    ensures Reachable(s) && Stalled(s)
  {
    var n := 8 * CHUNK;
    var v := View(Holds(n), Knows(n), [], Zeros(n));
    var s0 := FillsUpTo(8);
    s := Sends(s0, v, false, [1]);
    ReachedFlows(s);
  }
}
