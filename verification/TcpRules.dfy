/** What a TCP socket may send and where it goes, state by state, without the functions that compute it. */
module TcpRules {
  import opened Words
  import opened ByteQueues
  import opened Tcp

  // ----- segments -----

  /** The data are the first of the queued bytes: as many as are queued, as the window is open for, or as fit in a packet. */
  predicate Carries(data: seq<byte>, queued: seq<byte>, window: nat) {
    && data <= queued && |data| <= window && |data| <= 4000
    && (|data| == |queued| || |data| == window || |data| == 4000)
  }

  /** The header of a fired segment: numbers, the room left for the peer's bytes, and FIN once this end has closed first. */
  predicate Heads(seg: Segment, s: Socket) {
    && seg.seqno == s.outQ.lsn && seg.ackno == s.inQ.lsn && seg.window + |s.inQ.bytes| == QUEUE_SIZE
    && seg.ack && !seg.syn && (seg.fin <==> s.state == FinWait1 || s.state == FinWait2)
  }

  /** Fire sends one segment, unless there is nothing to send and nothing to acknowledge, or the socket is done with. */
  lemma FireSends(s: Socket)
    requires s.Valid()
    ensures var o := Fire(s);
      && (o.sent == {} <==> s.state == TimeWait || s.state == Deleted || (s.outQ.bytes == [] && s.inQ.lsn == s.inQ.lan))
      && (forall seg | seg in o.sent :: Heads(seg, s) && Carries(seg.data, s.outQ.bytes, s.remoteWindow) && o.sent == {seg})
      && o.sock.outQ == s.outQ && o.sock.remoteWindow == s.remoteWindow
      && o.sock.inQ == (if o.sent == {} then s.inQ else s.inQ.(lan := s.inQ.lsn))
      && o.sock.state == if s.state == TimeWait then Deleted else s.state
  {
  }

  /** Send queues what there is room for, and fires once 1460 bytes are queued. */
  lemma SendSends(s: Socket, bytes: seq<byte>)
    requires s.Valid()
    ensures var o, n := Tcp.Send(s, bytes), SendAccepts(s, |bytes|);
      && n <= |bytes| && (s.state != Established && s.state != CloseWait ==> n == 0 && o == Outcome(s, {}))
      && o.sock.outQ == s.outQ.(bytes := s.outQ.bytes + bytes[..n])
      && (s.state == Established || s.state == CloseWait ==> n == |bytes| || |s.outQ.bytes| + n == QUEUE_SIZE)
      && (o.sent == {} <==> n == 0 || |s.outQ.bytes| + n < 1460)
      && (forall seg | seg in o.sent ::
            Heads(seg, s) && Carries(seg.data, s.outQ.bytes + bytes[..n], s.remoteWindow) && o.sent == {seg})
      && o.sock.state == s.state && o.sock.inQ == if o.sent == {} then s.inQ else s.inQ.(lan := s.inQ.lsn)
  {
    if s.state == Established || s.state == CloseWait {
      if bytes == [] || |s.outQ.bytes| == QUEUE_SIZE {
        assert bytes[..0] == [] && s.outQ.bytes + [] == s.outQ.bytes;
      } else {
        FireSends(s.(outQ := s.outQ.Enqueue(bytes)));
      }
    } else {
      assert s.outQ.bytes + bytes[..0] == s.outQ.bytes;
    }
  }

  /** A segment of Close carries FIN but for one from CLOSE_WAIT, and there is one exactly if there is something to send or
      to acknowledge: an idle socket closes without a word. */
  lemma CloseSends(s: Socket)
    requires s.Valid()
    ensures var o := Tcp.Close(s);
      && (o.sent == {} <==> s.state in {Closed, Listen, State.Closing, LastAck, TimeWait, Deleted}
                            || (s.outQ.bytes == [] && s.inQ.lsn == s.inQ.lan))
      && (forall seg | seg in o.sent ::
            && Heads(seg, s.(state := o.sock.state)) && Carries(seg.data, s.outQ.bytes, s.remoteWindow)
            && o.sent == {seg} && (seg.fin <==> s.state != CloseWait))
      && o.sock == s.(state := o.sock.state, inQ := if o.sent == {} then s.inQ else s.inQ.(lan := s.inQ.lsn))
  {
  }

  /** Connect sends one SYN, which carries FIN, and counts on from the number behind it. */
  lemma ConnectSends(s: Socket)
    requires s.Valid()
    ensures var o := Tcp.Connect(s);
      if s.state == Closed then
        && o.sent == {Segment(ISN, s.inQ.lsn, true, false, true, QUEUE_SIZE - |s.inQ.bytes|, [])}
        && o.sock == s.(state := SynSent, outQ := s.outQ.(lsn := ISN + 1, lan := ISN - 1))
      else o == Outcome(s, {})
  {
  }

  /** The life of a socket that is closed. */
  lemma CloseLeads(s: Socket)
    requires s.Valid()
    ensures var st := Tcp.Close(s).sock.state;
      && (s.state in {Closed, Listen} ==> st == Deleted)
      && (s.state in {SynSent, SynReceived, Established, FinWait1} ==> st == FinWait1)
      && (s.state == CloseWait ==> st == LastAck)
      && (s.state in {FinWait2, State.Closing, LastAck, TimeWait, Deleted} ==> st == s.state)
  {
  }

  // ----- the reaction to a segment -----

  /** The state a segment leads to. */
  predicate Moves(s: Socket, seg: Segment, st: State)
    requires s.Valid()
  {
    match s.state
    case Closed | Deleted | TimeWait => st == s.state
    case Listen => st == if seg.syn then SynReceived else Listen
    case SynSent =>
      && (st == SynReceived <==> seg.syn && !seg.ack)
      && (st == Established <==> seg.syn && seg.ack && !ModLt(seg.ackno, s.outQ.lsn))
      && st in {SynSent, SynReceived, Established}
    case SynReceived => st == if seg.ack && seg.ackno == s.outQ.lsn then Established else SynReceived
    case Established | CloseWait => st == if seg.fin then CloseWait else s.state
    case FinWait1 =>
      && (st == FinWait2 <==> seg.ack && seg.ackno == s.outQ.lsn)
      && (st == State.Closing <==> seg.fin && !(seg.ack && seg.ackno == s.outQ.lsn))
      && st in {FinWait1, FinWait2, State.Closing}
    case FinWait2 => st == if seg.fin then TimeWait else FinWait2
    case Closing => st == if seg.ack && !ModLt(seg.ackno, s.outQ.lsn) then TimeWait else State.Closing
    case LastAck => st == if seg.ack && AllAcked(s.outQ, seg.ackno) then Deleted else LastAck
  }

  /** Nothing is queued, or as many bytes as that are acknowledged. */
  predicate AllAcked(q: Queue, ackno: u32) {
    q.bytes == [] || |q.bytes| <= Wrap(ackno - q.lan) < TWO_31
  }

  /** Which segments are answered. */
  predicate IsAnswered(s: Socket, seg: Segment) {
    match s.state
    case Listen => seg.syn
    case SynSent => seg.syn && (seg.ack ==> !ModLt(seg.ackno, s.outQ.lsn))
    case Established | CloseWait | FinWait2 => seg.fin
    case FinWait1 => seg.fin && !(seg.ack && seg.ackno == s.outQ.lsn)
    case LastAck => seg.ack
    case _ => false
  }

  /** The one answer, without data: SYN only to open, FIN once this end has closed, the numbers as they are when it leaves. */
  predicate Answer(r: Segment, s: Socket, seg: Segment, s': Socket) {
    && r.data == [] && r.ack && r.window + |s'.inQ.bytes| == QUEUE_SIZE
    && (r.syn <==> s.state == Listen || (s.state == SynSent && seg.ack))
    && (r.fin <==> s.state in {FinWait1, FinWait2, LastAck})
    && r.seqno == (if s.state == FinWait1 then s.outQ.lsn else s'.outQ.lsn)
    && r.ackno == if s.state == FinWait2 then s.inQ.lsn else s'.inQ.lsn
  }

  /** What a segment does to the numbers outside of the transfer of data. */
  predicate Numbers(s: Socket, seg: Segment, s': Socket)
    requires s.Valid()
  {
    match s.state
    case Closed | Deleted => s' == s
    case Listen =>
      if seg.syn then
        && s'.inQ == Queue(0, [], Wrap(seg.seqno + 1), seg.seqno) && s'.outQ == Queue(0, [], ISN, ISN - 1)
        && s'.remoteWindow == 0
      else s' == s
    case SynSent =>
      && s'.outQ == s.outQ
      && s'.inQ == if seg.syn then s.inQ.(lsn := seg.seqno, lan := Wrap(seg.seqno - 1)) else s.inQ
    case SynReceived =>
      s'.inQ == s.inQ && s'.outQ == if s'.state == Established then s.outQ.(lan := seg.ackno) else s.outQ
    case FinWait1 =>
      && s'.inQ == s.inQ
      && s'.outQ == if s'.state == FinWait2 then s.outQ.(lan := seg.ackno)
                    else if s'.state == State.Closing then s.outQ.(lsn := Wrap(s.outQ.lsn + 2)) else s.outQ
    case FinWait2 => s'.outQ == s.outQ && s'.inQ == if seg.fin then s.inQ.(lsn := Wrap(s.inQ.lsn + 1)) else s.inQ
    case Closing => s'.inQ == s.inQ && s'.outQ == if s'.state == TimeWait then s.outQ.(lan := seg.ackno) else s.outQ
    case TimeWait => s'.inQ == s.inQ && s'.outQ == s.outQ
    case Established | CloseWait =>
      && Taken(s.inQ, seg.seqno, seg.data, s'.inQ)
      && if seg.ack then Acked(s.outQ, seg.ackno, s'.outQ) else s'.outQ == s.outQ
    case LastAck =>
      && s'.inQ == s.inQ && (!seg.ack ==> s'.outQ == s.outQ) && (seg.ack ==> s'.outQ.lan == seg.ackno)
      && (Wrap(seg.ackno - s.outQ.lan) >= TWO_31 ==> s'.outQ.bytes == s.outQ.bytes && s'.outQ.lsn == s.outQ.lsn)
  }

  /** What recording an acknowledgement leaves: the numbers moved, and the bytes gone by which it is ahead of the last one. */
  predicate Acked(q: Queue, ackno: u32, r: Queue) {
    var d := Wrap(ackno - q.lan);
    if d >= TWO_31 then r == q else r.lsn == r.lan == ackno && r.bytes == q.bytes[Min(d, |q.bytes|)..]
  }

  lemma RecordAckDrops(q: Queue, ackno: u32)
    requires q.Valid()
    ensures Acked(q, ackno, RecordAck(q, ackno))
  {
  }

  /** What arriving data leave: nothing is taken of a segment past the expected number or with nothing beyond it, otherwise
      its last bytes, those from the expected number on, as far as there is room. */
  predicate Taken(q: Queue, seqno: u32, data: seq<byte>, r: Queue)
    requires q.Valid()
  {
    var n := Wrap(seqno + |data| - q.lsn);
    var k := Min(n, QUEUE_SIZE - |q.bytes|);
    if data == [] || seqno > q.lsn || n == 0 || n >= TWO_31 then r == q else
      && r.start == q.start && r.lan == q.lan && r.lsn == Wrap(q.lsn + k)
      && q.bytes <= r.bytes && |r.bytes| == |q.bytes| + k
      && (n <= |data| ==> r.bytes[|q.bytes|..] == data[|data| - n..][..k])
  }

  lemma DataTaken(q: Queue, seqno: u32, data: seq<byte>)
    requires q.Valid()
    ensures Taken(q, seqno, data, TakeData(q, seqno, data))
  {
    WrapSmall(q.lsn);
  }

  lemma WrapSmall(x: u32)
    ensures Wrap(x) == x
  {
  }

  /** All of it. Every socket but a free one and a listener learns the window. */
  predicate Reacts(s: Socket, seg: Segment, o: Outcome)
    requires s.Valid()
  {
    && Moves(s, seg, o.sock.state) && Numbers(s, seg, o.sock)
    && Answers(s, seg, o)
    && (s.state !in {Closed, Deleted, Listen} ==> o.sock.remoteWindow == seg.window)
  }

  lemma FilterMoves(s: Socket, seg: Segment)
    requires s.Valid()
    ensures Moves(s, seg, Filter(s, seg).sock.state)
  {
  }

  lemma DataNumbers(s: Socket, seg: Segment, s': Socket)
    requires s.Valid() && s.state in {Established, CloseWait}
    requires s'.inQ == TakeData(s.inQ, seg.seqno, seg.data)
    requires s'.outQ == if seg.ack then RecordAck(s.outQ, seg.ackno) else s.outQ
    ensures Numbers(s, seg, s')
  {
    RecordAckDrops(s.outQ, seg.ackno);
    DataTaken(s.inQ, seg.seqno, seg.data);
  }

  lemma FilterNumbers(s: Socket, seg: Segment)
    requires s.Valid()
    ensures Numbers(s, seg, Filter(s, seg).sock)
  {
    if s.state in {Established, CloseWait} {
      DataNumbers(s, seg, Filter(s, seg).sock);
    }
  }

  predicate Answers(s: Socket, seg: Segment, o: Outcome)
    requires s.Valid()
  {
    (o.sent == {} <==> !IsAnswered(s, seg)) && forall r | r in o.sent :: o.sent == {r} && Answer(r, s, seg, o.sock)
  }

  lemma OpeningAnswers(s: Socket, seg: Segment)
    requires s.Valid() && s.state in {Closed, Deleted, TimeWait, Listen, SynSent, SynReceived}
    ensures Answers(s, seg, Filter(s, seg))
  {
  }

  lemma TransferAnswers(s: Socket, seg: Segment)
    requires s.Valid() && s.state in {Established, CloseWait}
    ensures Answers(s, seg, Filter(s, seg))
  {
  }

  lemma FinalAnswers(s: Socket, seg: Segment)
    requires s.Valid() && s.state in {FinWait1, FinWait2, State.Closing, LastAck}
    ensures Answers(s, seg, Filter(s, seg))
  {
  }

  /** The reaction to every segment in every state. */
  lemma FilterReacts(s: Socket, seg: Segment)
    requires s.Valid()
    ensures Reacts(s, seg, Filter(s, seg))
  {
    FilterMoves(s, seg);
    FilterNumbers(s, seg);
    if s.state in {Established, CloseWait} {
      TransferAnswers(s, seg);
    } else if s.state in {FinWait1, FinWait2, State.Closing, LastAck} {
      FinalAnswers(s, seg);
    } else {
      OpeningAnswers(s, seg);
    }
  }

  lemma ListenReacts(s: Socket, seg: Segment, o: Outcome)
    requires s.Valid() && s.state == Listen && seg.syn && o == Tcp.OnListen(s, seg)
    ensures Reacts(s, seg, o)
  {
    FilterReacts(s, seg);
  }
}
