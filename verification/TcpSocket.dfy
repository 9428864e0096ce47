/** The TCP socket of libs/tcp/tcp.c as the object it is: fields and two byte rings updated in place.
    Every method is proved to leave the value that module Tcp says, and to send the segments it says. */
module TcpSockets {
  import opened Words
  import opened ByteQueues
  import Tcp
  import TcpRules

  type Segment = Tcp.Segment

  class TcpSocket {
    var state: Tcp.State
    const inQ: ByteQueue
    const outQ: ByteQueue
    var remoteWindow: nat
    var waitingToAccept: TcpSocket?

    ghost predicate Valid()
      reads this, inQ, outQ
    {
      inQ != outQ && inQ.data != outQ.data && inQ.Valid() && outQ.Valid()
    }

    /** Everything a call on this socket may change. */
    ghost function Parts(): set<object> {
      {this, inQ, outQ, inQ.data, outQ.data}
    }

    ghost function Value(): (s: Tcp.Socket)
      requires Valid()
      reads this, inQ, outQ, inQ.data, outQ.data
      ensures s.Valid()
    {
      Tcp.Socket(state, inQ.Value(), outQ.Value(), remoteWindow)
    }

    constructor ()
      ensures Valid() && fresh(Parts())
      ensures Value() == Tcp.NewSocket(Tcp.Closed) && waitingToAccept == null
    {
      state := Tcp.Closed;
      inQ := new ByteQueue();
      outQ := new ByteQueue();
      remoteWindow := 0;
      waitingToAccept := null;
    }

    // ----- sending -----

    method SendSimple(syn: bool, ack: bool) returns (sent: set<Segment>)
      requires Valid()
      ensures sent == {Tcp.Simple(Value(), syn, ack)}
    {
      var fin := state in {Tcp.LastAck, Tcp.FinWait1, Tcp.FinWait2, Tcp.Closed, Tcp.TimeWait};
      sent := {Tcp.Segment(outQ.latestSequenceNumber, inQ.latestSequenceNumber, syn, ack, fin, QUEUE_SIZE - inQ.len, [])};
    }

    method SendInitial(ack: bool) returns (sent: set<Segment>)
      requires Valid()
      modifies outQ
      ensures Valid()
      ensures Tcp.Outcome(Value(), sent) == Tcp.SendInitial(old(Value()), ack)
    {
      outQ.latestSequenceNumber := Tcp.ISN;
      outQ.latestAckNumber := Wrap(Tcp.ISN - 1);
      sent := SendSimple(true, ack);
    }

    method Connect() returns (sent: set<Segment>)
      requires Valid()
      modifies this, outQ
      ensures Valid()
      ensures Tcp.Outcome(Value(), sent) == Tcp.Connect(old(Value()))
      ensures if old(state) == Tcp.Closed then
          && sent == {Tcp.Segment(Tcp.ISN, inQ.latestSequenceNumber, true, false, true, QUEUE_SIZE - inQ.len, [])}
          && state == Tcp.SynSent && outQ.latestSequenceNumber == Tcp.ISN + 1 && outQ.latestAckNumber == Tcp.ISN - 1
        else sent == {} && Value() == old(Value())
    {
      sent := {};
      TcpRules.ConnectSends(Value());
      if state == Tcp.Closed {
        sent := SendInitial(false);
        outQ.latestSequenceNumber := Wrap(outQ.latestSequenceNumber + 1);
        state := Tcp.SynSent;
      }
    }

    method Fire() returns (sent: set<Segment>)
      requires Valid() && Tcp.FireFits(Value())
      modifies this, inQ, outQ
      ensures Valid()
      ensures Tcp.Outcome(Value(), sent) == Tcp.Fire(old(Value()))
      ensures sent == {} <==>
        (old(state) in {Tcp.TimeWait, Tcp.Deleted}
         || (old(outQ.len) == 0 && old(inQ.latestSequenceNumber) == old(inQ.latestAckNumber)))
      ensures forall seg | seg in sent ::
        TcpRules.Heads(seg, old(Value())) && TcpRules.Carries(seg.data, old(outQ.Bytes()), remoteWindow)
    {
      sent := {};
      TcpRules.FireSends(Value());
      if state == Tcp.TimeWait {
        state := Tcp.Deleted;
        return;
      }
      if state == Tcp.Deleted || (outQ.len == 0 && inQ.latestSequenceNumber == inQ.latestAckNumber) {
        return;
      }
      var nbytes := outQ.len;
      if nbytes > remoteWindow {
        nbytes := remoteWindow;
      }
      if nbytes > Tcp.SEGMENT_ROOM {
        nbytes := Tcp.SEGMENT_ROOM;
      }
      var actual, data := 0, [];
      if nbytes > 0 {
        actual, data := outQ.Read(nbytes);
      }
      var fin := state == Tcp.FinWait1 || state == Tcp.FinWait2;
      var seg := Tcp.Segment(outQ.latestSequenceNumber, inQ.latestSequenceNumber, false, true, fin,
                             QUEUE_SIZE - inQ.len, data);
      inQ.latestAckNumber := seg.ackno;
      sent := {seg};
    }

    /** TcpSocketSend: -1 when refused or full, else the number of bytes accepted. */
    method Send(bytes: seq<byte>) returns (r: int, sent: set<Segment>)
      requires Valid() && Tcp.SendFits(Value(), bytes)
      modifies Parts()
      ensures Valid()
      ensures Tcp.Outcome(Value(), sent) == Tcp.Send(old(Value()), bytes)
      ensures r >= 0 ==> r == Tcp.SendAccepts(old(Value()), |bytes|)
      ensures r == -1 <==> old(state) !in {Tcp.Established, Tcp.CloseWait} || (bytes != [] && old(outQ.len) == QUEUE_SIZE)
      ensures if r < 0 then outQ.Bytes() == old(outQ.Bytes()) && sent == {} else
        && outQ.Bytes() == old(outQ.Bytes()) + bytes[..r] && (r == |bytes| || outQ.len == QUEUE_SIZE)
        && (sent == {} <==> r == 0 || outQ.len < 1460)
      ensures forall seg | seg in sent ::
        TcpRules.Heads(seg, old(Value())) && TcpRules.Carries(seg.data, outQ.Bytes(), remoteWindow)
    {
      sent := {};
      TcpRules.SendSends(Value(), bytes);
      if state != Tcp.Established && state != Tcp.CloseWait {
        return -1, {};
      }
      if |bytes| == 0 {
        return 0, {};
      }
      r := outQ.Enqueue(bytes);
      if r < 0 {
        return -1, {};
      }
      if outQ.len >= Tcp.MTU - 40 {
        sent := Fire();
      }
    }

    /** TcpSocketReceive. While nothing is queued the source handles packets and ticks and looks again: `waits` says
        that the call is made again after other steps. */
    method Receive(nbytes: nat) returns (r: int, bytes: seq<byte>, waits: bool)
      requires Valid() && Tcp.ReceiveFits(Value(), nbytes)
      modifies inQ
      ensures Valid()
      ensures waits <==> Tcp.MayTransfer(old(Value())) && nbytes > 0 && old(Value()).inQ.bytes == []
      ensures waits ==> Value() == old(Value())
      ensures Tcp.MayTransfer(old(Value())) && !waits ==>
        var q := old(Value()).inQ;
        r == Min(nbytes, |q.bytes|) && bytes == q.bytes[..r] && Value() == old(Value()).(inQ := q.Dequeue(nbytes))
      ensures !Tcp.MayTransfer(old(Value())) ==> r == -1 && bytes == [] && Value() == old(Value())
    {
      if state != Tcp.Established && state != Tcp.CloseWait {
        return -1, [], false;
      }
      if nbytes == 0 {
        return 0, [], false;
      }
      if inQ.len == 0 {
        return 0, [], true;
      }
      r, bytes := inQ.Dequeue(nbytes);
      waits := false;
    }

    method Close() returns (sent: set<Segment>)
      requires Valid() && Tcp.FireFits(Value())
      modifies this, inQ, outQ
      ensures Valid()
      ensures Tcp.Outcome(Value(), sent) == Tcp.Close(old(Value()))
      ensures sent == {} <==>
        (old(state) in {Tcp.Closed, Tcp.Listen, Tcp.Closing, Tcp.LastAck, Tcp.TimeWait, Tcp.Deleted}
         || (old(outQ.len) == 0 && old(inQ.latestSequenceNumber) == old(inQ.latestAckNumber)))
      ensures forall seg | seg in sent ::
        && TcpRules.Heads(seg, old(Value()).(state := state)) && (seg.fin <==> old(state) != Tcp.CloseWait)
        && TcpRules.Carries(seg.data, old(outQ.Bytes()), remoteWindow)
    {
      sent := {};
      TcpRules.CloseSends(Value());
      if state == Tcp.Listen || state == Tcp.Closed {
        state := Tcp.Deleted;
      } else if state != Tcp.Closing && state != Tcp.LastAck && state != Tcp.TimeWait && state != Tcp.Deleted {
        if state == Tcp.SynSent || state == Tcp.SynReceived || state == Tcp.Established {
          state := Tcp.FinWait1;
        }
        var closing := state == Tcp.CloseWait;
        sent := Fire();
        if closing {
          state := Tcp.LastAck;
        }
      }
    }

    // ----- receiving -----

    method RecordAck(ackno: u32)
      requires Valid()
      modifies outQ
      ensures Valid() && Value() == old(Value()).(outQ := Tcp.RecordAck(old(Value()).outQ, ackno))
    {
      var delta := Wrap(ackno - outQ.latestAckNumber);
      if delta >= TWO_31 {
        return;
      }
      outQ.Drop(delta);
      outQ.latestSequenceNumber, outQ.latestAckNumber := ackno, ackno;
    }

    method TakeData(seqno: u32, data: seq<byte>)
      requires Valid() && Tcp.TakeFits(inQ.Value(), seqno, |data|)
      modifies inQ, inQ.data
      ensures Valid() && Value() == old(Value()).(inQ := Tcp.TakeData(old(Value()).inQ, seqno, data))
    {
      if |data| > 0 {
        if seqno > inQ.latestSequenceNumber {
          return;
        }
        var actual := Signed(Wrap(seqno + |data| - inQ.latestSequenceNumber));
        if actual > 0 {
          actual := inQ.Enqueue(Tcp.Tail(data, actual));
          if actual >= 0 {
            inQ.latestSequenceNumber := Wrap(inQ.latestSequenceNumber + actual);
          }
        }
      }
    }

    /** TcpFilterMethod for a socket that exists and is not listening. */
    method Filter(seg: Segment) returns (sent: set<Segment>)
      requires Valid() && Tcp.FilterFits(Value(), seg) && state != Tcp.Listen
      modifies Parts()
      ensures Valid()
      ensures Tcp.Outcome(Value(), sent) == Tcp.Filter(old(Value()), seg)
      ensures TcpRules.Reacts(old(Value()), seg, Tcp.Outcome(Value(), sent))
    {
      sent := {};
      TcpRules.FilterReacts(Value(), seg);
      if state == Tcp.Closed || state == Tcp.Deleted {
        return;
      }
      remoteWindow := seg.window;
      match state
      case SynSent => sent := OnSynSent(seg);
      case SynReceived =>
        if seg.ack && seg.ackno == outQ.latestSequenceNumber {
          outQ.latestAckNumber := seg.ackno;
          state := Tcp.Established;
        }
      case Established | CloseWait => sent := OnData(seg);
      case FinWait1 | FinWait2 | Closing | LastAck => sent := OnClosing(seg);
      case _ =>
    }

    /** The socket a SYN makes. */
    method Incoming(seg: Segment) returns (made: TcpSocket, sent: set<Segment>)
      requires Valid()
      ensures fresh(made) && made.Valid() && fresh(made.Parts())
      ensures seg.syn ==> Tcp.Outcome(made.Value(), sent) == Tcp.OnListen(Value(), seg)
    {
      made := new TcpSocket();
      made.state := Tcp.SynReceived;
      made.inQ.latestSequenceNumber, made.inQ.latestAckNumber := Wrap(seg.seqno + 1), seg.seqno;
      sent := made.SendInitial(true);
    }

    /** TcpFilterMethod for a listener: a SYN makes a new socket, which answers it and waits to be accepted. While one
        waits, every other SYN is dropped. */
    method OnListen(seg: Segment) returns (sent: set<Segment>)
      requires Valid() && state == Tcp.Listen
      modifies this`waitingToAccept
      ensures Valid() && Value() == old(Value())
      ensures if seg.syn && old(waitingToAccept) == null
        then waitingToAccept != null && waitingToAccept.Valid() && fresh(waitingToAccept)
             && Tcp.Outcome(waitingToAccept.Value(), sent) == Tcp.OnListen(Value(), seg)
             && TcpRules.Reacts(Value(), seg, Tcp.Outcome(waitingToAccept.Value(), sent))
        else sent == {} && waitingToAccept == old(waitingToAccept)
    {
      sent := {};
      if seg.syn && waitingToAccept == null {
        waitingToAccept, sent := Incoming(seg);
        TcpRules.ListenReacts(Value(), seg, Tcp.Outcome(waitingToAccept.Value(), sent));
      }
    }

    /** TcpSocketAccept: hands over the waiting socket, but only in state ESTABLISHED; until then it waits. A socket
        that is not listening gets null. */
    method Accept() returns (res: TcpSocket?, waits: bool)
      requires Valid()
      modifies this`waitingToAccept
      ensures Valid() && Value() == old(Value())
      ensures waits <==>
        (state == Tcp.Listen && (old(waitingToAccept) == null || old(waitingToAccept.state) != Tcp.Established))
      ensures res == if state == Tcp.Listen && !waits then old(waitingToAccept) else null
      ensures waitingToAccept == if res == null then old(waitingToAccept) else null
    {
      if state != Tcp.Listen {
        return null, false;
      }
      if waitingToAccept == null || waitingToAccept.state != Tcp.Established {
        return null, true;
      }
      res, waits := waitingToAccept, false;
      waitingToAccept := null;
    }

    method OnSynSent(seg: Segment) returns (sent: set<Segment>)
      requires Valid()
      modifies this, inQ
      ensures Valid()
      ensures Tcp.Outcome(Value(), sent) == Tcp.OnSynSent(old(Value()), seg)
    {
      sent := {};
      if seg.syn {
        inQ.latestSequenceNumber, inQ.latestAckNumber := seg.seqno, Wrap(seg.seqno - 1);
        if !seg.ack {
          sent := SendSimple(false, true);
          state := Tcp.SynReceived;
        } else if !ModLt(seg.ackno, outQ.latestSequenceNumber) {
          sent := SendSimple(true, true);
          state := Tcp.Established;
        }
      }
    }

    method OnData(seg: Segment) returns (sent: set<Segment>)
      requires Valid() && Tcp.MayTransfer(Value()) && Tcp.FilterFits(Value(), seg)
      modifies Parts()
      ensures Valid()
      ensures Tcp.Outcome(Value(), sent) == Tcp.OnData(old(Value()), seg)
    {
      sent := {};
      if seg.ack {
        RecordAck(seg.ackno);
      }
      TakeData(seg.seqno, seg.data);
      if seg.fin {
        sent := SendSimple(false, true);
        state := Tcp.CloseWait;
      }
    }

    method OnClosing(seg: Segment) returns (sent: set<Segment>)
      requires Valid() && state in {Tcp.FinWait1, Tcp.FinWait2, Tcp.Closing, Tcp.LastAck}
      modifies this, inQ, outQ
      ensures Valid()
      ensures Tcp.Outcome(Value(), sent) ==
        if old(state) == Tcp.FinWait1 then Tcp.OnFinWait1(old(Value()), seg)
        else if old(state) == Tcp.FinWait2 then Tcp.OnFinWait2(old(Value()), seg)
        else if old(state) == Tcp.Closing then Tcp.OnClosing(old(Value()), seg)
        else Tcp.OnLastAck(old(Value()), seg)
    {
      sent := {};
      if state == Tcp.FinWait1 {
        if seg.ack && seg.ackno == outQ.latestSequenceNumber {
          outQ.latestAckNumber := seg.ackno;
          state := Tcp.FinWait2;
        } else if seg.fin {
          sent := SendSimple(false, true);
          outQ.latestSequenceNumber := Wrap(outQ.latestSequenceNumber + 2);
          state := Tcp.Closing;
        }
      } else if state == Tcp.FinWait2 {
        if seg.fin {
          sent := SendSimple(false, true);
          inQ.latestSequenceNumber := Wrap(inQ.latestSequenceNumber + 1);
          state := Tcp.TimeWait;
        }
      } else if state == Tcp.Closing {
        if seg.ack && ModGe(seg.ackno, outQ.latestSequenceNumber) {
          outQ.latestAckNumber := seg.ackno;
          state := Tcp.TimeWait;
        }
      } else if seg.ack {
        RecordAck(seg.ackno);
        sent := SendSimple(false, true);
        outQ.latestAckNumber := seg.ackno;
        if outQ.len == 0 {
          state := Tcp.Deleted;
        }
      }
    }
  }
}
