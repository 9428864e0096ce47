/** One end of a TCP connection as libs/tcp/tcp.c runs it: what each call does to a socket and which
    segment it sends. Socket states keep the source's names; `Deleted` is a freed socket. */
module Tcp {
  import opened Words
  import opened ByteQueues

  datatype State =
    | Closed | Listen | SynSent | SynReceived | Established
    | FinWait1 | FinWait2 | CloseWait | Closing | LastAck | TimeWait | Deleted

  datatype Segment = Segment(seqno: u32, ackno: u32, syn: bool, ack: bool, fin: bool, window: nat, data: seq<byte>)

  datatype Socket = Socket(state: State, inQ: Queue, outQ: Queue, remoteWindow: nat) {
    predicate Valid() {
      inQ.Valid() && outQ.Valid()
    }
  }

  /** What a call leaves behind: the socket, and the segments handed to the network. */
  datatype Outcome = Outcome(sock: Socket, sent: set<Segment>)

  const ISN: u32 := 0xfedc_ba98
  const MTU: nat := 1500
  // A packet is one 4096-byte page less its 32-byte outer header, the 44-byte IPv6 struct and the 20-byte TCP header.
  const SEGMENT_ROOM: nat := 4096 - 32 - 44 - 20

  const EMPTY_QUEUE := Queue(0, [], 0, 0)

  function NewSocket(state: State): Socket {
    Socket(state, EMPTY_QUEUE, EMPTY_QUEUE, 0)
  }

  function Window(s: Socket): nat
    requires s.Valid()
  {
    QUEUE_SIZE - |s.inQ.bytes|
  }

  // ----- sending -----

  /** A segment without data; the closing states add FIN. */
  function Simple(s: Socket, syn: bool, ack: bool): Segment
    requires s.Valid()
  {
    Segment(s.outQ.lsn, s.inQ.lsn, syn, ack,
            s.state in {LastAck, FinWait1, FinWait2, Closed, TimeWait}, Window(s), [])
  }

  /** A new initial number, then the segment. `latestAckNumber` starts one below it. */
  function SendInitial(s: Socket, ack: bool): Outcome
    requires s.Valid()
  {
    var s' := s.(outQ := s.outQ.(lsn := ISN, lan := Wrap(ISN - 1)));
    Outcome(s', {Simple(s', true, ack)})
  }

  function Connect(s: Socket): Outcome
    requires s.Valid()
  {
    if s.state != Closed then Outcome(s, {})
    else
      // The SYN leaves while the state is still Closed, so it carries FIN as well.
      var o := SendInitial(s, false);
      Outcome(o.sock.(outQ := o.sock.outQ.(lsn := Wrap(o.sock.outQ.lsn + 1)), state := SynSent), o.sent)
  }

  /** How many queued bytes `fire` puts in its segment. */
  function FireLength(s: Socket): nat {
    Min(Min(|s.outQ.bytes|, s.remoteWindow), SEGMENT_ROOM)
  }

  predicate FireIdle(s: Socket) {
    s.outQ.bytes == [] && s.inQ.lsn == s.inQ.lan
  }

  function FireSegment(s: Socket): Segment
    requires s.Valid()
  {
    Segment(s.outQ.lsn, s.inQ.lsn, false, true, s.state in {FinWait1, FinWait2}, Window(s),
            s.outQ.bytes[..FireLength(s)])
  }

  function Fire(s: Socket): Outcome
    requires s.Valid()
  {
    if s.state == TimeWait then Outcome(s.(state := Deleted), {})
    else if s.state == Deleted || FireIdle(s) then Outcome(s, {})
    else Outcome(s.(inQ := s.inQ.(lan := s.inQ.lsn)), {FireSegment(s)})
  }

  predicate Transfers(st: State) {
    st == Established || st == CloseWait
  }

  predicate MayTransfer(s: Socket) {
    Transfers(s.state)
  }

  /** How many of `n` bytes TcpSocketSend accepts; a refused call accepts none. */
  function SendAccepts(s: Socket, n: nat): nat
    requires s.Valid()
  {
    if MayTransfer(s) then s.outQ.Accepted(n) else 0
  }

  function Send(s: Socket, bytes: seq<byte>): Outcome
    requires s.Valid()
  {
    if !MayTransfer(s) || bytes == [] || |s.outQ.bytes| == QUEUE_SIZE then Outcome(s, {})
    else
      var s' := s.(outQ := s.outQ.Enqueue(bytes));
      if |s'.outQ.bytes| >= MTU - 40 then Fire(s') else Outcome(s', {})
  }

  function Close(s: Socket): Outcome
    requires s.Valid()
  {
    match s.state
    case Listen | Closed => Outcome(s.(state := Deleted), {})
    case SynSent | SynReceived | Established | FinWait1 | FinWait2 =>
      Fire(s.(state := if s.state == FinWait2 then FinWait2 else FinWait1))
    case CloseWait =>
      var o := Fire(s);
      Outcome(o.sock.(state := LastAck), o.sent)
    case Closing | LastAck | TimeWait | Deleted => Outcome(s, {})
  }

  // ----- receiving -----

  /** Acknowledged bytes leave the queue, counted from the last acknowledgement and not from the queue's first byte. */
  function RecordAck(q: Queue, ackno: u32): (r: Queue)
    requires q.Valid()
    ensures r.Valid()
  {
    var delta := Wrap(ackno - q.lan);
    if delta >= TWO_31 then q else q.Drop(delta).(lsn := ackno, lan := ackno)
  }

  /** How many of a segment's last bytes the receiver takes; a segment past the expected number is a gap.
      The gap test compares plain unsigned numbers. */
  function NewBytes(seqno: u32, n: nat, expected: u32): int {
    if seqno > expected then 0 else
    var actual := Signed(Wrap(seqno + n - expected));
    if actual > 0 then actual else 0
  }

  /** The last `n` bytes of `data`. Asked for more, the C code reads in front of the data; that stretch is
      shown as zeros here, and `TcpConnections.TakenBytesAreInTheSegment` proves it is never reached. */
  function Tail(data: seq<byte>, n: nat): seq<byte> {
    if n <= |data| then data[|data| - n..] else seq(n - |data|, _ => 0) + data
  }

  function TakeData(q: Queue, seqno: u32, data: seq<byte>): (r: Queue)
    requires q.Valid()
    ensures r.Valid()
  {
    var n := NewBytes(seqno, |data|, q.lsn);
    if data == [] || n == 0 || |q.bytes| == QUEUE_SIZE then q
    else q.Enqueue(Tail(data, n)).(lsn := Wrap(q.lsn + q.Accepted(n)))
  }

  /** The listener's answer to a SYN is a new socket. */
  function OnListen(s: Socket, seg: Segment): Outcome
    requires s.Valid()
  {
    if !seg.syn then Outcome(s, {})
    else
      SendInitial(NewSocket(SynReceived).(inQ := EMPTY_QUEUE.(lsn := Wrap(seg.seqno + 1), lan := seg.seqno)), true)
  }

  function OnSynSent(s: Socket, seg: Segment): Outcome
    requires s.Valid()
  {
    if !seg.syn then Outcome(s, {})
    else
      var s' := s.(inQ := s.inQ.(lsn := seg.seqno, lan := Wrap(seg.seqno - 1)));
      if !seg.ack then Outcome(s'.(state := SynReceived), {Simple(s', false, true)})
      else if ModLt(seg.ackno, s'.outQ.lsn) then Outcome(s', {})
      else Outcome(s'.(state := Established), {Simple(s', true, true)})
  }

  function OnSynReceived(s: Socket, seg: Segment): Outcome {
    if !seg.ack || seg.ackno != s.outQ.lsn then Outcome(s, {})
    else Outcome(s.(outQ := s.outQ.(lan := seg.ackno), state := Established), {})
  }

  /** Established and CloseWait: acknowledgement, then data, then FIN. */
  function OnData(s: Socket, seg: Segment): Outcome
    requires s.Valid()
  {
    var s1 := if seg.ack then s.(outQ := RecordAck(s.outQ, seg.ackno)) else s;
    var s2 := s1.(inQ := TakeData(s1.inQ, seg.seqno, seg.data));
    if seg.fin then Outcome(s2.(state := CloseWait), {Simple(s2, false, true)}) else Outcome(s2, {})
  }

  function OnFinWait1(s: Socket, seg: Segment): Outcome
    requires s.Valid()
  {
    if seg.ack && seg.ackno == s.outQ.lsn then
      Outcome(s.(outQ := s.outQ.(lan := seg.ackno), state := FinWait2), {})
    else if seg.fin then
      Outcome(s.(outQ := s.outQ.(lsn := Wrap(s.outQ.lsn + 2)), state := Closing), {Simple(s, false, true)})
    else Outcome(s, {})
  }

  function OnFinWait2(s: Socket, seg: Segment): Outcome
    requires s.Valid()
  {
    if !seg.fin then Outcome(s, {})
    else Outcome(s.(inQ := s.inQ.(lsn := Wrap(s.inQ.lsn + 1)), state := TimeWait), {Simple(s, false, true)})
  }

  function OnClosing(s: Socket, seg: Segment): Outcome {
    if seg.ack && ModGe(seg.ackno, s.outQ.lsn) then
      Outcome(s.(outQ := s.outQ.(lan := seg.ackno), state := TimeWait), {})
    else Outcome(s, {})
  }

  function OnLastAck(s: Socket, seg: Segment): Outcome
    requires s.Valid()
  {
    if !seg.ack then Outcome(s, {})
    else
      var s' := s.(outQ := RecordAck(s.outQ, seg.ackno));
      var s'' := s'.(outQ := s'.outQ.(lan := seg.ackno));
      Outcome(if s''.outQ.bytes == [] then s''.(state := Deleted) else s'', {Simple(s', false, true)})
  }

  /** TcpFilterMethod, for a segment addressed to this socket. A closed or freed socket is not found; a
      listener keeps its own window and the new socket starts with none. */
  function Filter(s: Socket, seg: Segment): (o: Outcome)
    requires s.Valid()
    ensures o.sock.Valid()
  {
    var t := s.(remoteWindow := seg.window);
    match s.state
    case Closed | Deleted => Outcome(s, {})
    case Listen => OnListen(s, seg)
    case SynSent => OnSynSent(t, seg)
    case SynReceived => OnSynReceived(t, seg)
    case Established | CloseWait => OnData(t, seg)
    case FinWait1 => OnFinWait1(t, seg)
    case FinWait2 => OnFinWait2(t, seg)
    case Closing => OnClosing(t, seg)
    case LastAck => OnLastAck(t, seg)
    case TimeWait => Outcome(t, {})
  }

  // ----- the calls whose copies stay within what the ring's code handles -----
  // (`ByteQueues.EnqueueIsRightExactly`, `ByteQueues.ReadIsRightExactly`)

  predicate FireFits(s: Socket) {
    s.state !in {TimeWait, Deleted} && FireLength(s) > 0 ==> FitsRead(s.outQ.start, FireLength(s))
  }

  predicate SendFits(s: Socket, bytes: seq<byte>)
    requires s.Valid()
  {
    MayTransfer(s) && bytes != [] && |s.outQ.bytes| < QUEUE_SIZE ==>
      FitsEnqueue(s.outQ.start, |s.outQ.bytes|) && FireFits(s.(outQ := s.outQ.Enqueue(bytes)))
  }

  predicate ReceiveFits(s: Socket, nbytes: nat) {
    MayTransfer(s) ==> FitsRead(s.inQ.start, Min(nbytes, |s.inQ.bytes|))
  }

  predicate TakeFits(q: Queue, seqno: u32, n: nat) {
    NewBytes(seqno, n, q.lsn) > 0 && |q.bytes| < QUEUE_SIZE ==> FitsEnqueue(q.start, |q.bytes|)
  }

  predicate FilterFits(s: Socket, seg: Segment) {
    MayTransfer(s) ==> TakeFits(s.inQ, seg.seqno, |seg.data|)
  }
}
