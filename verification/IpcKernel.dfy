/** The kernel objects behind Ipc: a context with its ring of packets, and the address table. */
module IpcKernels {
  import opened Words
  import opened Wrappers
  import opened Ipc

  /** One slot further on, from the next slot. */
  lemma RingNext(offset: nat, i: nat)
    ensures ((offset + 1) % QUEUE_LEN + i) % QUEUE_LEN == (offset + (i + 1)) % QUEUE_LEN
  {
  }

  class KernelContext {
    const self: Address
    const packets: array<Packet>
    var offset: nat
    var numPackets: nat
    var blocking: bool
    var finished: bool

    ghost predicate Valid()
      reads this
    {
      packets.Length == QUEUE_LEN && offset < QUEUE_LEN && numPackets <= QUEUE_LEN
    }

    ghost function Queue(): (q: seq<Packet>)
      requires Valid()
      reads this, packets
      ensures |q| == numPackets
    {
      seq(numPackets, i requires 0 <= i < numPackets && Valid() reads this, packets => packets[(offset + i) % QUEUE_LEN])
    }

    /** This context; whether it waits is known to the stack it is switched out on. */
    ghost function Value(waiting: bool): Context
      requires Valid()
      reads this, packets
    {
      Context(self, Queue(), blocking, finished, waiting)
    }

    constructor (self: Address)
      ensures Valid() && Value(false) == Context(self, [], false, false, false) && fresh(packets)
    {
      this.self := self;
      packets := new Packet[QUEUE_LEN](_ => Packet(0, self));
      offset, numPackets, blocking, finished := 0, 0, false, false;
    }

    /** PackosKernelContextInsertPacket. */
    method InsertPacket(p: Packet) returns (ok: bool)
      requires Valid()
      modifies this, packets
      ensures Valid() && blocking == old(blocking) && finished == old(finished)
      ensures ok == (old(|Queue()|) < QUEUE_LEN) && Queue() == if ok then old(Queue()) + [p] else old(Queue())
    {
      if numPackets >= QUEUE_LEN {
        return false;
      }
      var i := (offset + numPackets) % QUEUE_LEN;
      numPackets := numPackets + 1;
      packets[i] := p;
      ok := true;
    }

    /** What a send does to its recipient. */
    method Deliver(p: Packet) returns (ok: bool)
      requires Valid()
      modifies this, packets
      ensures Valid() && ok == (|old(Queue())| < QUEUE_LEN)
      ensures forall w :: Value(w) == if ok then Delivered(old(Value(w)), p) else old(Value(w))
    {
      ok := InsertPacket(p);
      if ok && blocking {
        blocking := false;
      }
    }

    /** PackosKernelContextExtractPacket. */
    method ExtractPacket() returns (p: Option<Packet>)
      requires Valid()
      modifies this
      ensures Valid() && blocking == old(blocking) && finished == old(finished)
      ensures if old(Queue()) == [] then p == None && Queue() == []
        else p == Some(old(Queue())[0]) && Queue() == old(Queue())[1..]
    {
      if numPackets == 0 {
        return None;
      }
      ghost var q, from := Queue(), offset;
      assert q[0] == packets[offset];
      p := Some(packets[offset]);
      Skip();
      numPackets := numPackets - 1;
      forall i | 0 <= i < numPackets
        ensures Queue()[i] == q[i + 1]
      {
        RingNext(from, i);
        assert Queue()[i] == packets[(offset + i) % QUEUE_LEN] && q[i + 1] == packets[(from + (i + 1)) % QUEUE_LEN];
      }
    }

    /** On to the next slot. */
    method Skip()
      requires offset < QUEUE_LEN
      modifies `offset
      ensures offset < QUEUE_LEN && offset == (old(offset) + 1) % QUEUE_LEN
    {
      offset := (offset + 1) % QUEUE_LEN;
    }

    /** A receive up to the switch away, on this context. */
    method TakeOrMark(yieldTo: KernelContext?) returns (p: Option<Packet>, switching: bool)
      requires Valid()
      modifies this
      ensures Valid() && finished == old(finished)
      ensures old(Queue()) != [] ==>
        p == Some(old(Queue())[0]) && Queue() == old(Queue())[1..] && blocking == old(blocking) && !switching
      ensures old(Queue()) == [] ==>
        && p == None && Queue() == [] && blocking == (old(blocking) || switching)
        && switching == !(yieldTo != null && (old(yieldTo.finished) || old(yieldTo.blocking)))
    {
      p := ExtractPacket();
      switching := false;
      if p == None {
        if yieldTo != null && (yieldTo.finished || yieldTo.blocking) {
          return;
        }
        blocking := true;
        switching := true;
      }
    }
  }

  datatype Entry = Entry(addr: Address, context: KernelContext)

  class Kernel {
    const pairs: array<Option<Entry>>
    ghost var contexts: seq<KernelContext>

    ghost function Nth(i: nat): KernelContext
      requires i < |contexts|
      reads this
    {
      contexts[i]
    }

    ghost predicate Valid()
      reads this, pairs, contexts
    {
      && pairs.Length == NUM_PAIRS
      && (forall i {:trigger Nth(i)} | 0 <= i < |contexts| :: Nth(i).Valid())
      && (forall i, j {:trigger Nth(i), Nth(j)} | 0 <= i < j < |contexts| ::
            Nth(i) != Nth(j) && Nth(i).packets != Nth(j).packets)
    }

    ghost predicate TableIs(s: System)
      reads this, pairs
    {
      && pairs.Length == NUM_PAIRS == |s.pairs|
      && forall k | 0 <= k < NUM_PAIRS ::
           match s.pairs[k]
           case None => pairs[k] == None
           case Some(e) => e.context < |contexts| && pairs[k] == Some(Entry(e.addr, contexts[e.context]))
    }

    ghost function Arrays(): set<object>
      reads this
    {
      set i: nat | i < |contexts| :: contexts[i].packets
    }

    /** The objects hold what the system `s` says. */
    ghost predicate Is(s: System)
      reads this, pairs, contexts, Arrays()
    {
      && Valid() && Shape(s) && TableIs(s) && |contexts| == |s.contexts|
      && forall i {:trigger Nth(i)} | 0 <= i < |contexts| ::
           Nth(i).packets in Arrays() && Nth(i).Value(s.contexts[i].waiting) == s.contexts[i]
    }

    constructor ()
      ensures Is(Initial()) && fresh(pairs)
    {
      pairs := new Option<Entry>[NUM_PAIRS](_ => None);
      contexts := [];
    }

    /** PackosKernelPacketFindContextByAddr. */
    method FindContext(a: Address, ghost s: System) returns (c: KernelContext?)
      requires Is(s)
      ensures match Find(s.pairs, a)
        case None => c == null
        case Some(i) => i < |contexts| && c == contexts[i]
    {
      var i := Signed(a.last);
      if i < 0 || i >= NUM_PAIRS || pairs[i] == None || pairs[i].value.addr != a {
        return null;
      }
      c := pairs[i].value.context;
    }

    /** All contexts but the `i`th are as `s` says. */
    ghost predicate OthersAre(s: System, i: nat)
      reads this, contexts, Arrays()
    {
      |contexts| == |s.contexts|
      && forall j {:trigger Nth(j)} | 0 <= j < |contexts| && j != i ::
           && Nth(j).packets in Arrays() && Nth(j).Valid()
           && Nth(j).Value(s.contexts[j].waiting) == s.contexts[j]
    }

    lemma OneIs(s: System, t: System, i: nat)
      requires Valid() && Shape(t) && TableIs(t) && OthersAre(s, i) && i < |contexts| && Nth(i).packets in Arrays()
      requires |t.contexts| == |s.contexts| && t.contexts == s.contexts[i := t.contexts[i]]
      requires Nth(i).Value(t.contexts[i].waiting) == t.contexts[i]
      ensures Is(t)
    {
    }

    /** PackosPacketSendFromKernel, up to the switch to the recipient. */
    method Send(p: Packet, ghost s: System) returns (ok: bool)
      requires Is(s)
      modifies contexts, Arrays()
      ensures Is(DoSend(s, p)) && ok == (DoSend(s, p) != s)
    {
      var c := FindContext(p.dest, s);
      if c == null {
        return false;
      }
      ghost var i := Find(s.pairs, p.dest).value;
      assert c == Nth(i) && Nth(i).packets in Arrays();
      ok := c.Deliver(p);
      forall j | 0 <= j < |contexts| && j != i
        ensures Nth(j).packets in Arrays() && Nth(j).Valid() && Nth(j).Value(s.contexts[j].waiting) == s.contexts[j]
      {
        assert old(Nth(j)) == Nth(j) && old(Nth(j).packets in Arrays());
      }
    }

    /** PackosPacketReceiveOrYieldTo, up to the switch away: the packet, if there is one, and whether to switch. */
    method Receive(c: KernelContext, yieldTo: KernelContext?, ghost s: System, ghost i: nat, ghost to: Option<nat>)
      returns (p: Option<Packet>, switching: bool)
      requires Is(s) && i < |contexts| && c == Nth(i) && !s.contexts[i].finished && !s.contexts[i].waiting
      requires if yieldTo == null then to == None else to.Some? && to.value < |contexts| && yieldTo == contexts[to.value]
      modifies c
      ensures c == Nth(i) && Is(DoReceive(s, i, to)) && c.Valid() && switching == DoReceive(s, i, to).contexts[i].waiting
      ensures p == Answer(s, Ipc.Receive(i, to)) && DoReceive(s, i, to).extracted[i] == s.extracted[i] + Taken(p)
      ensures if p.Some? then old(c.Queue()) == [p.value] + c.Queue() else old(c.Queue()) == c.Queue() == []
      ensures switching <==> p.None? && !(yieldTo != null && (old(yieldTo.finished) || old(yieldTo.blocking)))
      ensures c.blocking == (old(c.blocking) || switching) && c.finished == old(c.finished)
    {
      assert c == Nth(i) && Nth(i).packets in Arrays();
      assert to.Some? ==> yieldTo == Nth(to.value);
      p, switching := c.TakeOrMark(yieldTo);
      forall j | 0 <= j < |contexts| && j != i
        ensures Nth(j).packets in Arrays() && Nth(j).Valid() && Nth(j).Value(s.contexts[j].waiting) == s.contexts[j]
      {
        assert old(Nth(j)) == Nth(j) && old(Nth(j).packets in Arrays());
      }
      OneIs(s, DoReceive(s, i, to), i);
    }

    /** The rest of it, after the switch back. */
    method Resume(c: KernelContext, ghost s: System, ghost i: nat) returns (p: Option<Packet>)
      requires Is(s) && i < |contexts| && c == Nth(i) && s.contexts[i].waiting
      modifies c
      ensures c == Nth(i) && Is(DoResume(s, i)) && c.Valid()
      ensures p == Answer(s, Ipc.Resume(i)) && DoResume(s, i).extracted[i] == s.extracted[i] + Taken(p)
      ensures if p.Some? then old(c.Queue()) == [p.value] + c.Queue() else old(c.Queue()) == c.Queue() == []
      ensures c.blocking == old(c.blocking) && c.finished == old(c.finished)
    {
      assert c == Nth(i) && Nth(i).packets in Arrays();
      p := c.ExtractPacket();
      forall j | 0 <= j < |contexts| && j != i
        ensures Nth(j).packets in Arrays() && Nth(j).Valid() && Nth(j).Value(s.contexts[j].waiting) == s.contexts[j]
      {
        assert old(Nth(j)) == Nth(j) && old(Nth(j).packets in Arrays());
      }
    }

    /** PackosPacketUnregisterContext. */
    method Unregister(c: KernelContext, ghost s: System, ghost i: nat)
      requires Valid() && Shape(s) && TableIs(s) && i < |contexts| && c == contexts[i]
      modifies pairs
      ensures TableIs(s.(pairs := Unregistered(s.pairs, c.self, i)))
    {
      assert forall j {:trigger Nth(j)} | 0 <= j < |contexts| && Nth(j) == Nth(i) :: j == i;
      var k := Signed(c.self.last);
      if 0 <= k < NUM_PAIRS && pairs[k] != None && pairs[k].value == Entry(c.self, c) {
        assert Nth(s.pairs[k].value.context) == Nth(i);
        pairs[k] := None;
      }
    }

    /** PackosKernelContextExit, up to the switch away. */
    method Exit(c: KernelContext, ghost s: System, ghost i: nat)
      requires Is(s) && i < |contexts| && c == Nth(i) && !s.contexts[i].finished && !s.contexts[i].waiting
      modifies c, pairs
      ensures c == Nth(i) && Is(DoExit(s, i)) && c.Valid() && c.finished && !c.blocking && c.Queue() == old(c.Queue())
    {
      assert c == Nth(i) && Nth(i).packets in Arrays();
      c.finished, c.blocking := true, false;
      Unregister(c, s, i);
      forall j | 0 <= j < |contexts| && j != i
        ensures Nth(j).packets in Arrays() && Nth(j).Valid() && Nth(j).Value(s.contexts[j].waiting) == s.contexts[j]
      {
        assert old(Nth(j)) == Nth(j) && old(Nth(j).packets in Arrays());
      }
      OneIs(s, DoExit(s, i), i);
    }

    /** PackosPacketRegisterContext. */
    method Register(c: KernelContext) returns (ok: bool)
      requires pairs.Length == NUM_PAIRS
      modifies pairs
      ensures ok == (InTable(c.self) && old(pairs[..])[SlotOf(c.self)] == None)
      ensures pairs[..] == if ok then old(pairs[..])[SlotOf(c.self) := Some(Entry(c.self, c))] else old(pairs[..])
    {
      var k := Signed(c.self.last);
      if k < 0 || k >= NUM_PAIRS || pairs[k] != None {
        return false;
      }
      pairs[k] := Some(Entry(c.self, c));
      ok := true;
    }

    /** A context none of those known is, nor shares its ring with. */
    ghost predicate Stranger(c: KernelContext)
      reads this, contexts
    {
      forall j {:trigger Nth(j)} | 0 <= j < |contexts| :: Nth(j) != c && Nth(j).packets != c.packets
    }

    /** The contexts, known and new, once the new one has joined. */
    ghost method Join(c: KernelContext, s: System, t: System)
      requires Valid() && TableJoined(t, c) && Shape(t) && |contexts| == |s.contexts| && Stranger(c) && c.Valid()
      requires forall j {:trigger Nth(j)} | 0 <= j < |contexts| ::
        Nth(j).packets in Arrays() && Nth(j).Value(s.contexts[j].waiting) == s.contexts[j]
      requires t.contexts == s.contexts + [c.Value(false)] && !c.Value(false).waiting
      modifies this
      ensures Is(t)
    {
      ghost var before := contexts;
      forall i, j {:trigger before[i], before[j]} | 0 <= i < j < |before|
        ensures before[i] != before[j] && before[i].packets != before[j].packets
      {
        assert Nth(i) != Nth(j);
      }
      forall j | 0 <= j < |before|
        ensures before[j] != c && before[j].packets != c.packets
      {
        assert Nth(j) == before[j];
      }
      contexts := contexts + [c];
      assert forall j {:trigger Nth(j)} | 0 <= j < |before| :: Nth(j) == before[j] == old(Nth(j));
      assert Nth(|before|) == c;
    }

    /** The table is what `t` says once `c` comes behind the known contexts. */
    ghost predicate TableJoined(t: System, c: KernelContext)
      reads this, pairs
    {
      && pairs.Length == NUM_PAIRS == |t.pairs|
      && forall k | 0 <= k < NUM_PAIRS ::
           match t.pairs[k]
           case None => pairs[k] == None
           case Some(e) => e.context <= |contexts| && pairs[k] == Some(Entry(e.addr, (contexts + [c])[e.context]))
    }

    /** PackosContextNew, as far as it concerns messages. */
    method Create(a: Address, ghost s: System) returns (c: KernelContext?)
      requires Is(s)
      modifies this, pairs
      ensures Is(DoCreate(s, a)) && (c == null <==> DoCreate(s, a) == s)
      ensures c != null <==> 0 <= Signed(a.last) < 320 && old(pairs[..])[Signed(a.last)] == None
      ensures c != null ==> fresh(c) && c.Valid() && c.Value(false) == Context(a, [], false, false, false)
    {
      var made := new KernelContext(a);
      var ok := Register(made);
      forall j {:trigger Nth(j)} | 0 <= j < |contexts|
        ensures Nth(j) != made && Nth(j).packets != made.packets && Nth(j).packets in Arrays() && Nth(j).Valid()
        ensures Nth(j).Value(s.contexts[j].waiting) == s.contexts[j]
      {
        assert old(Nth(j)) == Nth(j) && old(Nth(j).packets in Arrays());
      }
      if !ok {
        return null;
      }
      c := made;
      Join(made, s, DoCreate(s, a));
    }
  }
}
