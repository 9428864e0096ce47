/** The packet queue of libs/ip/packet-queue.c: a ring from which the first packet of a given protocol can be taken out of
    the middle. */
module PacketQueues {
  import opened Sequences
  import opened Wrappers

  /** A packet, with what IpPacketProtocol says of it (-1 for an error). */
  datatype Packet = Packet(id: nat, protocol: int)

  /** Protocol 0 asks for any packet. */
  predicate Wanted(p: Packet, protocol: nat) {
    protocol == 0 || p.protocol == protocol
  }

  /** Where the first wanted packet is; the length of `q` if there is none. */
  function FirstWanted(q: seq<Packet>, protocol: nat): (i: nat)
    ensures i <= |q| && (i < |q| ==> Wanted(q[i], protocol))
    ensures forall j | 0 <= j < i :: !Wanted(q[j], protocol)
  {
    if q == [] || Wanted(q[0], protocol) then 0 else 1 + FirstWanted(q[1..], protocol)
  }

  /** Protocol 0 takes the oldest packet, any other the oldest of its own, and nothing is taken if there is none. */
  lemma TakesOldestWanted(q: seq<Packet>, protocol: nat)
    ensures var i := FirstWanted(q, protocol);
      && (i == |q| <==> q == [] || (protocol != 0 && forall j | 0 <= j < |q| :: q[j].protocol != protocol))
      && (i < |q| && protocol == 0 ==> i == 0)
      && (i < |q| && protocol != 0 ==> q[i].protocol == protocol && forall j | 0 <= j < i :: q[j].protocol != protocol)
  {
  }

  // ----- runs -----

  datatype Op = Enqueue(packet: Packet) | Dequeue(protocol: nat)

  /** A queue, everything it ever accepted and everything it ever gave out. */
  datatype History = History(queue: seq<Packet>, accepted: seq<Packet>, given: seq<Packet>)

  function Do(h: History, capacity: nat, op: Op): History {
    match op
    case Enqueue(p) =>
      if |h.queue| >= capacity then h else h.(queue := h.queue + [p], accepted := h.accepted + [p])
    case Dequeue(protocol) =>
      var i := FirstWanted(h.queue, protocol);
      if i == |h.queue| then h else h.(queue := Without(h.queue, i), given := h.given + [h.queue[i]])
  }

  function Run(capacity: nat, ops: seq<Op>): History {
    if ops == [] then History([], [], []) else Do(Run(capacity, ops[..|ops| - 1]), capacity, ops[|ops| - 1])
  }

  function Only(q: seq<Packet>, protocol: int): seq<Packet> {
    if q == [] then []
    else Only(q[..|q| - 1], protocol) + if q[|q| - 1].protocol == protocol then [q[|q| - 1]] else []
  }

  lemma {:induction false} OnlyOfJoin(a: seq<Packet>, b: seq<Packet>, protocol: int)
    ensures Only(a + b, protocol) == Only(a, protocol) + Only(b, protocol)
  {
    if b == [] {
      assert a + b == a;
    } else {
      assert (a + b)[..|a + b| - 1] == a + b[..|b| - 1];
      OnlyOfJoin(a, b[..|b| - 1], protocol);
    }
  }

  lemma {:induction false} NoneBefore(q: seq<Packet>, protocol: int)
    requires forall j | 0 <= j < |q| :: q[j].protocol != protocol
    ensures Only(q, protocol) == []
  {
    if q != [] {
      NoneBefore(q[..|q| - 1], protocol);
    }
  }

  lemma OnlyAround(a: seq<Packet>, x: Packet, b: seq<Packet>, protocol: int)
    requires x.protocol == protocol ==> Only(a, protocol) == []
    ensures Only(a + [x] + b, protocol) == Only([x], protocol) + Only(a + b, protocol)
  {
    var first, one, rest := Only(a, protocol), Only([x], protocol), Only(b, protocol);
    OnlyOfJoin(a, b, protocol);
    OnlyOfJoin(a, [x], protocol);
    OnlyOfJoin(a + [x], b, protocol);
    if x.protocol == protocol {
      assert first == [] && (first + one) + rest == one + (first + rest);
    } else {
      assert one == [] && (first + one) + rest == one + (first + rest);
    }
  }

  /** Taking out the first packet wanted disturbs no protocol: of its own it was the first. */
  lemma TakenInOrder(q: seq<Packet>, wanted: nat, protocol: int, i: nat)
    requires i == FirstWanted(q, wanted) && i < |q|
    ensures Only(q, protocol) == Only([q[i]], protocol) + Only(Without(q, i), protocol)
  {
    var a, b := q[..i], q[i + 1..];
    assert q == a + [q[i]] + b;
    if q[i].protocol == protocol {
      NoneBefore(a, protocol);
    }
    OnlyAround(a, q[i], b, protocol);
  }

  /** Everything of this protocol that was accepted was given out or is queued, in order. */
  predicate InOrder(h: History, protocol: int) {
    Only(h.given, protocol) + Only(h.queue, protocol) == Only(h.accepted, protocol)
  }

  lemma EnqueueKeepsOrder(h: History, capacity: nat, p: Packet, protocol: int)
    requires InOrder(h, protocol)
    ensures InOrder(Do(h, capacity, Enqueue(p)), protocol)
  {
    OnlyOfJoin(h.queue, [p], protocol);
    OnlyOfJoin(h.accepted, [p], protocol);
    Associates(Only(h.given, protocol), Only(h.queue, protocol), Only([p], protocol));
  }

  lemma DequeueKeepsOrder(h: History, capacity: nat, wanted: nat, protocol: int)
    requires InOrder(h, protocol)
    ensures InOrder(Do(h, capacity, Dequeue(wanted)), protocol)
  {
    var i := FirstWanted(h.queue, wanted);
    if i < |h.queue| {
      TakenInOrder(h.queue, wanted, protocol, i);
      OnlyOfJoin(h.given, [h.queue[i]], protocol);
      Associates(Only(h.given, protocol), Only([h.queue[i]], protocol), Only(Without(h.queue, i), protocol));
    }
  }

  lemma Associates(a: seq<Packet>, b: seq<Packet>, c: seq<Packet>)
    ensures (a + b) + c == a + (b + c)
  {
  }

  /** Over every run, for every protocol: the packets given out, then those still queued, are those accepted, in order. */
  lemma {:induction false} EachProtocolInOrder(capacity: nat, ops: seq<Op>, protocol: int)
    ensures var h := Run(capacity, ops);
      |h.queue| <= capacity && InOrder(h, protocol)
  {
    if ops != [] {
      var h := Run(capacity, ops[..|ops| - 1]);
      EachProtocolInOrder(capacity, ops[..|ops| - 1], protocol);
      match ops[|ops| - 1] {
        case Enqueue(p) => EnqueueKeepsOrder(h, capacity, p, protocol);
        case Dequeue(wanted) => DequeueKeepsOrder(h, capacity, wanted, protocol);
      }
    }
  }

  // ----- the ring -----

  lemma Wraps(x: nat, n: nat)
    requires n > 0 && x < 2 * n
    ensures x % n == if x < n then x else x - n
  {
  }

  class PacketQueue {
    const packets: array<Packet>
    var start: nat
    var count: nat

    ghost predicate Valid()
      reads this
    {
      count <= packets.Length && (start == 0 || start < packets.Length)
    }

    /** The slot of the `i`th packet. */
    ghost function At(i: nat): (k: nat)
      requires Valid() && packets.Length > 0 && i <= packets.Length
      reads this
      ensures k < packets.Length && k == (start + i) % packets.Length
    {
      Wraps(start + i, packets.Length);
      if start + i < packets.Length then start + i else start + i - packets.Length
    }

    ghost function Contents(): (s: seq<Packet>)
      requires Valid()
      reads this, packets
      ensures |s| == count
    {
      seq(count, i requires 0 <= i < count && Valid() reads this, packets => packets[At(i)])
    }

    /** PackosPacketQueueNew. */
    constructor (capacity: nat)
      ensures Valid() && fresh(packets) && packets.Length == capacity && Contents() == []
    {
      packets := new Packet[capacity](_ => Packet(0, 0));
      start, count := 0, 0;
    }

    method Enqueue(p: Packet) returns (ok: bool)
      requires Valid()
      modifies this, packets
      ensures Valid() && ok == (old(count) < packets.Length)
      ensures Contents() == if ok then old(Contents()) + [p] else old(Contents())
      ensures Do(History(old(Contents()), [], []), packets.Length, Op.Enqueue(p))
           == History(Contents(), if ok then [p] else [], [])
    {
      if count >= packets.Length {
        return false;
      }
      ghost var k := At(count);
      packets[(start + count) % packets.Length] := p;
      count := count + 1;
      ok := true;
    }

    /** The search of PackosPacketQueueDequeue. */
    method Find(protocol: nat) returns (i: nat)
      requires Valid() && count > 0
      ensures i == FirstWanted(Contents(), protocol)
    {
      ghost var q := Contents();
      i := 0;
      while i < count && !Wanted(packets[(start + i) % packets.Length], protocol)
        invariant i <= count
        invariant forall j | 0 <= j < i :: !Wanted(q[j], protocol)
      {
        assert q[i] == packets[At(i)];
        i := i + 1;
      }
      assert i < count ==> q[i] == packets[At(i)];
    }

    /** One turn of its second loop. */
    method MoveDown(i: nat)
      requires Valid() && i < count
      modifies packets
      ensures Valid() && packets[At(i)] == old(packets[At(i + 1)])
      ensures forall j: nat | j < count && j != i :: packets[At(j)] == old(packets[At(j)])
    {
      ghost var from, to := At(i + 1), At(i);
      packets[(start + i) % packets.Length] := packets[(start + i + 1) % packets.Length];
    }

    /** Its second loop, which moves the packets behind `first` one slot down. In a full ring the last turn reads the slot
        of the oldest packet. */
    method Close(first: nat)
      requires Valid() && first < count
      modifies packets
      ensures Valid() && Contents()[..count - 1] == Without(old(Contents()), first)
    {
      ghost var q := Contents();
      var i := first;
      while i < count
        invariant first <= i <= count && Valid()
        invariant forall j: nat | j < count && !(first <= j < i) :: packets[At(j)] == old(packets[At(j)])
        invariant forall j: nat | first <= j < i && j + 1 < count :: packets[At(j)] == old(packets[At(j + 1)])
      {
        MoveDown(i);
        i := i + 1;
      }
      forall j: nat | j < count - 1
        ensures Contents()[j] == q[if j < first then j else j + 1]
      {
        ghost var m := if j < first then j else j + 1;
        assert packets[At(j)] == old(packets[At(m)]) == q[m];
      }
    }

    /** Dequeue of any packet. */
    method TakeFirst() returns (p: Packet)
      requires Valid() && count > 0
      modifies this
      ensures Valid() && p == old(Contents())[0] && Contents() == old(Contents())[1..]
    {
      ghost var q := Contents();
      assert q[0] == packets[At(0)];
      p := packets[start];
      ghost var next := At(1);
      start := (start + 1) % packets.Length;
      count := count - 1;
      assert forall j | 0 <= j < count :: Contents()[j] == q[j + 1];
    }

    /** Dequeue of the `i`th packet. */
    method TakeAt(i: nat) returns (p: Packet)
      requires Valid() && i < count
      modifies this, packets
      ensures Valid() && p == old(Contents())[i] && Contents() == Without(old(Contents()), i)
    {
      ghost var q := Contents();
      ghost var k := At(i);
      p := packets[(start + i) % packets.Length];
      Close(i);
      ghost var r := Contents();
      count := count - 1;
      assert Contents() == r[..count];
    }

    /** PackosPacketQueueDequeue. */
    method Dequeue(protocol: nat) returns (res: Option<Packet>)
      requires Valid()
      modifies this, packets
      ensures Valid()
      ensures var q := old(Contents()); var i := FirstWanted(q, protocol);
        if i < |q| then res == Some(q[i]) && Contents() == Without(q, i) else res == None && Contents() == q
      ensures res.Some? && protocol != 0 ==> res.value.protocol == protocol
      ensures protocol == 0 && old(Contents()) != [] ==> res == Some(old(Contents())[0])
      ensures Do(History(old(Contents()), [], []), packets.Length, Op.Dequeue(protocol))
           == History(Contents(), [], if res.Some? then [res.value] else [])
      ensures res == None ==> forall p | p in Contents() :: protocol != 0 && p.protocol != protocol
    {
      TakesOldestWanted(Contents(), protocol);
      res := None;
      if count > 0 {
        if protocol == 0 {
          var p := TakeFirst();
          res := Some(p);
        } else {
          var i := Find(protocol);
          if i < count {
            var p := TakeAt(i);
            res := Some(p);
          }
        }
      }
    }
  }
}
