/** The timer server's doubly linked client list, libs/scheduler/timerServer.c, with its links and delays
    updated in place. */
module TimerServers {
  import opened Sequences
  import opened Words
  import opened Timers

  class TimerClient {
    var next: TimerClient?
    var prev: TimerClient?
    const id: nat
    const repeat: bool
    const sec: u32
    const usec: u32
    var deltaTicks: u32
    ghost var since: nat

    constructor (id: nat, sec: u32, usec: u32, repeat: bool, deltaTicks: u32, ghost now: nat)
      ensures next == null && prev == null
      ensures Value() == Client(id, TimeToTicks(sec, usec), repeat, deltaTicks, now)
    {
      this.id, this.sec, this.usec, this.repeat := id, sec, usec, repeat;
      this.deltaTicks, since := deltaTicks, now;
      next, prev := null, null;
    }

    ghost function Value(): Client
      reads `deltaTicks, `since
    {
      Client(id, TimeToTicks(sec, usec), repeat, deltaTicks, since)
    }
  }

  function NodeAt(s: seq<TimerClient>, i: int): TimerClient? {
    if 0 <= i < |s| then s[i] else null
  }

  ghost predicate Distinct(s: seq<TimerClient>) {
    forall i, j | 0 <= i < j < |s| :: s[i] != s[j]
  }

  function PutAt(s: seq<TimerClient>, k: nat, c: TimerClient): seq<TimerClient>
    requires k <= |s|
  {
    seq(|s| + 1, i requires 0 <= i <= |s| => if i < k then s[i] else if i == k then c else s[i - 1])
  }

  /** The queue they hold, client by client. */
  ghost predicate Hold(s: seq<TimerClient>, q: seq<Client>)
    reads s
  {
    |q| == |s| && forall i | 0 <= i < |s| :: s[i].Value() == q[i]
  }

  lemma PlacedValues(s: seq<TimerClient>, q: seq<Client>, k: nat, c: TimerClient)
    requires Hold(s, q) && k <= |s|
    ensures Hold(PutAt(s, k, c), Placed(q, k, c.Value()))
  {
  }

  lemma HeadSet(q: seq<Client>, c: Client)
    requires q != []
    ensures q[0 := c] == [c] + q[1..]
  {
  }

  class TimerServer {
    var first: TimerClient?
    var last: TimerClient?
    ghost var nodes: set<TimerClient>
    ghost var clients: seq<TimerClient>
    ghost var model: seq<Client>

    ghost predicate Forward(l: seq<TimerClient>)
      requires forall i | 0 <= i < |l| :: l[i] in nodes
      reads `first, `nodes, nodes`next
    {
      first == NodeAt(l, 0) && forall i {:trigger l[i].next} | 0 <= i < |l| :: l[i].next == NodeAt(l, i + 1)
    }

    ghost predicate Backward(l: seq<TimerClient>)
      requires forall i | 0 <= i < |l| :: l[i] in nodes
      reads `last, `nodes, nodes`prev
    {
      last == NodeAt(l, |l| - 1) && forall i {:trigger l[i].prev} | 0 <= i < |l| :: l[i].prev == NodeAt(l, i - 1)
    }

    /** `clients` lists the linked clients from first to last. */
    ghost predicate Linked()
      reads this, nodes
    {
      Distinct(clients) && (forall i | 0 <= i < |clients| :: clients[i] in nodes) && Forward(clients) && Backward(clients)
    }

    /** `model` is the queue they hold. */
    ghost predicate Valid()
      reads this, nodes
    {
      Linked() && Hold(clients, model)
    }

    constructor ()
      ensures Valid() && clients == [] && nodes == {}
    {
      first, last := null, null;
      nodes, clients, model := {}, [], [];
    }

    /** The walk of insertClient: the delays of clients due no later come off the client's own, which is kept in a
        local variable during the walk. */
    method Seek(ticks: u32) returns (after: TimerClient?, delta: u32, ghost k: nat)
      requires Valid()
      ensures Walk(model, 0, ticks) == (k, delta) && k <= |clients| && after == NodeAt(clients, k)
    {
      k := 0;
      after, delta := first, ticks;
      while after != null && after.deltaTicks <= delta
        invariant k <= |clients| && after == NodeAt(clients, k)
        invariant Walk(model, 0, ticks) == Walk(model, k, delta)
        decreases |clients| - k
      {
        assert after == clients[k] && after.Value() == model[k];
        delta := delta - after.deltaTicks;
        k := k + 1;
        after := after.next;
      }
      assert k < |clients| ==> clients[k].Value() == model[k];
    }

    /** insertClient. A client put at the front keeps its own `prev`, so it must come with none. */
    method InsertClient(client: TimerClient)
      requires Valid() && client !in clients && client.prev == null
      modifies this, nodes, client
      ensures Valid() && nodes == old(nodes) + {client}
      ensures model == Insert(old(model), old(client.Value()))
    {
      var after, delta, k := Seek(client.deltaTicks);
      client.deltaTicks := delta;
      if after != null {
        after := after.prev;
      } else {
        after := last;
      }
      Hook(client, after, k);
    }

    /** The client becomes the `k`th. */
    method Hook(client: TimerClient, after: TimerClient?, ghost k: nat)
      requires Valid() && client !in clients && client.prev == null && k <= |clients| && after == NodeAt(clients, k - 1)
      modifies `first, `last, `clients, `nodes, `model, nodes`next, nodes`prev, client`next, client`prev
      ensures Valid() && nodes == old(nodes) + {client} && model == Placed(old(model), k, client.Value())
    {
      ghost var b, m := clients, model;
      Link(client, after, k);
      PlacedValues(b, m, k, client);
      model := Placed(m, k, client.Value());
    }

    /** Hook a client in behind `after`, or at the front. */
    method Link(client: TimerClient, after: TimerClient?, ghost k: nat)
      requires Linked() && client !in clients && client.prev == null && k <= |clients| && after == NodeAt(clients, k - 1)
      modifies `first, `last, `clients, `nodes, nodes`next, nodes`prev, client`next, client`prev
      ensures Linked() && clients == PutAt(old(clients), k, client) && nodes == old(nodes) + {client}
    {
      if after != null {
        LinkAfter(client, after, k);
      } else {
        LinkFront(client);
      }
    }

    /** The backward half of LinkAfter. */
    method LinkBackward(client: TimerClient, after: TimerClient, ghost k: nat)
      requires Distinct(clients) && (forall i | 0 <= i < |clients| :: clients[i] in nodes) && Backward(clients)
      requires client in nodes && client !in clients && 0 < k <= |clients| && after == clients[k - 1]
      requires client.next == after.next == NodeAt(clients, k)
      modifies `last, nodes`prev
      ensures Backward(PutAt(clients, k, client))
    {
      ghost var l := PutAt(clients, k, client);
      if client.next != null {
        after.next.prev := client;
      } else {
        last := client;
      }
      client.prev := after;
      forall i {:trigger clients[i].prev} | 0 <= i < |clients|
        ensures clients[i].prev == if i == k then client else NodeAt(clients, i - 1)
      {
        assert old(clients[i].prev) == NodeAt(clients, i - 1) && clients[i] != client;
        assert i != k && k < |clients| ==> clients[i] != clients[k];
      }
      BackwardPut(client, k, l);
    }

    lemma BackwardPut(client: TimerClient, k: nat, l: seq<TimerClient>)
      requires k <= |clients| && l == PutAt(clients, k, client) && client.prev == NodeAt(clients, k - 1)
      requires forall i {:trigger clients[i].prev} | 0 <= i < |clients| ::
        clients[i].prev == if i == k then client else NodeAt(clients, i - 1)
      ensures forall i {:trigger l[i].prev} | 0 <= i < |l| :: l[i].prev == NodeAt(l, i - 1)
    {
      forall i {:trigger l[i].prev} | 0 <= i < |l|
        ensures l[i].prev == NodeAt(l, i - 1)
      {
        assert i < k ==> l[i] == clients[i];
        assert i > k ==> l[i] == clients[i - 1];
      }
    }

    method LinkAfter(client: TimerClient, after: TimerClient, ghost k: nat)
      requires Linked() && client !in clients && 0 < k <= |clients| && after == clients[k - 1]
      modifies `last, `clients, `nodes, nodes`next, nodes`prev, client`next, client`prev
      ensures Linked() && clients == PutAt(old(clients), k, client) && nodes == old(nodes) + {client}
    {
      ghost var b, l := clients, PutAt(clients, k, client);
      assert after.next == NodeAt(b, k);
      nodes := nodes + {client};
      client.next := after.next;
      LinkBackward(client, after, k);
      after.next := client;
      clients := l;
      forall i {:trigger l[i].next} | 0 <= i < |l|
        ensures l[i].next == NodeAt(l, i + 1)
      {
        assert i < k ==> l[i] == b[i] && l[i] != client;
        assert i > k ==> l[i] == b[i - 1] && l[i] != after;
      }
    }

    method LinkFront(client: TimerClient)
      requires Linked() && client !in clients && client.prev == null
      modifies `first, `last, `clients, `nodes, nodes`prev, client`next, client`prev
      ensures Linked() && clients == PutAt(old(clients), 0, client) && nodes == old(nodes) + {client}
    {
      client.next := first;
      if client.next != null {
        client.next.prev := client;
      } else {
        last := client;
      }
      first := client;
      clients := PutAt(clients, 0, client);
      nodes := nodes + {client};
    }

    /** removeClient; the client keeps its own links. */
    method Remove(client: TimerClient, ghost k: nat)
      requires Valid() && k < |clients| && clients[k] == client
      modifies this, nodes`next, nodes`prev
      ensures Valid() && clients == Without(old(clients), k) && model == Without(old(model), k) && nodes == old(nodes)
      ensures client !in clients && client.prev == old(client.prev)
    {
      ghost var b, m := clients, model;
      Unlink(client, k);
      model := Without(m, k);
      assert forall i | 0 <= i < |b| :: b[i].Value() == m[i];
      forall i | 0 <= i < |clients|
        ensures clients[i].Value() == model[i] && clients[i] != client
      {
        assert clients[i] == b[if i < k then i else i + 1];
      }
    }

    method Unlink(client: TimerClient, ghost k: nat)
      requires Linked() && k < |clients| && clients[k] == client
      modifies `first, `last, `clients, nodes`next, nodes`prev
      ensures Linked() && clients == Without(old(clients), k) && client.prev == old(client.prev)
    {
      assert client.next == NodeAt(clients, k + 1);
      UnlinkForward(client, k);
      UnlinkBackward(client, k);
      clients := Without(clients, k);
    }

    method UnlinkForward(client: TimerClient, ghost k: nat)
      requires Linked() && k < |clients| && client == clients[k]
      modifies `first, nodes`next
      ensures Forward(Without(clients, k)) && client.next == old(client.next)
    {
      ghost var r := Without(clients, k);
      assert client.next == NodeAt(clients, k + 1) && client.prev == NodeAt(clients, k - 1);
      if client.prev != null {
        client.prev.next := client.next;
      } else {
        first := client.next;
      }
      forall i {:trigger r[i].next} | 0 <= i < |r|
        ensures r[i].next == NodeAt(r, i + 1)
      {
        assert r[i] == clients[if i < k then i else i + 1];
      }
    }

    method UnlinkBackward(client: TimerClient, ghost k: nat)
      requires Distinct(clients) && (forall i | 0 <= i < |clients| :: clients[i] in nodes) && Backward(clients)
      requires k < |clients| && client == clients[k] && client.next == NodeAt(clients, k + 1)
      modifies `last, nodes`prev
      ensures Backward(Without(clients, k)) && client.prev == old(client.prev)
    {
      ghost var r := Without(clients, k);
      assert client.prev == NodeAt(clients, k - 1);
      if client.next != null {
        client.next.prev := client.prev;
      } else {
        last := client.prev;
      }
      forall i {:trigger r[i].prev} | 0 <= i < |r|
        ensures r[i].prev == NodeAt(r, i - 1)
      {
        assert r[i] == clients[if i < k then i else i + 1];
      }
    }

    /** newClient: a request for no ticks at all is refused. */
    method NewClient(id: nat, sec: u32, usec: u32, repeat: bool, ghost now: nat) returns (ok: bool)
      requires Valid()
      modifies this, nodes
      ensures Valid() && fresh(nodes - old(nodes))
      ensures PeriodsPositive(old(model)) ==>
        Server(now, model) == Do(Server(now, old(model)), Register(id, TimeToTicks(sec, usec), repeat))
      ensures ok == (TimeToTicks(sec, usec) != 0)
    {
      var ticks := TimeToTicks(sec, usec);
      if ticks == 0 {
        return false;
      }
      var client := new TimerClient(id, sec, usec, repeat, ticks, now);
      InsertClient(client);
      ok := true;
    }

    /** sendTicks; `sends` is what the sends come back with, `fired` lists the clients ticked. */
    method SendTicks(sends: seq<Send>, ghost now: nat) returns (ghost fired: seq<Client>, ending: Ending)
      requires Valid() && PeriodsPositive(model)
      modifies this, nodes
      ensures Valid() && nodes == old(nodes) && Tries(model, fired, ending) == TrySends(old(model), now, sends)
    {
      fired, ending := [], AllSent;
      var rest := sends;
      while first != null && first.deltaTicks == 0
        invariant Valid() && PeriodsPositive(model) && nodes == old(nodes)
        invariant var t, u := TrySends(old(model), now, sends), TrySends(model, now, rest);
          t.q == u.q && t.ending == u.ending && t.fired == fired + u.fired
        decreases LeadingZeros(model)
      {
        ghost var q := model;
        if !NextSend(rest).Went? {
          ending := SendFails(NextSend(rest));
          return;
        }
        TrySendsStep(q, now, rest, fired);
        TickFirst(now);
        fired := fired + [q[0]];
        rest := Rest(rest);
      }
    }

    /** removeClient for the first client. */
    method RemoveFirst()
      requires Valid() && clients != []
      modifies this, nodes`next, nodes`prev
      ensures Valid() && nodes == old(nodes) && model == old(model)[1..]
    {
      assert first == clients[0];
      Remove(first, 0);
      assert model == old(model)[1..];
    }

    /** A new delay for the first client. */
    method SetFirst(ticks: u32)
      requires Valid() && clients != []
      modifies `model, nodes`deltaTicks
      ensures Valid() && model == old(model)[0 := old(model)[0].(delta := ticks)]
    {
      assert first == clients[0] && first.Value() == model[0];
      first.deltaTicks := ticks;
      model := model[0 := model[0].(delta := ticks)];
      forall i | 0 <= i < |clients|
        ensures clients[i].Value() == model[i]
      {
        assert i > 0 ==> clients[i] != clients[0];
      }
    }

    method AddTick()
      requires Valid() && clients != []
      modifies `model, nodes`deltaTicks
      ensures Valid() && model == MoreTime(old(model))
    {
      assert first == clients[0] && first.Value() == model[0];
      HeadSet(model, model[0].(delta := Wrap(model[0].delta + 1)));
      SetFirst(Wrap(first.deltaTicks + 1));
    }

    /** What sendOneTick and sendTicks remove when the tick of the first client cannot be sent. */
    method SendFails(result: Send) returns (ending: Ending)
      requires Valid() && clients != [] && !result.Went?
      modifies this, nodes`next, nodes`prev
      ensures Valid() && nodes == old(nodes) && Tries(model, [], ending) == GiveUp(old(model), result)
    {
      ghost var q := model;
      if result.Unreachable? {
        RemoveFirst();
      }
      GiveUpOf(q, result, model);
      if first == null {
        return NullFollowed;
      }
      RemoveFirst();
      ending := GaveUp;
    }

    /** One clock interrupt off the first delay. */
    method CountOff()
      requires Valid() && clients != [] && PeriodsPositive(model)
      modifies `model, nodes`deltaTicks
      ensures Valid() && model == CountDown(old(model)) && PeriodsPositive(model)
    {
      CountDownPositive(model);
      assert first == clients[0] && first.Value() == model[0];
      if first.deltaTicks > 0 {
        SetFirst(first.deltaTicks - 1);
      }
      assert model == CountDown(old(model));
    }

    /** The clock part of TimerServerTick. */
    method CountAndSend(sends: seq<Send>, ghost now: nat) returns (ghost fired: seq<Client>, ending: Ending)
      requires Valid() && PeriodsPositive(model)
      modifies this, nodes
      ensures Valid() && nodes == old(nodes) && Tries(model, fired, ending) == TryTick(old(model), now, sends)
    {
      fired, ending := [], AllSent;
      if first != null {
        CountOff();
        assert first == clients[0] && first.Value() == model[0];
        if first.deltaTicks == 0 {
          fired, ending := SendTicks(sends, now);
          if ending == GaveUp {
            if first == null {
              ending := NullFollowed;
            } else {
              AddTick();
            }
          }
        }
      }
    }

    /** One clock interrupt. With the first delay above one everyone comes one tick nearer and nobody is ticked; if no send
        to a client that falls due fails, it is the clock tick of the theorems about runs. */
    method Tick(sends: seq<Send>, ghost now: nat) returns (ghost fired: seq<Client>, ending: Ending)
      requires Valid() && PeriodsPositive(model)
      modifies this, nodes
      ensures Valid() && nodes == old(nodes) && Tries(model, fired, ending) == TryTick(old(model), now, sends)
      ensures old(model) != [] && old(model)[0].delta > 1 ==>
        && fired == [] && ending == AllSent && |model| == |old(model)|
        && forall i | 0 <= i < |model| :: Due(model, i) == Due(old(model), i) - 1
      ensures now > 0 && AllGoOut(old(model), sends) ==>
        && ending == AllSent && Server(now, model) == Do(Server(now - 1, old(model)), ClockTick)
        && fired == Fired(Server(now - 1, old(model)), ClockTick)
    {
      ghost var q := model;
      fired, ending := CountAndSend(sends, now);
      if q != [] && q[0].delta > 1 {
        TickOnlyCounts(q, now, sends);
      }
      if AllGoOut(q, sends) {
        TickGoesOut(q, now, sends);
      }
    }

    /** A repeating client starts again, while it is out of the list. */
    method Reset(client: TimerClient, ghost now: nat)
      requires Valid() && client !in clients
      modifies client`deltaTicks, client`since
      ensures Valid() && client.Value() == Again(old(client.Value()), now)
    {
      ghost var m := model;
      client.deltaTicks := TimeToTicks(client.sec, client.usec);
      client.since := now;
      assert forall i | 0 <= i < |clients| :: clients[i] != client && clients[i].Value() == m[i];
    }

    /** Its way back into the list. */
    method Restart(client: TimerClient, ghost now: nat)
      requires Valid() && client !in clients && client in nodes && client.prev == null
      modifies this, nodes
      ensures Valid() && nodes == old(nodes) && model == Insert(old(model), Again(old(client.Value()), now))
    {
      ghost var before := nodes;
      assert before + {client} == before;
      Reset(client, now);
      InsertClient(client);
    }

    /** One turn of the loop of sendTicks. */
    method TickFirst(ghost now: nat)
      requires Valid() && clients != [] && model[0].delta == 0
      modifies this, nodes
      ensures Valid() && nodes == old(nodes) && model == TickHead(old(model), now)
    {
      var client := first;
      ghost var q := model;
      assert client == clients[0] && client in nodes && client.prev == null && client.Value() == q[0];
      Remove(client, 0);
      assert model == q[1..] && client.Value() == q[0];
      if client.repeat {
        Restart(client, now);
      }
    }
  }
}
