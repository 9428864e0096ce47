/** The scheduler's timer queue, libs/scheduler/timerServer.c: clients in the order they fall due, each with
    the ticks still to pass after the client before it. Inserting a client takes the earlier delays off its
    own, but does not take its own off the client that follows it. */
module Timers {
  import opened Words

  /** `since` is the tick at which the client registered or was last ticked; the code does not store it. */
  datatype Client = Client(id: nat, period: u32, repeat: bool, delta: u32, since: nat)

  // ----- requested time -----

  function TimeToTicks(sec: u32, usec: u32): u32 {
    Wrap(Wrap(sec * 10) + Wrap(usec + 49999) / 100000)
  }

  /** Tenths of a second, the microseconds rounded to the nearest tenth with halves down. */
  function NearestTicks(sec: nat, usec: nat): nat {
    sec * 10 + usec / 100000 + if usec % 100000 > 50000 then 1 else 0
  }

  /** The request becomes the nearest number of ticks exactly when neither step passes 2^32. */
  lemma TicksAreNearestExactly(sec: u32, usec: u32)
    ensures TimeToTicks(sec, usec) == NearestTicks(sec, usec)
       <==> usec + 49999 < TWO_32 && sec * 10 + (usec + 49999) / 100000 < TWO_32
  {
    var r := usec % 100000;
    assert usec == 100000 * (usec / 100000) + r;
    assert (usec + 49999) / 100000 == usec / 100000 + if r > 50000 then 1 else 0;
    if usec + 49999 >= TWO_32 {
      assert Wrap(usec + 49999) == usec + 49999 - TWO_32;
    }
  }

  // ----- the queue -----

  /** Delays of the first `k` clients together. */
  function Before(q: seq<Client>, k: nat): nat
    requires k <= |q|
  {
    if k == 0 then 0 else Before(q, k - 1) + q[k - 1].delta
  }

  /** Ticks until the `i`th client falls due: its delay after all those before it. */
  function Due(q: seq<Client>, i: nat): nat
    requires i < |q|
  {
    Before(q, i + 1)
  }

  /** The walk of insertClient from client `i` with delay `d` left: where it stops, and what is left there. */
  function Walk(q: seq<Client>, i: nat, d: u32): (r: (nat, u32))
    requires i <= |q|
    ensures i <= r.0 <= |q| && r.1 <= d
    decreases |q| - i
  {
    if i == |q| || q[i].delta > d then (i, d) else Walk(q, i + 1, d - q[i].delta)
  }

  function Placed(q: seq<Client>, k: nat, c: Client): seq<Client>
    requires k <= |q|
  {
    seq(|q| + 1, i requires 0 <= i <= |q| => if i < k then q[i] else if i == k then c else q[i - 1])
  }

  /** Where an insertion lands: past every client due no later. */
  function Landing(q: seq<Client>, c: Client): (k: nat)
    ensures k <= |q|
  {
    Walk(q, 0, c.delta).0
  }

  function Insert(q: seq<Client>, c: Client): (r: seq<Client>)
    ensures |r| == |q| + 1
  {
    var (k, d) := Walk(q, 0, c.delta);
    Placed(q, k, c.(delta := d))
  }

  lemma {:induction false} WalkTakesDelays(q: seq<Client>, i: nat, d: u32)
    requires i <= |q|
    ensures var (k, rest) := Walk(q, i, d);
      Before(q, k) - Before(q, i) == d - rest && (k < |q| ==> rest < q[k].delta)
    decreases |q| - i
  {
    if i < |q| && q[i].delta <= d {
      WalkTakesDelays(q, i + 1, d - q[i].delta);
    }
  }

  lemma {:induction false} BeforeSame(q: seq<Client>, r: seq<Client>, k: nat)
    requires k <= |q| && k <= |r| && forall i | 0 <= i < k :: q[i].delta == r[i].delta
    ensures Before(q, k) == Before(r, k)
  {
    if k > 0 {
      BeforeSame(q, r, k - 1);
    }
  }

  lemma {:induction false} BeforePlaced(q: seq<Client>, k: nat, c: Client, i: nat)
    requires k <= i <= |q|
    ensures Before(Placed(q, k, c), i + 1) == Before(q, i) + c.delta
  {
    if i == k {
      BeforeSame(q, Placed(q, k, c), k);
    } else {
      BeforePlaced(q, k, c, i - 1);
    }
  }

  /** The new client falls due after exactly the ticks it asked for; clients before it keep their due times and each
      one after it is put off by the new client's remaining delay. */
  lemma InsertDue(q: seq<Client>, c: Client)
    ensures var k, r := Landing(q, c), Insert(q, c);
      && Due(r, k) == c.delta && r[k] == c.(delta := r[k].delta)
      && (forall i | 0 <= i < k :: r[i] == q[i] && Due(r, i) == Due(q, i))
      && (forall i | k <= i < |q| :: r[i + 1] == q[i] && Due(r, i + 1) == Due(q, i) + r[k].delta)
  {
    WalkTakesDelays(q, 0, c.delta);
    var k, r := Landing(q, c), Insert(q, c);
    forall i | 0 <= i < k
      ensures Due(r, i) == Due(q, i)
    {
      BeforeSame(q, r, i + 1);
    }
    forall i | k <= i <= |q|
      ensures Before(r, i + 1) == Before(q, i) + r[k].delta
    {
      BeforePlaced(q, k, r[k], i);
    }
  }

  /** An insertion leaves every other client's due time as it was exactly when the new client comes last or has no
      delay of its own left. */
  lemma InsertOnTimeExactly(q: seq<Client>, c: Client)
    ensures var k, r := Landing(q, c), Insert(q, c);
      (forall i | k <= i < |q| :: Due(r, i + 1) == Due(q, i)) <==> k == |q| || r[k].delta == 0
  {
    InsertDue(q, c);
    var k, r := Landing(q, c), Insert(q, c);
    if k < |q| && r[k].delta > 0 {
      assert Due(r, k + 1) != Due(q, k);
    }
  }

  /** A client due in 10 ticks is put off to 13 by another that asks for 3. */
  lemma InsertDelaysOthers(a: Client, b: Client)
    requires a.delta == 10 && b.delta == 3
    ensures Insert([a], b) == [b, a] && Due([a], 0) == 10 && Due([b, a], 1) == 13
  {
    assert Before([a], 0) == 0 && Before([b, a], 0) == 0;
    assert Before([b, a], 1) == 3;
  }

  // ----- ticking -----

  function RunFrom(q: seq<Client>, i: nat): (n: nat)
    requires i <= |q|
    ensures i <= n <= |q| && (forall j | i <= j < n :: q[j].delta == 0) && (n < |q| ==> q[n].delta != 0)
    decreases |q| - i
  {
    if i == |q| || q[i].delta != 0 then i else RunFrom(q, i + 1)
  }

  /** Length of the leading run of clients that are due now. */
  function LeadingZeros(q: seq<Client>): (n: nat)
    ensures n <= |q| && (forall j | 0 <= j < n :: q[j].delta == 0) && (n < |q| ==> q[n].delta != 0)
  {
    RunFrom(q, 0)
  }

  lemma {:induction false} WalkPassesRun(q: seq<Client>, i: nat, d: u32)
    requires i <= LeadingZeros(q)
    ensures Walk(q, i, d) == Walk(q, LeadingZeros(q), d)
    decreases LeadingZeros(q) - i
  {
    if i < LeadingZeros(q) {
      WalkPassesRun(q, i + 1, d);
    }
  }

  /** A client put back with a positive delay never rejoins the run that is being ticked. */
  lemma InsertKeepsRun(q: seq<Client>, c: Client)
    requires c.delta > 0
    ensures LeadingZeros(Insert(q, c)) == LeadingZeros(q)
    ensures forall i | 0 <= i < LeadingZeros(q) :: Insert(q, c)[i] == q[i]
  {
    WalkPassesRun(q, 0, c.delta);
    var n, r := LeadingZeros(q), Insert(q, c);
    assert r[n].delta != 0;
  }

  function Again(c: Client, now: nat): Client {
    c.(delta := c.period, since := now)
  }

  /** The queue after one client at the head was ticked. */
  function TickHead(q: seq<Client>, now: nat): seq<Client>
    requires q != []
  {
    if q[0].repeat then Insert(q[1..], Again(q[0], now)) else q[1..]
  }

  datatype Ticked = Ticked(q: seq<Client>, fired: seq<Client>)

  ghost predicate PeriodsPositive(q: seq<Client>) {
    forall c | c in q :: c.period > 0
  }

  /** Tick clients while the first is due. It ends because the run of due clients shrinks. */
  function SendTicks(q: seq<Client>, now: nat): (t: Ticked)
    requires PeriodsPositive(q)
    ensures PeriodsPositive(t.q)
    decreases LeadingZeros(q)
  {
    if q == [] || q[0].delta != 0 then Ticked(q, [])
    else
      TickHeadShrinks(q, now);
      var t := SendTicks(TickHead(q, now), now);
      Ticked(t.q, [q[0]] + t.fired)
  }

  lemma SendTicksStep(q: seq<Client>, now: nat, fired: seq<Client>)
    requires PeriodsPositive(q) && q != [] && q[0].delta == 0
    ensures PeriodsPositive(TickHead(q, now)) && LeadingZeros(TickHead(q, now)) < LeadingZeros(q)
    ensures var t, u := SendTicks(q, now), SendTicks(TickHead(q, now), now);
      u.q == t.q && (fired + [q[0]]) + u.fired == fired + t.fired
  {
    TickHeadShrinks(q, now);
  }

  lemma InsertMembers(q: seq<Client>, c: Client)
    ensures forall x | x in Insert(q, c) :: x in q || x == c.(delta := x.delta)
  {
  }

  lemma TickHeadShrinks(q: seq<Client>, now: nat)
    requires q != [] && q[0].delta == 0 && PeriodsPositive(q)
    ensures LeadingZeros(TickHead(q, now)) == LeadingZeros(q) - 1
    ensures forall i | 0 <= i < LeadingZeros(q) - 1 :: TickHead(q, now)[i] == q[i + 1]
    ensures PeriodsPositive(TickHead(q, now))
  {
    assert q[0] in q && forall c | c in q[1..] :: c in q;
    var n := LeadingZeros(q[1..]);
    assert n == LeadingZeros(q) - 1 by {
      assert n + 1 < |q| ==> q[n + 1].delta != 0;
      assert forall j | 0 <= j < n :: q[1..][j] == q[j + 1];
    }
    if q[0].repeat {
      InsertKeepsRun(q[1..], Again(q[0], now));
      InsertMembers(q[1..], Again(q[0], now));
    }
  }

  /** sendTicks ticks each client of the run that is due exactly once, in order, and no other, and leaves a queue whose
      first client still has ticks to wait. */
  lemma {:induction false} TicksLeadingRunOnce(q: seq<Client>, now: nat)
    requires PeriodsPositive(q)
    ensures SendTicks(q, now).fired == q[..LeadingZeros(q)]
    ensures LeadingZeros(SendTicks(q, now).q) == 0
    decreases LeadingZeros(q)
  {
    if q != [] && q[0].delta == 0 {
      TickHeadShrinks(q, now);
      TicksLeadingRunOnce(TickHead(q, now), now);
      assert TickHead(q, now)[..LeadingZeros(q) - 1] == q[1..LeadingZeros(q)];
    }
  }

  /** TimerServerTick: one tick off the first client, then everyone due. */
  function CountDown(q: seq<Client>): seq<Client> {
    if q == [] || q[0].delta == 0 then q else [q[0].(delta := q[0].delta - 1)] + q[1..]
  }

  lemma CountDownPositive(q: seq<Client>)
    requires PeriodsPositive(q)
    ensures PeriodsPositive(CountDown(q))
  {
    assert forall c | c in CountDown(q) :: c in q || c == q[0].(delta := q[0].delta - 1);
  }

  function Tick(q: seq<Client>, now: nat): (t: Ticked)
    requires PeriodsPositive(q)
    ensures PeriodsPositive(t.q)
  {
    CountDownPositive(q);
    SendTicks(CountDown(q), now)
  }

  // ----- never early -----

  /** Each client's remaining time and the time it has waited make up at least its period. */
  ghost predicate Waits(q: seq<Client>, now: nat) {
    forall i {:trigger Due(q, i)} | 0 <= i < |q| :: q[i].since <= now && Due(q, i) + (now - q[i].since) >= q[i].period
  }

  /** Each client falls due exactly when its period has passed. */
  ghost predicate OnTime(q: seq<Client>, now: nat) {
    forall i {:trigger Due(q, i)} | 0 <= i < |q| :: q[i].since <= now && Due(q, i) + (now - q[i].since) == q[i].period
  }

  lemma InsertWaits(q: seq<Client>, c: Client, now: nat)
    requires Waits(q, now) && c.delta == c.period && c.since == now
    ensures Waits(Insert(q, c), now)
  {
    InsertDue(q, c);
    var k, r := Landing(q, c), Insert(q, c);
    forall i | 0 <= i < |r|
      ensures r[i].since <= now && Due(r, i) + (now - r[i].since) >= r[i].period
    {
      if i < k {
        assert Due(r, i) == Due(q, i);
      } else if i > k {
        assert Due(r, (i - 1) + 1) == Due(q, i - 1) + r[k].delta;
      }
    }
  }

  /** Registering a client keeps everyone on time exactly when it comes last or has no delay of its own left. */
  lemma RegisterOnTimeExactly(q: seq<Client>, c: Client, now: nat)
    requires OnTime(q, now) && c.delta == c.period && c.since == now
    ensures var k, r := Landing(q, c), Insert(q, c);
      OnTime(r, now) <==> k == |q| || r[k].delta == 0
  {
    InsertDue(q, c);
    var k, r := Landing(q, c), Insert(q, c);
    if k < |q| {
      assert Due(r, k + 1) == Due(q, k) + r[k].delta;
    }
    if k == |q| || r[k].delta == 0 {
      forall i | 0 <= i < |r|
        ensures r[i].since <= now && Due(r, i) + (now - r[i].since) == r[i].period
      {
        if i < k {
          assert Due(r, i) == Due(q, i);
        } else if i > k {
          assert Due(r, (i - 1) + 1) == Due(q, i - 1) + r[k].delta;
        }
      }
    }
  }

  lemma {:induction false} TailBefore(q: seq<Client>, k: nat)
    requires k < |q|
    ensures Before(q, k + 1) == q[0].delta + Before(q[1..], k)
  {
    if k > 0 {
      TailBefore(q, k - 1);
    }
  }

  lemma TailWaits(q: seq<Client>, now: nat)
    requires q != [] && Waits(q, now) && q[0].delta == 0
    ensures Waits(q[1..], now)
  {
    forall i | 0 <= i < |q[1..]|
      ensures q[1..][i].since <= now && Due(q[1..], i) + (now - q[1..][i].since) >= q[1..][i].period
    {
      TailBefore(q, i + 1);
      assert Due(q, i + 1) == Due(q[1..], i);
    }
  }

  lemma {:induction false} SendTicksWaits(q: seq<Client>, now: nat)
    requires PeriodsPositive(q) && Waits(q, now)
    ensures Waits(SendTicks(q, now).q, now)
    ensures forall c | c in SendTicks(q, now).fired :: c.since <= now && now - c.since >= c.period
    decreases LeadingZeros(q)
  {
    if q != [] && q[0].delta == 0 {
      assert Before(q, 0) == 0 && Due(q, 0) == 0;
      TailWaits(q, now);
      if q[0].repeat {
        InsertWaits(q[1..], Again(q[0], now), now);
      }
      TickHeadShrinks(q, now);
      SendTicksWaits(TickHead(q, now), now);
    }
  }

  lemma CountDownDue(q: seq<Client>, i: nat)
    requires i < |q| && q[0].delta > 0
    ensures Due(CountDown(q), i) == Due(q, i) - 1
  {
    TailBefore(q, i);
    TailBefore(CountDown(q), i);
    assert CountDown(q)[1..] == q[1..];
  }

  lemma CountDownWaits(q: seq<Client>, now: nat)
    requires Waits(q, now) && LeadingZeros(q) == 0
    ensures Waits(CountDown(q), now + 1)
  {
    var r := CountDown(q);
    forall i | 0 <= i < |r|
      ensures r[i].since <= now + 1 && Due(r, i) + (now + 1 - r[i].since) >= r[i].period
    {
      CountDownDue(q, i);
      assert Due(r, i) == Due(q, i) - 1;
    }
  }

  // ----- runs -----

  datatype Call = Register(id: nat, period: u32, repeat: bool) | ClockTick

  datatype Server = Server(now: nat, q: seq<Client>)

  /** A request for no ticks at all is refused. */
  function Do(s: Server, c: Call): Server
    requires PeriodsPositive(s.q)
  {
    match c
    case Register(id, period, repeat) =>
      if period == 0 then s else s.(q := Insert(s.q, Client(id, period, repeat, period, s.now)))
    case ClockTick => Server(s.now + 1, Tick(s.q, s.now + 1).q)
  }

  /** The clients ticked by a call. */
  function Fired(s: Server, c: Call): seq<Client>
    requires PeriodsPositive(s.q)
  {
    if c.ClockTick? then Tick(s.q, s.now + 1).fired else []
  }

  ghost predicate Sound(s: Server) {
    PeriodsPositive(s.q) && Waits(s.q, s.now) && LeadingZeros(s.q) == 0
  }

  lemma RegisterKeepsSound(s: Server, x: Client)
    requires Sound(s) && x.delta == x.period > 0 && x.since == s.now
    ensures Sound(s.(q := Insert(s.q, x)))
  {
    InsertWaits(s.q, x, s.now);
    InsertKeepsRun(s.q, x);
    InsertMembers(s.q, x);
  }

  lemma ClockTickKeepsSound(s: Server)
    requires Sound(s)
    ensures var t := Tick(s.q, s.now + 1);
      Sound(Server(s.now + 1, t.q)) && forall x | x in t.fired :: x.since <= s.now + 1 && s.now + 1 - x.since >= x.period
  {
    CountDownPositive(s.q);
    CountDownWaits(s.q, s.now);
    SendTicksWaits(CountDown(s.q), s.now + 1);
    TicksLeadingRunOnce(CountDown(s.q), s.now + 1);
  }

  lemma DoKeepsSound(s: Server, c: Call)
    requires Sound(s)
    ensures Sound(Do(s, c))
    ensures forall x | x in Fired(s, c) :: x.since <= Do(s, c).now && Do(s, c).now - x.since >= x.period
  {
    match c {
      case Register(id, period, repeat) =>
        if period != 0 {
          RegisterKeepsSound(s, Client(id, period, repeat, period, s.now));
        }
      case ClockTick => ClockTickKeepsSound(s);
    }
  }

  ghost predicate Leads(states: seq<Server>, calls: seq<Call>) {
    && |states| == |calls| + 1 && states[0] == Server(0, [])
    && forall i {:trigger calls[i]} | 0 <= i < |calls| ::
         PeriodsPositive(states[i].q) && states[i + 1] == Do(states[i], calls[i])
  }

  lemma {:induction false} RunKeepsSound(states: seq<Server>, calls: seq<Call>, i: nat)
    requires Leads(states, calls) && i < |states|
    ensures Sound(states[i])
  {
    if i > 0 {
      RunKeepsSound(states, calls, i - 1);
      DoKeepsSound(states[i - 1], calls[i - 1]);
    }
  }

  /** In every run, whenever a client is ticked at least its period has passed since it registered or was last ticked;
      and between calls the first client always has ticks to wait. */
  lemma NeverEarly(states: seq<Server>, calls: seq<Call>, i: nat)
    requires Leads(states, calls) && i < |calls|
    ensures PeriodsPositive(states[i].q)
    ensures forall c | c in Fired(states[i], calls[i]) ::
      c.since <= states[i + 1].now && states[i + 1].now - c.since >= c.period
    ensures states[i].q != [] ==> states[i].q[0].delta > 0
  {
    RunKeepsSound(states, calls, i);
    DoKeepsSound(states[i], calls[i]);
    assert states[i + 1] == Do(states[i], calls[i]);
  }

  // ----- sends that fail -----

  /** What sendOneTick comes back with. */
  datatype Send = Went | Failed | Unreachable

  /** How a loop of sends ends: with its first client not due, giving up on a failed send, or following a null pointer. */
  datatype Ending = AllSent | GaveUp | NullFollowed

  datatype Tries = Tries(q: seq<Client>, fired: seq<Client>, ending: Ending)

  /** What the next send comes back with; those not mentioned succeed. */
  function NextSend(sends: seq<Send>): Send {
    if sends == [] then Went else sends[0]
  }

  function Rest(sends: seq<Send>): seq<Send> {
    if sends == [] then [] else sends[1..]
  }

  /** What is removed when the tick of the first client cannot be sent. sendOneTick has removed an unreachable one before
      sendTicks reads the address of the client that is first then. */
  function GiveUp(q: seq<Client>, result: Send): Tries
    requires q != []
  {
    if !result.Unreachable? then Tries(q[1..], [], GaveUp)
    else if |q| == 1 then Tries([], [], NullFollowed)
    else Tries(q[2..], [], GaveUp)
  }

  /** sendTicks. */
  function TrySends(q: seq<Client>, now: nat, sends: seq<Send>): (t: Tries)
    requires PeriodsPositive(q)
    decreases LeadingZeros(q)
  {
    if q == [] || q[0].delta != 0 then Tries(q, [], AllSent)
    else if !NextSend(sends).Went? then GiveUp(q, NextSend(sends))
    else
      TickHeadShrinks(q, now);
      var t := TrySends(TickHead(q, now), now, Rest(sends));
      t.(fired := [q[0]] + t.fired)
  }

  function MoreTime(s: seq<Client>): seq<Client>
    requires s != []
  {
    [s[0].(delta := Wrap(s[0].delta + 1))] + s[1..]
  }

  /** The clock part of TimerServerTick: the client that is first after a failure gets one tick more. */
  function TryTick(q: seq<Client>, now: nat, sends: seq<Send>): Tries
    requires PeriodsPositive(q)
  {
    CountDownPositive(q);
    var t := TrySends(CountDown(q), now, sends);
    if !t.ending.GaveUp? then t else if t.q == [] then t.(ending := NullFollowed) else t.(q := MoreTime(t.q))
  }

  lemma TrySendsStep(q: seq<Client>, now: nat, sends: seq<Send>, fired: seq<Client>)
    requires PeriodsPositive(q) && q != [] && q[0].delta == 0 && NextSend(sends).Went?
    ensures PeriodsPositive(TickHead(q, now)) && LeadingZeros(TickHead(q, now)) < LeadingZeros(q)
    ensures var t, u := TrySends(q, now, sends), TrySends(TickHead(q, now), now, Rest(sends));
      t.q == u.q && t.ending == u.ending && fired + t.fired == (fired + [q[0]]) + u.fired
  {
    TickHeadShrinks(q, now);
  }

  /** The first sends succeed. */
  predicate Succeed(sends: seq<Send>, n: nat) {
    forall i | 0 <= i < n && i < |sends| :: sends[i].Went?
  }

  /** The queue once its first `k` clients were ticked. */
  function TickedHeads(q: seq<Client>, now: nat, k: nat): seq<Client>
    requires PeriodsPositive(q) && k <= LeadingZeros(q)
    decreases k
  {
    if k == 0 then q
    else
      TickHeadShrinks(q, now);
      TickedHeads(TickHead(q, now), now, k - 1)
  }

  /** Those before the `k`th, whose send fails, are ticked, in order, and no other; it is given up on then. */
  ghost predicate StopsAt(q: seq<Client>, now: nat, sends: seq<Send>, t: Tries, k: nat)
    requires PeriodsPositive(q)
  {
    && k < LeadingZeros(q) && k < |sends| && !sends[k].Went? && Succeed(sends, k)
    && t.ending != AllSent && t.fired == q[..k]
    && TickedHeads(q, now, k) != [] && t == GiveUp(TickedHeads(q, now, k), sends[k]).(fired := q[..k])
  }

  /** If no send to a client that is due fails, the loop is the one that every theorem about runs is about; otherwise it
      stops at the `k`th. */
  lemma {:induction false} TriesExactly(q: seq<Client>, now: nat, sends: seq<Send>) returns (k: nat)
    requires PeriodsPositive(q)
    ensures if Succeed(sends, LeadingZeros(q))
      then TrySends(q, now, sends) == Tries(SendTicks(q, now).q, SendTicks(q, now).fired, AllSent)
      else StopsAt(q, now, sends, TrySends(q, now, sends), k)
    decreases LeadingZeros(q)
  {
    k := 0;
    if q != [] && q[0].delta == 0 {
      if NextSend(sends).Went? {
        TickHeadShrinks(q, now);
        var later := TriesExactly(TickHead(q, now), now, Rest(sends));
        RestSucceeds(sends, LeadingZeros(q) - 1);
        k := later + 1;
        if !Succeed(sends, LeadingZeros(q)) {
          StopsLater(q, now, sends, later, TrySends(TickHead(q, now), now, Rest(sends)));
        }
      }
    }
  }

  lemma StopsLater(q: seq<Client>, now: nat, sends: seq<Send>, k: nat, t: Tries)
    requires PeriodsPositive(q) && q != [] && q[0].delta == 0 && NextSend(sends).Went?
    requires PeriodsPositive(TickHead(q, now)) && StopsAt(TickHead(q, now), now, Rest(sends), t, k)
    ensures StopsAt(q, now, sends, t.(fired := [q[0]] + t.fired), k + 1)
  {
    TickHeadShrinks(q, now);
    RestSucceeds(sends, k);
    assert forall i | 0 <= i < k :: TickHead(q, now)[i] == q[i + 1];
    assert [q[0]] + t.fired == q[..k + 1];
    assert TickedHeads(q, now, k + 1) == TickedHeads(TickHead(q, now), now, k);
  }

  lemma RestSucceeds(sends: seq<Send>, n: nat)
    requires NextSend(sends).Went?
    ensures Succeed(sends, n + 1) <==> Succeed(Rest(sends), n)
  {
    assert forall i | 0 <= i < |Rest(sends)| :: Rest(sends)[i] == sends[i + 1];
  }

  lemma GiveUpOf(q: seq<Client>, result: Send, left: seq<Client>)
    requires q != [] && left == if result.Unreachable? then q[1..] else q
    ensures GiveUp(q, result) == if left == [] then Tries([], [], NullFollowed) else Tries(left[1..], [], GaveUp)
  {
  }

  // ----- one clock tick -----

  /** The clock tick makes this client due. A first delay of zero is not counted down. */
  predicate FallsDue(q: seq<Client>, i: nat)
    requires i < |q|
  {
    Due(q, i) <= if q[0].delta == 0 then 0 else 1
  }

  /** No send to a client that falls due fails. */
  ghost predicate AllGoOut(q: seq<Client>, sends: seq<Send>) {
    forall i | 0 <= i < |q| && i < |sends| && FallsDue(q, i) :: sends[i].Went?
  }

  lemma FallsDueExactly(q: seq<Client>, i: nat)
    requires i < |q|
    ensures FallsDue(q, i) <==> i < LeadingZeros(CountDown(q))
  {
    var r, n := CountDown(q), LeadingZeros(CountDown(q));
    if q[0].delta > 0 {
      CountDownDue(q, i);
    }
    if Due(r, i) == 0 {
      if n <= i {
        DueNow(r, i, n);
      }
    } else if i < n {
      NoDelays(r, i + 1);
    }
  }

  lemma {:induction false} NoDelays(q: seq<Client>, k: nat)
    requires k <= LeadingZeros(q)
    ensures Before(q, k) == 0
  {
    if k > 0 {
      NoDelays(q, k - 1);
    }
  }

  /** If no send fails a clock tick is the one of every theorem about runs. */
  lemma TickGoesOut(q: seq<Client>, now: nat, sends: seq<Send>)
    requires PeriodsPositive(q) && AllGoOut(q, sends)
    ensures TryTick(q, now, sends) == Tries(Tick(q, now).q, Tick(q, now).fired, AllSent)
  {
    CountDownPositive(q);
    forall i | 0 <= i < LeadingZeros(CountDown(q)) && i < |sends|
      ensures sends[i].Went?
    {
      FallsDueExactly(q, i);
    }
    var k := TriesExactly(CountDown(q), now, sends);
  }

  /** Before the first client is due a clock tick brings everyone one tick nearer, and ticks nobody. */
  lemma TickOnlyCounts(q: seq<Client>, now: nat, sends: seq<Send>)
    requires PeriodsPositive(q) && q != [] && q[0].delta > 1
    ensures var t := TryTick(q, now, sends);
      && t.fired == [] && t.ending == AllSent && |t.q| == |q|
      && forall i | 0 <= i < |q| :: Due(t.q, i) == Due(q, i) - 1 && t.q[i].(delta := q[i].delta) == q[i]
  {
    CountDownPositive(q);
    forall i | 0 <= i < |q|
      ensures Due(CountDown(q), i) == Due(q, i) - 1
    {
      CountDownDue(q, i);
    }
  }

  /** Otherwise those before the first failure are ticked, and what is left of the queue is what giving up on it leaves, with
      one tick more for who is first then. */
  lemma TickStops(q: seq<Client>, now: nat, sends: seq<Send>) returns (k: nat, m: seq<Client>)
    requires PeriodsPositive(q) && !AllGoOut(q, sends)
    ensures k < |q| && k < |sends| && FallsDue(q, k) && !sends[k].Went? && Succeed(sends, k)
    ensures PeriodsPositive(CountDown(q)) && k <= LeadingZeros(CountDown(q)) && m == TickedHeads(CountDown(q), now, k) != []
    ensures var t := TryTick(q, now, sends);
      && t.fired == CountDown(q)[..k] && (t.ending == NullFollowed <==> |m| <= Removed(sends[k]))
      && (|m| > Removed(sends[k]) ==> t.ending == GaveUp && t.q == AfterFailure(m, sends[k]))
  {
    CountDownPositive(q);
    var j :| 0 <= j < |q| && j < |sends| && FallsDue(q, j) && !sends[j].Went?;
    FallsDueExactly(q, j);
    k := TriesExactly(CountDown(q), now, sends);
    FallsDueExactly(q, k);
    m := TickedHeads(CountDown(q), now, k);
    GivenUp(m, sends[k], TrySends(CountDown(q), now, sends));
  }

  lemma GivenUp(m: seq<Client>, result: Send, t: Tries)
    requires m != [] && t == GiveUp(m, result).(fired := t.fired)
    ensures t.ending == NullFollowed || (t.ending == GaveUp && t.q == []) <==> |m| <= Removed(result)
    ensures |m| > Removed(result) ==> t.ending == GaveUp && t.q != [] && MoreTime(t.q) == AfterFailure(m, result)
  {
  }

  /** How many clients a failed send removes. */
  function Removed(result: Send): nat {
    if result.Unreachable? then 2 else 1
  }

  /** The queue TimerServerTick leaves when the tick of the first client cannot be sent. */
  function AfterFailure(q: seq<Client>, result: Send): seq<Client>
    requires |q| > Removed(result)
  {
    MoreTime(GiveUp(q, result).q)
  }

  lemma AfterFailureBefore(q: seq<Client>, result: Send, i: nat)
    requires |q| > Removed(result) && q[0].delta == 0 && i < |q| - Removed(result)
    ensures var n, s := Removed(result), GiveUp(q, result).q;
      Due(q, i + n) - Due(AfterFailure(q, result), i)
        == (if result.Unreachable? then q[1].delta else 0) + s[0].delta - Wrap(s[0].delta + 1)
  {
    var s, r := GiveUp(q, result).q, AfterFailure(q, result);
    assert r[1..] == s[1..];
    TailBefore(r, i);
    TailBefore(s, i);
    if result.Unreachable? {
      TailBefore(q, i + 2);
      TailBefore(q[1..], i + 1);
      assert q[1..][1..] == s;
    } else {
      TailBefore(q, i + 1);
    }
  }

  /** A failed send brings nobody's turn forward exactly if the client removed with the unreachable one had at most one tick
      left, and the tick given back does not overflow. */
  lemma FailedSendExactly(q: seq<Client>, result: Send)
    requires |q| > Removed(result) && q[0].delta == 0
    ensures var n, r := Removed(result), AfterFailure(q, result);
      (forall i | 0 <= i < |r| :: Due(r, i) >= Due(q, i + n))
        <==> (result.Unreachable? ==> q[1].delta <= 1) && q[n].delta + 1 < TWO_32
  {
    var n, r := Removed(result), AfterFailure(q, result);
    forall i | 0 <= i < |r|
      ensures Due(q, i + n) - Due(r, i) == Due(q, n) - Due(r, 0)
    {
      AfterFailureBefore(q, result, i);
      AfterFailureBefore(q, result, 0);
    }
    AfterFailureBefore(q, result, 0);
  }

  /** With no client left behind those removed, a null pointer is followed. */
  lemma NullFollowedExactly(q: seq<Client>, now: nat, sends: seq<Send>)
    requires PeriodsPositive(q) && q != [] && q[0].delta <= 1 && !NextSend(sends).Went?
    ensures TryTick(q, now, sends).ending == NullFollowed <==> |q| <= Removed(NextSend(sends))
    ensures |q| > Removed(NextSend(sends)) ==>
      TryTick(q, now, sends) == Tries(AfterFailure(CountDown(q), NextSend(sends)), [], GaveUp)
  {
    CountDownPositive(q);
    assert CountDown(q)[0].delta == 0;
  }

  /** A client due in 12 ticks is due in 3 once the address of the first is unreachable. */
  lemma UnreachableHastens(a: Client, b: Client, c: Client)
    requires a.delta == 0 && b.delta == 10 && c.delta == 2
    ensures Due([a, b, c], 2) == 12 && Due(AfterFailure([a, b, c], Unreachable), 0) == 3
  {
    assert Before([a, b, c], 1) == 0;
    assert Before([a, b, c], 2) == 10;
    assert Before(AfterFailure([a, b, c], Unreachable), 0) == 0;
  }

  // ----- starvation -----

  ghost predicate Mentions(fired: seq<Client>, id: nat) {
    exists c :: c in fired && c.id == id
  }

  /** Some client with this id is ticked within `n` ticks. */
  ghost predicate TickedWithin(q: seq<Client>, now: nat, n: nat, id: nat)
    requires PeriodsPositive(q)
    decreases n
  {
    n > 0 && (Mentions(Tick(q, now + 1).fired, id) || TickedWithin(Tick(q, now + 1).q, now + 1, n - 1, id))
  }

  ghost predicate EverTicked(q: seq<Client>, now: nat, id: nat)
    requires PeriodsPositive(q)
  {
    exists n: nat :: TickedWithin(q, now, n, id)
  }

  /** Clients in front of the `m`th with less than its delay to walk land in front of it. */
  lemma {:induction false} WalkStops(q: seq<Client>, i: nat, d: u32, m: nat)
    requires i <= m < |q| && q[m].delta > d
    ensures Walk(q, i, d).0 <= m
    decreases |q| - i
  {
    if q[i].delta <= d {
      WalkStops(q, i + 1, d - q[i].delta, m);
    }
  }

  /** Where an insertion at `k` moves the `t`th client. */
  function Moved(k: nat, t: nat): nat {
    if t < k then t else t + 1
  }

  lemma InsertMoves(q: seq<Client>, c: Client, t: nat)
    requires t < |q|
    ensures var k := Landing(q, c); Insert(q, c)[Moved(k, t)] == q[t] && Moved(k, t) != k
  {
  }

  /** The `i`th client repeats, and its period is shorter than the delay of the `m`th behind it. The client with this id
      is the `j`th, at `m` or behind. */
  ghost predicate Starved(q: seq<Client>, id: nat, i: nat, m: nat, j: nat) {
    && i < m <= j < |q| && q[i].repeat && q[i].period < q[m].delta
    && forall k | 0 <= k < |q| :: q[k].id == id <==> k == j
  }

  lemma InsertStarves(q: seq<Client>, c: Client, id: nat, i: nat, m: nat, j: nat)
    requires Starved(q, id, i, m, j) && c.id != id
    ensures var k := Landing(q, c); Starved(Insert(q, c), id, Moved(k, i), Moved(k, m), Moved(k, j))
  {
    var k, r := Landing(q, c), Insert(q, c);
    InsertMoves(q, c, i);
    InsertMoves(q, c, m);
    InsertMoves(q, c, j);
    assert r[k].id == c.id;
    forall t | 0 <= t < |r| && r[t].id == id
      ensures t == Moved(k, j)
    {
      assert t < k ==> r[t] == q[t];
      assert t > k ==> r[t] == q[t - 1];
    }
  }

  lemma ReinsertedStarves(q: seq<Client>, now: nat, id: nat, k: nat, m: nat, j: nat)
    requires Starved(q, id, 0, m, j) && k == Landing(q[1..], Again(q[0], now)) <= m - 1
    ensures Starved(TickHead(q, now), id, k, m, j)
  {
    var s, r := q[1..], TickHead(q, now);
    assert forall t | 0 <= t < |s| :: s[t] == q[t + 1];
    assert r[k].id == q[0].id && r[k].repeat && r[k].period == q[0].period;
    assert forall t | 0 <= t < k :: r[t] == s[t];
    assert forall t | k < t < |r| :: r[t] == s[t - 1];
  }

  /** Ticking the head leaves the client starved: the repeating client goes back in front of the `m`th. */
  lemma HeadStarves(q: seq<Client>, now: nat, id: nat, i: nat, m: nat, j: nat) returns (i': nat, m': nat, j': nat)
    requires Starved(q, id, i, m, j)
    ensures q[0].id != id && Starved(TickHead(q, now), id, i', m', j')
  {
    var s, c := q[1..], Again(q[0], now);
    assert forall t | 0 <= t < |s| :: s[t] == q[t + 1];
    var k := Landing(s, c);
    if i > 0 {
      assert Starved(s, id, i - 1, m - 1, j - 1);
      i', m', j' := i - 1, m - 1, j - 1;
      if q[0].repeat {
        InsertStarves(s, c, id, i - 1, m - 1, j - 1);
        i', m', j' := Moved(k, i - 1), Moved(k, m - 1), Moved(k, j - 1);
      }
    } else {
      WalkStops(s, 0, c.delta, m - 1);
      ReinsertedStarves(q, now, id, k, m, j);
      i', m', j' := k, m, j;
    }
  }

  lemma {:induction false} SendTicksStarves(q: seq<Client>, now: nat, id: nat, i: nat, m: nat, j: nat)
    returns (i': nat, m': nat, j': nat)
    requires PeriodsPositive(q) && Starved(q, id, i, m, j)
    ensures Starved(SendTicks(q, now).q, id, i', m', j')
    ensures forall c | c in SendTicks(q, now).fired :: c.id != id
    decreases LeadingZeros(q)
  {
    i', m', j' := i, m, j;
    if q[0].delta == 0 {
      var i1, m1, j1 := HeadStarves(q, now, id, i, m, j);
      TickHeadShrinks(q, now);
      i', m', j' := SendTicksStarves(TickHead(q, now), now, id, i1, m1, j1);
    }
  }

  lemma TickStarves(q: seq<Client>, now: nat, id: nat, i: nat, m: nat, j: nat) returns (i': nat, m': nat, j': nat)
    requires PeriodsPositive(q) && Starved(q, id, i, m, j)
    ensures Starved(Tick(q, now).q, id, i', m', j')
    ensures forall c | c in Tick(q, now).fired :: c.id != id
  {
    CountDownPositive(q);
    assert Starved(CountDown(q), id, i, m, j);
    i', m', j' := SendTicksStarves(CountDown(q), now, id, i, m, j);
  }

  lemma DoStarves(s: Server, c: Call, id: nat, i: nat, m: nat, j: nat) returns (i': nat, m': nat, j': nat)
    requires PeriodsPositive(s.q) && Starved(s.q, id, i, m, j) && (c.Register? ==> c.id != id)
    ensures Starved(Do(s, c).q, id, i', m', j')
    ensures forall x | x in Fired(s, c) :: x.id != id
  {
    match c {
      case Register(x, period, repeat) =>
        var client := Client(x, period, repeat, period, s.now);
        InsertStarves(s.q, client, id, i, m, j);
        var k := Landing(s.q, client);
        i', m', j' := if period == 0 then i else Moved(k, i), if period == 0 then m else Moved(k, m),
                      if period == 0 then j else Moved(k, j);
      case ClockTick => i', m', j' := TickStarves(s.q, s.now + 1, id, i, m, j);
    }
  }

  /** In any run, once a client stands behind a repeating one whose period is shorter than its own delay, or than a delay
      between them, it is never ticked again, whoever registers or repeats besides. */
  lemma {:induction false} StarvedForEver(states: seq<Server>, calls: seq<Call>, id: nat, start: nat, n: nat,
                                          i: nat, m: nat, j: nat)
    returns (i': nat, m': nat, j': nat)
    requires Leads(states, calls) && start <= n < |calls| && Starved(states[start].q, id, i, m, j)
    requires forall k {:trigger calls[k]} | start <= k < |calls| :: calls[k].Register? ==> calls[k].id != id
    ensures PeriodsPositive(states[n].q) && forall x | x in Fired(states[n], calls[n]) :: x.id != id
    ensures Starved(states[n + 1].q, id, i', m', j')
  {
    i', m', j' := i, m, j;
    if start < n {
      i', m', j' := StarvedForEver(states, calls, id, start, n - 1, i, m, j);
    }
    RunKeepsSound(states, calls, n);
    i', m', j' := DoStarves(states[n], calls[n], id, i', m', j');
    assert states[n + 1] == Do(states[n], calls[n]);
  }

  lemma {:induction false} NeverTicked(q: seq<Client>, now: nat, n: nat, id: nat, i: nat, m: nat, j: nat)
    requires PeriodsPositive(q) && Starved(q, id, i, m, j)
    ensures !TickedWithin(q, now, n, id)
    decreases n
  {
    if n > 0 {
      var i', m', j' := TickStarves(q, now + 1, id, i, m, j);
      NeverTicked(Tick(q, now + 1).q, now + 1, n - 1, id, i', m', j');
    }
  }

  // ----- no starvation -----

  /** In front of the `j`th client only the `i`th repeats, with period `p`, if `i < j`; and no delay from there up to the
      `j`th is longer than that. */
  ghost predicate Behind(q: seq<Client>, i: nat, j: nat, p: u32) {
    && i <= j < |q| && (forall k | 0 <= k < j :: q[k].repeat <==> k == i)
    && (i < j ==> q[i].period == p && forall m | i < m <= j :: q[m].delta <= p)
  }

  /** What goes down: the place of the client, and who is in front. */
  function Rank(i: nat, j: nat): nat {
    2 * j + if i == 0 then 1 else 0
  }

  /** The head leaves, and only clients that do not repeat are in front of it where it lands. */
  lemma HeadLeaves(q: seq<Client>, now: nat, i: nat, j: nat, p: u32)
    requires Behind(q, i, j, p) && 0 < i
    ensures Behind(TickHead(q, now), i - 1, j - 1, p) && TickHead(q, now)[j - 1] == q[j]
  {
    assert forall t | 0 <= t < |q| - 1 :: q[1..][t] == q[t + 1];
  }

  /** Where the clients are once a repeating head has gone back in at `k`. */
  ghost predicate WentBack(q: seq<Client>, k: nat, r: seq<Client>) {
    && q != [] && k < |r| == |q| && r[k].repeat && r[k].period == q[0].period
    && (forall t | 0 <= t < k :: r[t] == q[t + 1]) && (forall t | k < t < |r| :: r[t] == q[t])
  }

  lemma HeadGoesBack(q: seq<Client>, now: nat, k: nat)
    requires q != [] && q[0].repeat && k == Landing(q[1..], Again(q[0], now))
    ensures WentBack(q, k, TickHead(q, now)) && (|q| > 1 && q[1].delta <= q[0].period ==> k > 0)
  {
    var s, r := q[1..], TickHead(q, now);
    assert forall t | 0 <= t < k :: r[t] == s[t];
    assert forall t | k < t < |r| :: r[t] == s[t - 1];
  }

  lemma LandsBehind(q: seq<Client>, j: nat, p: u32, k: nat, r: seq<Client>)
    requires Behind(q, 0, j, p) && 0 < j <= k && WentBack(q, k, r)
    ensures Behind(r, j - 1, j - 1, p) && r[j - 1] == q[j]
  {
  }

  lemma LandsBetween(q: seq<Client>, j: nat, p: u32, k: nat, r: seq<Client>)
    requires Behind(q, 0, j, p) && 0 < k < j && WentBack(q, k, r)
    ensures Behind(r, k, j, p) && r[j] == q[j]
  {
  }

  /** The repeating head lands behind the client, or in front of it with at least one between. */
  lemma HeadLands(q: seq<Client>, now: nat, j: nat, p: u32, k: nat)
    requires Behind(q, 0, j, p) && 0 < j && k == Landing(q[1..], Again(q[0], now))
    ensures 0 < k
    ensures var r := TickHead(q, now);
      if k > j - 1 then Behind(r, j - 1, j - 1, p) && r[j - 1] == q[j] else Behind(r, k, j, p) && r[j] == q[j]
  {
    HeadGoesBack(q, now, k);
    if k > j - 1 {
      LandsBehind(q, j, p, k, TickHead(q, now));
    } else {
      LandsBetween(q, j, p, k, TickHead(q, now));
    }
  }

  /** Ticking the head brings the client forward, or the repeating one away from the head. */
  lemma HeadAdvances(q: seq<Client>, now: nat, i: nat, j: nat, p: u32) returns (i': nat, j': nat)
    requires Behind(q, i, j, p) && 0 < j && q[0].delta == 0
    ensures Behind(TickHead(q, now), i', j', p) && TickHead(q, now)[j'] == q[j]
    ensures Rank(i', j') < Rank(i, j)
  {
    if i > 0 {
      HeadLeaves(q, now, i, j, p);
      i', j' := i - 1, j - 1;
    } else {
      var k := Landing(q[1..], Again(q[0], now));
      HeadLands(q, now, j, p, k);
      i', j' := if k > j - 1 then j - 1 else k, if k > j - 1 then j - 1 else j;
    }
  }

  lemma {:induction false} SendTicksAdvances(q: seq<Client>, now: nat, i: nat, j: nat, p: u32)
    returns (done: bool, i': nat, j': nat)
    requires PeriodsPositive(q) && Behind(q, i, j, p)
    ensures done ==> q[j] in SendTicks(q, now).fired
    ensures !done ==> var r := SendTicks(q, now).q;
      && Behind(r, i', j', p) && r[j'] == q[j] && Rank(i', j') <= Rank(i, j)
      && if q[0].delta == 0 then Rank(i', j') < Rank(i, j) else r == q
    decreases LeadingZeros(q)
  {
    done, i', j' := false, i, j;
    if q[0].delta == 0 {
      if j == 0 {
        done := true;
      } else {
        TickHeadShrinks(q, now);
        var i1, j1 := HeadAdvances(q, now, i, j, p);
        done, i', j' := SendTicksAdvances(TickHead(q, now), now, i1, j1, p);
      }
    }
  }

  /** The client at the head is ticked once its delay has passed. */
  lemma {:induction false} HeadIsTicked(q: seq<Client>, now: nat) returns (n: nat)
    requires PeriodsPositive(q) && q != [] && q[0].delta > 0
    ensures TickedWithin(q, now, n, q[0].id)
    decreases q[0].delta
  {
    var q' := CountDown(q);
    CountDownPositive(q);
    TicksLeadingRunOnce(q', now + 1);
    if q[0].delta == 1 {
      n := 1;
      assert q'[0] in Tick(q, now + 1).fired;
    } else {
      var k := HeadIsTicked(q', now + 1);
      n := k + 1;
    }
  }

  lemma TickAdvances(q: seq<Client>, now: nat, i: nat, j: nat, p: u32) returns (done: bool, i': nat, j': nat)
    requires PeriodsPositive(q) && Behind(q, i, j, p) && q[0].delta > 0 && j > 0
    ensures done ==> q[j] in Tick(q, now).fired
    ensures !done ==> var r := Tick(q, now).q;
      && Behind(r, i', j', p) && r[j'] == q[j] && r[0].delta > 0
      && (Rank(i', j') < Rank(i, j) || (Rank(i', j') == Rank(i, j) && r[0].delta == q[0].delta - 1))
  {
    var q' := CountDown(q);
    CountDownPositive(q);
    assert Behind(q', i, j, p) && q'[j] == q[j];
    TicksLeadingRunOnce(q', now);
    done, i', j' := SendTicksAdvances(q', now, i, j, p);
  }

  lemma {:induction false} IsTicked(q: seq<Client>, now: nat, i: nat, j: nat, p: u32) returns (n: nat)
    requires PeriodsPositive(q) && Behind(q, i, j, p) && q[0].delta > 0
    ensures TickedWithin(q, now, n, q[j].id)
    decreases Rank(i, j), q[0].delta
  {
    if j == 0 {
      n := HeadIsTicked(q, now);
    } else {
      var done, i', j' := TickAdvances(q, now + 1, i, j, p);
      if done {
        n := 1;
      } else {
        var k := IsTicked(Tick(q, now + 1).q, now + 1, i', j', p);
        n := k + 1;
      }
    }
  }

  /** A client anywhere behind a repeating one, the only one in front of it, is ever ticked exactly if no delay from there
      up to its own is longer than the repeating one's period. */
  lemma StarvesExactly(q: seq<Client>, now: nat, i: nat, j: nat)
    requires PeriodsPositive(q) && i < j < |q| && q[0].delta > 0
    requires forall k | 0 <= k < j :: q[k].repeat <==> k == i
    requires forall k | 0 <= k < |q| && k != j :: q[k].id != q[j].id
    ensures EverTicked(q, now, q[j].id) <==> forall m | i < m <= j :: q[m].delta <= q[i].period
  {
    if m :| i < m <= j && q[m].delta > q[i].period {
      assert Starved(q, q[j].id, i, m, j);
      forall n: nat
        ensures !TickedWithin(q, now, n, q[j].id)
      {
        NeverTicked(q, now, n, q[j].id, i, m, j);
      }
    } else {
      var n := IsTicked(q, now, i, j, q[i].period);
    }
  }

  // ----- several repeating clients -----

  /** Every repeating client in front of the `j`th asks for at least as long as that one still has to wait. */
  ghost predicate Patient(q: seq<Client>, j: nat) {
    j < |q| && forall i | 0 <= i < j :: q[i].repeat ==> q[i].period >= Due(q, j)
  }

  lemma {:induction false} WalkPasses(q: seq<Client>, i: nat, d: u32, j: nat)
    requires i <= j < |q| && Before(q, j + 1) - Before(q, i) <= d
    ensures Walk(q, i, d).0 > j
    decreases |q| - i
  {
    DelaysAddUp(q, i + 1, j + 1);
    if i < j {
      WalkPasses(q, i + 1, d - q[i].delta, j);
    }
  }

  lemma {:induction false} DelaysAddUp(q: seq<Client>, i: nat, k: nat)
    requires i <= k <= |q|
    ensures Before(q, i) <= Before(q, k)
  {
    if i < k {
      DelaysAddUp(q, i, k - 1);
    }
  }

  /** A head that is due lands behind the client, if it repeats at all. */
  lemma HeadPatient(q: seq<Client>, now: nat, j: nat)
    requires Patient(q, j) && j > 0 && q[0].delta == 0
    ensures var r := TickHead(q, now); Patient(r, j - 1) && r[j - 1] == q[j] && Due(r, j - 1) == Due(q, j)
  {
    var s, r := q[1..], TickHead(q, now);
    assert forall t | 0 <= t < |s| :: s[t] == q[t + 1];
    TailBefore(q, j);
    if q[0].repeat {
      WalkPasses(s, 0, q[0].period, j - 1);
    }
    assert forall t | 0 <= t < j :: r[t] == s[t];
    BeforeSame(r, s, j);
  }

  lemma {:induction false} SendTicksPatient(q: seq<Client>, now: nat, j: nat) returns (j': nat)
    requires PeriodsPositive(q) && Patient(q, j) && Due(q, j) > 0
    ensures var r := SendTicks(q, now).q; Patient(r, j') && r[j'] == q[j] && Due(r, j') == Due(q, j)
    decreases LeadingZeros(q)
  {
    j' := j;
    assert Due(q, 0) == Before(q, 0) + q[0].delta;
    if q[0].delta == 0 {
      TickHeadShrinks(q, now);
      HeadPatient(q, now, j);
      j' := SendTicksPatient(TickHead(q, now), now, j - 1);
    }
  }

  lemma DueNow(q: seq<Client>, j: nat, i: nat)
    requires i <= j < |q| && Due(q, j) == 0
    ensures q[i].delta == 0
  {
    DelaysAddUp(q, i + 1, j + 1);
  }

  /** One tick brings the client one tick nearer, or ticks it. */
  lemma TickPatient(q: seq<Client>, now: nat, j: nat) returns (j': nat)
    requires PeriodsPositive(q) && Patient(q, j) && q[0].delta > 0
    ensures Due(q, j) == 1 ==> Mentions(Tick(q, now).fired, q[j].id)
    ensures Due(q, j) != 1 ==> var r := Tick(q, now).q;
      r != [] && r[0].delta > 0 && Patient(r, j') && r[j'].id == q[j].id && Due(r, j') == Due(q, j) - 1
  {
    var q' := CountDown(q);
    CountDownPositive(q);
    CountDownDue(q, j);
    TicksLeadingRunOnce(q', now);
    j' := j;
    if Due(q', j) == 0 {
      forall i | 0 <= i <= j
        ensures q'[i].delta == 0
      {
        DueNow(q', j, i);
      }
      assert LeadingZeros(q') > j;
      assert q'[j] in SendTicks(q', now).fired;
    } else {
      assert Patient(q', j);
      j' := SendTicksPatient(q', now, j);
    }
  }

  /** However many clients repeat in front of it, one whose due time is no later than any of their periods is ticked when
      that time has passed. */
  lemma {:induction false} PatientIsTicked(q: seq<Client>, now: nat, j: nat)
    requires PeriodsPositive(q) && Patient(q, j) && q[0].delta > 0
    ensures TickedWithin(q, now, Due(q, j), q[j].id)
    decreases Due(q, j)
  {
    DelaysAddUp(q, 1, j + 1);
    var j' := TickPatient(q, now + 1, j);
    if Due(q, j) != 1 {
      PatientIsTicked(Tick(q, now + 1).q, now + 1, j');
    }
  }

  lemma NotNow(q: seq<Client>, now: nat, n: nat, id: nat, r: seq<Client>, fired: seq<Client>)
    requires PeriodsPositive(q) && PeriodsPositive(r) && Tick(q, now + 1) == Ticked(r, fired)
    requires (forall c | c in fired :: c.id != id) && (n > 0 ==> !TickedWithin(r, now + 1, n - 1, id))
    ensures !TickedWithin(q, now, n, id)
  {
  }

  lemma TickCountsDown(q: seq<Client>, now: nat)
    requires PeriodsPositive(q) && q != [] && q[0].delta > 1
    ensures Tick(q, now) == Ticked(CountDown(q), [])
  {
    CountDownPositive(q);
  }

  /** One tick of a queue whose head, then due, repeats. */
  lemma TickReinserts(q: seq<Client>, now: nat, r: seq<Client>)
    requires PeriodsPositive(q) && q != [] && q[0].delta == 1 && q[0].repeat
    requires |q| > 1 && q[1].delta > 0 && r == Insert(q[1..], Again(q[0], now))
    ensures Tick(q, now) == Ticked(r, [q[0].(delta := 0)])
  {
    var q' := CountDown(q);
    CountDownPositive(q);
    TickHeadShrinks(q', now);
    assert q'[1..] == q[1..] && q'[1] == q[1] && LeadingZeros(q') == 1;
    assert SendTicks(r, now) == Ticked(r, []);
  }

  lemma InsertSecond(y: Client, a: Client, c: Client)
    requires y.delta <= c.delta < y.delta + a.delta
    ensures Insert([y, a], c) == [y, c.(delta := c.delta - y.delta), a]
  {
    assert Walk([y, a], 1, c.delta - y.delta) == (1, c.delta - y.delta);
    assert Walk([y, a], 0, c.delta) == (1, c.delta - y.delta);
  }

  /** Three ticks of two repeating clients of period 3 in front of a third with a delay of 3: they go back in front in
      turn. */
  lemma {:induction false} TakeTurns(x: Client, y: Client, a: Client, now: nat, n: nat)
    requires x.repeat && y.repeat && x.period == y.period == 3 && a.delta == 3 && a.period > 0
    requires x.delta == 2 && y.delta == 1 && a.id != x.id && a.id != y.id
    ensures PeriodsPositive([x, y, a]) && !TickedWithin([x, y, a], now, n, a.id)
    decreases n
  {
    var x1, x2 := x.(delta := 1), x.(since := now + 2);
    var y1 := y.(since := now + 3);
    TickCountsDown([x, y, a], now + 1);
    InsertSecond(y, a, Again(x, now + 2));
    TickReinserts([x1, y, a], now + 2, [y, x2, a]);
    InsertSecond(x2, a, Again(y, now + 3));
    TickReinserts([y, x2, a], now + 3, [x2, y1, a]);
    if n >= 3 {
      TakeTurns(x2, y1, a, now + 3, n - 3);
    }
    if n >= 2 {
      NotNow([y, x2, a], now + 2, n - 2, a.id, [x2, y1, a], [y.(delta := 0)]);
    }
    if n >= 1 {
      NotNow([x1, y, a], now + 1, n - 1, a.id, [y, x2, a], [x.(delta := 0)]);
    }
    NotNow([x, y, a], now, n, a.id, [x1, y, a], []);
  }

  /** Together they starve it, though it would be ticked with either alone in front. */
  lemma TwoStarve(x: Client, y: Client, a: Client, now: nat)
    requires x.repeat && y.repeat && x.period == y.period == 3 && a.delta == 3 && a.period > 0
    requires x.delta == 2 && y.delta == 1 && a.id != x.id && a.id != y.id
    ensures PeriodsPositive([x, y, a]) && !EverTicked([x, y, a], now, a.id)
    ensures PeriodsPositive([x, a]) && EverTicked([x, a], now, a.id)
    ensures PeriodsPositive([y, a]) && EverTicked([y, a], now, a.id)
  {
    forall n: nat
      ensures PeriodsPositive([x, y, a]) && !TickedWithin([x, y, a], now, n, a.id)
    {
      TakeTurns(x, y, a, now, n);
    }
    StarvesExactly([x, a], now, 0, 1);
    StarvesExactly([y, a], now, 0, 1);
  }

  lemma InsertLast(q: seq<Client>, c: Client, d: Client)
    requires Before(q, |q|) <= c.delta && d == c.(delta := c.delta - Before(q, |q|))
    ensures Insert(q, c) == q + [d]
  {
    if q != [] {
      WalkPasses(q, 0, c.delta, |q| - 1);
    }
    WalkTakesDelays(q, 0, c.delta);
  }

  /** A registration due after everyone waiting. */
  lemma RegistersLast(s: Server, id: nat, period: u32, repeat: bool, d: Client)
    requires PeriodsPositive(s.q) && period > 0 && Before(s.q, |s.q|) <= period
    requires d == Client(id, period, repeat, period - Before(s.q, |s.q|), s.now)
    ensures Do(s, Register(id, period, repeat)) == s.(q := s.q + [d]) && PeriodsPositive(s.q + [d])
  {
    InsertLast(s.q, Client(id, period, repeat, period, s.now), d);
    assert forall c | c in s.q + [d] :: c in s.q || c == d;
  }

  const FIRST := Client(1, 3, true, 2, 0)
  const SECOND := Client(2, 3, true, 1, 1)
  const THIRD := Client(3, 6, false, 3, 1)

  const REGISTERED := FIRST.(delta := 3)

  lemma FirstTwo()
    ensures Do(Server(0, []), Register(1, 3, true)) == Server(0, [REGISTERED]) && PeriodsPositive([REGISTERED])
    ensures Do(Server(0, [REGISTERED]), ClockTick) == Server(1, [FIRST])
    ensures Do(Server(1, [FIRST]), Register(2, 3, true)) == Server(1, [FIRST, SECOND]) && PeriodsPositive([FIRST])
  {
    assert [REGISTERED.(delta := 2)] + [REGISTERED][1..] == [FIRST];
    RegistersLast(Server(0, []), 1, 3, true, REGISTERED);
    TickCountsDown([REGISTERED], 1);
    assert [] + [REGISTERED] == [REGISTERED];
    assert Before([FIRST], 1) == 2;
    RegistersLast(Server(1, [FIRST]), 2, 3, true, SECOND);
    assert [FIRST] + [SECOND] == [FIRST, SECOND];
  }

  lemma TwoBefore(x: Client, y: Client)
    ensures Before([x, y], 2) == x.delta + y.delta
  {
    assert Before([x, y], 1) == Before([x, y], 0) + x.delta;
  }

  lemma ThirdLast()
    ensures Do(Server(1, [FIRST, SECOND]), Register(3, 6, false)) == Server(1, [FIRST, SECOND, THIRD])
    ensures PeriodsPositive([FIRST, SECOND])
  {
    TwoBefore(FIRST, SECOND);
    RegistersLast(Server(1, [FIRST, SECOND]), 3, 6, false, THIRD);
    assert [FIRST, SECOND] + [THIRD] == [FIRST, SECOND, THIRD];
  }

  lemma LeadsOn(states: seq<Server>, calls: seq<Call>, s: Server, c: Call, s': Server)
    requires Leads(states, calls) && states[|calls|] == s && PeriodsPositive(s.q) && s' == Do(s, c)
    ensures Leads(states + [s'], calls + [c])
  {
    var ss, cs := states + [s'], calls + [c];
    forall i | 0 <= i < |cs|
      ensures PeriodsPositive(ss[i].q) && ss[i + 1] == Do(ss[i], cs[i])
    {
      if i < |calls| {
        assert cs[i] == calls[i] && ss[i] == states[i] && ss[i + 1] == states[i + 1];
      } else {
        assert ss[i] == s && cs[i] == c && ss[i + 1] == s';
      }
    }
  }

  /** A run that gets there: two repeating requests of three ticks, one tick apart, then one for six. */
  lemma TwoStarveInARun() returns (states: seq<Server>, calls: seq<Call>)
    ensures Leads(states, calls) && calls == [Register(1, 3, true), ClockTick, Register(2, 3, true), Register(3, 6, false)]
    ensures states[4] == Server(1, [FIRST, SECOND, THIRD])
    ensures PeriodsPositive(states[4].q) && !EverTicked(states[4].q, 1, THIRD.id)
  {
    FirstTwo();
    ThirdLast();
    var s0, s1, s2, s3 := Server(0, []), Server(0, [REGISTERED]), Server(1, [FIRST]), Server(1, [FIRST, SECOND]);
    var s4 := Server(1, [FIRST, SECOND, THIRD]);
    assert Leads([s0], []);
    LeadsOn([s0], [], s0, Register(1, 3, true), s1);
    LeadsOn([s0] + [s1], [] + [Register(1, 3, true)], s1, ClockTick, s2);
    states, calls := [s0] + [s1] + [s2], [] + [Register(1, 3, true)] + [ClockTick];
    LeadsOn(states, calls, s2, Register(2, 3, true), s3);
    LeadsOn(states + [s3], calls + [Register(2, 3, true)], s3, Register(3, 6, false), s4);
    states, calls := states + [s3] + [s4], calls + [Register(2, 3, true)] + [Register(3, 6, false)];
    TwoStarve(FIRST, SECOND, THIRD, 1);
  }
}
