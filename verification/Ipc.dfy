/** Message passing between contexts, kernel/packetK.c and kernel/contextK.c. Each kernel call runs with interrupts off, so
    it is one step; a receive that has to wait is two, before the switch away and after the switch back. */
module Ipc {
  import opened Words
  import opened Wrappers

  const QUEUE_LEN: nat := 16
  const NUM_PAIRS: nat := 320

  /** `last` is the last word of the address, in host order. */
  datatype Address = Address(net: nat, last: u32)

  datatype Packet = Packet(id: nat, dest: Address)

  /** `waiting` holds while a context is switched out inside PackosPacketReceiveOrYieldTo. */
  datatype Context = Context(self: Address, queue: seq<Packet>, blocking: bool, finished: bool, waiting: bool)

  datatype Pair = Pair(addr: Address, context: nat)

  /** The contexts, the address table, and all packets ever put into and taken from each queue. */
  datatype System = System(contexts: seq<Context>, pairs: seq<Option<Pair>>,
                           inserted: seq<seq<Packet>>, extracted: seq<seq<Packet>>)

  datatype Step =
    | Create(self: Address)
    | Send(packet: Packet)
    | Receive(who: nat, yieldTo: Option<nat>)
    | Resume(who: nat)
    | Exit(who: nat)

  // ----- the address table -----

  /** Where the table keeps an address: a C `int`, so it may be negative. */
  function SlotOf(a: Address): int {
    Signed(a.last)
  }

  predicate InTable(a: Address) {
    0 <= SlotOf(a) < NUM_PAIRS
  }

  /** PackosKernelPacketFindContextByAddr. */
  function Find(pairs: seq<Option<Pair>>, a: Address): Option<nat>
    requires |pairs| == NUM_PAIRS
  {
    if InTable(a) && pairs[SlotOf(a)].Some? && pairs[SlotOf(a)].value.addr == a then Some(pairs[SlotOf(a)].value.context)
    else None
  }

  // ----- one context -----

  predicate Full(c: Context) {
    |c.queue| >= QUEUE_LEN
  }

  /** PackosKernelContextInsertPacket, then the wake-up of PackosPacketSendFromKernel. */
  function Delivered(c: Context, p: Packet): Context {
    c.(queue := c.queue + [p], blocking := false)
  }

  /** PackosKernelContextExtractPacket. */
  function Extracted(c: Context): Context
    requires c.queue != []
  {
    c.(queue := c.queue[1..])
  }

  // ----- steps -----

  function Put(s: System, i: nat, c: Context): System
    requires i < |s.contexts|
  {
    s.(contexts := s.contexts[i := c])
  }

  predicate Shape(s: System) {
    && |s.pairs| == NUM_PAIRS && |s.inserted| == |s.extracted| == |s.contexts|
    && forall k | 0 <= k < NUM_PAIRS && s.pairs[k].Some? :: s.pairs[k].value.context < |s.contexts|
  }

  /** PackosContextNew, as far as it registers the address; with the address taken there is no context. */
  function DoCreate(s: System, a: Address): System
    requires Shape(s)
  {
    if InTable(a) && s.pairs[SlotOf(a)].None? then
      System(s.contexts + [Context(a, [], false, false, false)], s.pairs[SlotOf(a) := Some(Pair(a, |s.contexts|))],
             s.inserted + [[]], s.extracted + [[]])
    else s
  }

  /** PackosPacketSendFromKernel. Whether it yields to the recipient only decides who steps next. */
  function DoSend(s: System, p: Packet): System
    requires Shape(s)
  {
    match Find(s.pairs, p.dest)
    case None => s
    case Some(i) =>
      if Full(s.contexts[i]) then s
      else Put(s, i, Delivered(s.contexts[i], p)).(inserted := s.inserted[i := s.inserted[i] + [p]])
  }

  function Extract(s: System, i: nat): System
    requires Shape(s) && i < |s.contexts| && s.contexts[i].queue != []
  {
    Put(s, i, Extracted(s.contexts[i])).(extracted := s.extracted[i := s.extracted[i] + [s.contexts[i].queue[0]]])
  }

  /** The first half of PackosPacketReceiveOrYieldTo: with no packet there, refuse to yield to a context that is finished
      or blocking, else mark the caller blocking and switch away. */
  function DoReceive(s: System, i: nat, yieldTo: Option<nat>): System
    requires Shape(s)
  {
    if i >= |s.contexts| || s.contexts[i].finished || s.contexts[i].waiting then s
    else if s.contexts[i].queue != [] then Extract(s, i)
    else if yieldTo.Some? && yieldTo.value < |s.contexts|
            && (s.contexts[yieldTo.value].finished || s.contexts[yieldTo.value].blocking) then s
    else Put(s, i, s.contexts[i].(blocking := true, waiting := true))
  }

  /** The second half: one more try, and back to the caller whatever it finds. */
  function DoResume(s: System, i: nat): System
    requires Shape(s)
  {
    if i >= |s.contexts| || !s.contexts[i].waiting then s
    else
      var t := Put(s, i, s.contexts[i].(waiting := false));
      if t.contexts[i].queue != [] then Extract(t, i) else t
  }

  /** PackosPacketUnregisterContext. */
  function Unregistered(pairs: seq<Option<Pair>>, a: Address, i: nat): (r: seq<Option<Pair>>)
    requires |pairs| == NUM_PAIRS
    ensures |r| == NUM_PAIRS
  {
    if InTable(a) && pairs[SlotOf(a)] == Some(Pair(a, i)) then pairs[SlotOf(a) := None] else pairs
  }

  /** PackosKernelContextExit. */
  function DoExit(s: System, i: nat): System
    requires Shape(s)
  {
    if i >= |s.contexts| || s.contexts[i].finished || s.contexts[i].waiting then s
    else
      Put(s, i, s.contexts[i].(finished := true, blocking := false)).(pairs := Unregistered(s.pairs, s.contexts[i].self, i))
  }

  function Do(s: System, step: Step): System
    requires Shape(s)
  {
    match step
    case Create(a) => DoCreate(s, a)
    case Send(p) => DoSend(s, p)
    case Receive(i, yieldTo) => DoReceive(s, i, yieldTo)
    case Resume(i) => DoResume(s, i)
    case Exit(i) => DoExit(s, i)
  }

  function Initial(): System {
    System([], seq(NUM_PAIRS, _ => None), [], [])
  }

  // ----- what every step keeps -----

  /** A context marked blocking has nothing in its queue; one that waits is marked blocking exactly while that is so. */
  predicate Wakeful(c: Context) {
    && |c.queue| <= QUEUE_LEN
    && (c.blocking ==> c.queue == [])
    && (c.waiting ==> (c.blocking <==> c.queue == []))
    && (c.finished ==> !c.blocking && !c.waiting)
  }

  /** A context's packets were addressed to it, and leave its queue in the order they entered it. */
  predicate Ordered(c: Context, inserted: seq<Packet>, extracted: seq<Packet>) {
    && inserted == extracted + c.queue
    && forall k | 0 <= k < |inserted| :: inserted[k].dest == c.self
  }

  function At(cs: seq<Context>, i: nat): Context
    requires i < |cs|
  {
    cs[i]
  }

  /** The table and the contexts that are not finished name each other. */
  predicate Registered(cs: seq<Context>, pairs: seq<Option<Pair>>) {
    && |pairs| == NUM_PAIRS
    && (forall k | 0 <= k < NUM_PAIRS && pairs[k].Some? ::
          var (a, i) := (pairs[k].value.addr, pairs[k].value.context);
          i < |cs| && At(cs, i).self == a && SlotOf(a) == k && !At(cs, i).finished)
    && (forall i {:trigger At(cs, i)} | 0 <= i < |cs| && !At(cs, i).finished ::
          InTable(At(cs, i).self) && pairs[SlotOf(At(cs, i).self)] == Some(Pair(At(cs, i).self, i)))
  }

  predicate Invariant(s: System) {
    && Shape(s) && Registered(s.contexts, s.pairs)
    && (forall i {:trigger At(s.contexts, i)} | 0 <= i < |s.contexts| ::
          Wakeful(At(s.contexts, i)) && Ordered(At(s.contexts, i), s.inserted[i], s.extracted[i]))
  }

  lemma OneChanges(s: System, i: nat, t: System)
    requires Invariant(s) && Shape(t) && i < |s.contexts| == |t.contexts| && t.pairs == s.pairs
    requires forall j {:trigger At(t.contexts, j)} | 0 <= j < |t.contexts| && j != i ::
      At(t.contexts, j) == At(s.contexts, j) && t.inserted[j] == s.inserted[j] && t.extracted[j] == s.extracted[j]
    requires var c, d := At(s.contexts, i), At(t.contexts, i); d.self == c.self && d.finished == c.finished
    requires Wakeful(At(t.contexts, i)) && Ordered(At(t.contexts, i), t.inserted[i], t.extracted[i])
    ensures Invariant(t)
  {
    assert forall j {:trigger At(t.contexts, j)} | 0 <= j < |t.contexts| ::
        At(t.contexts, j).self == At(s.contexts, j).self && At(t.contexts, j).finished == At(s.contexts, j).finished;
  }

  lemma CreateKeeps(s: System, a: Address)
    requires Invariant(s)
    ensures Invariant(DoCreate(s, a))
  {
    var t := DoCreate(s, a);
    assert forall j {:trigger At(t.contexts, j)} | 0 <= j < |s.contexts| :: At(t.contexts, j) == At(s.contexts, j);
  }

  lemma SendKeeps(s: System, p: Packet)
    requires Invariant(s)
    ensures Invariant(DoSend(s, p))
  {
    var found := Find(s.pairs, p.dest);
    if found.Some? && !Full(At(s.contexts, found.value)) {
      OneChanges(s, found.value, DoSend(s, p));
    }
  }

  lemma ExtractKeeps(s: System, i: nat)
    requires Invariant(s) && i < |s.contexts| && At(s.contexts, i).queue != [] && !At(s.contexts, i).waiting
    ensures Invariant(Extract(s, i))
  {
    OneChanges(s, i, Extract(s, i));
  }

  lemma ReceiveKeeps(s: System, i: nat, yieldTo: Option<nat>)
    requires Invariant(s)
    ensures Invariant(DoReceive(s, i, yieldTo))
  {
    if i < |s.contexts| && !At(s.contexts, i).finished && !At(s.contexts, i).waiting {
      var t := DoReceive(s, i, yieldTo);
      if At(s.contexts, i).queue != [] {
        ExtractKeeps(s, i);
      } else if t != s {
        OneChanges(s, i, t);
      }
    }
  }

  lemma ResumeKeeps(s: System, i: nat)
    requires Invariant(s)
    ensures Invariant(DoResume(s, i))
  {
    if i < |s.contexts| && At(s.contexts, i).waiting {
      var t := Put(s, i, s.contexts[i].(waiting := false));
      OneChanges(s, i, t);
      if At(t.contexts, i).queue != [] {
        ExtractKeeps(t, i);
      }
    }
  }

  lemma ExitKeeps(s: System, i: nat)
    requires Invariant(s)
    ensures Invariant(DoExit(s, i))
  {
    if i < |s.contexts| && !At(s.contexts, i).finished && !At(s.contexts, i).waiting {
      var t := DoExit(s, i);
      assert forall j {:trigger At(t.contexts, j)} | 0 <= j < |t.contexts| && j != i ::
          At(t.contexts, j) == At(s.contexts, j);
      assert At(t.contexts, i).finished && t.pairs == s.pairs[SlotOf(At(s.contexts, i).self) := None];
    }
  }

  // ----- runs -----

  function Run(steps: seq<Step>): (s: System)
    ensures Invariant(s)
  {
    if steps == [] then Initial()
    else
      var s := Run(steps[..|steps| - 1]);
      StepKeeps(s, steps[|steps| - 1]);
      Do(s, steps[|steps| - 1])
  }

  lemma StepKeeps(s: System, step: Step)
    requires Invariant(s)
    ensures Invariant(Do(s, step))
  {
    match step
    case Create(a) => CreateKeeps(s, a);
    case Send(p) => SendKeeps(s, p);
    case Receive(i, yieldTo) => ReceiveKeeps(s, i, yieldTo);
    case Resume(i) => ResumeKeeps(s, i);
    case Exit(i) => ExitKeeps(s, i);
  }

  /** No lost wake-up, in every run: a context marked blocking has no packet to take; a context that waits is marked
      blocking exactly while it has none; what it took so far is a prefix of what was put in for it. */
  lemma NoLostWakeup(steps: seq<Step>, i: nat)
    requires i < |Run(steps).contexts|
    ensures var s := Run(steps);
      var c := s.contexts[i];
      && (c.blocking ==> c.queue == [])
      && (c.waiting ==> (c.blocking <==> c.queue == []))
      && s.extracted[i] <= s.inserted[i] && s.inserted[i] == s.extracted[i] + c.queue
      && forall p | p in s.inserted[i] :: p.dest == c.self
  {
    var s := Run(steps);
    assert Wakeful(At(s.contexts, i)) && Ordered(At(s.contexts, i), s.inserted[i], s.extracted[i]);
  }

  /** The lookup finds exactly the one context of that address that has not exited. */
  lemma FindsExactly(steps: seq<Step>, a: Address, i: nat)
    ensures var s := Run(steps);
      Find(s.pairs, a) == Some(i) <==> i < |s.contexts| && s.contexts[i].self == a && !s.contexts[i].finished
  {
    var s := Run(steps);
    if i < |s.contexts| {
      assert At(s.contexts, i) == s.contexts[i];
    }
  }

  /** A send reaches one queue, at its end, or fails and changes nothing: it fails exactly if nobody has the address or the
      queue of the one who has is full. */
  lemma SendIsExact(s: System, p: Packet)
    requires Invariant(s)
    ensures var t := DoSend(s, p);
      match Find(s.pairs, p.dest)
      case None => t == s
      case Some(i) =>
        && i < |s.contexts| && !s.contexts[i].finished
        && (|s.contexts[i].queue| == QUEUE_LEN ==> t == s)
        && (|s.contexts[i].queue| < QUEUE_LEN ==>
              && t.contexts[i].queue == s.contexts[i].queue + [p] && !t.contexts[i].blocking && t.pairs == s.pairs
              && forall j | 0 <= j < |s.contexts| && j != i :: t.contexts[j] == s.contexts[j])
  {
    var found := Find(s.pairs, p.dest);
    if found.Some? {
      assert Wakeful(At(s.contexts, found.value));
    }
  }

  // ----- what the other calls do -----

  /** Only the `i`th context and its history of taken packets may have changed. */
  predicate OnlyOne(s: System, i: nat, t: System) {
    && |t.contexts| == |s.contexts| && |t.extracted| == |s.extracted| && t.inserted == s.inserted
    && (forall j | 0 <= j < |s.contexts| && j != i :: t.contexts[j] == s.contexts[j])
    && (forall j | 0 <= j < |s.extracted| && j != i :: t.extracted[j] == s.extracted[j])
  }

  /** The first packet leaves the queue and goes into the history. */
  predicate TakesFirst(s: System, i: nat, t: System)
    requires Shape(s) && Shape(t) && i < |s.contexts| == |t.contexts| && s.contexts[i].queue != []
  {
    var p := s.contexts[i].queue[0];
    s.contexts[i].queue == [p] + t.contexts[i].queue && t.extracted[i] == s.extracted[i] + [p]
  }

  /** A receive with a packet there takes it; without one it fails if it is to yield to a context that cannot run, and else
      waits, marked blocking. */
  lemma ReceiveIsExact(s: System, i: nat, yieldTo: Option<nat>)
    requires Invariant(s) && i < |s.contexts| && !s.contexts[i].finished && !s.contexts[i].waiting
    ensures var t, c := DoReceive(s, i, yieldTo), s.contexts[i];
      var dead := yieldTo.Some? && yieldTo.value < |s.contexts|
                  && (s.contexts[yieldTo.value].finished || s.contexts[yieldTo.value].blocking);
      && Shape(t) && OnlyOne(s, i, t) && t.pairs == s.pairs
      && (c.queue != [] ==> TakesFirst(s, i, t) && t.contexts[i] == c.(queue := t.contexts[i].queue))
      && (c.queue == [] && dead ==> t == s)
      && (c.queue == [] && !dead ==> t.contexts[i] == c.(blocking := true, waiting := true) && t.extracted == s.extracted)
  {
  }

  /** The rest of it takes the first packet, if there is one by then, and comes back in any case. */
  lemma ResumeIsExact(s: System, i: nat)
    requires Invariant(s) && i < |s.contexts| && s.contexts[i].waiting
    ensures var t, c := DoResume(s, i), s.contexts[i];
      && Shape(t) && OnlyOne(s, i, t) && t.pairs == s.pairs
      && t.contexts[i] == c.(queue := t.contexts[i].queue, waiting := false)
      && (c.queue != [] ==> TakesFirst(s, i, t)) && (c.queue == [] ==> t.contexts[i].queue == [] && t.extracted == s.extracted)
  {
  }

  /** Nothing happens to a context that cannot call, nor to one that does not wait when it is resumed. */
  lemma NoCall(s: System, i: nat, yieldTo: Option<nat>)
    requires Shape(s)
    ensures (i < |s.contexts| ==> s.contexts[i].finished || s.contexts[i].waiting) ==> DoReceive(s, i, yieldTo) == s == DoExit(s, i)
    ensures (i < |s.contexts| ==> !s.contexts[i].waiting) ==> DoResume(s, i) == s
  {
  }

  /** A context is made exactly if its address is in the range of the table and nobody has it; it starts with nothing. */
  lemma CreateIsExact(s: System, a: Address)
    requires Invariant(s)
    ensures var t, k := DoCreate(s, a), Signed(a.last);
      if 0 <= k < 320 && s.pairs[k] == None then
        && t.contexts == s.contexts + [Context(a, [], false, false, false)] && Find(t.pairs, a) == Some(|s.contexts|)
        && t.pairs == s.pairs[k := t.pairs[k]] && t.inserted == s.inserted + [[]] && t.extracted == s.extracted + [[]]
      else t == s
  {
  }

  /** An exit marks the context finished and not blocking, and nobody finds its address any more. */
  lemma ExitIsExact(s: System, i: nat)
    requires Invariant(s) && i < |s.contexts| && !s.contexts[i].finished && !s.contexts[i].waiting
    ensures var t, c := DoExit(s, i), s.contexts[i];
      && OnlyOne(s, i, t) && t.extracted == s.extracted && t.contexts[i] == c.(finished := true, blocking := false)
      && Find(t.pairs, c.self) == None && InTable(c.self) && t.pairs == s.pairs[SlotOf(c.self) := None]
  {
    assert !At(s.contexts, i).finished;
  }

  // ----- what a run hands out -----

  /** The packet a call comes back with. */
  function Answer(s: System, step: Step): Option<Packet> {
    match step
    case Receive(i, _) =>
      if i < |s.contexts| && !s.contexts[i].finished && !s.contexts[i].waiting && s.contexts[i].queue != []
      then Some(s.contexts[i].queue[0]) else None
    case Resume(i) =>
      if i < |s.contexts| && s.contexts[i].waiting && s.contexts[i].queue != []
      then Some(s.contexts[i].queue[0]) else None
    case _ => None
  }

  function Taken(p: Option<Packet>): seq<Packet> {
    if p.Some? then [p.value] else []
  }

  predicate By(step: Step, i: nat) {
    (step.Receive? || step.Resume?) && step.who == i
  }

  /** The packets the receives of a context came back with. */
  function Returned(steps: seq<Step>, i: nat): seq<Packet> {
    if steps == [] then []
    else
      var before := steps[..|steps| - 1];
      Returned(before, i) + if By(steps[|steps| - 1], i) then Taken(Answer(Run(before), steps[|steps| - 1])) else []
  }

  /** One call adds to the history of a context what it came back with. */
  lemma AnswerIsExtracted(s: System, step: Step, i: nat)
    requires Invariant(s) && i < |s.contexts|
    ensures var t := Do(s, step);
      i < |t.contexts| == |t.extracted| && t.extracted[i] == s.extracted[i] + if By(step, i) then Taken(Answer(s, step)) else []
  {
  }

  lemma FirstCalls(s: System, step: Step, i: nat)
    requires Invariant(s) && i >= |s.contexts|
    ensures Answer(s, Receive(i, None)) == Answer(s, Resume(i)) == None && (By(step, i) ==> Answer(s, step) == None)
    ensures var t := Do(s, step); i < |t.contexts| == |t.extracted| ==> t.extracted[i] == []
  {
  }

  /** In every run the packets a context received are, in order, those put in for it, but for those still queued: none is
      handed out twice, and none is left out. */
  lemma {:induction false} ReceivedInOrder(steps: seq<Step>, i: nat)
    ensures var s := Run(steps);
      if i < |s.contexts| == |s.extracted| == |s.inserted| then
        Returned(steps, i) == s.extracted[i] && Returned(steps, i) + s.contexts[i].queue == s.inserted[i]
      else Returned(steps, i) == []
  {
    if steps != [] {
      var before, step := steps[..|steps| - 1], steps[|steps| - 1];
      ReceivedInOrder(before, i);
      if i < |Run(before).contexts| {
        AnswerIsExtracted(Run(before), step, i);
      } else {
        FirstCalls(Run(before), step, i);
      }
      if i < |Run(steps).contexts| {
        NoLostWakeup(steps, i);
      }
    }
  }

  /** A receive that comes back leaves its caller marked blocking, though it runs, exactly if no packet had come. */
  lemma ReturnsMarkedExactly(s: System, i: nat)
    requires Invariant(s) && i < |s.contexts| && s.contexts[i].waiting
    ensures var c := DoResume(s, i).contexts[i];
      !c.waiting && !c.finished && (c.blocking <==> s.contexts[i].queue == [])
  {
    assert Wakeful(At(s.contexts, i));
  }

  const LONE := Address(0, 5)
  const LONE_RUN := [Create(LONE), Receive(0, None), Resume(0)]

  /** A run that ends so: a context receives, is switched back to without a packet, and runs on marked blocking. */
  lemma MarkedWhileRunning()
    ensures Run(LONE_RUN).contexts == [Context(LONE, [], true, false, false)]
  {
    assert LONE_RUN[..2] == [Create(LONE), Receive(0, None)] && LONE_RUN[..2][..1] == [Create(LONE)];
    assert LONE_RUN[..2][..1][..0] == [];
    assert Run(LONE_RUN[..2][..1]).contexts == [Context(LONE, [], false, false, false)];
    assert Run(LONE_RUN[..2]).contexts == [Context(LONE, [], true, false, true)];
  }

  /** Once a context has exited nothing changes it. */
  lemma ExitIsFinal(s: System, step: Step, i: nat)
    requires Invariant(s) && i < |s.contexts| && s.contexts[i].finished
    ensures var t := Do(s, step); i < |t.contexts| && t.contexts[i] == s.contexts[i] && t.inserted[i] == s.inserted[i]
  {
    assert At(s.contexts, i).finished;
    assert Wakeful(At(s.contexts, i));
  }
}
