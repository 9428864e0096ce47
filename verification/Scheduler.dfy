/** The main loop of the basic scheduler, libs/scheduler/basic.c: rotate to a context that can run, give it a slot, put it
    at the back, and count the contexts that are not daemons. */
module Schedulers {
  import opened ContextQueues
  import opened Sequences

  /** What the scheduler looks at; all of it may change while a context runs. */
  datatype Status = Status(running: bool, blocking: bool, finished: bool)

  /** The contexts in the queue, and how many of them the scheduler thinks are not daemons. */
  datatype State = State(queue: seq<nat>, numNonDaemons: int)

  /** What happens around one turn of the loop: the status of every context before the slot and after it. */
  datatype Surroundings = Surroundings(before: seq<Status>, after: seq<Status>)

  datatype Outcome = Slot(context: nat) | Reaped(context: nat) | Stuck | Over

  predicate Runnable(w: seq<Status>, c: nat)
    requires c < |w|
  {
    w[c].running && !w[c].blocking
  }

  predicate Covers(q: seq<nat>, n: nat) {
    forall i | 0 <= i < |q| :: q[i] < n
  }

  // ----- rotation -----

  predicate AllDistinct(q: seq<nat>) {
    forall i, j | 0 <= i < j < |q| :: q[i] != q[j]
  }

  function FirstRunnable(q: seq<nat>, w: seq<Status>): (r: nat)
    requires Covers(q, |w|)
    ensures r <= |q| && (r < |q| ==> Runnable(w, q[r]))
    ensures forall j | 0 <= j < r :: !Runnable(w, q[j])
  {
    if q == [] || Runnable(w, q[0]) then 0 else 1 + FirstRunnable(q[1..], w)
  }

  /** It is the first that runs and does not block; the length of `q` if there is none. */
  lemma FirstRunnableExactly(q: seq<nat>, w: seq<Status>)
    requires Covers(q, |w|)
    ensures var r := FirstRunnable(q, w);
      && r <= |q| && (r < |q| ==> w[q[r]].running && !w[q[r]].blocking)
      && forall j | 0 <= j < r :: !w[q[j]].running || w[q[j]].blocking
  {
  }

  function Rotated(q: seq<nat>, r: nat): (s: seq<nat>)
    requires r <= |q|
    ensures |s| == |q|
  {
    q[r..] + q[..r]
  }

  /** The queue after the inner loop has moved its head to the back `n` times. */
  function Moved(q: seq<nat>, n: nat): (s: seq<nat>)
    ensures |s| == |q|
  {
    if n == 0 || q == [] then q else Rotated(Moved(q, n - 1), 1)
  }

  lemma RotatedMore(q: seq<nat>, r: nat)
    requires r < |q|
    ensures Rotated(Rotated(q, r), 1) == if r + 1 < |q| then Rotated(q, r + 1) else q
  {
    var s := Rotated(q, r);
    assert s[0] == q[r] && s[1..] == q[r + 1..] + q[..r];
    assert q[..r + 1] == q[..r] + [q[r]];
  }

  /** The head after one more move, before the `r`th is reached. */
  lemma HeadAfterMove(q: seq<nat>, i: nat, r: nat)
    requires AllDistinct(q) && i < r <= |q| && (r < |q| || |q| == 1)
    ensures var s := Rotated(Rotated(q, i), 1);
      if i + 1 < |q| then s == Rotated(q, i + 1) && s[0] == q[i + 1] != q[i] else r == |q| == 1 && s == q
  {
    RotatedMore(q, i);
  }

  /** Where in a queue of `m` contexts the head of the queue after `n` moves was. */
  function Spin(n: nat, m: nat): (r: nat)
    requires m > 0
    ensures r < m
  {
    if n == 0 then 0 else if Spin(n - 1, m) + 1 < m then Spin(n - 1, m) + 1 else 0
  }

  lemma {:induction false} SpinOfSmall(n: nat, m: nat)
    requires n < m
    ensures Spin(n, m) == n
  {
    if n > 0 {
      SpinOfSmall(n - 1, m);
    }
  }

  lemma {:induction false} MovedIsRotated(q: seq<nat>, n: nat)
    requires q != []
    ensures Moved(q, n) == Rotated(q, Spin(n, |q|))
  {
    if n > 0 {
      var m := Spin(n - 1, |q|);
      MovedIsRotated(q, n - 1);
      RotatedMore(q, m);
      assert Rotated(q, 0) == q;
    }
  }

  lemma MovedHead(q: seq<nat>, n: nat)
    requires q != []
    ensures Moved(q, n)[0] == q[Spin(n, |q|)]
  {
    MovedIsRotated(q, n);
  }

  /** The inner loop ends after `n` moves: it finds a context that can run, or the head it has just moved. */
  predicate Ends(q: seq<nat>, w: seq<Status>, n: nat)
    requires Covers(q, |w|) && q != []
  {
    var s := Moved(q, n);
    (s[0] < |w| && Runnable(w, s[0])) || (n > 0 && s[0] == Moved(q, n - 1)[0])
  }

  /** The rotation ends exactly if some context can run. With none, and two or more in the queue, it goes on for ever: the
      test for a full round compares the new head with the one before it and never holds. */
  lemma RotationEndsExactly(q: seq<nat>, w: seq<Status>)
    requires Covers(q, |w|) && AllDistinct(q) && |q| > 1
    ensures (exists n: nat :: Ends(q, w, n)) <==> FirstRunnable(q, w) < |q|
    ensures FirstRunnable(q, w) < |q| <==> exists i :: 0 <= i < |q| && w[q[i]].running && !w[q[i]].blocking
  {
    FirstRunnableExactly(q, w);
    var r := FirstRunnable(q, w);
    if r < |q| {
      EndsAtRunnable(q, w, r);
    } else {
      forall n: nat
        ensures !Ends(q, w, n)
      {
        NeverEnds(q, w, n);
      }
    }
  }

  lemma EndsAtRunnable(q: seq<nat>, w: seq<Status>, r: nat)
    requires Covers(q, |w|) && r < |q| && Runnable(w, q[r])
    ensures Ends(q, w, r)
  {
    MovedIsRotated(q, r);
    SpinOfSmall(r, |q|);
  }

  lemma NeverEnds(q: seq<nat>, w: seq<Status>, n: nat)
    requires Covers(q, |w|) && AllDistinct(q) && |q| > 1 && FirstRunnable(q, w) == |q|
    ensures !Ends(q, w, n)
  {
    MovedHead(q, n);
    if n > 0 {
      MovedHead(q, n - 1);
    }
  }

  // ----- one turn of the main loop -----

  /** The queue turned so that its `r`th context comes first, without that context. */
  function Others(q: seq<nat>, r: nat): (o: seq<nat>)
    requires r < |q|
    ensures |o| == |q| - 1
  {
    q[r + 1..] + q[..r]
  }

  function Turn(s: State, daemon: seq<bool>, e: Surroundings): (State, Outcome)
    requires Covers(s.queue, |daemon|) && |e.before| == |e.after| == |daemon|
  {
    if |s.queue| <= 1 || s.numNonDaemons <= 0 then (s, Over)
    else
      var r := FirstRunnable(s.queue, e.before);
      if r == |s.queue| then (s, Stuck)
      else
        var c := s.queue[r];
        var others := Others(s.queue, r);
        var left := s.numNonDaemons - if daemon[c] then 0 else 1;
        if e.before[c].finished then (State(others, left), Reaped(c))
        else if e.after[c].finished then (State(others, left), Slot(c))
        else (State(others + [c], s.numNonDaemons), Slot(c))
  }

  function CountNonDaemons(q: seq<nat>, daemon: seq<bool>): nat
    requires Covers(q, |daemon|)
  {
    if q == [] then 0
    else CountNonDaemons(q[..|q| - 1], daemon) + if daemon[q[|q| - 1]] then 0 else 1
  }

  lemma {:induction false} CountOfJoin(a: seq<nat>, b: seq<nat>, daemon: seq<bool>)
    requires Covers(a, |daemon|) && Covers(b, |daemon|)
    ensures Covers(a + b, |daemon|)
    ensures CountNonDaemons(a + b, daemon) == CountNonDaemons(a, daemon) + CountNonDaemons(b, daemon)
  {
    if b == [] {
      assert a + b == a;
    } else {
      CountOfJoin(a, b[..|b| - 1], daemon);
      assert (a + b)[..|a + b| - 1] == a + b[..|b| - 1];
    }
  }

  /** The queue has no context twice, and the counter is right. */
  predicate Sound(s: State, daemon: seq<bool>) {
    && Covers(s.queue, |daemon|) && AllDistinct(s.queue)
    && s.numNonDaemons == CountNonDaemons(s.queue, daemon)
  }

  lemma CountAround(a: seq<nat>, c: nat, b: seq<nat>, daemon: seq<bool>)
    requires Covers(a, |daemon|) && Covers(b, |daemon|) && c < |daemon|
    ensures Covers(b + a, |daemon|) && Covers(a + [c] + b, |daemon|) && Covers(b + a + [c], |daemon|)
    ensures CountNonDaemons(a + [c] + b, daemon) == CountNonDaemons(b + a, daemon) + if daemon[c] then 0 else 1
    ensures CountNonDaemons(b + a + [c], daemon) == CountNonDaemons(a + [c] + b, daemon)
  {
    CountOfJoin(a, [c], daemon);
    CountOfJoin(a + [c], b, daemon);
    CountOfJoin(b, a, daemon);
    CountOfJoin(b + a, [c], daemon);
  }

  lemma AroundIsDistinct(a: seq<nat>, c: nat, b: seq<nat>)
    requires AllDistinct(a + [c] + b)
    ensures AllDistinct(b + a) && AllDistinct(b + a + [c])
    ensures multiset(b + a) == multiset(a + [c] + b) - multiset{c} && multiset(b + a + [c]) == multiset(a + [c] + b)
  {
    var q := a + [c] + b;
    assert forall i | 0 <= i < |b| :: b[i] == q[|a| + 1 + i];
    assert forall i | 0 <= i < |a| :: a[i] == q[i];
    assert c == q[|a|];
  }

  /** What one turn does to the queue: nothing, or only a finished context leaves it. */
  predicate Kept(q: seq<nat>, e: Surroundings, r: seq<nat>, o: Outcome) {
    match o
    case Over => r == q
    case Stuck => r == q
    case Reaped(c) => c < |e.before| && e.before[c].finished && multiset(r) == multiset(q) - multiset{c}
    case Slot(c) => c < |e.after| && multiset(r) == (if e.after[c].finished then multiset(q) - multiset{c} else multiset(q))
  }

  /** Taking out the `r`th context, and putting it back at the end. */
  lemma TakenOut(q: seq<nat>, r: nat, daemon: seq<bool>, c: nat, others: seq<nat>)
    requires Covers(q, |daemon|) && AllDistinct(q) && r < |q| && c == q[r] && others == Others(q, r)
    ensures Sound(State(others, CountNonDaemons(q, daemon) - if daemon[c] then 0 else 1), daemon)
    ensures Sound(State(others + [c], CountNonDaemons(q, daemon)), daemon)
    ensures multiset(others) == multiset(q) - multiset{c} && multiset(others + [c]) == multiset(q)
  {
    var a, b := q[..r], q[r + 1..];
    assert q == a + [c] + b;
    CountAround(a, c, b, daemon);
    AroundIsDistinct(a, c, b);
  }

  /** A turn keeps the counter right. */
  lemma TurnKeepsSound(s: State, daemon: seq<bool>, e: Surroundings)
    requires Sound(s, daemon) && |e.before| == |e.after| == |daemon|
    ensures Sound(Turn(s, daemon, e).0, daemon)
  {
    var r := FirstRunnable(s.queue, e.before);
    if r < |s.queue| {
      TakenOut(s.queue, r, daemon, s.queue[r], Others(s.queue, r));
    }
  }

  /** A turn that takes out the `r`th context. */
  lemma TurnTakes(s: State, daemon: seq<bool>, e: Surroundings, r: nat, c: nat, others: seq<nat>)
    requires Sound(s, daemon) && |e.before| == |e.after| == |daemon| && |s.queue| > 1 && s.numNonDaemons > 0
    requires r == FirstRunnable(s.queue, e.before) < |s.queue| && c == s.queue[r] && others == Others(s.queue, r)
    ensures var (t, o) := Turn(s, daemon, e);
      && o == (if e.before[c].finished then Reaped(c) else Slot(c))
      && t.queue == if e.before[c].finished || e.after[c].finished then others else others + [c]
  {
  }

  /** A context that gets the slot runs, does not block and is not finished; one that is reaped is finished. The loop is over
      with fewer than two contexts, or when the counter says so; it is stuck with no context that can run. */
  lemma TurnAnswers(s: State, daemon: seq<bool>, e: Surroundings)
    requires Sound(s, daemon) && |e.before| == |e.after| == |daemon|
    ensures match Turn(s, daemon, e).1
      case Slot(c) => c < |daemon| && e.before[c].running && !e.before[c].blocking && !e.before[c].finished
      case Reaped(c) => c < |daemon| && e.before[c].running && !e.before[c].blocking && e.before[c].finished
      case Over => |s.queue| < 2 || s.numNonDaemons <= 0
      case Stuck => forall i | 0 <= i < |s.queue| :: !e.before[s.queue[i]].running || e.before[s.queue[i]].blocking
  {
    FirstRunnableExactly(s.queue, e.before);
  }

  /** A turn loses no context but one that is finished. */
  lemma TurnLosesOnlyFinished(s: State, daemon: seq<bool>, e: Surroundings)
    requires Sound(s, daemon) && |e.before| == |e.after| == |daemon|
    ensures Kept(s.queue, e, Turn(s, daemon, e).0.queue, Turn(s, daemon, e).1)
  {
    var r := FirstRunnable(s.queue, e.before);
    if |s.queue| > 1 && s.numNonDaemons > 0 && r < |s.queue| {
      var c, others := s.queue[r], Others(s.queue, r);
      TurnTakes(s, daemon, e, r, c, others);
      TakenOut(s.queue, r, daemon, c, others);
    }
  }

  // ----- runs -----

  /** Statuses of `n` contexts. */
  predicate Fits(turns: seq<Surroundings>, n: nat) {
    forall i | 0 <= i < |turns| :: |turns[i].before| == |turns[i].after| == n
  }

  /** The outcomes of the turns of the loop in these surroundings. */
  function Outcomes(s: State, daemon: seq<bool>, turns: seq<Surroundings>): (o: seq<Outcome>)
    requires Covers(s.queue, |daemon|)
    requires Fits(turns, |daemon|)
    ensures |o| == |turns|
    decreases |turns|
  {
    if turns == [] then []
    else
      var (t, o) := Turn(s, daemon, turns[0]);
      [o] + Outcomes(t, daemon, turns[1..])
  }

  /** `c` can run, and is not finished, all through these turns. */
  predicate StaysRunnable(c: nat, turns: seq<Surroundings>) {
    forall i | 0 <= i < |turns| ::
      && c < |turns[i].before| && c < |turns[i].after| && Runnable(turns[i].before, c)
      && !turns[i].before[c].finished && !turns[i].after[c].finished
  }

  /** One turn: the loop is over, the context gets the slot, or it comes forward past those that were turned away. */
  lemma ComesForward(s: State, daemon: seq<bool>, e: Surroundings, k: nat, r: nat)
    requires Covers(s.queue, |daemon|) && k < |s.queue| && |e.before| == |e.after| == |daemon|
    requires Runnable(e.before, s.queue[k]) && !e.before[s.queue[k]].finished && r == FirstRunnable(s.queue, e.before)
    ensures var (t, o) := Turn(s, daemon, e);
      && r <= k && Covers(t.queue, |daemon|)
      && (o == Over || if r == k then o == Slot(s.queue[k]) else k - r - 1 < |t.queue| && t.queue[k - r - 1] == s.queue[k])
  {
  }

  /** Bounded waiting: a context at position `k` that stays runnable and unfinished gets the slot of one of the next k + 1
      turns, the `j`th, unless the loop is over first. */
  lemma {:induction false} BoundedWaiting(s: State, daemon: seq<bool>, turns: seq<Surroundings>, k: nat) returns (j: nat)
    requires Covers(s.queue, |daemon|) && k < |s.queue| && k < |turns|
    requires Fits(turns, |daemon|)
    requires StaysRunnable(s.queue[k], turns)
    ensures j <= k && (Outcomes(s, daemon, turns)[j] == Slot(s.queue[k]) || Outcomes(s, daemon, turns)[j] == Over)
    decreases k
  {
    var (t, o) := Turn(s, daemon, turns[0]);
    var r := FirstRunnable(s.queue, turns[0].before);
    ComesForward(s, daemon, turns[0], k, r);
    j := 0;
    if o != Over && r < k {
      var later := BoundedWaiting(t, daemon, turns[1..], k - r - 1);
      j := later + 1;
    }
  }

  // ----- every state of a run -----

  /** The state once `i` of these turns have passed. */
  function StateAfter(s: State, daemon: seq<bool>, turns: seq<Surroundings>, i: nat): (t: State)
    requires Covers(s.queue, |daemon|) && Fits(turns, |daemon|) && i <= |turns|
    ensures Covers(t.queue, |daemon|)
  {
    if i == 0 then s else Turn(StateAfter(s, daemon, turns, i - 1), daemon, turns[i - 1]).0
  }

  predicate FinishedBefore(c: nat, turns: seq<Surroundings>, i: nat) {
    exists k | 0 <= k < i && k < |turns| :: c < |turns[k].before| && c < |turns[k].after|
      && (turns[k].before[c].finished || turns[k].after[c].finished)
  }

  /** A context that leaves in a turn is finished then. */
  lemma LeavesFinished(s: State, daemon: seq<bool>, e: Surroundings, c: nat)
    requires Sound(s, daemon) && |e.before| == |e.after| == |daemon|
    requires c in s.queue && c !in Turn(s, daemon, e).0.queue
    ensures c < |daemon| && (e.before[c].finished || e.after[c].finished)
  {
    TurnLosesOnlyFinished(s, daemon, e);
    assert c in multiset(s.queue) && c !in multiset(Turn(s, daemon, e).0.queue);
  }

  lemma {:induction false} NobodyToWaitFor(q: seq<nat>, daemon: seq<bool>)
    requires Covers(q, |daemon|)
    ensures CountNonDaemons(q, daemon) == 0 <==> forall i | 0 <= i < |q| :: daemon[q[i]]
  {
    if q != [] {
      NobodyToWaitFor(q[..|q| - 1], daemon);
      assert forall i | 0 <= i < |q| - 1 :: q[..|q| - 1][i] == q[i];
    }
  }

  /** In every run the counter stays right, and a context leaves the queue only once it is finished. */
  lemma {:induction false} RunLosesOnlyFinished(s: State, daemon: seq<bool>, turns: seq<Surroundings>, i: nat)
    requires Sound(s, daemon) && Fits(turns, |daemon|) && i <= |turns|
    ensures Sound(StateAfter(s, daemon, turns, i), daemon)
    ensures forall c | c in s.queue && c !in StateAfter(s, daemon, turns, i).queue :: FinishedBefore(c, turns, i)
  {
    if i > 0 {
      var before := StateAfter(s, daemon, turns, i - 1);
      RunLosesOnlyFinished(s, daemon, turns, i - 1);
      TurnKeepsSound(before, daemon, turns[i - 1]);
      forall c | c in s.queue && c !in StateAfter(s, daemon, turns, i).queue
        ensures FinishedBefore(c, turns, i)
      {
        if c in before.queue {
          LeavesFinished(before, daemon, turns[i - 1], c);
        }
      }
    }
  }

  lemma FirstRunnableInside(q: seq<nat>, w: seq<Status>, c: nat)
    requires Covers(q, |w|) && c in q && c < |w| && Runnable(w, c)
    ensures FirstRunnable(q, w) < |q|
  {
    var k :| 0 <= k < |q| && q[k] == c;
  }

  /** What an idle context in the queue does for one turn. */
  ghost predicate Live(t: State, daemon: seq<bool>, e: Surroundings, idle: nat)
    requires Covers(t.queue, |daemon|) && |e.before| == |e.after| == |daemon|
  {
    && idle in t.queue && (|t.queue| > 1 ==> exists n: nat :: Ends(t.queue, e.before, n))
    && var o := Turn(t, daemon, e).1;
      o != Stuck && (o == Over <==> t.queue == [idle] || forall k | 0 <= k < |t.queue| :: daemon[t.queue[k]])
  }

  lemma TurnIsLive(t: State, daemon: seq<bool>, e: Surroundings, idle: nat)
    requires Sound(t, daemon) && |e.before| == |e.after| == |daemon|
    requires idle in t.queue && idle < |daemon| && Runnable(e.before, idle)
    ensures Live(t, daemon, e, idle)
  {
    FirstRunnableInside(t.queue, e.before, idle);
    NobodyToWaitFor(t.queue, daemon);
    if |t.queue| > 1 {
      RotationEndsExactly(t.queue, e.before);
    } else {
      assert t.queue == [idle];
    }
  }

  /** With an idle context that can always run, every rotation of every run ends, no turn is stuck, and the loop is over
      exactly when that context is alone or every context queued is a daemon. */
  lemma RunStaysLive(s: State, daemon: seq<bool>, turns: seq<Surroundings>, idle: nat, i: nat)
    requires Sound(s, daemon) && Fits(turns, |daemon|) && i < |turns|
    requires idle in s.queue && StaysRunnable(idle, turns)
    ensures Live(StateAfter(s, daemon, turns, i), daemon, turns[i], idle)
  {
    RunLosesOnlyFinished(s, daemon, turns, i);
    TurnIsLive(StateAfter(s, daemon, turns, i), daemon, turns[i], idle);
  }

  /** Turn, put together from its parts. */
  lemma TurnOf(s: State, daemon: seq<bool>, e: Surroundings, r: nat, leaves: bool, t: State)
    requires Sound(s, daemon) && |e.before| == |e.after| == |daemon|
    requires |s.queue| > 1 && s.numNonDaemons > 0 && r == FirstRunnable(s.queue, e.before) < |s.queue|
    requires leaves == (e.before[s.queue[r]].finished || e.after[s.queue[r]].finished)
    requires t.queue == Without(Rotated(s.queue, r), 0) + if leaves then [] else [s.queue[r]]
    requires t.numNonDaemons == s.numNonDaemons - if leaves && !daemon[s.queue[r]] then 1 else 0
    ensures Turn(s, daemon, e) == (t, if e.before[s.queue[r]].finished then Reaped(s.queue[r]) else Slot(s.queue[r]))
    ensures Sound(t, daemon)
  {
    TurnKeepsSound(s, daemon, e);
    assert Without(Rotated(s.queue, r), 0) == Others(s.queue, r);
    assert Others(s.queue, r) + [] == Others(s.queue, r);
  }

  lemma HeadToBack(q: seq<nat>)
    requires q != []
    ensures IndexIn(q, q[0]) == 0 && q[0] in q && Without(q, 0) + [q[0]] == Rotated(q, 1)
  {
  }

  // ----- in place -----

  class Scheduler {
    const contexts: ContextQueue
    const daemon: seq<bool>
    var numNonDaemons: int

    ghost predicate Valid()
      reads this, contexts, contexts.nodes
    {
      contexts.Valid() && Sound(Value(), daemon)
    }

    ghost function Value(): State
      reads this, contexts
    {
      State(contexts.Contexts(), numNonDaemons)
    }

    /** The start of the main loop, where incrIfNonDaemon is applied to every context in the queue. */
    constructor (contexts: ContextQueue, daemon: seq<bool>)
      requires contexts.Valid() && Covers(contexts.Contexts(), |daemon|) && AllDistinct(contexts.Contexts())
      ensures Valid() && this.contexts == contexts && this.daemon == daemon
    {
      this.contexts, this.daemon := contexts, daemon;
      numNonDaemons := 0;
      new;
      ghost var q, k := contexts.Contexts(), 0;
      var cur := contexts.first;
      while cur != null
        invariant k <= |q| && cur == NodeAt(contexts.list, k)
        invariant Covers(q[..k], |daemon|) && numNonDaemons == CountNonDaemons(q[..k], daemon)
        decreases |q| - k
      {
        assert cur == contexts.list[k] && cur.context == q[k];
        assert q[..k + 1][..k] == q[..k];
        if !daemon[cur.context] {
          numNonDaemons := numNonDaemons + 1;
        }
        cur := cur.next;
        k := k + 1;
      }
      assert q[..k] == q;
    }

    /** Move a context from the front, or from where it is, to the back. */
    method MoveHead(cur: nat)
      requires contexts.Valid() && contexts.list != [] && cur == contexts.Contexts()[0]
      modifies contexts, contexts.nodes
      ensures contexts.Valid() && fresh(contexts.nodes - old(contexts.nodes))
      ensures contexts.Contexts() == Rotated(old(contexts.Contexts()), 1)
    {
      HeadToBack(contexts.Contexts());
      var ok := contexts.Remove(cur);
      contexts.Append(cur);
    }

    /** The head goes to the back, and the next one is looked at. */
    method NextHead(cur: nat) returns (next: nat)
      requires contexts.Valid() && contexts.list != [] && cur == contexts.Contexts()[0]
      modifies contexts, contexts.nodes
      ensures contexts.Valid() && contexts.list != [] && fresh(contexts.nodes - old(contexts.nodes))
      ensures contexts.Contexts() == Rotated(old(contexts.Contexts()), 1) && next == contexts.Contexts()[0]
    {
      MoveHead(cur);
      var head := contexts.Head();
      next := head.value;
    }

    /** The inner loop, where it ends: some context can run, or there is only one. */
    method Rotate(w: seq<Status>) returns (cur: nat, allBlocked: bool)
      requires contexts.Valid() && Covers(contexts.Contexts(), |w|) && AllDistinct(contexts.Contexts()) && contexts.list != []
      requires FirstRunnable(contexts.Contexts(), w) < |contexts.list| || |contexts.list| == 1
      modifies contexts, contexts.nodes
      ensures contexts.Valid() && fresh(contexts.nodes - old(contexts.nodes))
      ensures var q := old(contexts.Contexts()); var r := FirstRunnable(q, w);
        if r < |q| then !allBlocked && contexts.Contexts() == Rotated(q, r) && cur == q[r]
        else allBlocked && contexts.Contexts() == q && cur == q[0]
      ensures cur < |w| && if allBlocked then !w[cur].running || w[cur].blocking else w[cur].running && !w[cur].blocking
    {
      ghost var q := contexts.Contexts();
      ghost var r, i, before := FirstRunnable(q, w), 0, contexts.nodes;
      var head := contexts.Head();
      cur := head.value;
      allBlocked := false;
      while !w[cur].running || w[cur].blocking
        invariant contexts.Valid() && contexts.list != [] && fresh(contexts.nodes - before)
        invariant i <= r && i < |q| && contexts.Contexts() == Rotated(q, i) && cur == q[i]
        decreases r - i
      {
        ghost var between := contexts.nodes;
        HeadAfterMove(q, i, r);
        var next := NextHead(cur);
        assert contexts.nodes - before <= (contexts.nodes - between) + (between - before);
        if next == cur {
          allBlocked := true;
          return;
        }
        cur := next;
        i := i + 1;
      }
    }

    /** The head of the queue goes to the back, or leaves. */
    method Retire(cur: nat, leaves: bool)
      requires contexts.Valid() && contexts.list != [] && cur == contexts.Contexts()[0] && cur < |daemon|
      modifies `numNonDaemons, contexts, contexts.nodes
      ensures contexts.Valid() && fresh(contexts.nodes - old(contexts.nodes))
      ensures contexts.Contexts() == Without(old(contexts.Contexts()), 0) + if leaves then [] else [cur]
      ensures numNonDaemons == old(numNonDaemons) - if leaves && !daemon[cur] then 1 else 0
    {
      HeadToBack(contexts.Contexts());
      var ok := contexts.Remove(cur);
      if !leaves {
        contexts.Append(cur);
      } else if !daemon[cur] {
        numNonDaemons := numNonDaemons - 1;
      }
    }

    /** Rotate, run the context that came to the front, and retire it. */
    method TakeTurn(e: Surroundings) returns (cur: nat, ghost r: nat)
      requires Valid() && |e.before| == |e.after| == |daemon| && |contexts.list| > 1
      requires FirstRunnable(contexts.Contexts(), e.before) < |contexts.list|
      modifies `numNonDaemons, contexts, contexts.nodes
      ensures contexts.Valid() && fresh(contexts.nodes - old(contexts.nodes))
      ensures r == old(FirstRunnable(contexts.Contexts(), e.before)) && cur == old(contexts.Contexts())[r]
      ensures var leaves := e.before[cur].finished || e.after[cur].finished;
        && contexts.Contexts() == Without(Rotated(old(contexts.Contexts()), r), 0) + (if leaves then [] else [cur])
        && numNonDaemons == old(numNonDaemons) - if leaves && !daemon[cur] then 1 else 0
    {
      r := FirstRunnable(contexts.Contexts(), e.before);
      ghost var before := contexts.nodes;
      var allBlocked;
      cur, allBlocked := Rotate(e.before);
      ghost var between := contexts.nodes;
      Retire(cur, e.before[cur].finished || e.after[cur].finished);
      assert contexts.nodes - before <= (contexts.nodes - between) + (between - before);
    }

    /** One turn of the main loop, if it is over or some context is able to run; `e` stands for what happens around it. */
    method Step(e: Surroundings) returns (ghost o: Outcome)
      requires Valid() && |e.before| == |e.after| == |daemon|
      requires |contexts.list| > 1 && numNonDaemons > 0 ==>
        FirstRunnable(contexts.Contexts(), e.before) < |contexts.list|
      modifies `numNonDaemons, contexts, contexts.nodes
      ensures Valid() && fresh(contexts.nodes - old(contexts.nodes))
      ensures (Value(), o) == Turn(old(Value()), daemon, e)
    {
      var n := contexts.Len();
      if n <= 1 || numNonDaemons <= 0 {
        return Over;
      }
      ghost var s := Value();
      var cur, r := TakeTurn(e);
      o := if e.before[cur].finished then Reaped(cur) else Slot(cur);
      TurnOf(s, daemon, e, r, e.before[cur].finished || e.after[cur].finished, Value());
    }
  }
}
