/** The kernel's packet pool, kernel/packetK.c: 256 page-sized slots, the free ones on a doubly linked list of indices kept
    in the slots' metadata. The links share their memory with the mapping of a slot in use. */
module PacketPools {
  import opened Words

  const POOL_SIZE: nat := 256
  const PAGE: nat := 4096
  const NULL: u16 := 0xffff

  /** What mapping the slot yields: a range, 0 if there is none, and whether it has an address. */
  datatype Mapping = Mapping(logical: u32, addressed: bool) {
    predicate Works() {
      logical != 0 && addressed
    }
  }

  datatype Reply = Packet(address: int) | OutOfMemory | MappingFailed
  datatype Freed = Done | AlreadyFreed | Halted

  // ----- addresses -----

  /** C division, which drops the fraction. */
  function Quotient(a: int, n: nat): int
    requires n > 0
  {
    if a >= 0 then a / n else -(-a / n)
  }

  /** packetToIndex, before its range test. */
  function IndexOf(base: int, packet: int): int {
    Quotient(packet - base, PAGE)
  }

  function AddressOf(base: int, i: nat): int {
    base + i * PAGE
  }

  /** The address handed out for slot `i` maps back to `i`, as does every address in its page. */
  lemma AddressMapsBack(base: int, i: nat, inside: nat)
    requires inside < PAGE
    ensures IndexOf(base, AddressOf(base, i) + inside) == i
  {
  }

  /** The index of an address is that of the slot it lies in exactly if it does not lie in the page below the pool; all of
      that page but its first byte counts as slot 0. */
  lemma IndexIsSlotExactly(base: int, packet: int)
    ensures 0 <= IndexOf(base, packet) < POOL_SIZE <==> base - PAGE < packet < base + POOL_SIZE * PAGE
    ensures 0 <= IndexOf(base, packet) < POOL_SIZE ==>
      ((exists i: nat | i < POOL_SIZE :: i == IndexOf(base, packet) && AddressOf(base, i) <= packet < AddressOf(base, i + 1))
       <==> packet >= base)
  {
    var i := IndexOf(base, packet);
    if packet >= base {
      assert AddressOf(base, i) <= packet < AddressOf(base, i + 1);
    } else {
      assert i <= 0;
    }
  }

  // ----- the metadata -----

  /** The metadata of all slots and the ends of the free list. `next` and `prev` of a slot in use are the two halves of its
      mapping. */
  datatype Pool = Pool(inUse: seq<bool>, next: seq<u16>, prev: seq<u16>, first: u16, last: u16)

  predicate Link(n: u16) {
    n == NULL || n < POOL_SIZE
  }

  /** What a call needs to stay inside the arrays. */
  predicate Usable(p: Pool) {
    && |p.inUse| == |p.next| == |p.prev| == POOL_SIZE && Link(p.first)
    && (p.first != NULL ==> Link(p.next[p.first]))
  }

  /** The pool after initPool. */
  function Fresh(): Pool {
    Pool(seq(POOL_SIZE, _ => false),
         seq(POOL_SIZE, i requires 0 <= i < POOL_SIZE => if i + 1 < POOL_SIZE then i + 1 else NULL),
         seq(POOL_SIZE, i requires 0 <= i < POOL_SIZE => if i > 0 then i - 1 else NULL), 0, POOL_SIZE - 1)
  }

  /** PackosPacketAlloc. The mapping is stored over the links whether it works or not. */
  function Alloc(p: Pool, m: Mapping): Pool
    requires Usable(p)
  {
    var i := p.first;
    if i == NULL then p
    else
      var n := p.next[i];
      var q := p.(next := p.next[i := m.logical % TWO_16], prev := p.prev[i := m.logical / TWO_16]);
      if !m.Works() then q
      else if n == NULL then q.(first := NULL, last := NULL, inUse := q.inUse[i := true])
      else q.(first := n, prev := q.prev[n := NULL], inUse := q.inUse[i := true])
  }

  function AllocReply(p: Pool, base: int, m: Mapping): Reply {
    if p.first == NULL then OutOfMemory else if !m.Works() then MappingFailed else Packet(AddressOf(base, p.first))
  }

  /** PackosPacketFree of slot `i`. */
  function Free(p: Pool, i: nat): Pool
    requires Usable(p) && i < POOL_SIZE
  {
    if !p.inUse[i] then p
    else
      var q := p.(inUse := p.inUse[i := false], next := p.next[i := p.first], prev := p.prev[i := NULL], first := i);
      if q.next[i] == NULL then q.(last := i) else q.(prev := q.prev[q.next[i] := i])
  }

  // ----- the free list -----

  function At(free: seq<nat>, k: nat): nat
    requires k < |free|
  {
    free[k]
  }

  function After(free: seq<nat>, k: nat): nat
    requires k < |free|
  {
    if k + 1 < |free| then free[k + 1] else NULL
  }

  function Before(free: seq<nat>, k: nat): nat
    requires k < |free|
  {
    if k > 0 then free[k - 1] else NULL
  }

  /** Slots of the pool, none twice. */
  ghost predicate Distinct(free: seq<nat>) {
    && (forall k {:trigger At(free, k)} | 0 <= k < |free| :: At(free, k) < POOL_SIZE)
    && (forall j, k {:trigger At(free, j), At(free, k)} | 0 <= j < k < |free| :: At(free, j) != At(free, k))
  }

  /** `free` holds exactly the slots not in use. */
  ghost predicate Accounts(free: seq<nat>, inUse: seq<bool>)
    requires |inUse| == POOL_SIZE && Distinct(free)
  {
    && (forall k {:trigger At(free, k)} | 0 <= k < |free| :: !inUse[At(free, k)])
    && (forall i: nat | i < POOL_SIZE && !inUse[i] :: i in free)
  }

  ghost predicate Forward(free: seq<nat>, first: u16, next: seq<u16>)
    requires |next| == POOL_SIZE && Distinct(free)
  {
    && first == (if free == [] then NULL else At(free, 0))
    && (forall k {:trigger At(free, k)} | 0 <= k < |free| :: next[At(free, k)] == After(free, k))
  }

  ghost predicate Backward(free: seq<nat>, last: u16, prev: seq<u16>)
    requires |prev| == POOL_SIZE && Distinct(free)
  {
    && last == (if free == [] then NULL else At(free, |free| - 1))
    && (forall k {:trigger At(free, k)} | 0 <= k < |free| :: prev[At(free, k)] == Before(free, k))
  }

  /** Every slot is in use, or once on the doubly linked list `free`. */
  ghost predicate Sound(p: Pool, free: seq<nat>) {
    && |p.inUse| == |p.next| == |p.prev| == POOL_SIZE
    && Distinct(free) && Accounts(free, p.inUse) && Forward(free, p.first, p.next) && Backward(free, p.last, p.prev)
  }

  lemma FreshIsSound()
    ensures Sound(Fresh(), seq(POOL_SIZE, i => i))
  {
    var free: seq<nat> := seq(POOL_SIZE, i => i);
    forall i: nat | i < POOL_SIZE
      ensures i in free
    {
      assert free[i] == i;
    }
  }

  lemma SoundIsUsable(p: Pool, free: seq<nat>)
    requires Sound(p, free)
    ensures Usable(p)
  {
    if free != [] {
      assert p.next[At(free, 0)] == After(free, 0);
      if |free| > 1 {
        assert After(free, 0) == At(free, 1);
      }
    }
  }

  lemma TailIsDistinct(free: seq<nat>)
    requires Distinct(free) && free != []
    ensures Distinct(free[1..])
  {
    var rest := free[1..];
    forall k | 0 <= k < |rest|
      ensures At(rest, k) == At(free, k + 1)
    {
    }
  }

  lemma TailLinks(free: seq<nat>, k: nat)
    requires k + 1 < |free|
    ensures var rest := free[1..];
      && At(rest, k) == At(free, k + 1) && After(rest, k) == After(free, k + 1)
      && Before(rest, k) == if k == 0 then NULL else Before(free, k + 1)
  {
  }

  /** Allocation takes a slot that was free, the head of the list, and keeps the pool sound. */
  lemma AllocKeepsSound(p: Pool, free: seq<nat>, m: Mapping)
    requires Sound(p, free) && free != [] && m.Works()
    ensures Usable(p) && !p.inUse[free[0]] && p.first == free[0]
    ensures var q := Alloc(p, m);
      Sound(q, free[1..]) && q.inUse == p.inUse[free[0] := true]
  {
    SoundIsUsable(p, free);
    TailIsDistinct(free);
    var q, rest, i := Alloc(p, m), free[1..], At(free, 0);
    forall k | 0 <= k < |rest|
      ensures !q.inUse[At(rest, k)] && q.next[At(rest, k)] == After(rest, k) && q.prev[At(rest, k)] == Before(rest, k)
    {
      TailLinks(free, k);
      if k > 0 {
        TailLinks(free, 0);
      }
    }
    if rest != [] {
      TailLinks(free, 0);
      TailLinks(free, |rest| - 1);
    }
    forall j: nat | j < POOL_SIZE && !q.inUse[j]
      ensures j in rest
    {
      assert j in free && j != free[0];
    }
  }

  lemma ConsLinks(free: seq<nat>, i: nat, k: nat)
    requires k < |free|
    ensures var more := [i] + free;
      && At(more, k + 1) == At(free, k) && After(more, k + 1) == After(free, k)
      && Before(more, k + 1) == if k == 0 then i else Before(free, k)
  {
  }

  lemma ConsIsDistinct(free: seq<nat>, i: nat)
    requires Distinct(free) && i < POOL_SIZE && forall k {:trigger At(free, k)} | 0 <= k < |free| :: At(free, k) != i
    ensures Distinct([i] + free)
  {
    var more := [i] + free;
    forall k | 0 < k < |more|
      ensures At(more, k) == At(free, k - 1)
    {
    }
  }

  /** Freeing a slot in use puts it at the head of the list and keeps the pool sound. */
  lemma FreeKeepsSound(p: Pool, free: seq<nat>, i: nat)
    requires Sound(p, free) && i < POOL_SIZE && p.inUse[i]
    ensures Usable(p)
    ensures Sound(Free(p, i), [i] + free) && Free(p, i).inUse == p.inUse[i := false]
  {
    SoundIsUsable(p, free);
    ConsIsDistinct(free, i);
    var q, more := Free(p, i), [i] + free;
    forall k | 0 <= k < |more|
      ensures !q.inUse[At(more, k)] && q.next[At(more, k)] == After(more, k) && q.prev[At(more, k)] == Before(more, k)
    {
      if k > 0 {
        ConsLinks(free, i, k - 1);
        assert At(free, 0) == p.first;
      }
    }
    if free != [] {
      ConsLinks(free, i, |free| - 1);
    }
  }

  // ----- runs -----

  datatype Call = AllocCall(mapping: Mapping) | FreeCall(packet: int)

  /** The free list after one more call; freed slots go to the front. */
  function ListAfter(free: seq<nat>, inUse: seq<bool>, base: int, call: Call): seq<nat>
    requires |inUse| == POOL_SIZE
  {
    match call
    case AllocCall(_) => if free == [] then free else free[1..]
    case FreeCall(packet) =>
      var i := IndexOf(base, packet);
      if 0 <= i < POOL_SIZE && inUse[i] then [i as nat] + free else free
  }

  function Do(p: Pool, base: int, call: Call): Pool
    requires Usable(p)
  {
    match call
    case AllocCall(m) => Alloc(p, m)
    case FreeCall(packet) =>
      var i := IndexOf(base, packet);
      if 0 <= i < POOL_SIZE then Free(p, i) else p
  }

  ghost predicate Mapped(calls: seq<Call>) {
    forall k | 0 <= k < |calls| && calls[k].AllocCall? :: calls[k].mapping.Works()
  }

  /** The pool and its free list after these calls. */
  ghost function Run(base: int, calls: seq<Call>): (r: (Pool, seq<nat>))
    requires Mapped(calls)
    ensures Sound(r.0, r.1)
    decreases |calls|
  {
    if calls == [] then
      FreshIsSound();
      (Fresh(), seq(POOL_SIZE, i => i))
    else
      var call := calls[|calls| - 1];
      var (p, free) := Run(base, calls[..|calls| - 1]);
      StepKeepsSound(p, free, base, call);
      (Do(p, base, call), ListAfter(free, p.inUse, base, call))
  }

  lemma StepKeepsSound(p: Pool, free: seq<nat>, base: int, call: Call)
    requires Sound(p, free) && (call.AllocCall? ==> call.mapping.Works())
    ensures Usable(p) && Sound(Do(p, base, call), ListAfter(free, p.inUse, base, call))
  {
    SoundIsUsable(p, free);
    match call
    case AllocCall(m) =>
      if free != [] {
        AllocKeepsSound(p, free, m);
      }
    case FreeCall(packet) =>
      var i := IndexOf(base, packet);
      if 0 <= i < POOL_SIZE && p.inUse[i] {
        FreeKeepsSound(p, free, i);
      }
  }

  /** The packets out after one more call. */
  ghost function OutAfter(p: Pool, out: set<nat>, base: int, call: Call): set<nat> {
    match call
    case AllocCall(_) => if p.first == NULL then out else out + {p.first}
    case FreeCall(packet) => if IndexOf(base, packet) < 0 then out else out - {IndexOf(base, packet)}
  }

  /** The slots handed out in a run and not given back since. */
  ghost function Out(base: int, calls: seq<Call>): set<nat>
    requires Mapped(calls)
    decreases |calls|
  {
    if calls == [] then {}
    else
      var before := calls[..|calls| - 1];
      OutAfter(Run(base, before).0, Out(base, before), base, calls[|calls| - 1])
  }

  /** The slots in use are those of `out`. */
  ghost predicate InUseAre(p: Pool, out: set<nat>) {
    && |p.inUse| == POOL_SIZE
    && (forall i: nat | i < POOL_SIZE :: p.inUse[i] <==> i in out)
    && (forall i: nat | i in out :: i < POOL_SIZE)
  }

  lemma StepKeepsOut(p: Pool, free: seq<nat>, out: set<nat>, base: int, call: Call)
    requires Sound(p, free) && InUseAre(p, out) && (call.AllocCall? ==> call.mapping.Works())
    ensures Usable(p) && InUseAre(Do(p, base, call), OutAfter(p, out, base, call))
  {
    SoundIsUsable(p, free);
    match call
    case AllocCall(m) =>
      if free != [] {
        AllocKeepsSound(p, free, m);
      }
    case FreeCall(packet) =>
  }

  lemma HeadIsFree(p: Pool, free: seq<nat>, out: set<nat>)
    requires Sound(p, free) && InUseAre(p, out)
    ensures p.first !in out && (p.first == NULL <==> forall i: nat | i < POOL_SIZE :: i in out)
  {
    if free != [] {
      assert !p.inUse[At(free, 0)];
    }
  }

  lemma {:induction false} RunKeepsOut(base: int, calls: seq<Call>)
    requires Mapped(calls)
    ensures InUseAre(Run(base, calls).0, Out(base, calls))
    decreases |calls|
  {
    if calls == [] {
      assert Run(base, calls).0 == Fresh();
    } else {
      var before := calls[..|calls| - 1];
      RunKeepsOut(base, before);
      StepKeepsOut(Run(base, before).0, Run(base, before).1, Out(base, before), base, calls[|calls| - 1]);
    }
  }

  /** In every run the slots in use are those handed out and not given back: allocation never hands out one of them, and
      it fails only when all are out. */
  lemma NeverHandedOutTwice(base: int, calls: seq<Call>)
    requires Mapped(calls)
    ensures var p, out := Run(base, calls).0, Out(base, calls);
      InUseAre(p, out) && p.first !in out && (p.first == NULL <==> forall i: nat | i < POOL_SIZE :: i in out)
  {
    RunKeepsOut(base, calls);
    HeadIsFree(Run(base, calls).0, Run(base, calls).1, Out(base, calls));
  }

  // ----- addresses -----

  /** The three answers of an allocation: no slot is free, the mapping does not work, or the page of a slot that was free and
      now is in use. */
  lemma AllocAnswers(p: Pool, free: seq<nat>, base: int, m: Mapping)
    requires Sound(p, free)
    ensures Usable(p)
    ensures var r, q := AllocReply(p, base, m), Alloc(p, m);
      && (r == OutOfMemory <==> forall i | 0 <= i < 256 :: p.inUse[i])
      && (r == MappingFailed <==> (exists i :: 0 <= i < 256 && !p.inUse[i]) && (m.logical == 0 || !m.addressed))
      && (!r.Packet? ==> q.inUse == p.inUse)
      && (r.Packet? ==> var i := (r.address - base) / 4096;
            0 <= i < 256 && r.address == base + i * 4096 && !p.inUse[i] && q.inUse == p.inUse[i := true])
  {
    SoundIsUsable(p, free);
    if p.first != NULL {
      assert p.first == At(free, 0) && !p.inUse[At(free, 0)];
    } else {
      assert free == [];
      assert forall i: nat | i < POOL_SIZE :: !p.inUse[i] ==> i in free;
    }
  }

  /** The addresses handed out and not freed since: freeing takes back the page that holds the address. */
  ghost function HeldAfter(p: Pool, held: set<int>, base: int, call: Call): set<int> {
    match call
    case AllocCall(m) =>
      var r := AllocReply(p, base, m);
      if r.Packet? then held + {r.address} else held
    case FreeCall(packet) => set a | a in held && !(a <= packet < a + 4096)
  }

  ghost function Held(base: int, calls: seq<Call>): set<int>
    requires Mapped(calls)
    decreases |calls|
  {
    if calls == [] then {}
    else
      var before := calls[..|calls| - 1];
      HeldAfter(Run(base, before).0, Held(base, before), base, calls[|calls| - 1])
  }

  /** Nothing is freed in the page below the pool. */
  predicate NoneBelow(base: int, calls: seq<Call>) {
    forall k | 0 <= k < |calls| && calls[k].FreeCall? :: !(base - 4096 < calls[k].packet < base)
  }

  /** The addresses held are the pages of the slots in use. */
  ghost predicate HeldAre(p: Pool, held: set<int>, base: int) {
    && |p.inUse| == POOL_SIZE
    && (forall i {:trigger p.inUse[i]} | 0 <= i < 256 :: p.inUse[i] <==> base + i * 4096 in held)
    && forall a | a in held :: base <= a < base + 256 * 4096 && (a - base) % 4096 == 0
  }

  lemma AllocKeepsHeld(p: Pool, free: seq<nat>, held: set<int>, base: int, m: Mapping)
    requires Sound(p, free) && HeldAre(p, held, base) && m.Works()
    ensures Usable(p) && HeldAre(Alloc(p, m), HeldAfter(p, held, base, AllocCall(m)), base)
    ensures var r := AllocReply(p, base, m); r.Packet? ==> r.address !in held
  {
    AllocAnswers(p, free, base, m);
  }

  lemma FreeKeepsHeld(p: Pool, free: seq<nat>, held: set<int>, base: int, packet: int)
    requires Sound(p, free) && HeldAre(p, held, base) && !(base - 4096 < packet < base)
    ensures Usable(p) && HeldAre(Do(p, base, FreeCall(packet)), HeldAfter(p, held, base, FreeCall(packet)), base)
  {
    SoundIsUsable(p, free);
    var q, rest := Do(p, base, FreeCall(packet)), HeldAfter(p, held, base, FreeCall(packet));
    forall i | 0 <= i < 256
      ensures q.inUse[i] <==> base + i * 4096 in rest
    {
      assert p.inUse[i] <==> base + i * 4096 in held;
      PageOf(base, i, packet);
    }
  }

  lemma PageOf(base: int, i: nat, packet: int)
    requires i < POOL_SIZE && !(base - 4096 < packet < base)
    ensures AddressOf(base, i) <= packet < AddressOf(base, i) + 4096 <==> IndexOf(base, packet) == i
  {
    if packet <= base - 4096 {
      assert IndexOf(base, packet) < 0;
    }
  }

  /** In every run in which nothing is freed in the page below the pool, the addresses held are the pages of the slots in
      use; so an allocation hands out one that nobody holds. */
  lemma {:induction false} HeldAreInUse(base: int, calls: seq<Call>)
    requires Mapped(calls) && NoneBelow(base, calls)
    ensures HeldAre(Run(base, calls).0, Held(base, calls), base)
    decreases |calls|
  {
    if calls != [] {
      var before, call := calls[..|calls| - 1], calls[|calls| - 1];
      HeldAreInUse(base, before);
      var (p, free) := Run(base, before);
      match call {
        case AllocCall(m) => AllocKeepsHeld(p, free, Held(base, before), base, m);
        case FreeCall(packet) => FreeKeepsHeld(p, free, Held(base, before), base, packet);
      }
    }
  }

  lemma NewAddressIsNotHeld(base: int, calls: seq<Call>, m: Mapping)
    requires Mapped(calls) && NoneBelow(base, calls) && m.Works()
    ensures var r := AllocReply(Run(base, calls).0, base, m); r.Packet? ==> r.address !in Held(base, calls)
  {
    HeldAreInUse(base, calls);
    AllocKeepsHeld(Run(base, calls).0, Run(base, calls).1, Held(base, calls), base, m);
  }

  // ----- an address below the pool -----

  lemma RunGoesOn(base: int, calls: seq<Call>, call: Call)
    requires Mapped(calls) && (call.AllocCall? ==> call.mapping.Works())
    ensures Mapped(calls + [call]) && Usable(Run(base, calls).0)
    ensures Run(base, calls + [call]).0 == Do(Run(base, calls).0, base, call)
    ensures Out(base, calls + [call]) == OutAfter(Run(base, calls).0, Out(base, calls), base, call)
  {
    SoundIsUsable(Run(base, calls).0, Run(base, calls).1);
    assert (calls + [call])[..|calls|] == calls;
  }

  /** In every run, freeing an address in the page below the pool frees slot 0, if that is out. */
  lemma BelowPoolFreesSlotZero(base: int, calls: seq<Call>, packet: int)
    requires Mapped(calls) && base - PAGE < packet < base
    ensures Mapped(calls + [FreeCall(packet)])
    ensures Out(base, calls + [FreeCall(packet)]) == Out(base, calls) - {0}
  {
    assert IndexOf(base, packet) == 0;
    RunGoesOn(base, calls, FreeCall(packet));
  }

  /** The first packet of a new pool is in that slot, so the next one then is the same. */
  lemma BelowPoolDoublesPacket(base: int, m: Mapping)
    requires m.Works()
    ensures var calls := [AllocCall(m), FreeCall(base - 1)];
      && Mapped(calls[..1]) && Out(base, calls[..1]) == {0}
      && Mapped(calls) && Run(base, calls).0.first == 0
      && AllocReply(Run(base, calls).0, base, m) == AllocReply(Fresh(), base, m)
  {
    var calls := [AllocCall(m), FreeCall(base - 1)];
    RunGoesOn(base, [], AllocCall(m));
    assert [] + [AllocCall(m)] == calls[..1] && calls[..1] + [FreeCall(base - 1)] == calls;
    assert IndexOf(base, base - 1) == 0;
    RunGoesOn(base, calls[..1], FreeCall(base - 1));
  }

  // ----- a mapping that does not work -----

  lemma FirstLinks(p: Pool, free: seq<nat>)
    requires Sound(p, free) && p.first != NULL
    ensures free != [] && p.first == At(free, 0) && !p.inUse[p.first]
    ensures p.prev[p.first] == NULL && p.next[p.first] == After(free, 0)
  {
    assert p.prev[At(free, 0)] == Before(free, 0) && p.next[At(free, 0)] == After(free, 0);
  }

  /** The same pool but for the links of the first free slot. */
  ghost predicate FirstOverwritten(p: Pool, q: Pool) {
    && p.first < POOL_SIZE && |p.prev| == |q.prev| == POOL_SIZE
    && q.inUse == p.inUse && q.first == p.first && q.last == p.last
    && forall i: nat | i < POOL_SIZE && i != p.first :: q.prev[i] == p.prev[i]
  }

  /** Followed backwards from its end, the list is the same. */
  lemma {:induction false} SameBackwards(p: Pool, q: Pool, free: seq<nat>, f: seq<nat>, k: nat)
    requires Sound(p, free) && Sound(q, f) && FirstOverwritten(p, q) && k < |free|
    ensures k < |f| && At(f, |f| - 1 - k) == At(free, |free| - 1 - k)
  {
    if k == 0 {
      FirstLinks(q, f);
    } else {
      SameBackwards(p, q, free, f, k - 1);
      var x := At(free, |free| - k);
      assert x != At(free, 0);
      assert p.prev[x] == Before(free, |free| - k) == At(free, |free| - 1 - k);
      assert q.prev[At(f, |f| - k)] == Before(f, |f| - k);
    }
  }

  lemma SameList(p: Pool, q: Pool, free: seq<nat>, f: seq<nat>)
    requires Sound(p, free) && Sound(q, f) && FirstOverwritten(p, q)
    ensures q.next[p.first] == p.next[p.first] && q.prev[p.first] == p.prev[p.first]
  {
    FirstLinks(p, free);
    FirstLinks(q, f);
    SameBackwards(p, q, free, f, |free| - 1);
    assert At(f, |f| - |free|) == At(f, 0);
    if |free| > 1 {
      SameBackwards(p, q, free, f, |free| - 2);
    }
  }

  /** A mapping that does not work leaves a sound pool, whatever the list, exactly if it stores the links that were there;
      its low half decides whether the forward links survive, and whether the next allocation stays inside the arrays. */
  lemma FailureBreaksLinksExactly(p: Pool, free: seq<nat>, m: Mapping)
    requires Sound(p, free) && free != [] && !m.Works()
    ensures Usable(p)
    ensures var q := Alloc(p, m);
      && ((exists f :: Sound(q, f)) <==> m.logical == NULL * TWO_16 + After(free, 0))
      && (Forward(free, q.first, q.next) <==> m.logical % TWO_16 == After(free, 0))
      && (Usable(q) <==> Link(m.logical % TWO_16))
  {
    SoundIsUsable(p, free);
    var q := Alloc(p, m);
    FirstLinks(p, free);
    if f :| Sound(q, f) {
      SameList(p, q, free, f);
    }
    HalvesBack(p, q, free, m);
    ForwardSurvives(p, q, free, m);
  }

  lemma HalvesBack(p: Pool, q: Pool, free: seq<nat>, m: Mapping)
    requires Sound(p, free) && free != [] && !m.Works() && Usable(p) && q == Alloc(p, m)
    ensures m.logical == NULL * TWO_16 + After(free, 0) <==> q == p
    ensures m.logical == NULL * TWO_16 + After(free, 0) <==>
      q.next[p.first] == p.next[p.first] && q.prev[p.first] == p.prev[p.first]
  {
    FirstLinks(p, free);
    assert |free| > 1 ==> After(free, 0) == At(free, 1);
    var i := p.first;
    if m.logical % TWO_16 == p.next[i] && m.logical / TWO_16 == p.prev[i] {
      assert p.next[i := m.logical % TWO_16] == p.next && p.prev[i := m.logical / TWO_16] == p.prev;
    }
  }

  lemma ForwardSurvives(p: Pool, q: Pool, free: seq<nat>, m: Mapping)
    requires Sound(p, free) && free != [] && !m.Works() && Usable(p) && q == Alloc(p, m)
    ensures Forward(free, q.first, q.next) <==> m.logical % TWO_16 == After(free, 0)
  {
    assert q.next[At(free, 0)] == m.logical % TWO_16;
    assert forall k | 0 < k < |free| :: At(free, k) != At(free, 0);
  }

  /** The second allocation that succeeds afterwards hands out the slot of the mapping's low half: slot 0 if there was no
      range. It is free exactly if it was on the list behind the head. */
  lemma FailureHandsOutSlot(p: Pool, free: seq<nat>, failed: Mapping, m: Mapping)
    requires Sound(p, free) && free != [] && !failed.Works() && failed.logical % TWO_16 < POOL_SIZE && m.Works()
    ensures Usable(p) && Usable(Alloc(p, failed))
    ensures var q, slot := Alloc(Alloc(p, failed), m), failed.logical % TWO_16;
      && q.first == slot && (!q.inUse[slot] <==> slot in free[1..])
  {
    SoundIsUsable(p, free);
    var slot := failed.logical % TWO_16;
    assert !p.inUse[At(free, 0)];
    if slot in free[1..] {
      var k :| 0 <= k < |free[1..]| && free[1..][k] == slot;
      assert At(free, k + 1) == slot && At(free, 0) != At(free, k + 1);
    }
  }

  /** From a new pool: with one packet out, a failed mapping and one more allocation, the next one hands it out again. */
  lemma FailureDoublesPacket(base: int, failed: Mapping, m: Mapping)
    requires m.Works() && failed.logical == 0
    ensures Usable(Fresh()) && Usable(Alloc(Fresh(), m))
    ensures Usable(Alloc(Alloc(Fresh(), m), failed))
    ensures var q := Alloc(Alloc(Alloc(Fresh(), m), failed), m);
      AllocReply(q, base, m) == AllocReply(Fresh(), base, m) && q.inUse[0]
  {
  }

  // ----- in place -----

  class PacketPool {
    const base: int
    const inUse: array<bool>
    const next: array<u16>
    const prev: array<u16>
    var first: u16
    var last: u16
    // The processor's interrupt flag.
    var interrupts: bool

    ghost predicate Valid()
    {
      inUse.Length == next.Length == prev.Length == POOL_SIZE && next != prev
    }

    ghost function Value(): Pool
      reads this, inUse, next, prev
    {
      Pool(inUse[..], next[..], prev[..], first, last)
    }

    /** initPool, the ranges at hand, interrupts on. */
    constructor (base: int)
      ensures Valid() && fresh(inUse) && fresh(next) && fresh(prev) && this.base == base && Value() == Fresh() && interrupts
    {
      this.base := base;
      inUse := new bool[POOL_SIZE];
      next, prev := new u16[POOL_SIZE], new u16[POOL_SIZE];
      first, last, interrupts := 0, POOL_SIZE - 1, true;
      new;
      for i := 0 to POOL_SIZE
        invariant first == 0 && last == POOL_SIZE - 1 && interrupts
        invariant forall k | 0 <= k < i :: !inUse[k] && next[k] == k + 1 && prev[k] == if k > 0 then k - 1 else NULL
      {
        inUse[i] := false;
        next[i] := i + 1;
        prev[i] := if i > 0 then i - 1 else NULL;
      }
      next[POOL_SIZE - 1] := NULL;
    }

    method PacketToIndex(packet: int) returns (i: int)
      ensures i == if 0 <= IndexOf(base, packet) < POOL_SIZE then IndexOf(base, packet) else -1
    {
      i := IndexOf(base, packet);
      if i < 0 || i >= POOL_SIZE {
        i := -1;
      }
    }

    /** Both calls hold off interrupts while they work on the pool. */
    method Block() returns (state: bool)
      modifies this`interrupts
      ensures state == old(interrupts) && !interrupts
    {
      state := interrupts;
      interrupts := false;
    }

    method AllocPacket(m: Mapping) returns (reply: Reply)
      requires Valid() && Usable(Value())
      modifies this, inUse, next, prev
      ensures Value() == Alloc(old(Value()), m) && reply == AllocReply(old(Value()), base, m)
      ensures reply == OutOfMemory <==> old(first) == NULL
      ensures reply == MappingFailed <==> old(first) != NULL && (m.logical == 0 || !m.addressed)
      ensures reply.Packet? ==> reply.address == base + old(first) * 4096 && inUse[..] == old(inUse[..])[old(first) := true]
      ensures reply.Packet? ==> forall free | Sound(old(Value()), free) :: !old(inUse[first])
      ensures interrupts == old(interrupts)
    {
      var state := Block();
      var i := first;
      if i == NULL {
        interrupts := state;
        return OutOfMemory;
      }
      var n := next[i];
      next[i], prev[i] := m.logical % TWO_16, m.logical / TWO_16;
      if !m.Works() {
        interrupts := state;
        return MappingFailed;
      }
      first := n;
      if first == NULL {
        last := NULL;
      } else {
        prev[first] := NULL;
      }
      inUse[i] := true;
      interrupts := state;
      reply := Packet(AddressOf(base, i));
    }

    /** A packet outside the pool halts the machine. A slot that is free already is left as it is, with interrupts off. */
    method FreePacket(packet: int) returns (r: Freed)
      requires Valid() && Usable(Value())
      modifies this, inUse, next, prev
      ensures var i := IndexOf(base, packet);
        && Value() == (if 0 <= i < POOL_SIZE then Free(old(Value()), i) else old(Value()))
        && r == (if !(0 <= i < POOL_SIZE) then Halted else if old(inUse[i]) then Done else AlreadyFreed)
        && interrupts == (old(interrupts) && r == Done)
    {
      var state := Block();
      var i := PacketToIndex(packet);
      if i < 0 {
        interrupts := state;
        interrupts := false;
        return Halted;
      }
      if !inUse[i] {
        return AlreadyFreed;
      }
      inUse[i] := false;
      next[i], prev[i] := first, NULL;
      first := i;
      if next[i] == NULL {
        last := i;
      } else {
        prev[next[i]] := i;
      }
      interrupts := state;
      r := Done;
    }
  }
}
