/** The allocator of libs/utils/alloc.c in its own memory: headers are kept inside the arena they describe,
    and the free list runs through them. Memory is cells of two 32-bit words; a header is one cell. */
module ArenaMemories {
  import opened Words
  import opened Arenas

  /** Eight bytes: in a header the block's size and the address of the next free block, in the arena's first cell
      `inited` and the address of the first free block. */
  datatype Cell = Cell(low: u32, high: u32)

  /** First cell of the `i`th free block, 0 past the end of the list. */
  function At(free: seq<nat>, i: nat): nat {
    if i < |free| then free[i] else 0
  }

  /** Cell whose high word points to the `i`th free block. */
  function Link(free: seq<nat>, i: nat): nat
    requires i <= |free|
  {
    if i == 0 then 0 else free[i - 1]
  }

  ghost predicate SizesIn(m: seq<Cell>, sizes: map<nat, nat>) {
    forall p | p in sizes :: p < |m| && m[p].low == sizes[p] * HEADER
  }

  ghost predicate LinksIn(m: seq<Cell>, free: seq<nat>) {
    forall i {:trigger At(free, i)} | 0 <= i <= |free| ::
      Link(free, i) < |m| && m[Link(free, i)].high == At(free, i) * HEADER
  }

  /** The headers in memory describe the arena. */
  ghost predicate Describes(m: seq<Cell>, a: Arena) {
    Sound(a) && a.end == |m| > 0 && m[0].low != 0 && SizesIn(m, a.sizes) && LinksIn(m, a.free)
  }

  /** What the header of the `i`th free block says. */
  lemma HeaderAt(m: seq<Cell>, a: Arena, i: nat)
    requires Describes(m, a) && i < |a.free|
    ensures var p := a.free[i];
      && p in a.sizes && 0 < p && p + a.sizes[p] <= |m| && |m| * HEADER < TWO_32
      && m[p].low == a.sizes[p] * HEADER && m[p].high == At(a.free, i + 1) * HEADER
      && Link(a.free, i) < |m| && Link(a.free, i) != p
  {
    assert a.free[i] in a.free;
    assert At(a.free, i) == a.free[i] && Link(a.free, i + 1) == a.free[i];
    if i > 0 {
      assert a.free[i - 1] != a.free[i];
    }
    assert At(a.free, i + 1) == At(a.free, i + 1);
  }

  /** The memory after `size` bytes were taken from block `p`, reached through the cell `prev`. */
  function Carved(m: seq<Cell>, p: nat, prev: nat, size: nat): seq<Cell>
    requires p < |m| && prev < |m| && size <= m[p].low && (p + size / HEADER) * HEADER < TWO_32
    requires m[p].low > size ==> p + size / HEADER < |m|
  {
    var leftover := m[p].low - size;
    var fragment := p + size / HEADER;
    if leftover > 0 then
      var m1 := m[fragment := Cell(leftover, m[p].high)];
      m1[prev := m1[prev].(high := fragment * HEADER)][p := Cell(size, 0)]
    else
      m[prev := m[prev].(high := m[p].high)][p := Cell(size, 0)]
  }

  /** The memory after block `p` was cut: the header of the rest, the link to it, the old header. */
  function Cut(m: seq<Cell>, p: nat, prev: nat, need: nat, rest: Cell): seq<Cell>
    requires p < |m| && prev < |m| && p + need < |m| && |m| * HEADER < TWO_32
  {
    m[p + need := rest][prev := m[prev].(high := (p + need) * HEADER)][p := Cell(need * HEADER, 0)]
  }

  lemma CutLinks(m: seq<Cell>, free: seq<nat>, i: nat, need: nat, rest: Cell)
    requires LinksIn(m, free) && Distinct(free) && i < |free| && 0 !in free && 0 < need
    requires free[i] + need < |m| && |m| * HEADER < TWO_32 && free[i] + need !in free && Link(free, i) < |m|
    requires rest.high == At(free, i + 1) * HEADER
    ensures LinksIn(Cut(m, free[i], Link(free, i), need, rest), free[i := free[i] + need])
  {
    var free', m' := free[i := free[i] + need], Cut(m, free[i], Link(free, i), need, rest);
    forall j | 0 <= j <= |free'|
      ensures Link(free', j) < |m'| && m'[Link(free', j)].high == At(free', j) * HEADER
    {
      assert At(free, j) == if j == i then free[i] else At(free', j);
      if 0 < j != i + 1 {
        assert free'[j - 1] == free[j - 1] && free[j - 1] in free;
      }
    }
  }

  lemma CutSizes(m: seq<Cell>, sizes: map<nat, nat>, p: nat, prev: nat, need: nat, rest: Cell)
    requires SizesIn(m, sizes) && p in sizes && 0 < need < sizes[p] && prev < |m|
    requires p + need < |m| && |m| * HEADER < TWO_32 && rest.low == (sizes[p] - need) * HEADER
    requires prev !in {p, p + need}
    ensures SizesIn(Cut(m, p, prev, need, rest), Split(sizes, p, need))
  {
  }

  /** Cutting the `i`th free block, header by header. */
  lemma SplitHeaders(m: seq<Cell>, a: Arena, i: nat, need: nat)
    requires Describes(m, a) && i < |a.free| && 0 < need < a.sizes[a.free[i]]
    ensures var p, prev := a.free[i], Link(a.free, i);
      && p + need < |m| && prev < |m| && |m| * HEADER < TWO_32 && a.sizes[p] <= |m| && At(a.free, i + 1) < |m|
      && 0 !in {p, p + need} && prev !in {p, p + need}
      && var m' := Cut(m, p, prev, need, Cell((a.sizes[p] - need) * HEADER, At(a.free, i + 1) * HEADER));
         SizesIn(m', Split(a.sizes, p, need)) && LinksIn(m', a.free[i := p + need])
  {
    var p, prev := a.free[i], Link(a.free, i);
    HeaderAt(m, a, i);
    SplitApart(a.sizes, p, need);
    assert At(a.free, i + 1) == 0 || At(a.free, i + 1) in a.sizes;
    assert prev == 0 || prev in a.free;
    var rest := Cell((a.sizes[p] - need) * HEADER, At(a.free, i + 1) * HEADER);
    CutSizes(m, a.sizes, p, prev, need, rest);
    CutLinks(m, a.free, i, need, rest);
  }

  /** The link past a block taken whole. */
  lemma UnlinkHeaders(m: seq<Cell>, a: Arena, i: nat)
    requires Describes(m, a) && i < |a.free|
    ensures var p, prev, next := a.free[i], Link(a.free, i), At(a.free, i + 1);
      && prev < |m| && 0 < p < |m| && prev != p && next * HEADER < TWO_32 && a.sizes[p] * HEADER < TWO_32
      && var m' := m[prev := m[prev].(high := next * HEADER)][p := Cell(a.sizes[p] * HEADER, 0)];
         SizesIn(m', a.sizes) && LinksIn(m', a.free[..i] + a.free[i + 1..])
  {
    HeaderAt(m, a, i);
    var p, prev, next, free' := a.free[i], Link(a.free, i), At(a.free, i + 1), a.free[..i] + a.free[i + 1..];
    assert next == 0 || next in a.sizes;
    var m' := m[prev := m[prev].(high := next * HEADER)][p := Cell(a.sizes[p] * HEADER, 0)];
    forall j | 0 <= j <= |free'|
      ensures Link(free', j) < |m'| && m'[Link(free', j)].high == At(free', j) * HEADER
    {
      assert At(free', j) == At(a.free, if j < i then j else j + 1);
      if j > 0 {
        var k := if j <= i then j - 1 else j;
        assert free'[j - 1] == a.free[k] && a.free[k] in a.sizes;
        assert k != i && (j != i ==> i == 0 || a.free[k] != a.free[i - 1]);
      }
    }
  }

  /** The writes of malloc make the memory describe the arena with the block taken. */
  lemma CarvedDescribes(m: seq<Cell>, a: Arena, i: nat, need: nat)
    requires Describes(m, a) && i < |a.free| && 0 < need <= a.sizes[a.free[i]]
    requires a.free[i] < |m| && Link(a.free, i) < |m| && m[a.free[i]].low == a.sizes[a.free[i]] * HEADER
    requires a.free[i] + a.sizes[a.free[i]] <= |m| && |m| * HEADER < TWO_32
    ensures Describes(Carved(m, a.free[i], Link(a.free, i), need * HEADER), Take(a, i, need))
  {
    var p, prev := a.free[i], Link(a.free, i);
    HeaderAt(m, a, i);
    TakeKeepsSound(a, i, need);
    var m' := Carved(m, p, prev, need * HEADER);
    if need < a.sizes[p] {
      SplitHeaders(m, a, i, need);
      assert m' == Cut(m, p, prev, need, Cell((a.sizes[p] - need) * HEADER, At(a.free, i + 1) * HEADER));
    } else {
      UnlinkHeaders(m, a, i);
    }
  }

  /** A request that rounds to nothing. */
  lemma CarvedNothing(m: seq<Cell>, p: nat, prev: nat)
    requires 0 < p < |m| && prev < |m| && |m| * HEADER < TWO_32
    ensures Carved(m, p, prev, 0)[p] == Cell(0, 0)
  {
  }

  /** Putting a live block at the head of the list. */
  lemma FreeHeaders(m: seq<Cell>, a: Arena, p: nat)
    requires Describes(m, a) && Live(a, p)
    ensures 0 < p < |m| && p * HEADER < TWO_32
    ensures var m' := m[p := m[p].(high := m[0].high)][0 := m[0].(high := p * HEADER)];
      SizesIn(m', a.sizes) && LinksIn(m', [p] + a.free)
  {
    var m', free' := m[p := m[p].(high := m[0].high)][0 := m[0].(high := p * HEADER)], [p] + a.free;
    forall j | 0 <= j <= |free'|
      ensures Link(free', j) < |m'| && m'[Link(free', j)].high == At(free', j) * HEADER
    {
      if j > 0 {
        assert At(free', j) == At(a.free, j - 1);
        assert j > 1 ==> free'[j - 1] == a.free[j - 2] && a.free[j - 2] in a.free && a.free[j - 2] in a.sizes;
      }
    }
  }

  lemma {:induction false} FirstFitIs(sizes: map<nat, nat>, free: seq<nat>, need: nat, i: nat)
    requires (forall p | p in free :: p in sizes) && i <= |free|
    requires forall j | 0 <= j < i :: sizes[free[j]] < need
    requires i < |free| ==> sizes[free[i]] >= need
    ensures FirstFit(sizes, free, need) == i
  {
    if i > 0 {
      FirstFitIs(sizes, free[1..], need, i - 1);
    }
  }

  lemma ListedNotNull(a: Arena, i: nat)
    requires Sound(a)
    ensures At(a.free, i) == 0 <==> i >= |a.free|
  {
    assert i < |a.free| ==> a.free[i] in a.sizes;
  }

  lemma InitialDescribes(m: seq<Cell>)
    requires 2 <= |m| && |m| * HEADER < TWO_32 && m[0] == Cell(1, HEADER) && m[1] == Cell((|m| - 1) * HEADER, 0)
    ensures Describes(m, InitialArena(|m|))
  {
    InitialSound(|m|);
    forall i | 0 <= i <= 1
      ensures Link([1], i) < |m| && m[Link([1], i)].high == At([1], i) * HEADER
    {
      assert i == 0 || i == 1;
    }
  }

  class ArenaMemory {
    const mem: array<Cell>
    ghost var model: Arena

    ghost predicate Valid()
      reads this, mem
    {
      Describes(mem[..], model)
    }

    /** UtilArenaInit over memory of any content. */
    constructor (size: nat)
      requires 2 * HEADER <= size < TWO_32 && size % HEADER == 0
      ensures Valid() && fresh(mem) && model == InitialArena(size / HEADER)
    {
      mem := new Cell[size / HEADER];
      model := InitialArena(size / HEADER);
      new;
      mem[0] := Cell(1, HEADER);
      mem[1] := Cell(size - HEADER, 0);
      InitialDescribes(mem[..]);
    }

    /** Walk the free list to the first block of at least `size` bytes; `prev` is the cell that points to it. */
    method Seek(size: u32) returns (cur: nat, prev: nat, ghost i: nat)
      requires Valid() && size % HEADER == 0
      ensures i == FirstFit(model.sizes, model.free, size / HEADER)
      ensures cur == At(model.free, i) * HEADER && prev == Link(model.free, i)
    {
      cur, prev, i := mem[0].high, 0, 0;
      assert cur == At(model.free, 0) * HEADER;
      while cur != 0
        invariant i <= |model.free| && cur == At(model.free, i) * HEADER && prev == Link(model.free, i)
        invariant forall j | 0 <= j < i :: model.sizes[model.free[j]] < size / HEADER
        decreases |model.free| - i
      {
        HeaderAt(mem[..], model, i);
        if mem[cur / HEADER].low - size >= 0 {
          break;
        }
        prev, cur, i := cur / HEADER, mem[cur / HEADER].high, i + 1;
      }
      ListedNotNull(model, i);
      FirstFitIs(model.sizes, model.free, size / HEADER, i);
    }

    /** The block size for a request, in the code's 32-bit steps. */
    method RoundUp(request: u32) returns (size: u32)
      ensures size == Need(request) * HEADER
    {
      size := Wrap(request + HEADER);
      var chip := size % HEADER;
      if chip != 0 {
        size := Wrap(size + HEADER - chip);
      }
      RoundedFitsExactly(request);
    }

    /** malloc after the rounding: the first block that fits is carved, in memory. */
    method TakeFirst(size: u32) returns (ptr: nat, ghost i: nat)
      requires Valid() && size % HEADER == 0
      modifies mem
      ensures i == FirstFit(model.sizes, model.free, size / HEADER)
      ensures i == |model.free| ==> ptr == 0 && mem[..] == old(mem[..])
      ensures i < |model.free| ==>
        var p, prev, m := model.free[i], Link(model.free, i), old(mem[..]);
        && ptr == (p + 1) * HEADER && 0 < p < |m| && prev < |m| && |m| * HEADER < TWO_32
        && m[p].low == model.sizes[p] * HEADER && size <= m[p].low && p + model.sizes[p] <= |m|
        && mem[..] == Carved(m, p, prev, size)
    {
      var cur, prev;
      cur, prev, i := Seek(size);
      ListedNotNull(model, i);
      if cur == 0 {
        return 0, i;
      }
      HeaderAt(mem[..], model, i);
      ptr := Carve(cur, prev, size);
    }

    /** A rounding that wraps to zero "allocates" the first free block, leaves it size 0 and drops the rest of the list. */
    method Malloc(request: u32) returns (ptr: nat)
      requires Valid()
      modifies this, mem
      ensures Need(request) != 0 ==> Valid() && (model, ptr) == Arenas.Malloc(old(model), request)
      ensures Need(request) == 0 && old(model).free != [] ==>
        var block := old(model).free[0];
        ptr == (block + 1) * HEADER && block < mem.Length && mem[block] == Cell(0, 0)
    {
      ghost var m, need := mem[..], Need(request);
      var size := RoundUp(request);
      ghost var i;
      ptr, i := TakeFirst(size);
      if i < |model.free| {
        if need == 0 {
          CarvedNothing(m, model.free[i], Link(model.free, i));
        } else {
          CarvedDescribes(m, model, i, need);
          model := Take(model, i, need);
        }
      }
    }

    /** Take `size` bytes from the block at `cur`, reached through the cell `prev`. */
    method Carve(cur: nat, prev: nat, size: u32) returns (ptr: nat)
      requires cur % HEADER == 0 && size % HEADER == 0 && cur / HEADER < mem.Length && prev < mem.Length
      requires mem.Length * HEADER < TWO_32 && cur + size < TWO_32
      requires size <= mem[cur / HEADER].low && (size < mem[cur / HEADER].low ==> (cur + size) / HEADER < mem.Length)
      modifies mem
      ensures ptr == cur + HEADER
      ensures mem[..] == Carved(old(mem[..]), cur / HEADER, prev, size)
    {
      var leftover := mem[cur / HEADER].low - size;
      if leftover > 0 {
        var fragment := cur + size;
        mem[fragment / HEADER] := Cell(leftover, mem[cur / HEADER].high);
        mem[prev] := mem[prev].(high := fragment);
      } else {
        mem[prev] := mem[prev].(high := mem[cur / HEADER].high);
      }
      mem[cur / HEADER] := Cell(size, 0);
      ptr := cur + HEADER;
    }

    method Free(ptr: nat)
      requires Valid() && (ptr == 0 || LivePointer(model, ptr))
      modifies this, mem
      ensures Valid() && model == Arenas.Free(old(model), ptr)
    {
      if ptr == 0 {
        return;
      }
      ghost var m := mem[..];
      var block := ptr - HEADER;
      FreeHeaders(m, model, block / HEADER);
      FreeKeepsSound(model, ptr);
      mem[block / HEADER] := mem[block / HEADER].(high := mem[0].high);
      mem[0] := mem[0].(high := block);
      model := Arenas.Free(model, ptr);
    }

    /** A caller writing inside the payload of a live block changes nothing the allocator relies on. */
    method Store(ptr: nat, k: nat, v: Cell)
      requires Valid() && LivePointer(model, ptr) && k + 1 < model.sizes[ptr / HEADER - 1]
      modifies mem
      ensures Valid()
      ensures mem[..] == old(mem[..])[ptr / HEADER + k := v]
    {
      StoreDescribes(mem[..], model, ptr / HEADER - 1, k, v);
      mem[ptr / HEADER + k] := v;
    }
  }

  lemma StoreDescribes(m: seq<Cell>, a: Arena, p: nat, k: nat, v: Cell)
    requires Describes(m, a) && Live(a, p) && k + 1 < a.sizes[p]
    ensures p + 1 + k < |m| && Describes(m[p + 1 + k := v], a)
  {
    PayloadApart(a, p, k);
    var m' := m[p + 1 + k := v];
    forall i | 0 <= i <= |a.free|
      ensures Link(a.free, i) < |m'| && m'[Link(a.free, i)].high == At(a.free, i) * HEADER
    {
      var at := At(a.free, i);
    }
  }

  /** A payload cell of a live block is no block's header. */
  lemma PayloadApart(a: Arena, p: nat, k: nat)
    requires Sound(a) && Live(a, p) && k + 1 < a.sizes[p]
    ensures 0 < p + 1 + k < a.end && p + 1 + k !in a.sizes
    ensures forall i | 0 <= i <= |a.free| :: Link(a.free, i) != p + 1 + k
  {
    assert p + 1 + k in a.sizes ==> Apart(a.sizes, p, p + 1 + k);
    assert forall i | 0 <= i < |a.free| :: a.free[i] in a.sizes;
  }
}
