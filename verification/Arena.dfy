/** What the allocator of libs/utils/alloc.c does to its arena: blocks tile the arena, a free list names
    the free ones, `malloc` takes the first that fits and `free` puts one back at the front. Every header is
    eight bytes and every block a whole number of headers, so blocks are counted in cells of eight bytes from
    the arena's start. Requests and pointers are in bytes; 0 is the null pointer. */
module Arenas {
  import opened Words

  const HEADER: nat := 8

  /** `sizes` maps the first cell of each block to its size, header included; `free` lists free blocks by first cell. */
  datatype Arena = Arena(end: nat, sizes: map<nat, nat>, free: seq<nat>)

  /** The size of the block a request needs: header added, rounded up to whole headers, in 32 bits. */
  function Rounded(request: u32): u32 {
    var size := Wrap(request + HEADER);
    var chip := size % HEADER;
    if chip != 0 then Wrap(size + HEADER - chip) else size
  }

  /** The same in cells. */
  function Need(request: u32): nat {
    Rounded(request) / HEADER
  }

  /** The block is large enough for the request exactly when the rounding did not pass 2^32. The next eight requests round to
      nothing, and the last seven to a header alone. */
  lemma RoundedFitsExactly(request: u32)
    ensures Rounded(request) == Need(request) * HEADER
    ensures Rounded(request) >= request + HEADER <==> request <= TWO_32 - 2 * HEADER
    ensures Rounded(request) == 0 <==> TWO_32 - 2 * HEADER < request <= TWO_32 - HEADER
    ensures request > TWO_32 - HEADER ==> Rounded(request) == HEADER
    ensures request <= TWO_32 - 2 * HEADER ==> Rounded(request) < request + 2 * HEADER
  {
  }

  // ----- the invariant -----

  ghost predicate BlocksFit(end: nat, sizes: map<nat, nat>) {
    forall p | p in sizes :: p > 0 && sizes[p] > 0 && p + sizes[p] <= end
  }

  predicate Apart(sizes: map<nat, nat>, p: nat, q: nat)
    requires p in sizes && q in sizes
  {
    p < q ==> p + sizes[p] <= q
  }

  ghost predicate BlocksApart(sizes: map<nat, nat>) {
    forall p, q {:trigger Apart(sizes, p, q)} | p in sizes && q in sizes :: Apart(sizes, p, q)
  }

  /** The block is followed at once by another or by the end of the arena. */
  predicate Meets(end: nat, sizes: map<nat, nat>, p: nat)
    requires p in sizes
  {
    p + sizes[p] == end || p + sizes[p] in sizes
  }

  /** No gaps: the first block starts right after the arena's own cell. */
  ghost predicate BlocksMeet(end: nat, sizes: map<nat, nat>) {
    1 in sizes && forall p {:trigger Meets(end, sizes, p)} | p in sizes :: Meets(end, sizes, p)
  }

  ghost predicate Tiled(end: nat, sizes: map<nat, nat>) {
    end * HEADER < TWO_32 && BlocksFit(end, sizes) && BlocksApart(sizes) && BlocksMeet(end, sizes)
  }

  ghost predicate Distinct(s: seq<nat>) {
    forall i, j | 0 <= i < j < |s| :: s[i] != s[j]
  }

  ghost predicate Sound(a: Arena) {
    && Tiled(a.end, a.sizes)
    && Distinct(a.free)
    && forall p | p in a.free :: p in a.sizes
  }

  predicate Live(a: Arena, p: nat) {
    p in a.sizes && p !in a.free
  }

  // ----- the operations -----

  function InitialArena(cells: nat): Arena
    requires 2 <= cells
  {
    Arena(cells, map[1 := cells - 1], [1])
  }

  /** Position in the free list of the first block of at least `need` cells, or the list's length. */
  function FirstFit(sizes: map<nat, nat>, free: seq<nat>, need: nat): (i: nat)
    requires forall p | p in free :: p in sizes
    ensures i <= |free|
    ensures forall j | 0 <= j < i :: sizes[free[j]] < need
    ensures i < |free| ==> sizes[free[i]] >= need
  {
    if free == [] || sizes[free[0]] >= need then 0 else 1 + FirstFit(sizes, free[1..], need)
  }

  /** Take block `free[i]` for `need` cells: what is left over stays in the list at the same place. */
  function Take(a: Arena, i: nat, need: nat): Arena
    requires i < |a.free| && a.free[i] in a.sizes && a.sizes[a.free[i]] >= need
  {
    var p := a.free[i];
    var leftover := a.sizes[p] - need;
    if leftover > 0 then
      Arena(a.end, Split(a.sizes, p, need), a.free[i := p + need])
    else
      Arena(a.end, a.sizes, a.free[..i] + a.free[i + 1..])
  }

  /** The pointer handed out lies just past the block's header. */
  function Malloc(a: Arena, request: u32): (Arena, nat)
    requires forall p | p in a.free :: p in a.sizes
  {
    var need := Need(request);
    var i := FirstFit(a.sizes, a.free, need);
    if i == |a.free| then (a, 0) else (Take(a, i, need), (a.free[i] + 1) * HEADER)
  }

  /** `ptr` points just past the header of a live block. */
  predicate LivePointer(a: Arena, ptr: nat) {
    ptr >= HEADER && ptr % HEADER == 0 && Live(a, ptr / HEADER - 1)
  }

  function Free(a: Arena, ptr: nat): Arena
    requires ptr == 0 || ptr >= HEADER
  {
    if ptr == 0 then a else a.(free := [ptr / HEADER - 1] + a.free)
  }

  // ----- every operation keeps the tiling -----

  lemma InitialSound(cells: nat)
    requires 2 <= cells && cells * HEADER < TWO_32
    ensures Sound(InitialArena(cells))
  {
  }

  function Split(sizes: map<nat, nat>, p: nat, need: nat): map<nat, nat>
    requires p in sizes && need < sizes[p]
  {
    sizes[p + need := sizes[p] - need][p := need]
  }

  lemma SplitFits(end: nat, sizes: map<nat, nat>, p: nat, need: nat)
    requires BlocksFit(end, sizes) && p in sizes && 0 < need < sizes[p]
    ensures BlocksFit(end, Split(sizes, p, need))
  {
  }

  lemma SplitApart(sizes: map<nat, nat>, p: nat, need: nat)
    requires BlocksApart(sizes) && p in sizes && 0 < need < sizes[p]
    ensures p + need !in sizes && BlocksApart(Split(sizes, p, need))
  {
    var cut := Split(sizes, p, need);
    assert p + need in sizes ==> Apart(sizes, p, p + need);
    forall a, b | a in cut && b in cut
      ensures Apart(cut, a, b)
    {
      var a', b' := if a == p + need then p else a, if b == p + need then p else b;
      assert Apart(sizes, a', b') && Apart(sizes, b', a');
    }
  }

  lemma SplitMeets(end: nat, sizes: map<nat, nat>, p: nat, need: nat)
    requires BlocksMeet(end, sizes) && p in sizes && 0 < need < sizes[p] && p + need !in sizes
    ensures BlocksMeet(end, Split(sizes, p, need))
  {
    var cut := Split(sizes, p, need);
    forall a | a in cut
      ensures Meets(end, cut, a)
    {
      assert Meets(end, sizes, if a in sizes then a else p);
    }
  }

  /** Cutting a block in two keeps the tiling. */
  lemma SplitKeepsTiling(end: nat, sizes: map<nat, nat>, p: nat, need: nat)
    requires Tiled(end, sizes) && p in sizes && 0 < need < sizes[p]
    ensures p + need !in sizes && Tiled(end, Split(sizes, p, need))
  {
    SplitFits(end, sizes, p, need);
    SplitApart(sizes, p, need);
    SplitMeets(end, sizes, p, need);
  }

  lemma TakeKeepsSound(a: Arena, i: nat, need: nat)
    requires Sound(a) && i < |a.free| && 0 < need <= a.sizes[a.free[i]]
    ensures Sound(Take(a, i, need)) && Live(Take(a, i, need), a.free[i])
  {
    var p, b := a.free[i], Take(a, i, need);
    if need < a.sizes[p] {
      SplitKeepsTiling(a.end, a.sizes, p, need);
      assert forall q | q in b.free :: q in a.free || q == p + need;
    } else {
      assert forall q | q in b.free :: q in a.free;
    }
  }

  lemma MallocKeepsSound(a: Arena, request: u32)
    requires Sound(a) && Need(request) != 0
    ensures Sound(Malloc(a, request).0)
  {
    RoundedFitsExactly(request);
    var i := FirstFit(a.sizes, a.free, Need(request));
    if i < |a.free| {
      TakeKeepsSound(a, i, Need(request));
    }
  }

  lemma FreeKeepsSound(a: Arena, ptr: nat)
    requires Sound(a) && (ptr == 0 || LivePointer(a, ptr))
    ensures Sound(Free(a, ptr))
  {
  }

  // ----- what the tiling means -----

  /** Every cell after the arena's own lies in exactly one block. */
  lemma EveryCellInOneBlock(end: nat, sizes: map<nat, nat>, x: nat)
    requires Tiled(end, sizes) && 1 <= x < end
    ensures exists p :: p in sizes && p <= x < p + sizes[p]
    ensures forall p, q | p in sizes && q in sizes && p <= x < p + sizes[p] && q <= x < q + sizes[q] :: p == q
  {
    var p := BlockOf(end, sizes, 1, x);
    assert forall p, q | p in sizes && q in sizes :: Apart(sizes, p, q) && Apart(sizes, q, p);
  }

  lemma {:induction false} BlockOf(end: nat, sizes: map<nat, nat>, from: nat, x: nat) returns (p: nat)
    requires Tiled(end, sizes) && from in sizes && from <= x < end
    ensures p in sizes && p <= x < p + sizes[p]
    decreases end - from
  {
    if x < from + sizes[from] {
      p := from;
    } else {
      assert Meets(end, sizes, from);
      p := BlockOf(end, sizes, from + sizes[from], x);
    }
  }

  /** Total size of the listed blocks. */
  function Total(sizes: map<nat, nat>, list: seq<nat>): nat
    requires forall p | p in list :: p in sizes
  {
    if list == [] then 0 else sizes[list[0]] + Total(sizes, list[1..])
  }

  lemma {:induction false} TotalUnchanged(sizes: map<nat, nat>, sizes': map<nat, nat>, list: seq<nat>)
    requires forall p | p in list :: p in sizes && p in sizes' && sizes[p] == sizes'[p]
    ensures Total(sizes, list) == Total(sizes', list)
  {
    if list != [] {
      TotalUnchanged(sizes, sizes', list[1..]);
    }
  }

  /** The total is one listed block plus the rest of the list. */
  lemma {:induction false} TotalAt(sizes: map<nat, nat>, list: seq<nat>, i: nat)
    requires i < |list| && forall p | p in list :: p in sizes
    ensures forall p | p in list[..i] + list[i + 1..] :: p in sizes
    ensures Total(sizes, list) == sizes[list[i]] + Total(sizes, list[..i] + list[i + 1..])
  {
    var rest := list[..i] + list[i + 1..];
    assert forall p | p in rest :: p in list;
    if i == 0 {
      assert rest == list[1..];
    } else {
      TotalAt(sizes, list[1..], i - 1);
      assert rest[1..] == list[1..][..i - 1] + list[1..][i..];
    }
  }

  /** At first every cell but the arena's own is free, in one block. */
  lemma InitialIsFree(cells: nat, p: nat)
    requires 2 <= cells && cells * HEADER < TWO_32
    ensures var a := InitialArena(cells); Sound(a) && !Live(a, p) && Total(a.sizes, a.free) == cells - 1
  {
    InitialSound(cells);
    assert Total(InitialArena(cells).sizes, []) == 0;
  }

  /** A successful malloc takes exactly the rounded size out of the free cells. */
  lemma FreeCellsConserved(a: Arena, i: nat, need: nat)
    requires Sound(a) && i < |a.free| && 0 < need <= a.sizes[a.free[i]]
    requires Sound(Take(a, i, need))
    ensures Total(Take(a, i, need).sizes, Take(a, i, need).free) + need == Total(a.sizes, a.free)
  {
    var p, b := a.free[i], Take(a, i, need);
    var rest := a.free[..i] + a.free[i + 1..];
    TotalAt(a.sizes, a.free, i);
    if need < a.sizes[p] {
      assert b.free[..i] + b.free[i + 1..] == rest;
      TotalAt(b.sizes, b.free, i);
      assert p + need !in a.sizes by { SplitKeepsTiling(a.end, a.sizes, p, need); }
      TotalUnchanged(a.sizes, b.sizes, rest);
    }
  }

  /** The pointer just past a block's header leads back to the block. */
  lemma PointerOf(p: nat)
    ensures var ptr := (p + 1) * HEADER; ptr >= HEADER && ptr % HEADER == 0 && ptr / HEADER - 1 == p
  {
  }

  lemma TakenBalances(a: Arena, i: nat, need: nat, b: Arena)
    requires Sound(a) && i < |a.free| && 0 < need <= a.sizes[a.free[i]] && b == Take(a, i, need)
    ensures Sound(b) && Live(b, a.free[i]) && b.sizes[a.free[i]] == need
    ensures Total(b.sizes, b.free) + need == Total(a.sizes, a.free)
  {
    TakeKeepsSound(a, i, need);
    FreeCellsConserved(a, i, need);
  }

  lemma FreedBalances(b: Arena, p: nat, c: Arena)
    requires Sound(b) && Live(b, p) && c == b.(free := [p] + b.free)
    ensures Sound(c) && Total(c.sizes, c.free) == Total(b.sizes, b.free) + b.sizes[p]
  {
    assert c.free[1..] == b.free;
  }

  /** malloc takes the block's size out of the free cells, and freeing the block gives exactly that back. */
  lemma MallocAndFreeBalance(a: Arena, request: u32)
    requires Sound(a) && Need(request) != 0
    ensures var (b, ptr) := Malloc(a, request);
      Sound(b) && (ptr != 0 ==>
        && LivePointer(b, ptr) && b.sizes[ptr / HEADER - 1] == Need(request)
        && Total(b.sizes, b.free) + Need(request) == Total(a.sizes, a.free)
        && Sound(Free(b, ptr)) && Total(b.sizes, Free(b, ptr).free) == Total(a.sizes, a.free))
  {
    RoundedFitsExactly(request);
    var need := Need(request);
    var i := FirstFit(a.sizes, a.free, need);
    if i < |a.free| {
      var p, b := a.free[i], Take(a, i, need);
      PointerOf(p);
      TakenBalances(a, i, need, b);
      FreedBalances(b, p, Free(b, (p + 1) * HEADER));
    }
  }

  /** Every block live before is still there, unchanged, and apart from block `p`. */
  ghost predicate SparesLive(a: Arena, b: Arena, p: nat)
    requires p in b.sizes
  {
    forall q: nat | Live(a, q) :: Live(b, q) && b.sizes[q] == a.sizes[q] && (q + b.sizes[q] <= p || p + b.sizes[p] <= q)
  }

  lemma TakeSparesLive(a: Arena, i: nat, need: nat)
    requires Sound(a) && i < |a.free| && 0 < need <= a.sizes[a.free[i]]
    ensures a.free[i] in Take(a, i, need).sizes && SparesLive(a, Take(a, i, need), a.free[i])
  {
    var p, b := a.free[i], Take(a, i, need);
    if need < a.sizes[p] {
      SplitKeepsTiling(a.end, a.sizes, p, need);
    }
    assert forall q | q in b.free :: q in a.free || q == p + need;
    assert forall q | q in a.sizes :: Apart(a.sizes, p, q) && Apart(a.sizes, q, p);
  }

  /** What malloc promises: null exactly when every free block is too small; otherwise a block that was free, is live
      now and large enough, lies apart from every block live before, and leaves those as they were. */
  lemma MallocPromise(a: Arena, request: u32)
    requires Sound(a) && request <= TWO_32 - 2 * HEADER
    ensures var (b, ptr) := Malloc(a, request);
      && (ptr == 0 <==> forall p | p in a.free :: a.sizes[p] * HEADER < request + HEADER)
      && (ptr == 0 ==> b == a)
      && (ptr != 0 ==>
            && LivePointer(b, ptr) && ptr / HEADER - 1 in a.free
            && b.sizes[ptr / HEADER - 1] * HEADER >= request + HEADER
            && SparesLive(a, b, ptr / HEADER - 1))
  {
    RoundedFitsExactly(request);
    var need := Need(request);
    var i := FirstFit(a.sizes, a.free, need);
    if i < |a.free| {
      PointerOf(a.free[i]);
      TakenBalances(a, i, need, Take(a, i, need));
      TakeSparesLive(a, i, need);
    }
  }

  /** The block freed last is the first handed out again to a request it can hold. */
  lemma FreedIsReusedFirst(a: Arena, ptr: nat, request: u32)
    requires Sound(a) && LivePointer(a, ptr) && Need(request) <= a.sizes[ptr / HEADER - 1]
    ensures Malloc(Free(a, ptr), request).1 == ptr
  {
  }

  // ----- runs -----

  datatype Call = CallMalloc(request: u32) | CallFree(ptr: nat)

  /** What the callers owe: no request that rounds to nothing, and only live pointers (or null) freed. */
  predicate CallOk(a: Arena, c: Call) {
    match c
    case CallMalloc(request) => Need(request) != 0
    case CallFree(ptr) => ptr == 0 || LivePointer(a, ptr)
  }

  function Do(a: Arena, c: Call): Arena
    requires (forall p | p in a.free :: p in a.sizes) && CallOk(a, c)
  {
    match c
    case CallMalloc(request) => Malloc(a, request).0
    case CallFree(ptr) => Free(a, ptr)
  }

  /** `b` is the arena after a call that may be made in `a`. */
  ghost predicate Follows(a: Arena, c: Call, b: Arena) {
    (forall p | p in a.free :: p in a.sizes) && CallOk(a, c) && b == Do(a, c)
  }

  ghost predicate Leads(states: seq<Arena>, calls: seq<Call>) {
    && |states| == |calls| + 1 && Sound(states[0])
    && forall i {:trigger calls[i]} | 0 <= i < |calls| :: Follows(states[i], calls[i], states[i + 1])
  }

  /** A block of `sizes` contains the `n` cells from `q`. */
  ghost predicate Contained(sizes: map<nat, nat>, q: nat, n: nat) {
    exists p :: p in sizes && p <= q && q + n <= p + sizes[p]
  }

  /** Every cut is for ever: blocks are split but never joined, so every block lies within an earlier one. */
  ghost predicate Finer(a: Arena, b: Arena) {
    && a.end == b.end
    && (forall p | p in a.sizes :: p in b.sizes)
    && forall q | q in b.sizes :: Contained(a.sizes, q, b.sizes[q])
  }

  lemma DoRefines(a: Arena, c: Call)
    requires Sound(a) && CallOk(a, c)
    ensures Sound(Do(a, c)) && Finer(a, Do(a, c))
  {
    match c {
      case CallFree(ptr) => FreeKeepsSound(a, ptr);
      case CallMalloc(request) =>
        RoundedFitsExactly(request);
        MallocKeepsSound(a, request);
    }
  }

  lemma ContainedTrans(a: map<nat, nat>, b: map<nat, nat>, q: nat, n: nat)
    requires Contained(b, q, n) && forall r | r in b :: Contained(a, r, b[r])
    ensures Contained(a, q, n)
  {
    var r :| r in b && r <= q && q + n <= r + b[r];
    var p :| p in a && p <= r && r + b[r] <= p + a[p];
    assert p <= q && q + n <= p + a[p];
  }

  lemma FinerTrans(a: Arena, b: Arena, c: Arena)
    requires Finer(a, b) && Finer(b, c)
    ensures Finer(a, c)
  {
    forall q | q in c.sizes
      ensures Contained(a.sizes, q, c.sizes[q])
    {
      ContainedTrans(a.sizes, b.sizes, q, c.sizes[q]);
    }
  }

  /** The `i`th state is sound and finer than the first. */
  ghost predicate TilesAt(states: seq<Arena>, i: nat) {
    i < |states| && Sound(states[i]) && Finer(states[0], states[i])
  }

  lemma StepKeepsTiling(states: seq<Arena>, calls: seq<Call>, i: nat, next: nat)
    requires Leads(states, calls) && i < |calls| && next == i + 1 && TilesAt(states, i)
    ensures TilesAt(states, next)
  {
    assert Follows(states[i], calls[i], states[next]);
    DoRefines(states[i], calls[i]);
    FinerTrans(states[0], states[i], states[next]);
  }

  lemma StartTiles(states: seq<Arena>, calls: seq<Call>)
    requires Leads(states, calls)
    ensures TilesAt(states, 0)
  {
    var a := states[0];
    forall q | q in a.sizes
      ensures Contained(a.sizes, q, a.sizes[q])
    {
      assert q <= q && q + a.sizes[q] <= q + a.sizes[q];
    }
  }

  lemma {:induction false} RunTiles(states: seq<Arena>, calls: seq<Call>, i: nat)
    requires Leads(states, calls) && i < |states|
    ensures TilesAt(states, i)
  {
    if i == 0 {
      StartTiles(states, calls);
    } else {
      RunTiles(states, calls, i - 1);
      StepKeepsTiling(states, calls, i - 1, i);
    }
  }

  /** In every state of every run the blocks tile the arena, and only get finer. */
  lemma RunKeepsTiling(states: seq<Arena>, calls: seq<Call>, i: nat)
    requires Leads(states, calls) && i < |states|
    ensures Sound(states[i]) && Finer(states[0], states[i])
  {
    RunTiles(states, calls, i);
  }

  /** Fragmentation is permanent: once no block, free or live, can hold a request, it fails in every later state,
      even when everything has been freed. */
  lemma NeverFitsAgain(states: seq<Arena>, calls: seq<Call>, i: nat, request: u32)
    requires Leads(states, calls) && i < |states|
    requires forall p | p in states[0].sizes :: states[0].sizes[p] < Need(request)
    ensures Sound(states[i]) && Malloc(states[i], request) == (states[i], 0)
  {
    RunKeepsTiling(states, calls, i);
    var a := states[i];
    forall q | q in a.free
      ensures a.sizes[q] < Need(request)
    {
      assert Contained(states[0].sizes, q, a.sizes[q]);
    }
  }
}
