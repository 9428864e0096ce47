/** Segment descriptors of the 386, kernel/pagingK.c: packing a readable description into the processor's scattered fields
    and reading it back. */
module Descriptors {
  import opened Words

  const TWO_20: nat := 0x10_0000

  /** The description's type with its part of the union. */
  datatype Kind =
    | Invalid
    | Code(is32Bit: bool, readable: bool, conforming: bool)
    | Data(writable: bool, big: bool, expandsDown: bool)
    | Tss16(busy: bool)
    | Ldt
    | CallGate16
    | TaskGate
    | InterruptGate16
    | TrapGate16
    | Tss32(busy: bool)
    | CallGate32(selector: u16, paramCount: nat)
    | InterruptGate32
    | TrapGate32

  datatype Sane = Sane(base: u32, size: u32, inPages: bool, accessed: bool, availableForOS: bool, present: bool,
                       privilege: nat, kind: Kind)

  /** The processor's fields; those one bit wide are 0 or 1. */
  datatype Descriptor = Descriptor(lowLimit: nat, lowBase: nat, kind: nat, system: nat, privilege: nat, present: nat,
                                   highLimit: nat, availableForOS: nat, zero: nat, is32Bit: nat, limitsArePages: nat,
                                   highBase: nat)

  function Bit(b: bool): nat {
    if b then 1 else 0
  }

  /** Bit `n` of a small field. */
  predicate Has(x: nat, n: nat)
    requires n > 0
  {
    x / n % 2 == 1
  }

  predicate IsSystem(k: Kind) {
    !k.Code? && !k.Data?
  }

  /** The four type bits. */
  function TypeBits(k: Kind, accessed: bool): nat {
    match k
    case Invalid => 0
    case Code(_, readable, conforming) => 8 + 4 * Bit(conforming) + 2 * Bit(readable) + Bit(accessed)
    case Data(writable, _, expandsDown) => 4 * Bit(expandsDown) + 2 * Bit(writable) + Bit(accessed)
    case Tss16(busy) => if busy then 3 else 1
    case Ldt => 2
    case CallGate16 => 4
    case TaskGate => 5
    case InterruptGate16 => 6
    case TrapGate16 => 7
    case Tss32(busy) => if busy then 11 else 9
    case CallGate32(_, _) => 12
    case InterruptGate32 => 14
    case TrapGate32 => 15
  }

  /** Packos386BuildSegmentDescriptor; what it does not write keeps the value it had in `was`. For a data segment it takes
      the width from the code part of the union, which is the byte that says whether the segment is writable. */
  function Build(s: Sane, was: Descriptor): Descriptor {
    match s.kind
    case Invalid => Descriptor(0, 0, 0, 0, 0, 0, 0, 0, 0, 0, 0, 0)
    case CallGate32(selector, paramCount) =>
      Descriptor(s.base % TWO_16, selector + paramCount * TWO_16, 12, 0, s.privilege, Bit(s.present), s.base / TWO_16 % 0x10,
                 s.base / TWO_20 % 2, s.base / 0x20_0000 % 2, s.base / 0x40_0000 % 2, s.base / 0x80_0000 % 2,
                 s.base / TWO_24)
    case _ =>
      var width := match s.kind
        case Code(is32Bit, _, _) => Bit(is32Bit)
        case Data(writable, _, _) => Bit(writable)
        case Ldt => 0
        case _ => was.is32Bit;
      Descriptor(s.size % TWO_16, s.base % TWO_24, TypeBits(s.kind, s.accessed), Bit(!IsSystem(s.kind)), s.privilege,
                 Bit(s.present), s.size / TWO_16 % 0x10, Bit(s.availableForOS), 0, width, Bit(s.inPages), s.base / TWO_24)
  }

  /** The type of a system descriptor; `base` is its low base field. */
  function SystemKind(bits: nat, base: nat): Kind {
    if bits == 1 || bits == 3 then Tss16(Has(bits, 2))
    else if bits == 2 then Ldt
    else if bits == 4 then CallGate16
    else if bits == 5 then TaskGate
    else if bits == 6 then InterruptGate16
    else if bits == 7 then TrapGate16
    else if bits == 9 || bits == 11 then Tss32(Has(bits, 2))
    else if bits == 12 then CallGate32(base % TWO_16, base / TWO_16 % 0x20)
    else if bits == 14 then InterruptGate32
    else if bits == 15 then TrapGate32
    else Invalid
  }

  /** The union's two bytes that hold the stack flags of a data segment. */
  datatype Stack = Stack(big: bool, expandsDown: bool)

  /** What those bytes hold in a description of this type: a code segment keeps two of its own flags there, other types leave
      there what was before, `left`. */
  function StackBytes(k: Kind, left: Stack): Stack {
    match k
    case Data(_, big, expandsDown) => Stack(big, expandsDown)
    case Code(_, readable, conforming) => Stack(readable, conforming)
    case _ => left
  }

  /** The type of a descriptor. The stack flags are read for a writable data segment only; of another they stay what the
      union held, `stack`. */
  function KindOf(d: Descriptor, stack: Stack): Kind {
    if d.system == 1 then
      if d.kind / 8 == 1 then Code(d.is32Bit == 1, Has(d.kind, 2), Has(d.kind, 4))
      else if Has(d.kind, 2) then Data(true, d.is32Bit == 1, Has(d.kind, 4))
      else Data(false, stack.big, stack.expandsDown)
    else SystemKind(d.kind, d.lowBase)
  }

  /** Where a 32-bit call gate leads, from the seven fields that hold it. */
  function GateOffset(d: Descriptor): int {
    d.lowLimit + d.highLimit * TWO_16 + d.availableForOS * TWO_20 + d.zero * 0x20_0000 + d.is32Bit * 0x40_0000
    + d.limitsArePages * 0x80_0000 + d.highBase * TWO_24
  }

  /** The fields as the C compiler keeps them. */
  predicate InWidth(d: Descriptor) {
    && d.lowLimit < TWO_16 && d.lowBase < TWO_24 && d.kind < 0x10 && d.system < 2 && d.privilege < 4 && d.present < 2
    && d.highLimit < 0x10 && d.availableForOS < 2 && d.zero < 2
    && d.is32Bit < 2 && d.limitsArePages < 2 && d.highBase < 0x100
  }

  /** Packos386InterpretSegmentDescriptor; what it does not write keeps the value it had in `was`, whose union held `left`
      where its own type has no flags. */
  function Interpret(d: Descriptor, was: Sane, left: Stack): Sane
    requires InWidth(d)
  {
    var k := KindOf(d, StackBytes(was.kind, left));
    if k.CallGate32? then
      Sane(GateOffset(d), 0, true, false, d.availableForOS == 1, d.present == 1, d.privilege, k)
    else
      Sane(d.lowBase + d.highBase * TWO_24, d.lowLimit + d.highLimit * TWO_16, d.limitsArePages == 1,
           if d.system == 1 then Has(d.kind, 1) else was.accessed, d.availableForOS == 1, d.present == 1, d.privilege, k)
  }

  predicate IsSane(s: Sane) {
    s.privilege < 4 && (s.kind.CallGate32? ==> s.kind.paramCount < 0x20)
  }

  lemma BuiltInWidth(s: Sane, was: Descriptor)
    requires IsSane(s) && InWidth(was)
    ensures InWidth(Build(s, was))
  {
  }

  lemma TypeBitsBack(a: bool, b: bool, c: bool)
    ensures var x := 4 * Bit(a) + 2 * Bit(b) + Bit(c);
      && x / 8 == 0 && Has(x, 4) == a && Has(x, 2) == b && Has(x, 1) == c
      && (8 + x) / 8 == 1 && Has(8 + x, 4) == a && Has(8 + x, 2) == b && Has(8 + x, 1) == c
  {
  }

  lemma CodeBack(d: Descriptor, out: Stack, is32Bit: bool, readable: bool, conforming: bool, accessed: bool)
    requires d.system == 1 && d.is32Bit == Bit(is32Bit)
    requires d.kind == TypeBits(Code(is32Bit, readable, conforming), accessed)
    ensures KindOf(d, out) == Code(is32Bit, readable, conforming) && Has(d.kind, 1) == accessed
  {
    TypeBitsBack(conforming, readable, accessed);
  }

  /** A data segment comes back exactly if: writable, it is big, because the width is built from the writable flag; not
      writable, its stack flags happen to be those the union held. */
  predicate DataComesBack(k: Kind, out: Stack)
    requires k.Data?
  {
    if k.writable then k.big else out == Stack(k.big, k.expandsDown)
  }

  lemma DataBack(d: Descriptor, out: Stack, writable: bool, big: bool, expandsDown: bool, accessed: bool)
    requires d.system == 1 && d.is32Bit == Bit(writable)
    requires d.kind == TypeBits(Data(writable, big, expandsDown), accessed)
    ensures KindOf(d, out) == Data(writable, big, expandsDown) <==> DataComesBack(Data(writable, big, expandsDown), out)
    ensures Has(d.kind, 1) == accessed && Has(d.kind, 4) == expandsDown
  {
    TypeBitsBack(expandsDown, writable, accessed);
  }

  lemma SegmentBack(s: Sane, was: Descriptor, out: Stack)
    requires IsSane(s) && !IsSystem(s.kind)
    ensures var d := Build(s, was);
      && (KindOf(d, out) == s.kind <==> (s.kind.Data? ==> DataComesBack(s.kind, out)))
      && Has(d.kind, 1) == s.accessed
  {
    match s.kind
    case Code(is32Bit, readable, conforming) => CodeBack(Build(s, was), out, is32Bit, readable, conforming, s.accessed);
    case Data(writable, big, expandsDown) => DataBack(Build(s, was), out, writable, big, expandsDown, s.accessed);
  }

  // ----- the processor's format -----

  /** The four type bits of a built code or data segment. */
  lemma BuiltBits(s: Sane, was: Descriptor)
    requires s.kind.Code? || s.kind.Data?
    ensures var k := Build(s, was).kind;
      && (k >= 8 <==> s.kind.Code?) && k < 16 && (k % 2 == 1 <==> s.accessed)
      && (k / 2 % 2 == 1 <==> if s.kind.Code? then s.kind.readable else s.kind.writable)
      && (k / 4 % 2 == 1 <==> if s.kind.Code? then s.kind.conforming else s.kind.expandsDown)
  {
    match s.kind
    case Code(_, readable, conforming) => TypeBitsBack(conforming, readable, s.accessed);
    case Data(writable, _, expandsDown) => TypeBitsBack(expandsDown, writable, s.accessed);
  }

  /** The number of a built system type. */
  lemma BuiltNumber(s: Sane, was: Descriptor)
    requires IsSystem(s.kind) && !s.kind.Invalid?
    ensures Build(s, was).kind ==
      match s.kind
      case Tss16(busy) => if busy then 3 else 1
      case Ldt => 2
      case CallGate16 => 4
      case TaskGate => 5
      case InterruptGate16 => 6
      case TrapGate16 => 7
      case Tss32(busy) => if busy then 11 else 9
      case CallGate32(_, _) => 12
      case InterruptGate32 => 14
      case _ => 15
  {
  }

  /** The scattered base and limit, and the flags. */
  lemma BuiltFields(s: Sane, was: Descriptor)
    requires IsSane(s) && !s.kind.Invalid? && !s.kind.CallGate32?
    ensures var d := Build(s, was);
      && d.lowBase + d.highBase * 0x100_0000 == s.base && d.lowBase < 0x100_0000
      && d.lowLimit + d.highLimit * 0x1_0000 == s.size % 0x10_0000 && d.lowLimit < 0x1_0000
      && (d.system == 1 <==> s.kind.Code? || s.kind.Data?) && d.system < 2 && d.zero == 0
      && d.privilege == s.privilege && d.present == (if s.present then 1 else 0)
      && d.limitsArePages == (if s.inPages then 1 else 0) && d.availableForOS == (if s.availableForOS then 1 else 0)
      && (s.kind.Code? ==> d.is32Bit == if s.kind.is32Bit then 1 else 0)
      && (s.kind.Data? ==> d.is32Bit == if s.kind.writable then 1 else 0)
  {
    var h := s.size / TWO_16;
    assert s.size == h * TWO_16 + s.size % TWO_16 && h == h / 0x10 * 0x10 + h % 0x10;
  }

  /** A call gate keeps its offset in three pieces, the middle one bit by bit in the fields of the flags. */
  lemma BuiltGate(s: Sane, was: Descriptor)
    requires IsSane(s) && s.kind.CallGate32?
    ensures var d := Build(s, was);
      && d.system == 0 && d.privilege == s.privilege && d.present == (if s.present then 1 else 0)
      && d.lowLimit + 0x1_0000 * Middle(d) + 0x100_0000 * d.highBase == s.base && d.lowLimit < 0x1_0000 && Middle(d) < 0x100
      && d.lowBase == s.kind.selector + 0x1_0000 * s.kind.paramCount
  {
    OffsetBits(s.base);
  }

  function Middle(d: Descriptor): nat {
    d.highLimit + 0x10 * d.availableForOS + 0x20 * d.zero + 0x40 * d.is32Bit + 0x80 * d.limitsArePages
  }

  lemma BuiltInvalid(s: Sane, was: Descriptor)
    requires s.kind.Invalid?
    ensures Build(s, was) == Descriptor(0, 0, 0, 0, 0, 0, 0, 0, 0, 0, 0, 0)
  {
  }

  /** What any descriptor reads as, but for its type. */
  lemma ReadFields(d: Descriptor, was: Sane, left: Stack)
    requires InWidth(d)
    ensures var r := Interpret(d, was, left);
      && r.privilege == d.privilege && (r.present <==> d.present == 1) && (r.availableForOS <==> d.availableForOS == 1)
      && if d.system == 0 && d.kind == 12 then
           r.base == d.lowLimit + 0x1_0000 * Middle(d) + 0x100_0000 * d.highBase && r.size == 0 && r.inPages && !r.accessed
         else
           && r.base == d.lowBase + 0x100_0000 * d.highBase && r.size == d.lowLimit + 0x1_0000 * d.highLimit
           && (r.inPages <==> d.limitsArePages == 1) && (r.accessed <==> if d.system == 1 then d.kind % 2 == 1 else was.accessed)
  {
  }

  /** What any descriptor reads as: the number of its type, if it is a system one, and for code and data the bits. */
  lemma ReadType(d: Descriptor, stack: Stack)
    requires InWidth(d)
    ensures var r := KindOf(d, stack);
      if d.system == 1 then
        if d.kind >= 8 then r == Code(d.is32Bit == 1, d.kind / 2 % 2 == 1, d.kind / 4 % 2 == 1)
        else if d.kind / 2 % 2 == 1 then r == Data(true, d.is32Bit == 1, d.kind / 4 % 2 == 1)
        else r == Data(false, stack.big, stack.expandsDown)
      else if d.kind == 12 then r == CallGate32(d.lowBase % 0x1_0000, d.lowBase / 0x1_0000 % 0x20)
      else if d.kind in {0, 8, 10, 13} then r == Invalid
      else (d.kind, r) in {(1, Tss16(false)), (3, Tss16(true)), (2, Ldt), (4, CallGate16), (5, TaskGate), (6, InterruptGate16),
                           (7, TrapGate16), (9, Tss32(false)), (11, Tss32(true)), (14, InterruptGate32), (15, TrapGate32)}
  {
  }

  function Segment(k: Kind): Sane {
    Sane(0, 0, false, false, false, true, 0, k)
  }

  /** A small writable data segment comes back as a big one. */
  lemma SmallWritableComesBackBig(was: Descriptor, out: Stack)
    ensures KindOf(Build(Segment(Data(true, false, false)), was), out) == Data(true, true, false)
  {
    TypeBitsBack(false, true, false);
  }

  /** A read-only data segment that expands down is built with the bit that says so, and comes back without the flag if
      the description read into did not expand down. */
  lemma ReadOnlyLosesExpandsDown(was: Descriptor, out: Stack)
    requires !out.expandsDown
    ensures var d := Build(Segment(Data(false, false, true)), was);
      Has(d.kind, 4) && KindOf(d, out) == Data(false, out.big, false)
  {
    TypeBitsBack(true, false, false);
  }

  lemma SystemBitsBack(k: Kind, base: nat)
    requires IsSystem(k) && !k.CallGate32?
    ensures SystemKind(TypeBits(k, false), base) == k
  {
  }

  lemma SystemBack(s: Sane, was: Descriptor, out: Stack)
    requires IsSane(s) && IsSystem(s.kind) && !s.kind.CallGate32?
    ensures KindOf(Build(s, was), out) == s.kind
  {
    var d := Build(s, was);
    SystemBitsBack(s.kind, d.lowBase);
    assert d.kind == TypeBits(s.kind, false) && d.system == 0;
  }

  /** Reading back what was built, for every type but the 32-bit call gate. The limit has twenty bits; a data segment's
      type comes back under the condition above, every other type always; the accessed bit exists for code and data only. */
  lemma RecoversExactly(s: Sane, was: Descriptor, out: Sane, left: Stack)
    requires IsSane(s) && InWidth(was) && !s.kind.CallGate32? && !s.kind.Invalid?
    ensures InWidth(Build(s, was))
    ensures var r := Interpret(Build(s, was), out, left);
      && r.base == s.base && (r.size == s.size <==> s.size < TWO_20)
      && r.inPages == s.inPages && r.availableForOS == s.availableForOS
      && r.present == s.present && r.privilege == s.privilege
      && (r.kind == s.kind <==> (s.kind.Data? ==> DataComesBack(s.kind, StackBytes(out.kind, left))))
      && r.accessed == (if IsSystem(s.kind) then out.accessed else s.accessed)
  {
    BuiltInWidth(s, was);
    if IsSystem(s.kind) {
      SystemBack(s, was, StackBytes(out.kind, left));
    } else {
      SegmentBack(s, was, StackBytes(out.kind, left));
    }
    assert s.base == s.base % TWO_24 + s.base / TWO_24 * TWO_24;
    assert s.size == s.size % TWO_16 + s.size / TWO_16 * TWO_16;
  }

  lemma OffsetBits(b: u32)
    ensures b == b % TWO_16 + b / TWO_16 % 0x10 * TWO_16 + b / TWO_20 % 2 * TWO_20 + b / 0x20_0000 % 2 * 0x20_0000
               + b / 0x40_0000 % 2 * 0x40_0000 + b / 0x80_0000 % 2 * 0x80_0000 + b / TWO_24 * TWO_24
  {
    var h := b / TWO_16;
    assert b / TWO_20 == h / 0x10;
    assert h == h % 0x10 + h / 0x10 * 0x10;
    var i := h / 0x10;
    assert b / 0x20_0000 == i / 2 && b / 0x40_0000 == i / 2 / 2;
    assert b / 0x80_0000 == i / 2 / 2 / 2 && b / TWO_24 == i / 2 / 2 / 2 / 2;
  }

  /** A 32-bit call gate comes back whole, offset, selector and parameter count, except for the flag whose bit the offset
      takes. */
  lemma CallGateRecovers(s: Sane, was: Descriptor, out: Sane, left: Stack)
    requires IsSane(s) && InWidth(was) && s.kind.CallGate32?
    ensures InWidth(Build(s, was))
    ensures var r := Interpret(Build(s, was), out, left);
      && r.base == s.base && r.kind == s.kind && r.present == s.present && r.privilege == s.privilege
      && (r.availableForOS == s.availableForOS <==> Has(s.base, TWO_20) == s.availableForOS)
  {
    BuiltInWidth(s, was);
    OffsetBits(s.base);
    var k := s.kind;
    var low := k.selector + k.paramCount * TWO_16;
    assert low / TWO_16 == k.paramCount && low % TWO_16 == k.selector;
  }
}
