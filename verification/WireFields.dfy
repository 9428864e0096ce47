/** What the other end reads: every field of every header, in network order, is the number the machine has there. */
module WireFields {
  import opened Words
  import opened Wire

  /** A 32-bit field as the network reads it. */
  function Net32(s: seq<byte>, at: nat): u32
    requires at + 4 <= |s|
  {
    0x100_0000 * s[at] as int + 0x1_0000 * s[at + 1] as int + 0x100 * s[at + 2] as int + s[at + 3] as int
  }

  /** The fields of more than a byte, by place and width: ports, numbers, offset with flags, window, checksum and urgent
      pointer; the four of UDP; offset and identification of a fragment; checksum and words of an ICMP message. */
  function Fields(t: seq<byte>, kind: byte): seq<(nat, nat)>
    requires kind == ICMP ==> t != []
  {
    if kind == TCP then [(0, 2), (2, 2), (4, 4), (8, 4), (12, 2), (14, 2), (16, 2), (18, 2)]
    else if kind == UDP then [(0, 2), (2, 2), (4, 2), (6, 2)]
    else if kind == FRAGMENT then [(2, 2), (4, 4)]
    else if kind == ICMP then
      if t[0] == TOO_BIG || t[0] == PARAMETER_PROBLEM then [(2, 2), (4, 4)]
      else if t[0] == ECHO_REQUEST || t[0] == ECHO_REPLY then [(2, 2), (4, 2), (6, 2)]
      else [(2, 2)]
    else []
  }

  /** Two ICMP messages have a word that is not used, and that is cleared. */
  predicate Clears(t: seq<byte>, kind: byte, i: int)
    requires kind == ICMP ==> t != []
  {
    kind == ICMP && (t[0] == UNREACHABLE || t[0] == TIME_EXCEEDED) && 4 <= i < 8
  }

  predicate InField(t: seq<byte>, kind: byte, i: int)
    requires kind == ICMP ==> t != []
  {
    exists f :: f in Fields(t, kind) && f.0 <= i < f.0 + f.1
  }

  /** The network reads in `r` what the machine reads in `s`. */
  predicate SameNumber(s: seq<byte>, r: seq<byte>, at: nat, f: (nat, nat)) {
    && at + f.0 + f.1 <= |s| == |r|
    && (f.1 == 2 ==> Net16(r, at + f.0) == Host16(s, at + f.0))
    && (f.1 == 4 ==> Net32(r, at + f.0) == Host32(s, at + f.0))
  }

  // ----- one header -----

  /** `h` is a header of this kind that starts `t`, converted. */
  ghost predicate Converts(t: seq<byte>, kind: byte, h: seq<byte>) {
    Known(kind) && HeaderFits(t, kind) && h == ConvertHeader(t, kind)
  }

  lemma TcpFields(t: seq<byte>, h: seq<byte>, f: (nat, nat))
    requires Converts(t, TCP, h) && f in Fields(t, TCP)
    ensures f.1 in {2, 4} && SameNumber(t[..20], h, 0, f)
  {
  }

  lemma IcmpFields(t: seq<byte>, h: seq<byte>, f: (nat, nat))
    requires Converts(t, ICMP, h) && f in Fields(t, ICMP)
    ensures f.1 in {2, 4} && SameNumber(t[..8], h, 0, f)
  {
  }

  lemma HeaderFields(t: seq<byte>, kind: byte, h: seq<byte>, f: (nat, nat))
    requires Converts(t, kind, h) && f in Fields(t, kind)
    ensures f.1 in {2, 4} && SameNumber(t[..Size(t, kind)], h, 0, f)
  {
    if kind == TCP {
      TcpFields(t, h, f);
    } else if kind == ICMP {
      IcmpFields(t, h, f);
    }
  }

  /** Where there is no field. */
  lemma FieldsCover(t: seq<byte>, kind: byte, i: nat)
    requires Known(kind) && HeaderFits(t, kind) && i < Size(t, kind)
    ensures InField(t, kind, i) || Clears(t, kind, i) || Extension(kind)
         || (i < 2 && (kind == FRAGMENT || kind == ICMP)) || (kind == ICMP && 4 <= i && !IcmpHandled(t[0]))
  {
    var short, long := (i / 2 * 2, 2), (i / 4 * 4, 4);
    assert kind == UDP || (kind == TCP && (i < 4 || i >= 12)) ==> short in Fields(t, kind);
    assert (kind == TCP && 4 <= i < 12) || (kind == FRAGMENT && 4 <= i) ==> long in Fields(t, kind);
    assert kind in {FRAGMENT, ICMP} && 2 <= i < 4 ==> short in Fields(t, kind);
    assert kind == ICMP && 4 <= i && t[0] in {TOO_BIG, PARAMETER_PROBLEM} ==> long in Fields(t, kind);
    assert kind == ICMP && 4 <= i && t[0] in {ECHO_REQUEST, ECHO_REPLY} ==> short in Fields(t, kind);
  }

  lemma HeaderRest(t: seq<byte>, kind: byte, h: seq<byte>, i: nat)
    requires Converts(t, kind, h) && i < |h| && !InField(t, kind, i)
    ensures h[i] == if Clears(t, kind, i) then 0 else t[i]
  {
    FieldsCover(t, kind, i);
  }

  // ----- the chain -----

  /** A header has a field at `i`, or clears what is there. */
  predicate Marks(u: seq<byte>, kind: byte, i: int)
    requires kind == ICMP ==> u != []
  {
    InField(u, kind, i) || Clears(u, kind, i)
  }

  /** From `at` on, where a header of kind `kind` follows, `r` is the packet `p` converted. */
  ghost predicate ConvertedFrom(p: seq<byte>, r: seq<byte>, at: nat, kind: byte) {
    at <= |p| == |r| && ChainFits(p[at..], kind) && r[at..] == ConvertChain(p[at..], kind)
  }

  lemma DropTwice(s: seq<byte>, m: nat, n: nat)
    requires m + n <= |s|
    ensures s[m..][n..] == s[m + n..]
  {
  }

  lemma WalkOn(p: seq<byte>, r: seq<byte>, at: nat, kind: byte, n: nat, next: byte)
    requires ConvertedFrom(p, r, at, kind) && Known(kind) && n == Size(p[at..], kind) && next == NextKind(p[at..], kind)
    ensures at < at + n <= |p| && ConvertedFrom(p, r, at + n, next)
    ensures Headers(p[at..], kind, at) == [(kind, at)] + Headers(p[at + n..], next, at + n)
    ensures r[at..][..n] == ConvertHeader(p[at..], kind)
  {
    var t := p[at..];
    ChainStep(t, kind);
    HeadersStep(t, kind, at, n, next);
    DropTwice(p, at, n);
    DropTwice(r, at, n);
  }

  /** The bytes of one header that change are marked. */
  lemma HeadMarked(p: seq<byte>, r: seq<byte>, at: nat, kind: byte, i: nat)
    requires ConvertedFrom(p, r, at, kind) && Known(kind) && at <= i < at + Size(p[at..], kind) && r[i] != p[i]
    ensures MarkedBy(p, (kind, at), i)
  {
    if !Marks(p[at..], kind, i - at) {
      HeadKept(p, r, at, kind, i - at);
    }
  }

  /** One header is done and the walk goes on, behind it at `to`. */
  lemma Past(p: seq<byte>, r: seq<byte>, at: nat, kind: byte) returns (to: nat, next: byte)
    requires ConvertedFrom(p, r, at, kind) && Known(kind)
    ensures at < to <= |p| && to == at + Size(p[at..], kind) && next == NextKind(p[at..], kind) && ConvertedFrom(p, r, to, next)
    ensures forall h :: h in Headers(p[at..], kind, at) <==> h == (kind, at) || h in Headers(p[to..], next, to)
  {
    to, next := at + Size(p[at..], kind), NextKind(p[at..], kind);
    WalkOn(p, r, at, kind, Size(p[at..], kind), next);
  }

  lemma {:induction false} ListedConverted(p: seq<byte>, r: seq<byte>, at: nat, kind: byte, h: (byte, nat))
    requires ConvertedFrom(p, r, at, kind) && h in Headers(p[at..], kind, at)
    ensures ConvertedFrom(p, r, h.1, h.0) && Known(h.0) && at <= h.1
    decreases |p| - at
  {
    if h != (kind, at) {
      var to, next := Past(p, r, at, kind);
      ListedConverted(p, r, to, next, h);
    }
  }

  /** The header `h` of the packet has a field at `i`, or clears what is there. */
  predicate MarkedBy(p: seq<byte>, h: (byte, nat), i: nat) {
    h.1 < |p| && Marks(p[h.1..], h.0, i - h.1)
  }

  lemma HeadKept(p: seq<byte>, r: seq<byte>, at: nat, kind: byte, i: nat)
    requires ConvertedFrom(p, r, at, kind) && Known(kind) && i < Size(p[at..], kind) && !Marks(p[at..], kind, i)
    ensures r[at + i] == p[at + i]
  {
    var n := Size(p[at..], kind);
    WalkOn(p, r, at, kind, n, NextKind(p[at..], kind));
    HeaderRest(p[at..], kind, r[at..][..n], i);
    assert r[at..][..n][i] == r[at + i];
  }

  /** A byte that changes is one some header marks. */
  lemma {:induction false} ChangedIsMarked(p: seq<byte>, r: seq<byte>, at: nat, kind: byte, i: nat) returns (h: (byte, nat))
    requires ConvertedFrom(p, r, at, kind) && at <= i < |p| && r[i] != p[i]
    ensures h in Headers(p[at..], kind, at) && MarkedBy(p, h, i)
    decreases |p| - at
  {
    h := (kind, at);
    if Known(kind) {
      var to, next := Past(p, r, at, kind);
      if i >= to {
        h := ChangedIsMarked(p, r, to, next, i);
      } else {
        HeadMarked(p, r, at, kind, i);
      }
    } else {
      UnknownKept(p, r, at, kind, i);
    }
  }

  lemma UnknownKept(p: seq<byte>, r: seq<byte>, at: nat, kind: byte, i: nat)
    requires ConvertedFrom(p, r, at, kind) && !Known(kind) && at <= i < |p|
    ensures r[i] == p[i]
  {
    assert r[at..][i - at] == r[i] && p[at..][i - at] == p[i];
  }

  /** The ICMP messages that are handled: unreachable, too big, time exceeded, parameter problem, and the two of an echo. */
  predicate Accepted(p: seq<byte>, h: (byte, nat)) {
    h.0 == 58 ==> h.1 < |p| && p[h.1] in {1, 2, 3, 4, 128, 129}
  }

  lemma HandledPast(p: seq<byte>, r: seq<byte>, at: nat, kind: byte, to: nat, next: byte)
    requires ConvertedFrom(p, r, at, kind) && Known(kind) && ConvertedFrom(p, r, to, next)
    requires to == at + Size(p[at..], kind) && next == NextKind(p[at..], kind)
    ensures ChainHandled(p[at..], kind) <==> Accepted(p, (kind, at)) && ChainHandled(p[to..], next)
  {
    DropTwice(p, at, Size(p[at..], kind));
    assert p[at..][0] == p[at];
  }

  lemma {:induction false} HandledFrom(p: seq<byte>, r: seq<byte>, at: nat, kind: byte)
    requires ConvertedFrom(p, r, at, kind)
    ensures ChainHandled(p[at..], kind) <==> forall h | h in Headers(p[at..], kind, at) :: Accepted(p, h)
    decreases |p| - at
  {
    if Known(kind) {
      var to, next := Past(p, r, at, kind);
      HandledPast(p, r, at, kind, to, next);
      HandledFrom(p, r, to, next);
    }
  }

  // ----- the packet -----

  /** `h` is one of the headers of the packet. */
  ghost predicate Listed(p: seq<byte>, h: (byte, nat)) {
    PacketFits(p) && h in Headers(p[IP_HEADER..], p[6], IP_HEADER)
  }

  lemma HeaderOnTheWire(p: seq<byte>, h: (byte, nat))
    requires Listed(p, h)
    ensures h.1 <= |p| && Known(h.0) && HeaderFits(p[h.1..], h.0)
    ensures Converts(p[h.1..], h.0, Convert(p)[h.1..][..Size(p[h.1..], h.0)])
  {
    ConvertParts(p);
    ListedConverted(p, Convert(p), IP_HEADER, p[6], h);
    WalkOn(p, Convert(p), h.1, h.0, Size(p[h.1..], h.0), NextKind(p[h.1..], h.0));
  }

  lemma SameNumberThere(s: seq<byte>, r: seq<byte>, at: nat, n: nat, u: seq<byte>, h: seq<byte>, f: (nat, nat))
    requires at + n <= |s| == |r| && u == s[at..][..n] && h == r[at..][..n] && SameNumber(u, h, 0, f)
    ensures SameNumber(s, r, at, f)
  {
    assert forall i | 0 <= i < n :: u[i] == s[at + i] && h[i] == r[at + i];
  }

  /** On the wire each field of each header reads as in memory. */
  lemma FieldsOnTheWire(p: seq<byte>, h: (byte, nat), f: (nat, nat))
    requires Listed(p, h) && h.1 < |p| && f in Fields(p[h.1..], h.0)
    ensures f.1 in {2, 4} && SameNumber(p, Convert(p), h.1, f)
  {
    HeaderOnTheWire(p, h);
    var u, r := p[h.1..], Convert(p);
    var n := Size(u, h.0);
    HeaderFields(u, h.0, r[h.1..][..n], f);
    SameNumberThere(p, r, h.1, n, u[..n], r[h.1..][..n], f);
  }

  /** So do the first word and the payload length of the packet. */
  lemma FixedOnTheWire(p: seq<byte>)
    requires PacketFits(p)
    ensures SameNumber(p, Convert(p), 0, (0, 4)) && SameNumber(p, Convert(p), 0, (4, 2))
  {
  }

  /** All other bytes are kept. */
  lemma OtherBytesKept(p: seq<byte>, i: nat)
    requires PacketFits(p) && 6 <= i < |p| && forall h | Listed(p, h) :: !MarkedBy(p, h, i)
    ensures Convert(p)[i] == p[i]
  {
    ConvertParts(p);
    var r := Convert(p);
    if i < IP_HEADER {
      assert r[6..IP_HEADER][i - 6] == r[i] && p[6..IP_HEADER][i - 6] == p[i];
    } else if r[i] != p[i] {
      var h := ChangedIsMarked(p, r, IP_HEADER, p[6], i);
      assert Listed(p, h) && MarkedBy(p, h, i);
    }
  }

  /** Words that are not used are cleared. */
  lemma UnusedCleared(p: seq<byte>, h: (byte, nat), i: nat)
    requires Listed(p, h) && h.1 < |p| && i < |p| && Clears(p[h.1..], h.0, i - h.1)
    ensures Convert(p)[i] == 0
  {
    HeaderOnTheWire(p, h);
    var n, r := Size(p[h.1..], h.0), Convert(p);
    assert r[i] == r[h.1..][..n][i - h.1];
  }

  /** A packet is refused exactly for an ICMP message of another type. */
  lemma HandledExactly(p: seq<byte>)
    requires PacketFits(p)
    ensures PacketHandled(p) <==> forall h | Listed(p, h) :: Accepted(p, h)
  {
    ConvertParts(p);
    HandledFrom(p, Convert(p), IP_HEADER, p[6]);
  }
}
