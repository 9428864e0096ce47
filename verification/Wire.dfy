/** Byte order of IPv6 packets, libs/ip/ip.c: which bytes IpPacketToNetworkOrder and
    IpPacketFromNetworkOrder exchange as they walk the header chain. The machine is little-endian, so both
    reverse the bytes of the same fields. A packet is its bytes from the IPv6 header on. */
module Wire {
  import opened Words

  const IP_HEADER: nat := 40

  const HOP_BY_HOP: byte := 0
  const TCP: byte := 6
  const UDP: byte := 17
  const ROUTING: byte := 43
  const FRAGMENT: byte := 44
  const ICMP: byte := 58
  const NONE: byte := 59
  const DESTINATION: byte := 60

  const UNREACHABLE: byte := 1
  const TOO_BIG: byte := 2
  const TIME_EXCEEDED: byte := 3
  const PARAMETER_PROBLEM: byte := 4
  const ECHO_REQUEST: byte := 128
  const ECHO_REPLY: byte := 129

  // ----- numbers in memory -----

  /** A 16-bit field as the machine reads it. */
  function Host16(s: seq<byte>, at: nat): u16
    requires at + 2 <= |s|
  {
    s[at] as int + 0x100 * s[at + 1] as int
  }

  /** A 16-bit field as the network reads it. */
  function Net16(s: seq<byte>, at: nat): u16
    requires at + 2 <= |s|
  {
    0x100 * s[at] as int + s[at + 1] as int
  }

  function Swab16(i: u16): u16 {
    i / 0x100 + i % 0x100 * 0x100
  }

  function Swab32(i: u32): u32 {
    i / 0x100_0000 + i / 0x1_0000 % 0x100 * 0x100 + i / 0x100 % 0x100 * 0x1_0000 + i % 0x100 * 0x100_0000
  }

  function Host32(s: seq<byte>, at: nat): u32
    requires at + 4 <= |s|
  {
    s[at] as int + 0x100 * s[at + 1] as int + 0x1_0000 * s[at + 2] as int + 0x100_0000 * s[at + 3] as int
  }

  function Rev2(s: seq<byte>, at: nat): (r: seq<byte>)
    requires at + 2 <= |s|
    ensures |r| == 2
  {
    [s[at + 1], s[at]]
  }

  function Rev4(s: seq<byte>, at: nat): (r: seq<byte>)
    requires at + 4 <= |s|
    ensures |r| == 4
  {
    [s[at + 3], s[at + 2], s[at + 1], s[at]]
  }

  lemma PairOf(a: int, b: int)
    requires 0 <= a < 0x100 && 0 <= b < 0x100
    ensures var x := a + 0x100 * b; 0 <= x < TWO_16 && x / 0x100 == b && x % 0x100 == a
  {
  }

  /** Storing a swapped field is reversing its bytes, and reading it again gives what the network reads. */
  lemma SwabReverses(s: seq<byte>, at: nat)
    requires at + 2 <= |s|
    ensures Host16(Rev2(s, at), 0) == Swab16(Host16(s, at)) == Net16(s, at)
    ensures Swab16(Swab16(Host16(s, at))) == Host16(s, at)
  {
    PairOf(s[at], s[at + 1]);
    PairOf(s[at + 1], s[at]);
  }

  lemma LowDigit(a: int, rest: int)
    requires 0 <= a < 0x100 && 0 <= rest
    ensures (a + 0x100 * rest) / 0x100 == rest && (a + 0x100 * rest) % 0x100 == a
  {
  }

  lemma DigitsOf(a: int, b: int, c: int, d: int)
    requires 0 <= a < 0x100 && 0 <= b < 0x100 && 0 <= c < 0x100 && 0 <= d < 0x100
    ensures var x := a + 0x100 * b + 0x1_0000 * c + 0x100_0000 * d;
      0 <= x < TWO_32 && Swab32(x) == d + 0x100 * c + 0x1_0000 * b + 0x100_0000 * a
  {
    var x := a + 0x100 * b + 0x1_0000 * c + 0x100_0000 * d;
    LowDigit(a, b + 0x100 * c + 0x1_0000 * d);
    LowDigit(b, c + 0x100 * d);
    LowDigit(c, d);
    assert x / 0x1_0000 == x / 0x100 / 0x100 == c + 0x100 * d;
    assert x / 0x100_0000 == x / 0x1_0000 / 0x100 == d;
  }

  lemma Swab32Reverses(s: seq<byte>, at: nat)
    requires at + 4 <= |s|
    ensures Host32(Rev4(s, at), 0) == Swab32(Host32(s, at))
    ensures Swab32(Swab32(Host32(s, at))) == Host32(s, at)
  {
    DigitsBack(s[at], s[at + 1], s[at + 2], s[at + 3], Host32(s, at), Host32(Rev4(s, at), 0));
  }

  lemma DigitsBack(a: byte, b: byte, c: byte, d: byte, x: u32, y: u32)
    requires x == a + 0x100 * b as int + 0x1_0000 * c as int + 0x100_0000 * d as int
    requires y == d + 0x100 * c as int + 0x1_0000 * b as int + 0x100_0000 * a as int
    ensures Swab32(x) == y && Swab32(y) == x
  {
    DigitsOf(a, b, c, d);
    DigitsOf(d, c, b, a);
  }

  // ----- one header -----

  predicate Extension(kind: byte) {
    kind == HOP_BY_HOP || kind == DESTINATION || kind == ROUTING
  }

  predicate Known(kind: byte) {
    Extension(kind) || kind == FRAGMENT || kind == UDP || kind == TCP || kind == ICMP
  }

  /** Bytes of the header of this kind that starts `t`; the conversion looks at no more of a TCP header than its fixed
      part. */
  function Size(t: seq<byte>, kind: byte): nat
    requires Known(kind) && (Extension(kind) ==> |t| >= 2)
  {
    if Extension(kind) then 8 * (t[1] as int + 1) else if kind == TCP then 20 else 8
  }

  predicate HeaderFits(t: seq<byte>, kind: byte)
    requires Known(kind)
  {
    (Extension(kind) ==> |t| >= 2) && Size(t, kind) <= |t|
  }

  /** The kind named by the header that starts `t`; upper-layer headers end the chain. */
  function NextKind(t: seq<byte>, kind: byte): byte
    requires Known(kind) && HeaderFits(t, kind)
  {
    if Extension(kind) || kind == FRAGMENT then t[0] else NONE
  }

  predicate IcmpHandled(type_: byte) {
    type_ in {UNREACHABLE, TOO_BIG, TIME_EXCEEDED, PARAMETER_PROBLEM, ECHO_REQUEST, ECHO_REPLY}
  }

  /** The last word of an ICMP header; two types have none and the code clears it. */
  function IcmpBody(t: seq<byte>): (r: seq<byte>)
    requires |t| >= 8
    ensures |r| == 4
  {
    if t[0] == UNREACHABLE || t[0] == TIME_EXCEEDED then [0, 0, 0, 0]
    else if t[0] == TOO_BIG || t[0] == PARAMETER_PROBLEM then Rev4(t, 4)
    else if t[0] == ECHO_REQUEST || t[0] == ECHO_REPLY then Rev2(t, 4) + Rev2(t, 6)
    else t[4..8]
  }

  /** The header of this kind that starts `t`, its fields exchanged. */
  function ConvertHeader(t: seq<byte>, kind: byte): (r: seq<byte>)
    requires Known(kind) && HeaderFits(t, kind)
    ensures |r| == Size(t, kind)
  {
    if Extension(kind) then t[..Size(t, kind)]
    else if kind == FRAGMENT then t[..2] + Rev2(t, 2) + Rev4(t, 4)
    else if kind == UDP then Rev2(t, 0) + Rev2(t, 2) + Rev2(t, 4) + Rev2(t, 6)
    else if kind == ICMP then t[..2] + Rev2(t, 2) + IcmpBody(t)
    else Rev2(t, 0) + Rev2(t, 2) + Rev4(t, 4) + Rev4(t, 8) + Rev2(t, 12) + Rev2(t, 14) + Rev2(t, 16) + Rev2(t, 18)
  }

  // ----- the chain -----

  /** Every header the walk reaches lies inside the buffer. */
  predicate ChainFits(t: seq<byte>, kind: byte)
    decreases |t|
  {
    Known(kind) ==> HeaderFits(t, kind) && ChainFits(t[Size(t, kind)..], NextKind(t, kind))
  }

  /** The walk meets no ICMP type it rejects. */
  predicate ChainHandled(t: seq<byte>, kind: byte)
    requires ChainFits(t, kind)
    decreases |t|
  {
    Known(kind) ==> (kind == ICMP ==> IcmpHandled(t[0])) && ChainHandled(t[Size(t, kind)..], NextKind(t, kind))
  }

  function ConvertChain(t: seq<byte>, kind: byte): (r: seq<byte>)
    requires ChainFits(t, kind)
    ensures |r| == |t|
    decreases |t|
  {
    if !Known(kind) then t else ConvertHeader(t, kind) + ConvertChain(t[Size(t, kind)..], NextKind(t, kind))
  }

  /** The headers the iterator yields: kind and offset of each. */
  function Headers(t: seq<byte>, kind: byte, at: nat): seq<(byte, nat)>
    requires ChainFits(t, kind)
    decreases |t|
  {
    if !Known(kind) then []
    else [(kind, at)] + Headers(t[Size(t, kind)..], NextKind(t, kind), at + Size(t, kind))
  }

  predicate PacketFits(p: seq<byte>) {
    |p| >= IP_HEADER && ChainFits(p[IP_HEADER..], p[6])
  }

  predicate PacketHandled(p: seq<byte>)
    requires PacketFits(p)
  {
    ChainHandled(p[IP_HEADER..], p[6])
  }

  /** IpPacketToNetworkOrder and, on this machine, IpPacketFromNetworkOrder: version word and length, then the chain. */
  function Convert(p: seq<byte>): (r: seq<byte>)
    requires PacketFits(p)
    ensures |r| == |p|
  {
    Rev4(p, 0) + Rev2(p, 4) + p[6..IP_HEADER] + ConvertChain(p[IP_HEADER..], p[6])
  }

  // ----- there and back -----

  /** The header with the word that two ICMP types do not use cleared. */
  function ClearHeader(t: seq<byte>, kind: byte): (r: seq<byte>)
    requires Known(kind) && HeaderFits(t, kind)
    ensures |r| == Size(t, kind)
  {
    if kind == ICMP && (t[0] == UNREACHABLE || t[0] == TIME_EXCEEDED) then t[..4] + [0, 0, 0, 0] else t[..Size(t, kind)]
  }

  function ClearChain(t: seq<byte>, kind: byte): (r: seq<byte>)
    requires ChainFits(t, kind)
    ensures |r| == |t|
    decreases |t|
  {
    if !Known(kind) then t else ClearHeader(t, kind) + ClearChain(t[Size(t, kind)..], NextKind(t, kind))
  }

  /** Conversion leaves alone what the walk looks at: the kind, the size and the successor of a header. */
  lemma WalkBytesKept(t: seq<byte>, kind: byte)
    requires Known(kind) && HeaderFits(t, kind)
    ensures var h := ConvertHeader(t, kind);
      && (Extension(kind) || kind == FRAGMENT || kind == ICMP ==> h[0] == t[0] && h[1] == t[1])
  {
  }

  lemma ChainStep(t: seq<byte>, kind: byte)
    requires ChainFits(t, kind) && Known(kind)
    ensures var n, r := Size(t, kind), ConvertChain(t, kind);
      && r[..n] == ConvertHeader(t, kind) && r[n..] == ConvertChain(t[n..], NextKind(t, kind))
      && HeaderFits(r, kind) && Size(r, kind) == n && NextKind(r, kind) == NextKind(t, kind)
      && (kind == ICMP ==> r[0] == t[0])
  {
    WalkBytesKept(t, kind);
    var n, r := Size(t, kind), ConvertChain(t, kind);
    assert r[..n] == ConvertHeader(t, kind);
    assert r[0] == r[..n][0] && r[1] == r[..n][1];
  }

  lemma FragmentBack(t: seq<byte>, r: seq<byte>)
    requires |t| >= 8 && |r| >= 8 && r[..8] == ConvertHeader(t, FRAGMENT)
    ensures ConvertHeader(r, FRAGMENT) == t[..8]
  {
    assert forall i | 0 <= i < 8 :: r[i] == r[..8][i];
  }

  lemma UdpBack(t: seq<byte>, r: seq<byte>)
    requires |t| >= 8 && |r| >= 8 && r[..8] == ConvertHeader(t, UDP)
    ensures ConvertHeader(r, UDP) == t[..8]
  {
    assert forall i | 0 <= i < 8 :: r[i] == r[..8][i];
  }

  lemma IcmpBack(t: seq<byte>, r: seq<byte>)
    requires |t| >= 8 && |r| >= 8 && r[..8] == ConvertHeader(t, ICMP) && IcmpHandled(t[0])
    ensures ConvertHeader(r, ICMP) == ClearHeader(t, ICMP)
  {
    assert forall i | 0 <= i < 8 :: r[i] == r[..8][i];
  }

  lemma TcpBack(t: seq<byte>, r: seq<byte>)
    requires |t| >= 20 && |r| >= 20 && r[..20] == ConvertHeader(t, TCP)
    ensures ConvertHeader(r, TCP) == t[..20]
  {
    assert forall i | 0 <= i < 20 :: r[i] == r[..20][i];
  }

  /** Converting a converted header restores it, unused words cleared. */
  lemma HeaderBack(t: seq<byte>, r: seq<byte>, kind: byte)
    requires Known(kind) && HeaderFits(t, kind) && HeaderFits(r, kind) && Size(r, kind) == Size(t, kind)
    requires r[..Size(t, kind)] == ConvertHeader(t, kind) && (kind == ICMP ==> IcmpHandled(t[0]))
    ensures ConvertHeader(r, kind) == ClearHeader(t, kind)
  {
    if kind == FRAGMENT {
      FragmentBack(t, r);
    } else if kind == UDP {
      UdpBack(t, r);
    } else if kind == ICMP {
      IcmpBack(t, r);
    } else if kind == TCP {
      TcpBack(t, r);
    }
  }

  lemma {:induction false} ConvertKeepsFits(t: seq<byte>, kind: byte)
    requires ChainFits(t, kind)
    ensures ChainFits(ConvertChain(t, kind), kind)
    decreases |t|
  {
    if Known(kind) {
      ChainStep(t, kind);
      ConvertKeepsFits(t[Size(t, kind)..], NextKind(t, kind));
    }
  }

  lemma HeadersStep(t: seq<byte>, kind: byte, at: nat, n: nat, next: byte)
    requires ChainFits(t, kind) && Known(kind) && Size(t, kind) == n && NextKind(t, kind) == next
    ensures ChainFits(t[n..], next) && Headers(t, kind, at) == [(kind, at)] + Headers(t[n..], next, at + n)
  {
  }

  /** Swapping never changes which headers the walk visits. */
  lemma {:induction false} ConvertKeepsHeaders(t: seq<byte>, kind: byte, at: nat)
    requires ChainFits(t, kind) && ChainFits(ConvertChain(t, kind), kind)
    ensures Headers(ConvertChain(t, kind), kind, at) == Headers(t, kind, at)
    decreases |t|
  {
    if Known(kind) {
      var n, next := Size(t, kind), NextKind(t, kind);
      ChainStep(t, kind);
      HeadersStep(t, kind, at, n, next);
      HeadersStep(ConvertChain(t, kind), kind, at, n, next);
      ConvertKeepsHeaders(t[n..], next, at + n);
    }
  }

  /** Converting twice gives back the chain, with the unused words cleared. */
  lemma {:induction false} ChainThereAndBack(t: seq<byte>, kind: byte)
    requires ChainFits(t, kind) && ChainHandled(t, kind)
    ensures ChainFits(ConvertChain(t, kind), kind)
    ensures ConvertChain(ConvertChain(t, kind), kind) == ClearChain(t, kind)
    decreases |t|
  {
    if Known(kind) {
      ChainStep(t, kind);
      ChainThereAndBack(t[Size(t, kind)..], NextKind(t, kind));
      HeaderBack(t, ConvertChain(t, kind), kind);
    }
  }

  lemma {:induction false} UnusedClear(t: seq<byte>, kind: byte)
    requires ChainFits(t, kind)
    ensures ClearChain(t, kind) == t <==> UnusedZero(t, kind)
    decreases |t|
  {
    if Known(kind) {
      var n := Size(t, kind);
      UnusedClear(t[n..], NextKind(t, kind));
      var cleared := ClearChain(t[n..], NextKind(t, kind));
      assert t == t[..n] + t[n..];
      assert ClearHeader(t, kind) + cleared == t <==> ClearHeader(t, kind) == t[..n] && cleared == t[n..] by {
        if ClearHeader(t, kind) + cleared == t {
          assert (ClearHeader(t, kind) + cleared)[..n] == ClearHeader(t, kind);
          assert (ClearHeader(t, kind) + cleared)[n..] == cleared;
        }
      }
      assert n == 8 && kind == ICMP ==> t[..8] == t[..4] + t[4..8];
    }
  }

  /** The words the code clears are zero already. */
  predicate UnusedZero(t: seq<byte>, kind: byte)
    requires ChainFits(t, kind)
    decreases |t|
  {
    Known(kind) ==>
      && (kind == ICMP && (t[0] == UNREACHABLE || t[0] == TIME_EXCEEDED) ==> t[4..8] == [0, 0, 0, 0])
      && UnusedZero(t[Size(t, kind)..], NextKind(t, kind))
  }

  /** What a packet becomes on the wire. */
  ghost predicate OnWire(p: seq<byte>, r: seq<byte>, chain: seq<byte>) {
    && |p| == |r| >= IP_HEADER && r[IP_HEADER..] == chain && r[6] == p[6]
    && Rev4(r, 0) == p[..4] && Rev2(r, 4) == p[4..6] && r[6..IP_HEADER] == p[6..IP_HEADER]
  }

  lemma ConvertParts(p: seq<byte>)
    requires PacketFits(p)
    ensures OnWire(p, Convert(p), ConvertChain(p[IP_HEADER..], p[6]))
  {
  }

  lemma BackFromWire(p: seq<byte>, r: seq<byte>, chain: seq<byte>, back: seq<byte>)
    requires OnWire(p, r, chain) && ChainFits(chain, p[6]) && ConvertChain(chain, p[6]) == back
    ensures PacketFits(r) && (Convert(r) == p <==> back == p[IP_HEADER..])
  {
    var head := Rev4(r, 0) + Rev2(r, 4) + r[6..IP_HEADER];
    assert head == p[..IP_HEADER];
    assert Convert(r) == head + back && p == p[..IP_HEADER] + p[IP_HEADER..];
    assert (head + back)[IP_HEADER..] == back;
  }

  /** To the wire and back is the identity exactly on packets whose unused ICMP words are zero; the walk visits the same
      headers on both ways. */
  lemma PacketThereAndBack(p: seq<byte>)
    requires PacketFits(p) && PacketHandled(p)
    ensures PacketFits(Convert(p))
    ensures Headers(Convert(p)[IP_HEADER..], Convert(p)[6], 0) == Headers(p[IP_HEADER..], p[6], 0)
    ensures Convert(Convert(p)) == p <==> UnusedZero(p[IP_HEADER..], p[6])
  {
    var t, kind := p[IP_HEADER..], p[6];
    ConvertParts(p);
    ChainThereAndBack(t, kind);
    ConvertKeepsHeaders(t, kind, 0);
    UnusedClear(t, kind);
    BackFromWire(p, Convert(p), ConvertChain(t, kind), ClearChain(t, kind));
  }
}
