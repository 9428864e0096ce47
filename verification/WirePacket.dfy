/** Packets in memory: the header iterator of libs/ip/ipIterator.c, and the byte-order conversion of
    libs/ip/ip.c that uses it to rewrite fields in place. */
module WirePackets {
  import opened Words
  import opened Wire

  class HeaderIterator {
    const packet: array<byte>
    var curOffset: nat
    var curType: byte
    var headerKind: byte
    var headerAt: nat

    /** The bytes from the next header on. */
    ghost function Rest(): seq<byte>
      requires IP_HEADER + curOffset <= packet.Length
      reads this, packet
    {
      packet[..][IP_HEADER + curOffset..]
    }

    /** The headers still to come lie inside the packet. */
    ghost predicate Valid()
      reads this, packet
    {
      Known(curType) ==> IP_HEADER + curOffset <= packet.Length && ChainFits(Rest(), curType)
    }

    /** What the first two bytes of the header just yielded say of the next: extension headers name it and their length in
        units of eight bytes beyond the first eight, a fragment header names it, and the others end the chain. */
    ghost predicate HeaderSays(first: byte, second: byte, before: nat)
      reads this
    {
      if headerKind in {0, 43, 60} then
        curType == first && (Known(curType) ==> curOffset == before + 8 + 8 * second)
      else if headerKind == 44 then curType == first && (Known(curType) ==> curOffset == before + 8)
      else curType == 59
    }

    /** IpHeaderIteratorNew, which rewinds. */
    constructor (packet: array<byte>)
      requires PacketFits(packet[..])
      ensures Valid() && this.packet == packet && curOffset == 0 && curType == packet[6]
    {
      this.packet := packet;
      curOffset, curType := 0, packet[6];
      headerKind, headerAt := NONE, 0;
    }

    /** IpHeaderIteratorNext. Kinds it does not know end the walk like the end of the chain. */
    method Next() returns (more: bool)
      requires Valid()
      modifies this
      ensures Valid() && more == Known(old(curType))
      ensures more ==>
        && headerKind == old(curType) && headerAt == IP_HEADER + old(curOffset)
        && curType == NextKind(old(Rest()), headerKind)
        && (Known(curType) ==> curOffset == old(curOffset) + Size(old(Rest()), headerKind))
      ensures !more ==> !Known(curType)
      ensures more <==> old(curType) in {0, 6, 17, 43, 44, 58, 60}
      ensures more ==> headerAt + 8 <= packet.Length && HeaderSays(packet[headerAt], packet[headerAt + 1], old(curOffset))
    {
      if !Known(curType) {
        curType := NONE;
        return false;
      }
      ghost var t := Rest();
      headerKind, headerAt := curType, IP_HEADER + curOffset;
      assert t[0] == packet[headerAt];
      if Extension(curType) {
        assert t[1] == packet[headerAt + 1];
        curType := packet[headerAt];
        curOffset := curOffset + 8 * (packet[headerAt + 1] as int + 1);
      } else if curType == FRAGMENT {
        curType := packet[headerAt];
        curOffset := curOffset + 8;
      } else if curType == TCP {
        curType := NONE;
        curOffset := curOffset + Host16(packet[..], headerAt + 12) / 0x1000 * 4;
      } else {
        curType := NONE;
        curOffset := curOffset + 8;
      }
      assert t[Size(t, headerKind)..] == packet[..][headerAt + Size(t, headerKind)..];
      more := true;
    }

    /** IpHeaderIteratorHasNext; `error` reports a chain that ends in a kind it does not know. */
    method HasNext() returns (more: bool, error: bool)
      ensures more == Known(curType) && error == (!more && curType != NONE)
    {
      more := Known(curType);
      error := !more && curType != NONE;
    }
  }

  method Swap2(a: array<byte>, at: nat)
    requires at + 2 <= a.Length
    modifies a
    ensures a[at] == old(a[at + 1]) && a[at + 1] == old(a[at])
    ensures forall i | 0 <= i < a.Length && !(at <= i < at + 2) :: a[i] == old(a[i])
  {
    a[at], a[at + 1] := a[at + 1], a[at];
  }

  method Swap4(a: array<byte>, at: nat)
    requires at + 4 <= a.Length
    modifies a
    ensures a[at] == old(a[at + 3]) && a[at + 1] == old(a[at + 2])
    ensures a[at + 2] == old(a[at + 1]) && a[at + 3] == old(a[at])
    ensures forall i | 0 <= i < a.Length && !(at <= i < at + 4) :: a[i] == old(a[i])
  {
    a[at], a[at + 1], a[at + 2], a[at + 3] := a[at + 3], a[at + 2], a[at + 1], a[at];
  }

  /** The header at `at` of the packet that was `s` is converted in `r` and nothing else changed. */
  ghost predicate HeaderConverted(s: seq<byte>, r: seq<byte>, at: nat, kind: byte)
    requires at <= |s| == |r| && Known(kind) && HeaderFits(s[at..], kind)
  {
    var t := s[at..];
    && (forall i | 0 <= i < Size(t, kind) :: r[at + i] == ConvertHeader(t, kind)[i])
    && (forall i | 0 <= i < |r| && !(at <= i < at + Size(t, kind)) :: r[i] == s[i])
  }

  /** The bytes from `from` up to `to` of the header at `at` are converted and nothing else changed. */
  ghost predicate PartConverted(s: seq<byte>, r: seq<byte>, at: nat, kind: byte, from: nat, to: nat)
    requires at <= |s| == |r| && Known(kind) && HeaderFits(s[at..], kind) && to <= Size(s[at..], kind)
  {
    && (forall i | from <= i < to :: r[at + i] == ConvertHeader(s[at..], kind)[i])
    && (forall i | 0 <= i < |r| && !(at + from <= i < at + to) :: r[i] == s[i])
  }

  /** A header converted in two parts. */
  lemma PartsConverted(s: seq<byte>, r: seq<byte>, q: seq<byte>, at: nat, kind: byte, mid: nat)
    requires at <= |s| == |r| == |q| && Known(kind) && HeaderFits(s[at..], kind) && mid <= Size(s[at..], kind)
    requires HeaderFits(r[at..], kind) && Size(r[at..], kind) == Size(s[at..], kind)
    requires PartConverted(s, r, at, kind, 0, mid) && PartConverted(r, q, at, kind, mid, Size(s[at..], kind))
    requires forall i | mid <= i < Size(s[at..], kind) :: ConvertHeader(r[at..], kind)[i] == ConvertHeader(s[at..], kind)[i]
    ensures HeaderConverted(s, q, at, kind)
  {
    forall i | 0 <= i < mid
      ensures q[at + i] == ConvertHeader(s[at..], kind)[i]
    {
      assert q[at + i] == r[at + i];
    }
  }

  method ConvertPorts(a: array<byte>, at: nat)
    requires at + 20 <= a.Length
    modifies a
    ensures PartConverted(old(a[..]), a[..], at, TCP, 0, 12)
  {
    Swap2(a, at);
    Swap2(a, at + 2);
    Swap4(a, at + 4);
    Swap4(a, at + 8);
  }

  method ConvertFlags(a: array<byte>, at: nat)
    requires at + 20 <= a.Length
    modifies a
    ensures PartConverted(old(a[..]), a[..], at, TCP, 12, 20)
  {
    Swap2(a, at + 12);
    Swap2(a, at + 14);
    Swap2(a, at + 16);
    Swap2(a, at + 18);
  }

  lemma SameTcpTail(s: seq<byte>, t: seq<byte>)
    requires |s| == |t| >= 20 && forall i | 12 <= i < |s| :: s[i] == t[i]
    ensures forall i | 12 <= i < 20 :: ConvertHeader(s, TCP)[i] == ConvertHeader(t, TCP)[i]
  {
  }

  method ConvertTcp(a: array<byte>, at: nat)
    requires at + 20 <= a.Length
    modifies a
    ensures HeaderConverted(old(a[..]), a[..], at, TCP)
  {
    ghost var s := a[..];
    ConvertPorts(a, at);
    ghost var r := a[..];
    SameTcpTail(r[at..], s[at..]);
    ConvertFlags(a, at);
    PartsConverted(s, r, a[..], at, TCP, 12);
  }

  method ConvertUdp(a: array<byte>, at: nat)
    requires at + 8 <= a.Length
    modifies a
    ensures HeaderConverted(old(a[..]), a[..], at, UDP)
  {
    Swap2(a, at);
    Swap2(a, at + 2);
    Swap2(a, at + 4);
    Swap2(a, at + 6);
  }

  /** The words behind the checksum, which depend on the message. */
  method ConvertMessage(a: array<byte>, at: nat) returns (ok: bool)
    requires at + 8 <= a.Length
    modifies a
    ensures PartConverted(old(a[..]), a[..], at, ICMP, 4, 8) && ok == IcmpHandled(old(a[at]))
  {
    var kind := a[at];
    if kind == UNREACHABLE || kind == TIME_EXCEEDED {
      a[at + 4], a[at + 5], a[at + 6], a[at + 7] := 0, 0, 0, 0;
    } else if kind == TOO_BIG || kind == PARAMETER_PROBLEM {
      Swap4(a, at + 4);
    } else if kind == ECHO_REQUEST || kind == ECHO_REPLY {
      Swap2(a, at + 4);
      Swap2(a, at + 6);
    } else {
      return false;
    }
    ok := true;
  }

  method ConvertSum(a: array<byte>, at: nat)
    requires at + 8 <= a.Length
    modifies a
    ensures PartConverted(old(a[..]), a[..], at, ICMP, 0, 4) && a[at] == old(a[at])
  {
    Swap2(a, at + 2);
  }

  lemma SameIcmpTail(s: seq<byte>, t: seq<byte>)
    requires |s| == |t| >= 8 && s[0] == t[0] && forall i | 4 <= i < |s| :: s[i] == t[i]
    ensures forall i | 4 <= i < 8 :: ConvertHeader(s, ICMP)[i] == ConvertHeader(t, ICMP)[i]
  {
  }

  method ConvertIcmp(a: array<byte>, at: nat) returns (ok: bool)
    requires at + 8 <= a.Length
    modifies a
    ensures HeaderConverted(old(a[..]), a[..], at, ICMP) && ok == IcmpHandled(old(a[at]))
  {
    ghost var s := a[..];
    ConvertSum(a, at);
    ghost var r := a[..];
    SameIcmpTail(r[at..], s[at..]);
    ok := ConvertMessage(a, at);
    PartsConverted(s, r, a[..], at, ICMP, 4);
  }

  method ConvertFragment(a: array<byte>, at: nat)
    requires at + 8 <= a.Length
    modifies a
    ensures HeaderConverted(old(a[..]), a[..], at, FRAGMENT)
  {
    Swap2(a, at + 2);
    Swap4(a, at + 4);
  }

  /** The packet `s` with the header at `at` converted. */
  ghost function WithHeader(s: seq<byte>, at: nat, kind: byte): seq<byte>
    requires at <= |s| && Known(kind) && HeaderFits(s[at..], kind)
  {
    s[..at] + ConvertHeader(s[at..], kind) + s[at + Size(s[at..], kind)..]
  }

  lemma ConvertedIs(s: seq<byte>, r: seq<byte>, at: nat, kind: byte)
    requires at <= |s| == |r| && Known(kind) && HeaderFits(s[at..], kind) && HeaderConverted(s, r, at, kind)
    ensures r == WithHeader(s, at, kind)
  {
  }

  method ConvertAt(a: array<byte>, at: nat, kind: byte) returns (ok: bool)
    requires at <= a.Length && Known(kind) && HeaderFits(a[..][at..], kind)
    modifies a
    ensures a[..] == WithHeader(old(a[..]), at, kind)
    ensures ok == (kind == ICMP ==> IcmpHandled(old(a[..])[at]))
  {
    ghost var before := a[..];
    ok := true;
    if kind == FRAGMENT {
      ConvertFragment(a, at);
    } else if kind == UDP {
      ConvertUdp(a, at);
    } else if kind == TCP {
      ConvertTcp(a, at);
    } else if kind == ICMP {
      ok := ConvertIcmp(a, at);
    }
    ConvertedIs(before, a[..], at, kind);
  }

  lemma Splice(s: seq<byte>, at: nat, h: seq<byte>, rest: seq<byte>, r: seq<byte>)
    requires at + |h| <= |s| && r == s[..at] + h + s[at + |h|..]
    ensures |r| == |s| && r[at + |h|..] == s[at..][|h|..] && s[..at] + (h + rest) == r[..at + |h|] + rest
  {
    assert r[..at + |h|] == s[..at] + h;
  }

  /** One turn of the walk: the header at `at` is done, the rest of the chain is as it was. */
  lemma ConvertStep(s: seq<byte>, at: nat, kind: byte, r: seq<byte>)
    requires at <= |s| && Known(kind) && ChainFits(s[at..], kind) && r == WithHeader(s, at, kind)
    ensures var t := s[at..];
      var n, next := Size(t, kind), NextKind(t, kind);
      && |r| == |s| && r[at + n..] == t[n..] && ChainFits(t[n..], next)
      && s[..at] + ConvertChain(t, kind) == r[..at + n] + ConvertChain(t[n..], next)
      && (ChainHandled(t, kind) <==> (kind == ICMP ==> IcmpHandled(s[at])) && ChainHandled(t[n..], next))
  {
    var t := s[at..];
    var n, next := Size(t, kind), NextKind(t, kind);
    Splice(s, at, ConvertHeader(t, kind), ConvertChain(t[n..], next), r);
  }

  /** `s` is the packet `p` converted up to `off`, where a header of kind `kind` follows. */
  ghost predicate Converting(p: seq<byte>, s: seq<byte>, off: nat, kind: byte)
    requires PacketFits(p)
  {
    && off <= |s| && ChainFits(s[off..], kind)
    && Convert(p) == s[..off] + ConvertChain(s[off..], kind)
    && (PacketHandled(p) <==> ChainHandled(s[off..], kind))
  }

  lemma ConvertingStarts(p: seq<byte>, s: seq<byte>)
    requires PacketFits(p) && |s| == |p| && s[IP_HEADER..] == p[IP_HEADER..]
    requires s[..IP_HEADER] == Rev4(p, 0) + Rev2(p, 4) + p[6..IP_HEADER]
    ensures Converting(p, s, IP_HEADER, p[6])
  {
  }

  lemma ConvertingStep(p: seq<byte>, s: seq<byte>, off: nat, kind: byte, r: seq<byte>, n: nat, next: byte)
    requires PacketFits(p) && Converting(p, s, off, kind) && Known(kind) && r == WithHeader(s, off, kind)
    requires n == Size(s[off..], kind) && next == NextKind(s[off..], kind)
    ensures |r| == |s| && r[off + n..] == s[off..][n..]
    ensures if kind == ICMP && !IcmpHandled(s[off]) then r == Convert(p) && !PacketHandled(p)
            else Converting(p, r, off + n, next)
  {
    ConvertStep(s, off, kind, r);
    if kind == ICMP {
      ConvertingEnds(r, off + n, next);
    }
  }

  lemma ConvertingEnds(r: seq<byte>, off: nat, kind: byte)
    requires off <= |r| && !Known(kind)
    ensures r == r[..off] + ConvertChain(r[off..], kind)
  {
  }

  /** The fields of the IP header itself. */
  method ConvertFixed(a: array<byte>)
    requires PacketFits(a[..])
    modifies a
    ensures PacketFits(a[..]) && a[6] == old(a[6]) && Converting(old(a[..]), a[..], IP_HEADER, old(a[6]))
  {
    ghost var p := a[..];
    Swap4(a, 0);
    Swap2(a, 4);
    assert a[..][IP_HEADER..] == p[IP_HEADER..];
    assert a[..][..IP_HEADER] == Rev4(p, 0) + Rev2(p, 4) + p[6..IP_HEADER];
    ConvertingStarts(p, a[..]);
  }

  /** The iterator has yielded the header of kind `kind` at `off`, or found no more. */
  ghost predicate Yielded(it: HeaderIterator, more: bool, s: seq<byte>, off: nat, kind: byte)
    requires off <= |s| && ChainFits(s[off..], kind)
    reads it
  {
    && more == Known(kind)
    && (more ==> it.headerKind == kind && it.headerAt == off && it.curType == NextKind(s[off..], kind))
    && (more && Known(it.curType) ==> IP_HEADER + it.curOffset == off + Size(s[off..], kind))
  }

  /** One turn of the loop below. */
  method ConvertNext(a: array<byte>, it: HeaderIterator, ghost p: seq<byte>, ghost off: nat, ghost kind: byte)
    returns (ok: bool, more: bool, ghost off': nat, ghost kind': byte)
    requires PacketFits(p) && Converting(p, a[..], off, kind) && Known(kind)
    requires it.packet == a && it.Valid() && Yielded(it, true, a[..], off, kind)
    modifies a, it
    ensures !ok ==> a[..] == Convert(p) && !PacketHandled(p)
    ensures ok ==> off < off' && Converting(p, a[..], off', kind') && it.Valid() && Yielded(it, more, a[..], off', kind')
  {
    ghost var s, n := a[..], Size(a[..][off..], kind);
    ok := ConvertAt(a, it.headerAt, it.headerKind);
    kind', off' := it.curType, off + n;
    ConvertingStep(p, s, off, kind, a[..], n, kind');
    more := false;
    if ok {
      more := it.Next();
    }
  }

  /** IpPacketToNetworkOrder; on this machine IpPacketFromNetworkOrder is the same. An ICMP type it does not handle stops
      it with the checksum already exchanged. */
  method ToNetworkOrder(a: array<byte>) returns (ok: bool)
    requires PacketFits(a[..])
    modifies a
    ensures a[..] == Convert(old(a[..])) && ok == PacketHandled(old(a[..]))
  {
    ghost var p, off: nat, kind := a[..], IP_HEADER, a[6];
    ConvertFixed(a);
    var it := new HeaderIterator(a);
    var more := it.Next();
    while more
      invariant it.packet == a && it.Valid() && Converting(p, a[..], off, kind) && Yielded(it, more, a[..], off, kind)
      decreases a.Length - off
    {
      ok, more, off, kind := ConvertNext(a, it, p, off, kind);
      if !ok {
        return false;
      }
    }
    ConvertingEnds(a[..], off, kind);
    ok := true;
  }
}
