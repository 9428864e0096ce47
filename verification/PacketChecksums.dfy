/** UdpChecksum, TcpChecksum and IcmpChecksum of common/checksums.c: they read a packet whose fields are still in the
    machine's byte order, and yield the checksum of what Wire.Convert sends. */
module PacketChecksums {
  import opened Words
  import opened Wire
  import opened Checksums

  // ----- what a checksum covers on the wire -----

  /** The pseudo-header of section 8.1 of RFC 2460 for the packet `w` on the wire. */
  function Pseudo(w: seq<byte>, len: u16, kind: byte): (r: seq<byte>)
    requires |w| >= IP_HEADER
    ensures |r| == 40
  {
    w[8..IP_HEADER] + [0, 0, len / 0x100, len % 0x100, 0, 0, 0, kind]
  }

  /** `len` bytes of the upper-layer packet at `at`, behind the pseudo-header. */
  function Covered(w: seq<byte>, at: nat, len: u16, kind: byte): seq<byte>
    requires IP_HEADER <= at && at + len <= |w|
  {
    Pseudo(w, len, kind) + w[at..at + len]
  }

  function Cleared(s: seq<byte>, at: nat): (r: seq<byte>)
    requires at + 2 <= |s|
    ensures |r| == |s|
  {
    s[at := 0][at + 1 := 0]
  }

  predicate Upper(kind: byte) {
    kind == UDP || kind == TCP || kind == ICMP
  }

  /** Where a header of this kind holds its checksum. */
  function SumField(kind: byte): nat
    requires Upper(kind)
  {
    if kind == UDP then 6 else if kind == TCP then 16 else 2
  }

  function HeaderSize(kind: byte): nat
    requires Upper(kind)
  {
    if kind == TCP then 20 else 8
  }

  /** The checksum the standards ask for: of the wire bytes with the checksum field zero. */
  function WireChecksum(w: seq<byte>, at: nat, len: u16, kind: byte): u16
    requires IP_HEADER <= at && at + len <= |w| && Upper(kind) && len >= HeaderSize(kind)
  {
    Checksum(Cleared(Covered(w, at, len, kind), 40 + SumField(kind)))
  }

  // ----- where the header is -----

  /** The walk of a chain that starts with a header of kind `kind` meets one of kind `last` after `off` bytes. */
  predicate Reaches(t: seq<byte>, kind: byte, last: byte, off: nat)
    requires ChainFits(t, kind)
    decreases |t|
  {
    if off == 0 then kind == last
    else Known(kind) && Size(t, kind) <= off && Reaches(t[Size(t, kind)..], NextKind(t, kind), last, off - Size(t, kind))
  }

  lemma {:induction false} HeadersBehind(t: seq<byte>, kind: byte, at: nat, h: (byte, nat))
    requires ChainFits(t, kind) && h in Headers(t, kind, at)
    ensures at <= h.1 && (h.1 == at ==> h.0 == kind && Known(kind))
    decreases |t|
  {
    if h != (kind, at) {
      HeadersBehind(t[Size(t, kind)..], NextKind(t, kind), at + Size(t, kind), h);
    }
  }

  /** The walk reaches an upper-layer header exactly where the iterator lists it. */
  lemma {:induction false} ReachedIsListed(t: seq<byte>, kind: byte, at: nat, last: byte, off: nat)
    requires ChainFits(t, kind) && Upper(last)
    ensures Reaches(t, kind, last, off) <==> (last, at + off) in Headers(t, kind, at)
    decreases |t|
  {
    if Known(kind) && off > 0 {
      var n, next := Size(t, kind), NextKind(t, kind);
      HeadersStep(t, kind, at, n, next);
      assert (last, at + off) in Headers(t, kind, at) <==> (last, at + off) in Headers(t[n..], next, at + n);
      if off >= n {
        ReachedIsListed(t[n..], next, at + n, last, off - n);
      } else if (last, at + off) in Headers(t[n..], next, at + n) {
        HeadersBehind(t[n..], next, at + n, (last, at + off));
      }
    } else if (last, at + off) in Headers(t, kind, at) {
      HeadersBehind(t, kind, at, (last, at + off));
    }
  }

  predicate HasUpper(p: seq<byte>, at: nat, kind: byte) {
    PacketFits(p) && Upper(kind) && at >= IP_HEADER && Reaches(p[IP_HEADER..], p[6], kind, at - IP_HEADER)
  }

  lemma DropTwice(s: seq<byte>, m: nat, n: nat)
    requires m <= n <= |s|
    ensures s[m..][n - m..] == s[n..]
  {
  }

  lemma TailsAgree(t: seq<byte>, t2: seq<byte>, n: nat, off: nat, u: seq<byte>, u2: seq<byte>)
    requires n <= off <= |t| == |t2| && u == t[n..] && u2 == t2[n..] && forall i | 0 <= i < off :: t2[i] == t[i]
    ensures |u2| == |u| && u2[off - n..] == t2[off..] && forall i | 0 <= i < off - n :: u2[i] == u[i]
  {
  }

  lemma SameHeader(t: seq<byte>, t2: seq<byte>, kind: byte, off: nat)
    requires Known(kind) && HeaderFits(t, kind) && Size(t, kind) <= off
    requires |t2| == |t| && forall i | 0 <= i < off && i < |t| :: t2[i] == t[i]
    ensures HeaderFits(t2, kind) && Size(t2, kind) == Size(t, kind) && NextKind(t2, kind) == NextKind(t, kind)
  {
    assert t2[0] == t[0] && t2[1] == t[1];
  }

  /** A walk that starts one header later, seen from this one. */
  lemma WalkOn(t: seq<byte>, kind: byte, n: nat, next: byte, last: byte, off: nat)
    requires Known(kind) && HeaderFits(t, kind) && Size(t, kind) == n && NextKind(t, kind) == next && n <= off <= |t|
    requires ChainFits(t[n..], next) && Reaches(t[n..], next, last, off - n)
    ensures ChainFits(t, kind) && Reaches(t, kind, last, off)
    ensures ConvertChain(t, kind)[off..] == ConvertChain(t[n..], next)[off - n..]
  {
    assert ConvertChain(t, kind)[n..] == ConvertChain(t[n..], next);
    assert ConvertChain(t, kind)[off..] == ConvertChain(t, kind)[n..][off - n..];
  }

  lemma UpperConverts(t: seq<byte>, kind: byte)
    requires Upper(kind) && HeaderSize(kind) <= |t|
    ensures ChainFits(t, kind) && ConvertChain(t, kind) == ConvertHeader(t, kind) + t[HeaderSize(kind)..]
  {
    assert !Known(NONE);
  }

  lemma {:induction false} ReachedFits(t: seq<byte>, kind: byte, last: byte, off: nat)
    requires ChainFits(t, kind) && Upper(last) && Reaches(t, kind, last, off)
    ensures off + HeaderSize(last) <= |t|
    decreases |t|
  {
    if off > 0 {
      ReachedFits(t[Size(t, kind)..], NextKind(t, kind), last, off - Size(t, kind));
    }
  }

  /** The walk looks at nothing from the header it looks for on, and converts the rest in its place. */
  lemma {:induction false} WalkIsLocal(t: seq<byte>, kind: byte, last: byte, off: nat, t2: seq<byte>)
    requires ChainFits(t, kind) && Reaches(t, kind, last, off) && off <= |t|
    requires |t2| == |t| && (forall i | 0 <= i < off :: t2[i] == t[i]) && ChainFits(t2[off..], last)
    ensures ChainFits(t2, kind) && Reaches(t2, kind, last, off)
    ensures ConvertChain(t2, kind)[off..] == ConvertChain(t2[off..], last)
    decreases |t|
  {
    if off == 0 {
      assert t2[0..] == t2;
    } else {
      var n, next := Size(t, kind), NextKind(t, kind);
      SameHeader(t, t2, kind, off);
      var u, u2 := t[n..], t2[n..];
      TailsAgree(t, t2, n, off, u, u2);
      WalkIsLocal(u, next, last, off - n, u2);
      WalkOn(t2, kind, n, next, last, off);
    }
  }

  lemma WireParts(p: seq<byte>, t: seq<byte>, kind: byte, off: nat)
    requires |p| >= IP_HEADER && t == p[IP_HEADER..] && kind == p[6] && ChainFits(t, kind) && off <= |t|
    ensures PacketFits(p) && Convert(p)[8..IP_HEADER] == p[8..IP_HEADER]
    ensures Convert(p)[IP_HEADER + off..] == ConvertChain(t, kind)[off..]
  {
    assert p[8..IP_HEADER] == p[6..IP_HEADER][2..];
    assert Convert(p)[IP_HEADER..] == ConvertChain(t, kind);
    assert Convert(p)[IP_HEADER + off..] == Convert(p)[IP_HEADER..][off..];
  }

  /** OnTheWire with the two chains and the rest of the second named. */
  lemma ChainOnTheWire(t: seq<byte>, kind: byte, last: byte, off: nat, p2: seq<byte>, t2: seq<byte>, u: seq<byte>)
    requires ChainFits(t, kind) && Upper(last) && Reaches(t, kind, last, off) && off + HeaderSize(last) <= |t|
    requires |p2| >= IP_HEADER && t2 == p2[IP_HEADER..] && kind == p2[6] && |t2| == |t| && u == t2[off..]
    requires forall i | 0 <= i < off && i < |t| :: t2[i] == t[i]
    ensures HasUpper(p2, IP_HEADER + off, last) && Convert(p2)[8..IP_HEADER] == p2[8..IP_HEADER]
    ensures ChainFits(u, last) && Convert(p2)[IP_HEADER + off..] == ConvertChain(u, last)
  {
    UpperConverts(u, last);
    WalkIsLocal(t, kind, last, off, t2);
    WireParts(p2, t2, kind, off);
  }

  lemma UpperInside(p: seq<byte>, at: nat, kind: byte)
    requires HasUpper(p, at, kind)
    ensures |p| >= IP_HEADER && at + HeaderSize(kind) <= |p|
  {
    ReachedFits(p[IP_HEADER..], p[6], kind, at - IP_HEADER);
  }

  /** On the wire: the addresses as they were, the header converted, the data behind it as it was. */
  lemma OnTheWire(p: seq<byte>, at: nat, kind: byte, p2: seq<byte>)
    requires HasUpper(p, at, kind) && |p2| == |p| && forall i | 0 <= i < at && i < |p| :: p2[i] == p[i]
    ensures at + HeaderSize(kind) <= |p| && HasUpper(p2, at, kind)
    ensures Convert(p2)[8..IP_HEADER] == p2[8..IP_HEADER]
    ensures ChainFits(p2[at..], kind) && Convert(p2)[at..] == ConvertChain(p2[at..], kind)
  {
    UpperInside(p, at, kind);
    var off, first, t, t2, u := at - IP_HEADER, p[6], p[IP_HEADER..], p2[IP_HEADER..], p2[at..];
    DropTwice(p2, IP_HEADER, at);
    forall i | 0 <= i < off && i < |t|
      ensures t2[i] == t[i]
    {
      assert p2[IP_HEADER + i] == p[IP_HEADER + i];
    }
    ChainOnTheWire(t, first, kind, off, p2, t2, u);
  }

  // ----- totals -----

  lemma SumOfFour(s: seq<byte>, k: nat)
    requires 2 * k + 8 <= |s|
    ensures Sum(s, k + 4) == Sum(s, k) + Net16(s, 2 * k) + Net16(s, 2 * k + 2) + Net16(s, 2 * k + 4) + Net16(s, 2 * k + 6)
  {
    assert Sum(s, k + 2) == Sum(s, k) + Net16(s, 2 * k) + Net16(s, 2 * k + 2);
  }

  lemma TotalOfJoin(s: seq<byte>, t: seq<byte>)
    requires |s| % 2 == 0
    ensures Total(s + t) == Total(s) + Total(t)
  {
    var k := |s| / 2;
    TotalSplits(s + t, k, t);
    TotalOfHalf(s, k);
    SumOfPrefix(s, s + t, k);
  }

  lemma PseudoTotal(w: seq<byte>, len: u16, kind: byte)
    requires |w| >= IP_HEADER
    ensures Total(Pseudo(w, len, kind)) == Total(w[8..IP_HEADER]) + len + kind
  {
    var t := [0, 0, len / 0x100, len % 0x100, 0, 0, 0, kind];
    TotalOfJoin(w[8..IP_HEADER], t);
    SumOfFour(t, 0);
  }

  lemma ClearedJoin(w: seq<byte>, at: nat, len: u16, kind: byte, h: seq<byte>, data: seq<byte>)
    requires IP_HEADER <= at && at + len <= |w| && Upper(kind) && len == |h| + |data|
    requires |h| == HeaderSize(kind) && w[at..][..len] == h + data
    ensures Cleared(Covered(w, at, len, kind), 40 + SumField(kind))
         == Pseudo(w, len, kind) + (Cleared(h, SumField(kind)) + data)
  {
    assert w[at..at + len] == w[at..][..len];
  }

  lemma JoinTotal(s: seq<byte>, h: seq<byte>, data: seq<byte>)
    requires |s| % 2 == 0 && |h| % 2 == 0
    ensures Total(s + (h + data)) == Total(s) + Sum(h, |h| / 2) + Total(data)
  {
    TotalOfJoin(s, h + data);
    TotalOfJoin(h, data);
  }

  lemma SentTotal(w: seq<byte>, at: nat, len: u16, kind: byte, h: seq<byte>, rest: seq<byte>, data: seq<byte>)
    requires IP_HEADER <= at && at + len <= |w| && Upper(kind) && HeaderSize(kind) <= len
    requires |h| == HeaderSize(kind) && w[at..] == h + rest && len == |h| + |data| && data == rest[..|data|]
    ensures Total(Cleared(Covered(w, at, len, kind), 40 + SumField(kind)))
         == Total(w[8..IP_HEADER]) + len + kind + Sum(Cleared(h, SumField(kind)), HeaderSize(kind) / 2) + Total(data)
  {
    assert w[at..][..len] == h + data;
    ClearedJoin(w, at, len, kind, h, data);
    PseudoTotal(w, len, kind);
    JoinTotal(Pseudo(w, len, kind), Cleared(h, SumField(kind)), data);
  }

  lemma StartOfTail(s: seq<byte>, at: nat, n: nat)
    requires at + n <= |s|
    ensures s[at..][..n] == s[at..at + n]
  {
  }

  lemma PartOfTail(s: seq<byte>, at: nat, m: nat, n: nat)
    requires at + m + n <= |s|
    ensures s[at..][m..][..n] == s[at + m..at + m + n]
  {
  }

  /** The total of what is sent, from the packet as it is before it is converted: pseudo-header, the header's words
      other than the checksum, the data. */
  lemma TotalSent(p: seq<byte>, at: nat, len: u16, kind: byte, t: seq<byte>, data: seq<byte>)
    requires HasUpper(p, at, kind) && HeaderSize(kind) <= len && at + len <= |p|
    requires t == p[at..] && data == p[at + HeaderSize(kind)..at + len]
    ensures HeaderFits(t, kind)
    ensures Total(Cleared(Covered(Convert(p), at, len, kind), 40 + SumField(kind)))
         == Total(p[8..IP_HEADER]) + len + kind
          + Sum(Cleared(ConvertHeader(t, kind), SumField(kind)), HeaderSize(kind) / 2) + Total(data)
  {
    OnTheWire(p, at, kind, p);
    UpperConverts(t, kind);
    PartOfTail(p, at, HeaderSize(kind), len - HeaderSize(kind));
    SentTotal(Convert(p), at, len, kind, ConvertHeader(t, kind), t[HeaderSize(kind)..], data);
  }

  // ----- the three functions -----

  function Field16(a: array<byte>, at: nat): (r: u16)
    requires at + 2 <= a.Length
    reads a
    ensures r == Host16(a[..], at)
  {
    a[at] as int + 0x100 * a[at + 1] as int
  }

  function Field32(a: array<byte>, at: nat): (r: u32)
    requires at + 4 <= a.Length
    reads a
    ensures r == Host32(a[..], at)
  {
    a[at] as int + 0x100 * a[at + 1] as int + 0x1_0000 * a[at + 2] as int + 0x100_0000 * a[at + 3] as int
  }

  lemma UdpWords(t: seq<byte>)
    requires |t| >= 8
    ensures Sum(Cleared(ConvertHeader(t, UDP), 6), 4) == Host16(t, 0) + Host16(t, 2) + Host16(t, 4)
  {
    var h := Cleared(ConvertHeader(t, UDP), 6);
    SumOfFour(h, 0);
  }

  lemma IcmpWords(t: seq<byte>)
    requires |t| >= 8
    ensures var h := Cleared(ConvertHeader(t, ICMP), 2);
      Sum(h, 4) == 0x100 * t[0] as int + t[1] as int
                 + if t[0] == ECHO_REQUEST || t[0] == ECHO_REPLY then Host16(t, 4) + Host16(t, 6)
                   else if t[0] == UNREACHABLE || t[0] == TIME_EXCEEDED then 0
                   else Net16(h, 4) + Net16(h, 6)
  {
    var h := Cleared(ConvertHeader(t, ICMP), 2);
    SumOfFour(h, 0);
  }

  lemma TcpWords(t: seq<byte>)
    requires |t| >= 20
    ensures Sum(Cleared(ConvertHeader(t, TCP), 16), 10)
         == Host16(t, 0) + Host16(t, 2) + Host32(t, 4) / TWO_16 + Host32(t, 4) % TWO_16
          + Host32(t, 8) / TWO_16 + Host32(t, 8) % TWO_16 + Host16(t, 12) + Host16(t, 14) + Host16(t, 18)
  {
    var h := Cleared(ConvertHeader(t, TCP), 16);
    SumOfFour(h, 0);
    SumOfFour(h, 4);
    assert Sum(h, 10) == Sum(h, 8) + Net16(h, 16) + Net16(h, 18);
    HalvesOf(t, 4);
    HalvesOf(t, 8);
  }

  lemma HalvesOf(t: seq<byte>, at: nat)
    requires at + 4 <= |t|
    ensures Host32(t, at) / TWO_16 == t[at + 2] as int + 0x100 * t[at + 3] as int
    ensures Host32(t, at) % TWO_16 == t[at] as int + 0x100 * t[at + 1] as int
  {
    var hi := t[at + 2] as int + 0x100 * t[at + 3] as int;
    var lo := t[at] as int + 0x100 * t[at + 1] as int;
    assert Host32(t, at) == hi * TWO_16 + lo;
  }

  /** Folding and complementing the right sum gives the checksum of what is sent. */
  lemma SumSealed(p: seq<byte>, at: nat, len: u16, kind: byte, t: seq<byte>, data: seq<byte>, sum: nat)
    requires HasUpper(p, at, kind) && HeaderSize(kind) <= len && at + len <= |p|
    requires t == p[at..] && data == p[at + HeaderSize(kind)..at + len] && HeaderFits(t, kind)
    requires sum == Total(p[8..IP_HEADER]) + len + kind
                    + Sum(Cleared(ConvertHeader(t, kind), SumField(kind)), HeaderSize(kind) / 2) + Total(data)
    ensures WireChecksum(Convert(p), at, len, kind) == 0xffff - Fold(sum)
  {
    TotalSent(p, at, len, kind, t, data);
    ChecksumOf(Cleared(Covered(Convert(p), at, len, kind), 40 + SumField(kind)), sum);
  }

  /** The bytes sumRange covers behind the header: their number is an unsigned difference. */
  function Behind(at: nat, size: u16, len: u16): (end: nat)
    ensures at + size <= end && end == if size <= len then at + len else at + len + 0x1_0000_0000
  {
    at + size + Wrap(len - size)
  }

  /** What the three add up, with the words `fields` of the header. */
  function Added(s: seq<byte>, at: nat, size: u16, len: u16, kind: byte, fields: nat): nat
    requires IP_HEADER <= at && Behind(at, size, len) <= |s|
  {
    Total(s[8..IP_HEADER]) + len + kind + fields + Total(s[at + size..Behind(at, size, len)])
  }

  lemma PartsAdd(p: seq<byte>, at: nat, size: u16, len: u16, kind: byte, fields: u32, s: seq<byte>, data: seq<byte>)
    requires IP_HEADER <= at && Behind(at, size, len) <= |p| && fields <= 0xf_ffff
    requires s == p[8..IP_HEADER] && data == p[at + size..Behind(at, size, len)]
    ensures var fixed := Total(s) + len + kind + fields;
      fixed < TWO_32 && Wrap(Wrap(Total(data)) + fixed) == Wrap(Added(p, at, size, len, kind, fields))
    ensures size <= len ==> Added(p, at, size, len, kind, fields) < TWO_32
  {
    AddedParts(p, at, size, len, kind, fields, s, data);
    TotalBounded(s);
    WrapAdds(Total(data), Total(s) + len + kind + fields);
  }

  /** Their sum, in 32 bits. */
  method SumParts(a: array<byte>, at: nat, size: u16, len: u16, kind: byte, fields: u32) returns (sum: u32)
    requires IP_HEADER <= at && Behind(at, size, len) <= a.Length && fields <= 0xf_ffff
    ensures sum == Wrap(Added(a[..], at, size, len, kind, fields))
    ensures size <= len ==> Added(a[..], at, size, len, kind, fields) < TWO_32
  {
    ghost var p, end := a[..], Behind(at, size, len);
    var addresses := SumRange(a, 8, 32);
    var data := SumRange(a, at + size, Wrap(len - size));
    assert a[8..8 + 32] == p[8..IP_HEADER] && a[at + size..end] == p[at + size..end];
    PartsAdd(p, at, size, len, kind, fields, p[8..IP_HEADER], p[at + size..end]);
    var fixed: u32 := addresses + len + kind + fields;
    sum := Wrap(data + fixed);
  }

  method AddUp(a: array<byte>, at: nat, size: u16, len: u16, kind: byte, fields: u32) returns (r: u16)
    requires IP_HEADER <= at && Behind(at, size, len) <= a.Length && fields <= 0xf_ffff
    ensures r == 0xffff - Fold(Wrap(Added(a[..], at, size, len, kind, fields)))
    ensures size <= len ==> Added(a[..], at, size, len, kind, fields) < TWO_32
  {
    var sum := SumParts(a, at, size, len, kind, fields);
    r := FoldDown(sum);
    r := 0xffff - r;
  }

  lemma AddedParts(p: seq<byte>, at: nat, size: u16, len: u16, kind: byte, fields: u32, s: seq<byte>, data: seq<byte>)
    requires IP_HEADER <= at && Behind(at, size, len) <= |p| && fields <= 0xf_ffff
    requires s == p[8..IP_HEADER] && data == p[at + size..Behind(at, size, len)]
    ensures Added(p, at, size, len, kind, fields) == Total(s) + len + kind + fields + Total(data)
    ensures size <= len ==> Added(p, at, size, len, kind, fields) < TWO_32
  {
    TotalBounded(s);
    TotalBounded(data);
  }

  /** The sum of a packet whose length covers its header is the one that seals it. */
  lemma AddedSeals(p: seq<byte>, at: nat, len: u16, kind: byte, fields: u32, sum: nat)
    requires HasUpper(p, at, kind) && HeaderSize(kind) <= len && at + len <= |p| && HeaderFits(p[at..], kind)
    requires fields <= 0xf_ffff && sum == Added(p, at, HeaderSize(kind), len, kind, fields)
    ensures fields == Sum(Cleared(ConvertHeader(p[at..], kind), SumField(kind)), HeaderSize(kind) / 2)
        ==> WireChecksum(Convert(p), at, len, kind) == 0xffff - Fold(Wrap(sum))
  {
    var t, data := p[at..], p[at + HeaderSize(kind)..at + len];
    AddedParts(p, at, HeaderSize(kind), len, kind, fields, p[8..IP_HEADER], data);
    NoWrap(sum);
    if fields == Sum(Cleared(ConvertHeader(t, kind), SumField(kind)), HeaderSize(kind) / 2) {
      SumSealed(p, at, len, kind, t, data, sum);
    }
  }

  lemma NoWrap(x: nat)
    requires x < TWO_32
    ensures Wrap(x) == x
  {
  }

  /** What the three share: addresses, length and kind, the words `fields` of the header, the data behind it; then fold
      and complement. */
  method SumUpper(a: array<byte>, at: nat, len: u16, kind: byte, fields: u32) returns (r: u16)
    requires HasUpper(a[..], at, kind) && Behind(at, HeaderSize(kind), len) <= a.Length && fields <= 0xf_ffff
    requires HeaderFits(a[..][at..], kind)
    ensures r == 0xffff - Fold(Wrap(Added(a[..], at, HeaderSize(kind), len, kind, fields)))
    ensures HeaderSize(kind) <= len
        && fields == Sum(Cleared(ConvertHeader(a[..][at..], kind), SumField(kind)), HeaderSize(kind) / 2)
        ==> r == WireChecksum(Convert(a[..]), at, len, kind)
  {
    r := AddUp(a, at, HeaderSize(kind), len, kind, fields);
    if HeaderSize(kind) <= len {
      AddedSeals(a[..], at, len, kind, fields, Added(a[..], at, HeaderSize(kind), len, kind, fields));
    }
  }

  method UdpFields(a: array<byte>, at: nat) returns (r: u32)
    requires at + 8 <= a.Length
    ensures r == Sum(Cleared(ConvertHeader(a[..][at..], UDP), 6), 4) && r <= 0xf_ffff
  {
    UdpWords(a[..][at..]);
    r := Field16(a, at) + Field16(a, at + 2) + Field16(a, at + 4);
  }

  /** The stored checksum is added and taken out again. */
  method TcpFields(a: array<byte>, at: nat) returns (r: u32)
    requires at + 20 <= a.Length
    ensures r == Sum(Cleared(ConvertHeader(a[..][at..], TCP), 16), 10) && r <= 0xf_ffff
  {
    TcpWords(a[..][at..]);
    var sequence, ack := Field32(a, at + 4), Field32(a, at + 8);
    r := Field16(a, at) + Field16(a, at + 2);
    r := r + sequence / TWO_16 + sequence % TWO_16 + ack / TWO_16 + ack % TWO_16;
    r := r + Field16(a, at + 12) + Field16(a, at + 14) + Field16(a, at + 16) + Field16(a, at + 18);
    r := r - Field16(a, at + 16);
  }

  /** What IcmpChecksum adds of the header, whatever the message: type and code, and the words of an echo. */
  function IcmpAdds(t: seq<byte>): nat
    requires |t| >= 8
  {
    0x100 * t[0] as int + t[1] as int + if t[0] == ECHO_REPLY || t[0] == ECHO_REQUEST then Host16(t, 4) + Host16(t, 6) else 0
  }

  /** Of an echo request (128) and an echo reply (129) identifier and sequence number as well. */
  lemma IcmpAddsExactly(t: seq<byte>)
    requires |t| >= 8
    ensures t[0] in {128, 129} ==> IcmpAdds(t) == 0x100 * t[0] as int + t[1] as int + Host16(t, 4) + Host16(t, 6)
    ensures t[0] !in {128, 129} ==> IcmpAdds(t) == 0x100 * t[0] as int + t[1] as int
  {
  }

  method IcmpFields(a: array<byte>, at: nat) returns (r: u32)
    requires at + 8 <= a.Length
    ensures r == IcmpAdds(a[..][at..]) <= 0xf_ffff
    ensures a[at] in {UNREACHABLE, ECHO_REQUEST, ECHO_REPLY} ==> r == Sum(Cleared(ConvertHeader(a[..][at..], ICMP), 2), 4)
  {
    IcmpWords(a[..][at..]);
    r := 0x100 * a[at] as int + a[at + 1] as int;
    if a[at] == ECHO_REPLY || a[at] == ECHO_REQUEST {
      r := r + Field16(a, at + 4) + Field16(a, at + 6);
    }
  }

  /** UdpChecksum: an error exactly when the length field is not the payload length or has no room for the header. */
  method UdpChecksum(a: array<byte>, at: nat) returns (r: int)
    requires HasUpper(a[..], at, UDP) && at + Host16(a[..], 4) <= a.Length
    ensures var p := a[..]; var len := Host16(p, 4);
      r == if at + 8 <= a.Length && Host16(p, at + 4) == len && len >= 8 then WireChecksum(Convert(p), at, len, UDP) else -1
  {
    ghost var p := a[..];
    OnTheWire(p, at, UDP, p);
    var len := Field16(a, at + 4);
    if len != Field16(a, 4) || len < 8 {
      return -1;
    }
    var fields := UdpFields(a, at);
    r := SumUpper(a, at, len, UDP, fields);
  }

  /** TcpChecksum, which takes the payload length for the length of the segment. One that does not cover the header makes
      the unsigned count behind it wrap: the header's own words are added, and nearly the whole address space. */
  method TcpChecksum(a: array<byte>, at: nat) returns (r: int)
    requires HasUpper(a[..], at, TCP) && Behind(at, 20, Host16(a[..], 4)) <= a.Length
    ensures var p := a[..]; var len := Host16(p, 4);
      && (len >= 20 ==> r == WireChecksum(Convert(p), at, len, TCP))
      && r == 0xffff - Fold(Wrap(Added(p, at, 20, len, TCP, Sum(Cleared(ConvertHeader(p[at..], TCP), 16), 10))))
  {
    var fields := TcpFields(a, at);
    r := SumUpper(a, at, Field16(a, 4), TCP, fields);
  }

  /** IcmpChecksum: three message types are an error, which in an unsigned 16-bit result reads 65535. Of any other the same
      words are added, and for three types, if the length covers the header, they make the checksum of what is sent. */
  method IcmpChecksum(a: array<byte>, at: nat) returns (r: u16, error: bool)
    requires HasUpper(a[..], at, ICMP) && Behind(at, 8, Host16(a[..], 4)) <= a.Length
    ensures error == (a[at] in {TOO_BIG, TIME_EXCEEDED, PARAMETER_PROBLEM}) && (error ==> r == 0xffff)
    ensures var p := a[..]; var len := Host16(p, 4);
      && (!error ==> r == 0xffff - Fold(Wrap(Added(p, at, 8, len, ICMP, IcmpAdds(p[at..])))))
      && (a[at] in {UNREACHABLE, ECHO_REQUEST, ECHO_REPLY} && len >= 8 ==> r == WireChecksum(Convert(p), at, len, ICMP))
  {
    var kind := a[at];
    if kind == TOO_BIG || kind == TIME_EXCEEDED || kind == PARAMETER_PROBLEM {
      return 0xffff, true;
    }
    error := false;
    var fields := IcmpFields(a, at);
    r := SumUpper(a, at, Field16(a, 4), ICMP, fields);
  }

  // ----- what the receiver sees -----

  /** `p` with the checksum field of its upper-layer header set, in the machine's byte order. */
  function WithChecksum(p: seq<byte>, at: nat, kind: byte, c: u16): (q: seq<byte>)
    requires Upper(kind) && at + HeaderSize(kind) <= |p|
    ensures |q| == |p|
  {
    p[at + SumField(kind) := c % 0x100][at + SumField(kind) + 1 := c / 0x100]
  }

  lemma StoredHeader(t: seq<byte>, kind: byte, c: u16, u: seq<byte>)
    requires Upper(kind) && HeaderSize(kind) <= |t| && u == WithChecksum(t, 0, kind, c)
    ensures ConvertHeader(u, kind) == Stored(Cleared(ConvertHeader(t, kind), SumField(kind)), SumField(kind), c)
  {
  }

  lemma StoredCovered(w: seq<byte>, w2: seq<byte>, at: nat, len: u16, kind: byte, h: seq<byte>, rest: seq<byte>, c: u16)
    requires IP_HEADER <= at && at + len <= |w| == |w2| && Upper(kind) && |h| == HeaderSize(kind) <= len
    requires w[8..IP_HEADER] == w2[8..IP_HEADER] && w[at..] == h + rest
    requires w2[at..] == Stored(Cleared(h, SumField(kind)), SumField(kind), c) + rest
    ensures var f := 40 + SumField(kind);
      Covered(w2, at, len, kind) == Stored(Cleared(Covered(w, at, len, kind), f), f, c)
  {
    StartOfTail(w, at, len);
    StartOfTail(w2, at, len);
  }

  lemma StoredOnTheWire(p: seq<byte>, q: seq<byte>, w: seq<byte>, w2: seq<byte>, at: nat, len: u16, kind: byte, c: u16)
    requires IP_HEADER <= at && Upper(kind) && HeaderSize(kind) <= len && at + len <= |p| == |w| == |w2|
    requires q == WithChecksum(p, at, kind, c) && w[8..IP_HEADER] == p[8..IP_HEADER] && w2[8..IP_HEADER] == q[8..IP_HEADER]
    requires ChainFits(p[at..], kind) && w[at..] == ConvertChain(p[at..], kind)
    requires ChainFits(q[at..], kind) && w2[at..] == ConvertChain(q[at..], kind)
    ensures var f := 40 + SumField(kind);
      Covered(w2, at, len, kind) == Stored(Cleared(Covered(w, at, len, kind), f), f, c)
  {
    var t, u, n := p[at..], q[at..], HeaderSize(kind);
    UpperConverts(t, kind);
    UpperConverts(u, kind);
    StoredHeader(t, kind, c, u);
    assert u[n..] == t[n..] && p[8..IP_HEADER] == q[8..IP_HEADER];
    StoredCovered(w, w2, at, len, kind, ConvertHeader(t, kind), t[n..], c);
  }

  lemma ClearedWords(w: seq<byte>, at: nat, len: u16, kind: byte, s: seq<byte>)
    requires IP_HEADER <= at && at + len <= |w| && Upper(kind) && HeaderSize(kind) <= len
    requires s == Cleared(Covered(w, at, len, kind), 40 + SumField(kind))
    ensures |s| == 40 + len && s[38] == 0 && s[39] == kind && s[40 + SumField(kind)] == 0 && s[41 + SumField(kind)] == 0
  {
  }

  lemma StoredVerifies(w: seq<byte>, at: nat, len: u16, kind: byte, k: nat, s: seq<byte>, r: seq<byte>)
    requires IP_HEADER <= at && at + len <= |w| && Upper(kind) && HeaderSize(kind) <= len
    requires 2 * k == 40 + SumField(kind) && s == Cleared(Covered(w, at, len, kind), 40 + SumField(kind))
    requires r == Stored(s, 40 + SumField(kind), Checksum(s))
    ensures Checksum(r) == 0
  {
    ClearedWords(w, at, len, kind, s);
    TotalPositive(s, 19);
    ChecksumStored(s, k, Checksum(s), r);
  }

  /** A packet sent with the checksum in its field, the field's old contents regardless, adds up to all ones on the wire. */
  lemma SentPacketVerifies(p: seq<byte>, at: nat, len: u16, kind: byte)
    requires HasUpper(p, at, kind) && HeaderSize(kind) <= len && at + len <= |p|
    ensures var q := WithChecksum(p, at, kind, WireChecksum(Convert(p), at, len, kind));
      HasUpper(q, at, kind) && Checksum(Covered(Convert(q), at, len, kind)) == 0
  {
    var w := Convert(p);
    var c := WireChecksum(w, at, len, kind);
    var q := WithChecksum(p, at, kind, c);
    OnTheWire(p, at, kind, p);
    OnTheWire(p, at, kind, q);
    StoredOnTheWire(p, q, w, Convert(q), at, len, kind, c);
    var k := if kind == UDP then 23 else if kind == TCP then 28 else 21;
    StoredVerifies(w, at, len, kind, k, Cleared(Covered(w, at, len, kind), 2 * k), Covered(Convert(q), at, len, kind));
  }

  lemma CoveredTotal(w: seq<byte>, at: nat, len: u16, kind: byte)
    requires IP_HEADER <= at && at + len <= |w| && Upper(kind) && HeaderSize(kind) <= len
    ensures Total(Cleared(Covered(w, at, len, kind), 40 + SumField(kind)))
         == Total(w[8..IP_HEADER]) + len + kind + Total(Cleared(w[at..at + len], SumField(kind)))
  {
    assert Cleared(Covered(w, at, len, kind), 40 + SumField(kind))
        == Pseudo(w, len, kind) + Cleared(w[at..at + len], SumField(kind));
    TotalOfJoin(Pseudo(w, len, kind), Cleared(w[at..at + len], SumField(kind)));
    PseudoTotal(w, len, kind);
  }

  /** What TcpChecksum and IcmpChecksum add too much: they take the payload length `len` for the length of the upper-layer
      packet, which is less by the extension headers in front of it, and read as many bytes behind it. */
  function Excess(w: seq<byte>, at: nat, len: u16): nat
    requires IP_HEADER <= at <= IP_HEADER + len && at + len <= |w|
  {
    at - IP_HEADER + Weight(w[at..at + len], len - (at - IP_HEADER), len)
  }

  /** That is right exactly if it is a multiple of 65535. */
  lemma PayloadLengthRightExactly(w: seq<byte>, at: nat, len: u16, kind: byte)
    requires IP_HEADER <= at && at + len <= |w| && Upper(kind) && len - (at - IP_HEADER) >= HeaderSize(kind)
    ensures WireChecksum(w, at, len, kind) == WireChecksum(w, at, len - (at - IP_HEADER), kind)
       <==> Excess(w, at, len) % 0xffff == 0
  {
    var n, f := len - (at - IP_HEADER), SumField(kind);
    var s, t := Cleared(Covered(w, at, n, kind), 40 + f), Cleared(Covered(w, at, len, kind), 40 + f);
    LengthsApart(w, at, n, len, kind, s, t, Excess(w, at, len));
  }

  lemma LengthsApart(w: seq<byte>, at: nat, n: u16, len: u16, kind: byte, s: seq<byte>, t: seq<byte>, d: nat)
    requires IP_HEADER <= at && at + len <= |w| && Upper(kind) && HeaderSize(kind) <= n <= len
    requires s == Cleared(Covered(w, at, n, kind), 40 + SumField(kind))
    requires t == Cleared(Covered(w, at, len, kind), 40 + SumField(kind))
    requires d == len - n + Weight(w[at..at + len], n, len)
    ensures Checksum(t) == Checksum(s) <==> d % 0xffff == 0
  {
    var f := SumField(kind);
    var x := Total(w[8..IP_HEADER]) + n + kind + Total(Cleared(w[at..at + n], f));
    BytesBehind(w, at, n, len, f);
    CoveredTotal(w, at, len, kind);
    CoveredTotal(w, at, n, kind);
    ChecksumsApart(s, t, x, d);
  }

  lemma BytesBehind(w: seq<byte>, at: nat, n: nat, len: nat, f: nat)
    requires f + 2 <= n <= len && at + len <= |w|
    ensures Total(Cleared(w[at..at + len], f)) == Total(Cleared(w[at..at + n], f)) + Weight(w[at..at + len], n, len)
  {
    var s, t := Cleared(w[at..at + n], f), Cleared(w[at..at + len], f);
    TotalOfLonger(s, t);
    WeightSame(t, w[at..at + len], n, len);
  }

  lemma ZerosOnTheWire(p: seq<byte>, at: nat, len: u16, kind: byte, w: seq<byte>)
    requires HasUpper(p, at, kind) && w == Convert(p) && at + len <= |p| && len - (at - IP_HEADER) >= HeaderSize(kind)
    requires forall i | IP_HEADER + len <= i < at + len :: p[i] == 0
    ensures |w| == |p| && forall i | IP_HEADER + len <= i < at + len :: w[i] == 0
  {
    OnTheWire(p, at, kind, p);
    UpperConverts(p[at..], kind);
    forall i | IP_HEADER + len <= i < at + len
      ensures w[i] == 0
    {
      assert w[i] == w[at..][i - at] == p[at..][HeaderSize(kind)..][i - at - HeaderSize(kind)] == p[i];
    }
  }

  lemma SmallMultiple(d: nat)
    requires d < 0xffff
    ensures d % 0xffff == 0 <==> d == 0
  {
  }

  lemma ZerosAreExcess(w: seq<byte>, at: nat, len: u16, kind: byte)
    requires IP_HEADER <= at && at + len <= |w| && Upper(kind) && len - (at - IP_HEADER) >= HeaderSize(kind)
    requires forall i | IP_HEADER + len <= i < at + len :: w[i] == 0
    ensures WireChecksum(w, at, len, kind) == WireChecksum(w, at, len - (at - IP_HEADER), kind) <==> at == IP_HEADER
  {
    var t, n := w[at..at + len], len - (at - IP_HEADER);
    assert forall i | n <= i < len :: t[i] == w[at + i];
    WeightOfZeros(t, n, len);
    PayloadLengthRightExactly(w, at, len, kind);
    SmallMultiple(Excess(w, at, len));
  }

  /** A packet with zeros behind it gets the right checksum exactly if it has no extension headers. */
  lemma PayloadLengthBeforeZeros(p: seq<byte>, at: nat, len: u16, kind: byte)
    requires HasUpper(p, at, kind) && len == Host16(p, 4) && at + len <= |p| && len - (at - IP_HEADER) >= HeaderSize(kind)
    requires forall i | IP_HEADER + len <= i < at + len :: p[i] == 0
    ensures var w := Convert(p);
      WireChecksum(w, at, len, kind) == WireChecksum(w, at, len - (at - IP_HEADER), kind) <==> at == IP_HEADER
  {
    ZerosOnTheWire(p, at, len, kind, Convert(p));
    ZerosAreExcess(Convert(p), at, len, kind);
  }

  /** One such packet: a payload of 28 bytes, an extension header of eight and a TCP header. */
  lemma PayloadLengthFails(p: seq<byte>)
    requires p == seq(76, i => if i == 4 then 28 else if i == IP_HEADER then TCP else 0)
    ensures HasUpper(p, 48, TCP) && Host16(p, 4) == 28
    ensures WireChecksum(Convert(p), 48, 28, TCP) != WireChecksum(Convert(p), 48, 20, TCP)
  {
    OptionsThenTcp(p[IP_HEADER..]);
    assert p[6] == HOP_BY_HOP;
    PayloadLengthBeforeZeros(p, 48, 28, TCP);
  }

  lemma OptionsThenTcp(t: seq<byte>)
    requires |t| == 36 && t[0] == TCP && t[1] == 0
    ensures ChainFits(t, HOP_BY_HOP) && Reaches(t, HOP_BY_HOP, TCP, 8)
  {
    assert ChainFits(t[8..], TCP);
    assert Reaches(t[8..], TCP, TCP, 0);
  }
}
