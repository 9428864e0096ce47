/** IpHeaderAppend of libs/ip/ip.c: links one more header behind the last of a packet in memory and copies it there. */
module HeaderAppend {
  import opened Words
  import opened Wire
  import opened WirePackets

  /** IpHeaderTypeOrder: the rank of a header in a chain. */
  function Rank(kind: byte): nat
    requires Known(kind)
  {
    if kind == HOP_BY_HOP then 1 else if kind == DESTINATION then 2 else if kind == ROUTING then 3
    else if kind == FRAGMENT then 4 else 7
  }

  /** IpHeaderGetSize; a TCP header tells its own. */
  function FullSize(h: seq<byte>, kind: byte): nat
    requires Known(kind) && HeaderFits(h, kind)
  {
    if kind == TCP then Host16(h, 12) / 0x1000 * 4 else Size(h, kind)
  }

  /** The length the header itself announces: in the top four bits of the word with the flags, in units of four bytes; in its
      second byte, in units of eight beyond the first; or eight bytes. */
  lemma FullSizeSays(h: seq<byte>, kind: byte)
    requires Known(kind) && HeaderFits(h, kind)
    ensures kind == 6 ==> FullSize(h, kind) == 4 * (h[13] as int / 16)
    ensures kind in {0, 43, 60} ==> FullSize(h, kind) == 8 + 8 * h[1] as int
    ensures kind in {17, 44, 58} ==> FullSize(h, kind) == 8
  {
    if kind == 6 {
      assert Host16(h, 12) == 0x1000 * (h[13] as int / 16) + (0x100 * (h[13] as int % 16) + h[12] as int);
    }
  }

  // ----- the end of a chain -----

  /** Where the chain that starts at `at` with a header of kind `kind` ends. */
  function EndAt(t: seq<byte>, kind: byte, at: nat): (e: nat)
    requires ChainFits(t, kind)
    ensures at <= e <= at + |t|
    decreases |t|
  {
    if !Known(kind) then at else EndAt(t[Size(t, kind)..], NextKind(t, kind), at + Size(t, kind))
  }

  /** Where the kind behind the chain is written, if the kind of its first header is written at `link`. */
  function LinkAt(t: seq<byte>, kind: byte, at: nat, link: nat): nat
    requires ChainFits(t, kind)
    decreases |t|
  {
    if !Known(kind) then link else LinkAt(t[Size(t, kind)..], NextKind(t, kind), at + Size(t, kind), at)
  }

  /** The kind of the last header; `last` if there is none. */
  function LastKind(t: seq<byte>, kind: byte, last: byte): (k: byte)
    requires ChainFits(t, kind)
    ensures k == last || Known(k)
    decreases |t|
  {
    if !Known(kind) then last else LastKind(t[Size(t, kind)..], NextKind(t, kind), kind)
  }

  /** The kind that ends the chain. */
  function EndKind(t: seq<byte>, kind: byte): (k: byte)
    requires ChainFits(t, kind)
    ensures !Known(k)
    decreases |t|
  {
    if !Known(kind) then kind else EndKind(t[Size(t, kind)..], NextKind(t, kind))
  }

  /** A header of this kind may follow one of kind `last`; NONE stands for no header. */
  predicate MayFollow(kind: byte, last: byte)
    requires Known(kind) && (Known(last) || last == NONE)
  {
    last == NONE || (Rank(last) <= Rank(kind) && (Extension(last) || last == FRAGMENT))
  }

  predicate CanAppend(p: seq<byte>, kind: byte)
    requires PacketFits(p)
  {
    var t := p[IP_HEADER..];
    var last := LastKind(t, p[6], NONE);
    Known(kind) && EndKind(t, p[6]) == NONE && MayFollow(kind, last)
  }

  /** The order of section 4.1 of RFC 2460 as far as the code knows it: hop-by-hop options, destination options, routing,
      fragment, and then UDP, TCP or ICMP. */
  const ORDER: seq<byte> := [0, 60, 43, 44, 17, 6, 58]

  /** A header may follow another exactly if that is one of the four that name a next one and does not come later. */
  lemma MayFollowExactly(i: nat, j: nat)
    requires i < 7 && j < 7
    ensures Known(ORDER[i]) && Known(ORDER[j])
    ensures MayFollow(ORDER[j], ORDER[i]) <==> i < 4 && i <= j
    ensures MayFollow(ORDER[j], NONE)
  {
  }

  predicate Linking(last: byte) {
    last == NONE || Extension(last) || last == FRAGMENT
  }

  lemma FirstNames(p: seq<byte>, off: nat, cur: byte, n: nat, next: byte)
    requires off <= |p| && ChainFits(p[off..], cur) && Known(cur) && n == Size(p[off..], cur) && next == NextKind(p[off..], cur)
    ensures off < off + n <= |p| && ChainFits(p[off + n..], next) && (Extension(cur) || cur == FRAGMENT ==> p[off] == next)
    ensures Headers(p[off..], cur, off) == [(cur, off)] + Headers(p[off + n..], next, off + n)
    ensures EndKind(p[off..], cur) == EndKind(p[off + n..], next)
  {
    assert p[off..][n..] == p[off + n..] && p[off..][0] == p[off];
    HeadersStep(p[off..], cur, off, n, next);
  }

  /** The last header names the kind that ends the chain, if it is one that names a next one. */
  lemma {:induction false} LastNames(p: seq<byte>, off: nat, cur: byte, hs: seq<(byte, nat)>)
    requires off <= |p| && ChainFits(p[off..], cur) && hs == Headers(p[off..], cur, off)
    ensures hs == [] ==> EndKind(p[off..], cur) == cur
    ensures hs != [] ==> var h := hs[|hs| - 1];
      Known(h.0) && h.1 < |p| && (Linking(h.0) ==> p[h.1] == EndKind(p[off..], cur))
    decreases |p| - off
  {
    if Known(cur) {
      var n, next := Size(p[off..], cur), NextKind(p[off..], cur);
      FirstNames(p, off, cur, n, next);
      LastNames(p, off + n, next, hs[1..]);
    }
  }

  lemma OrderIsKnown(kind: byte)
    ensures Known(kind) <==> kind in ORDER
  {
    assert ORDER[0] == 0 && ORDER[1] == 60 && ORDER[2] == 43 && ORDER[3] == 44 && ORDER[4] == 17 && ORDER[5] == 6 && ORDER[6] == 58;
  }

  /** What IpHeaderAppend takes: a kind it knows, behind a packet that names none, or a last header that names none and may
      come before it. */
  lemma AppendsExactly(p: seq<byte>, kind: byte)
    requires PacketFits(p)
    ensures var hs := Headers(p[IP_HEADER..], p[6], IP_HEADER);
      && (hs != [] ==> Known(hs[|hs| - 1].0) && hs[|hs| - 1].1 < |p|)
      && (Known(kind) <==> kind in ORDER)
      && (CanAppend(p, kind) <==>
            kind in ORDER
            && if hs == [] then p[6] == 59 else p[hs[|hs| - 1].1] == 59 && MayFollow(kind, hs[|hs| - 1].0))
  {
    var hs := Headers(p[IP_HEADER..], p[6], IP_HEADER);
    LastOfHeaders(p[IP_HEADER..], p[6], IP_HEADER, NONE, hs);
    LastNames(p, IP_HEADER, p[6], hs);
    OrderIsKnown(kind);
  }

  /** `p` with `kind` stored at `link`, the payload length grown by `h`, and `h` copied to `end`. */
  function Linked(p: seq<byte>, h: seq<byte>, kind: byte, link: nat, end: nat): (q: seq<byte>)
    requires |p| >= IP_HEADER
    ensures |q| == |p|
  {
    var len := (Host16(p, 4) + |h|) % TWO_16;
    seq(|p|, i requires 0 <= i < |p| =>
      if end <= i < end + |h| then h[i - end]
      else if i == 4 then len % 0x100
      else if i == 5 then len / 0x100
      else if i == link then kind
      else p[i])
  }

  /** `p` with the header `h` of this kind behind its chain. */
  function Appended(p: seq<byte>, h: seq<byte>, kind: byte): (q: seq<byte>)
    requires PacketFits(p) && EndAt(p[IP_HEADER..], p[6], IP_HEADER) + |h| <= |p|
    ensures |q| == |p|
  {
    var t := p[IP_HEADER..];
    Linked(p, h, kind, LinkAt(t, p[6], IP_HEADER, 6), EndAt(t, p[6], IP_HEADER))
  }

  // ----- what appending keeps -----

  ghost predicate Ordered(hs: seq<(byte, nat)>) {
    && (forall i | 0 <= i < |hs| :: Known(hs[i].0))
    && (forall i, j | 0 <= i < j < |hs| :: Rank(hs[i].0) <= Rank(hs[j].0))
  }

  lemma {:induction false} LinkIsInside(t: seq<byte>, kind: byte, at: nat, link: nat)
    requires ChainFits(t, kind) && link < at
    ensures LinkAt(t, kind, at, link) < EndAt(t, kind, at)
    ensures if Known(kind) then LinkAt(t, kind, at, link) >= at else LinkAt(t, kind, at, link) == link
    decreases |t|
  {
    if Known(kind) {
      LinkIsInside(t[Size(t, kind)..], NextKind(t, kind), at + Size(t, kind), at);
    }
  }

  /** The chain `t` with its last link set to `k` and the bytes behind it replaced. */
  ghost predicate Relinked(t: seq<byte>, t2: seq<byte>, at: nat, link: nat, end: nat, k: byte) {
    && |t2| == |t| && at <= end <= at + |t|
    && (forall i | 0 <= i < end - at && at + i != link :: t2[i] == t[i])
    && (at <= link < end ==> t2[link - at] == k)
  }

  /** The first header of the chain stands, but for the kind it names if it is the last. */
  lemma StepExtended(t: seq<byte>, t2: seq<byte>, kind: byte, n: nat, next: byte, at: nat, link: nat, end: nat, k: byte)
    requires Known(kind) && HeaderFits(t, kind) && Size(t, kind) == n && NextKind(t, kind) == next
    requires Relinked(t, t2, at, link, end, k) && at + n <= end
    requires if Known(next) then at + n <= link else link == at && (Extension(kind) || kind == FRAGMENT)
    ensures HeaderFits(t2, kind) && Size(t2, kind) == n && NextKind(t2, kind) == if Known(next) then next else k
    ensures Relinked(t[n..], t2[n..], at + n, link, end, k)
  {
    assert at + 1 != link && t2[1] == t[1];
    assert Known(next) ==> t2[0] == t[0];
    forall i | 0 <= i < end - at - n && at + n + i != link
      ensures t2[n..][i] == t[n..][i]
    {
      assert t2[n + i] == t[n + i];
    }
  }

  /** The functions above, one header along the chain. */
  lemma StepAlong(t: seq<byte>, kind: byte, n: nat, next: byte, at: nat, link: nat)
    requires Known(kind) && ChainFits(t, kind) && Size(t, kind) == n && NextKind(t, kind) == next
    ensures ChainFits(t[n..], next) && EndAt(t, kind, at) == EndAt(t[n..], next, at + n)
    ensures LinkAt(t, kind, at, link) == LinkAt(t[n..], next, at + n, at)
    ensures LastKind(t, kind, NONE) == if Known(next) then LastKind(t[n..], next, NONE) else kind
    ensures Headers(t, kind, at) == [(kind, at)] + Headers(t[n..], next, at + n)
  {
    assert Known(next) ==> LastKind(t[n..], next, NONE) == LastKind(t[n..], next, kind);
  }

  /** The chain holds these headers and ends as the standard has it. */
  ghost predicate Holds(t: seq<byte>, kind: byte, at: nat, hs: seq<(byte, nat)>) {
    ChainFits(t, kind) && EndKind(t, kind) == NONE && Headers(t, kind, at) == hs
  }

  lemma HoldsBehind(t: seq<byte>, kind: byte, n: nat, next: byte, at: nat, hs: seq<(byte, nat)>)
    requires Known(kind) && HeaderFits(t, kind) && Size(t, kind) == n && NextKind(t, kind) == next
    requires Holds(t[n..], next, at + n, hs)
    ensures Holds(t, kind, at, [(kind, at)] + hs)
  {
  }

  lemma HoldsAlone(t: seq<byte>, kind: byte, at: nat)
    requires Known(kind) && HeaderFits(t, kind) && NextKind(t, kind) == NONE
    ensures Holds(t, kind, at, [(kind, at)])
  {
    HoldsBehind(t, kind, Size(t, kind), NONE, at, []);
  }

  /** `t2` is the chain `t` with a header of kind `k` linked behind it at `end`. */
  ghost predicate Extends(t: seq<byte>, kind: byte, at: nat, link: nat, hs: seq<(byte, nat)>, end: nat,
                          t2: seq<byte>, k: byte) {
    && ChainFits(t, kind) && link < at && end == EndAt(t, kind, at) && hs == Headers(t, kind, at)
    && Linking(LastKind(t, kind, NONE)) && Relinked(t, t2, at, LinkAt(t, kind, at, link), end, k)
    && Known(k) && HeaderFits(t2[end - at..], k) && NextKind(t2[end - at..], k) == NONE
  }

  lemma DescendLinks(t: seq<byte>, kind: byte, at: nat, link: nat, end: nat, t2: seq<byte>, k: byte, n: nat, next: byte)
    requires Known(kind) && ChainFits(t, kind) && Size(t, kind) == n && NextKind(t, kind) == next && link < at
    requires end == EndAt(t, kind, at) && Linking(LastKind(t, kind, NONE))
    requires Relinked(t, t2, at, LinkAt(t, kind, at, link), end, k)
    ensures HeaderFits(t2, kind) && Size(t2, kind) == n && NextKind(t2, kind) == if Known(next) then next else k
    ensures ChainFits(t[n..], next) && end == EndAt(t[n..], next, at + n) && Linking(LastKind(t[n..], next, NONE))
    ensures Relinked(t[n..], t2[n..], at + n, LinkAt(t[n..], next, at + n, at), end, k)
  {
    StepAlong(t, kind, n, next, at, link);
    LinkIsInside(t[n..], next, at + n, at);
    StepExtended(t, t2, kind, n, next, at, LinkAt(t, kind, at, link), end, k);
  }

  lemma Descend(t: seq<byte>, kind: byte, at: nat, link: nat, hs: seq<(byte, nat)>, end: nat, t2: seq<byte>, k: byte,
                n: nat, next: byte)
    requires Extends(t, kind, at, link, hs, end, t2, k) && Known(kind) && Size(t, kind) == n && NextKind(t, kind) == next
    ensures HeaderFits(t2, kind) && Size(t2, kind) == n && NextKind(t2, kind) == if Known(next) then next else k
    ensures hs != [] && hs[0] == (kind, at) && Extends(t[n..], next, at + n, at, hs[1..], end, t2[n..], k)
  {
    DescendLinks(t, kind, at, link, end, t2, k, n, next);
    HeadersStep(t, kind, at, n, next);
    DropMore(t2, n, end - at);
  }

  lemma DropMore(t: seq<byte>, m: nat, n: nat)
    requires m <= n <= |t|
    ensures t[m..][n - m..] == t[n..]
  {
  }

  lemma ExtendedEmpty(t: seq<byte>, kind: byte, at: nat, link: nat, hs: seq<(byte, nat)>, end: nat, t2: seq<byte>, k: byte)
    requires Extends(t, kind, at, link, hs, end, t2, k) && !Known(kind)
    ensures Holds(t2, k, at, hs + [(k, end)])
  {
    assert t2[0..] == t2 && hs + [(k, end)] == [(k, at)];
    HoldsAlone(t2, k, at);
  }

  lemma {:induction false} ChainExtended(t: seq<byte>, kind: byte, at: nat, link: nat, hs: seq<(byte, nat)>, end: nat,
                                         t2: seq<byte>, first: byte, k: byte)
    requires Extends(t, kind, at, link, hs, end, t2, k) && first == if Known(kind) then kind else k
    ensures Holds(t2, first, at, hs + [(k, end)])
    decreases |t|
  {
    if !Known(kind) {
      ExtendedEmpty(t, kind, at, link, hs, end, t2, k);
    } else {
      var n, next := Size(t, kind), NextKind(t, kind);
      var second := if Known(next) then next else k;
      Descend(t, kind, at, link, hs, end, t2, k, n, next);
      ChainExtended(t[n..], next, at + n, at, hs[1..], end, t2[n..], second, k);
      HoldsBehind(t2, kind, n, second, at, hs[1..] + [(k, end)]);
      assert [(kind, at)] + (hs[1..] + [(k, end)]) == hs + [(k, end)];
    }
  }

  lemma {:induction false} LastOfHeaders(t: seq<byte>, kind: byte, at: nat, last: byte, hs: seq<(byte, nat)>)
    requires ChainFits(t, kind) && hs == Headers(t, kind, at)
    ensures LastKind(t, kind, last) == if hs == [] then last else hs[|hs| - 1].0
    decreases |t|
  {
    if Known(kind) {
      var n, next := Size(t, kind), NextKind(t, kind);
      HeadersStep(t, kind, at, n, next);
      LastOfHeaders(t[n..], next, at + n, kind, hs[1..]);
    }
  }

  lemma SameHead(t: seq<byte>, h: seq<byte>, k: byte)
    requires Known(k) && HeaderFits(h, k) && |h| <= |t| && forall i | 0 <= i < |h| :: t[i] == h[i]
    ensures HeaderFits(t, k) && NextKind(t, k) == NextKind(h, k)
  {
  }

  lemma AppendedBytes(p: seq<byte>, h: seq<byte>, k: byte, t: seq<byte>, t2: seq<byte>, link: nat, end: nat)
    requires PacketFits(p) && t == p[IP_HEADER..] && end == EndAt(t, p[6], IP_HEADER) && end + |h| <= |p|
    requires link == LinkAt(t, p[6], IP_HEADER, 6) && link < end && t2 == Appended(p, h, k)[IP_HEADER..]
    ensures Relinked(t, t2, IP_HEADER, link, end, k)
    ensures forall i | 0 <= i < |h| :: t2[end - IP_HEADER..][i] == h[i]
  {
    var q := Linked(p, h, k, link, end);
    assert q == Appended(p, h, k);
    assert forall i | 0 <= i < |t| :: t2[i] == q[IP_HEADER + i] && t[i] == p[IP_HEADER + i];
  }

  lemma AppendedExtends(p: seq<byte>, h: seq<byte>, k: byte, t: seq<byte>, t2: seq<byte>, end: nat)
    requires PacketFits(p) && CanAppend(p, k) && t == p[IP_HEADER..] && end == EndAt(t, p[6], IP_HEADER)
    requires HeaderFits(h, k) && NextKind(h, k) == NONE && end + |h| <= |p|
    requires t2 == Appended(p, h, k)[IP_HEADER..]
    ensures Extends(t, p[6], IP_HEADER, 6, Headers(t, p[6], IP_HEADER), end, t2, k)
  {
    LinkIsInside(t, p[6], IP_HEADER, 6);
    AppendedBytes(p, h, k, t, t2, LinkAt(t, p[6], IP_HEADER, 6), end);
    SameHead(t2[end - IP_HEADER..], h, k);
  }

  lemma RanksKept(hs: seq<(byte, nat)>, last: byte, k: byte, end: nat)
    requires Known(k) && (Known(last) || last == NONE) && MayFollow(k, last)
    requires last == if hs == [] then NONE else hs[|hs| - 1].0
    ensures Ordered(hs) ==> Ordered(hs + [(k, end)])
  {
  }

  /** A header that ends the chain and fits behind it, appended: the walk yields the old headers, in the same places, and
      the new one, and ranks stay in order. */
  lemma AppendedChain(p: seq<byte>, h: seq<byte>, k: byte)
    requires PacketFits(p) && CanAppend(p, k)
    requires HeaderFits(h, k) && NextKind(h, k) == NONE && EndAt(p[IP_HEADER..], p[6], IP_HEADER) + |h| <= |p|
    ensures var q, end := Appended(p, h, k), EndAt(p[IP_HEADER..], p[6], IP_HEADER);
      var hs := Headers(p[IP_HEADER..], p[6], IP_HEADER);
      && PacketFits(q) && Holds(q[IP_HEADER..], q[6], IP_HEADER, hs + [(k, end)])
      && (Ordered(hs) ==> Ordered(hs + [(k, end)]))
  {
    var t, kind, q := p[IP_HEADER..], p[6], Appended(p, h, k);
    var end, hs := EndAt(t, kind, IP_HEADER), Headers(t, kind, IP_HEADER);
    var t2 := q[IP_HEADER..];
    LinkIsInside(t, kind, IP_HEADER, 6);
    AppendedExtends(p, h, k, t, t2, end);
    ChainExtended(t, kind, IP_HEADER, 6, hs, end, t2, q[6], k);
    LastOfHeaders(t, kind, IP_HEADER, NONE, hs);
    RanksKept(hs, LastKind(t, kind, NONE), k, end);
  }

  /** The payload length grows by the header exactly when that does not overflow it; all else but the link is kept. */
  lemma AppendedRest(p: seq<byte>, h: seq<byte>, k: byte)
    requires PacketFits(p) && EndAt(p[IP_HEADER..], p[6], IP_HEADER) + |h| <= |p|
    ensures var q, end := Appended(p, h, k), EndAt(p[IP_HEADER..], p[6], IP_HEADER);
      var link := LinkAt(p[IP_HEADER..], p[6], IP_HEADER, 6);
      && (Host16(q, 4) == Host16(p, 4) + |h| <==> Host16(p, 4) + |h| < TWO_16) && q[end..end + |h|] == h
      && (forall i | 0 <= i < |p| && i != link && i != 4 && i != 5 && !(end <= i < end + |h|) :: q[i] == p[i])
  {
    PairOf(Host16(p, 4) % 0x100, Host16(p, 4) / 0x100);
    var len := (Host16(p, 4) + |h|) % TWO_16;
    assert Host16(Appended(p, h, k), 4) == len % 0x100 + 0x100 * (len / 0x100) == len;
  }

  // ----- in place -----

  /** A walk of `p` that is at `off`, about to see a header of kind `cur`. */
  ghost predicate Walked(p: seq<byte>, off: nat, cur: byte, link: nat, last: byte)
    requires PacketFits(p)
  {
    var t := p[IP_HEADER..];
    && off <= |p| && ChainFits(p[off..], cur)
    && EndAt(t, p[6], IP_HEADER) == EndAt(p[off..], cur, off) && EndKind(t, p[6]) == EndKind(p[off..], cur)
    && LinkAt(t, p[6], IP_HEADER, 6) == LinkAt(p[off..], cur, off, link)
    && LastKind(t, p[6], NONE) == LastKind(p[off..], cur, last)
  }

  lemma WalkedOn(p: seq<byte>, off: nat, cur: byte, link: nat, last: byte, n: nat, next: byte)
    requires PacketFits(p) && Walked(p, off, cur, link, last) && Known(cur)
    requires n == Size(p[off..], cur) && next == NextKind(p[off..], cur)
    ensures Walked(p, off + n, next, off, cur)
  {
    assert p[off..][n..] == p[off + n..];
  }

  method CopyHeader(a: array<byte>, at: nat, h: seq<byte>)
    requires at + |h| <= a.Length
    modifies a
    ensures forall i | 0 <= i < a.Length :: a[i] == if at <= i < at + |h| then h[i - at] else old(a[i])
  {
    for k := 0 to |h|
      invariant forall i | 0 <= i < a.Length :: a[i] == if at <= i < at + k then h[i - at] else old(a[i])
    {
      a[at + k] := h[k];
    }
  }

  /** The next header: its kind, where it starts and where it ends. */
  method NextHeader(it: HeaderIterator) returns (kind: byte, at: nat, end: nat)
    requires it.Valid() && Known(it.curType)
    modifies it
    ensures it.Valid() && kind == old(it.curType) && at == IP_HEADER + old(it.curOffset)
    ensures at < end == at + Size(old(it.Rest()), kind) && it.curType == NextKind(old(it.Rest()), kind)
    ensures Known(it.curType) ==> IP_HEADER + it.curOffset == end
  {
    var step := it.Next();
    kind, at := it.headerKind, it.headerAt;
    end := at + Size(it.packet[..][at..], kind);
  }

  /** One turn of the loop of getLastHeader. */
  method Advance(it: HeaderIterator, ghost p: seq<byte>, ghost at: nat, ghost link0: nat, ghost last0: byte)
    returns (last: byte, link: nat, end: nat)
    requires it.Valid() && it.packet[..] == p && PacketFits(p) && Known(it.curType)
    requires Walked(p, at, it.curType, link0, last0) && IP_HEADER + it.curOffset == at
    modifies it
    ensures it.Valid() && at < end && Walked(p, end, it.curType, link, last)
    ensures Known(it.curType) ==> IP_HEADER + it.curOffset == end
  {
    ghost var cur := it.curType;
    assert it.Rest() == p[at..];
    last, link, end := NextHeader(it);
    WalkedOn(p, at, cur, link0, last0, end - at, it.curType);
  }

  /** What a walk of all of `p` finds. */
  ghost predicate EndFound(p: seq<byte>, last: byte, link: nat, end: nat, found: bool)
    requires PacketFits(p)
  {
    var t := p[IP_HEADER..];
    && last == LastKind(t, p[6], NONE) && found == (EndKind(t, p[6]) == NONE)
    && link == LinkAt(t, p[6], IP_HEADER, 6) && end == EndAt(t, p[6], IP_HEADER)
  }

  /** getLastHeader: the kind of the last header (NONE if there is none), where it starts, and where the chain ends. */
  method LastHeader(a: array<byte>) returns (last: byte, link: nat, end: nat, found: bool)
    requires PacketFits(a[..])
    ensures EndFound(a[..], last, link, end, found)
  {
    ghost var p := a[..];
    var it := new HeaderIterator(a);
    last, link, end := NONE, 6, IP_HEADER;
    var more, error := it.HasNext();
    while more
      invariant it.packet == a && it.Valid() && a[..] == p
      invariant more == Known(it.curType) && error == (!more && it.curType != NONE)
      invariant Walked(p, end, it.curType, link, last) && (more ==> IP_HEADER + it.curOffset == end)
      decreases |p| - end, more
    {
      last, link, end := Advance(it, p, end, link, last);
      more, error := it.HasNext();
    }
    found := !error;
  }

  /** IpPacketProtocol: the kind of the last header; of a packet without any, the kind it names. */
  method Protocol(a: array<byte>) returns (protocol: byte)
    requires PacketFits(a[..])
    ensures protocol == LastKind(a[..][IP_HEADER..], a[6], a[6])
    ensures var hs := Headers(a[..][IP_HEADER..], a[6], IP_HEADER); protocol == if hs == [] then a[6] else hs[|hs| - 1].0
  {
    ghost var p, off: nat := a[..], IP_HEADER;
    LastOfHeaders(p[IP_HEADER..], p[6], IP_HEADER, p[6], Headers(p[IP_HEADER..], p[6], IP_HEADER));
    var it := new HeaderIterator(a);
    protocol := a[6];
    var more, error := it.HasNext();
    while more
      invariant it.packet == a && it.Valid() && a[..] == p && more == Known(it.curType)
      invariant off <= |p| && ChainFits(p[off..], it.curType) && (more ==> IP_HEADER + it.curOffset == off)
      invariant LastKind(p[IP_HEADER..], p[6], p[6]) == LastKind(p[off..], it.curType, protocol)
      decreases |p| - off, more
    {
      assert it.Rest() == p[off..];
      var kind, at, end := NextHeader(it);
      assert p[off..][end - off..] == p[end..];
      protocol, off := kind, end;
      more, error := it.HasNext();
    }
  }

  /** The tests of IpHeaderAppend. */
  method MayAppend(kind: byte, last: byte, found: bool) returns (ok: bool)
    requires Known(kind) && (Known(last) || last == NONE)
    ensures ok == (found && MayFollow(kind, last))
  {
    if !found {
      return false;
    }
    if last != NONE {
      if Rank(kind) < Rank(last) {
        return false;
      }
      return Extension(last) || last == FRAGMENT;
    }
    ok := true;
  }

  lemma EndFoundInside(p: seq<byte>, last: byte, link: nat, end: nat, found: bool)
    requires PacketFits(p) && EndFound(p, last, link, end, found)
    ensures (Known(last) || last == NONE) && IP_HEADER <= end && (link == 6 || IP_HEADER <= link < end)
  {
    LinkIsInside(p[IP_HEADER..], p[6], IP_HEADER, 6);
  }

  method LinkHeader(a: array<byte>, link: nat, end: nat, h: seq<byte>, kind: byte)
    requires IP_HEADER <= end && end + |h| <= a.Length && (link == 6 || IP_HEADER <= link < end)
    modifies a
    ensures a[..] == Linked(old(a[..]), h, kind, link, end)
  {
    var len := (a[4] as int + 0x100 * a[5] as int + |h|) % TWO_16;
    a[link] := kind;
    a[4], a[5] := len % 0x100, len / 0x100;
    CopyHeader(a, end, h);
  }

  /** IpHeaderAppend of the header of this kind that starts `h`. It refuses, changing nothing, a kind whose size it does not
      know, a rank below the last header's, a chain with an upper-layer header or with an unknown kind at its end. `copy` is
      where the caller's header pointer points afterwards. */
  method Append(a: array<byte>, h: seq<byte>, kind: byte) returns (ok: bool, copy: nat)
    requires PacketFits(a[..]) && (Known(kind) ==> HeaderFits(h, kind) && FullSize(h, kind) <= |h|)
    requires CanAppend(a[..], kind) ==> EndAt(a[..][IP_HEADER..], a[6], IP_HEADER) + FullSize(h, kind) <= a.Length
    modifies a
    ensures ok == CanAppend(old(a[..]), kind)
    ensures a[..] == if ok then Appended(old(a[..]), h[..FullSize(h, kind)], kind) else old(a[..])
    ensures ok ==> copy == EndAt(old(a[..])[IP_HEADER..], old(a[6]), IP_HEADER)
    ensures ok ==> var n := if kind == 6 then 4 * (h[13] as int / 16) else if kind in {0, 43, 60} then 8 + 8 * h[1] as int else 8;
      n <= |h| && copy + n <= a.Length && a[copy..copy + n] == h[..n]
  {
    copy := 0;
    if !Known(kind) {
      return false, 0;
    }
    var last, link, end, found := LastHeader(a);
    EndFoundInside(a[..], last, link, end, found);
    ok := MayAppend(kind, last, found);
    if ok {
      AppendedRest(a[..], h[..FullSize(h, kind)], kind);
      LinkHeader(a, link, end, h[..FullSize(h, kind)], kind);
      FullSizeSays(h, kind);
      copy := end;
    }
  }
}
