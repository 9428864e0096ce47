/** Internet checksums: the accumulate-then-fold form of common/checksums.c against the one's complement sum of
    libs/ip/util.c taken over the bytes that IpPacketToNetworkOrder puts on the wire. */
module Checksums {
  import opened Words
  import opened Wire

  // ----- the simple form -----

  /** IpUtilAdd1sComplement. */
  function Add1sComplement(a: u16, b: u16): u16 {
    (a + b) % TWO_16 + (a + b) / TWO_16 % 2
  }

  /** The first `n` network words of `s` added one at a time. */
  function OnesSum(s: seq<byte>, n: nat): u16
    requires 2 * n <= |s|
  {
    if n == 0 then 0 else Add1sComplement(OnesSum(s, n - 1), Net16(s, 2 * (n - 1)))
  }

  function Padded(s: seq<byte>): (r: seq<byte>)
    ensures |r| % 2 == 0
  {
    if |s| % 2 == 0 then s else s + [0]
  }

  /** The Internet checksum of `s`: the complement of the one's complement sum of its words. */
  function Checksum(s: seq<byte>): u16 {
    0xffff - OnesSum(Padded(s), |Padded(s)| / 2)
  }

  // ----- the fast form -----

  function Sum(s: seq<byte>, n: nat): nat
    requires 2 * n <= |s|
  {
    if n == 0 then 0 else Sum(s, n - 1) + Net16(s, 2 * (n - 1))
  }

  /** What sumRange adds up: whole words, and an odd last byte as a high byte. */
  function Total(s: seq<byte>): nat {
    Sum(s, |s| / 2) + if |s| % 2 == 0 then 0 else 0x100 * s[|s| - 1] as int
  }

  function Fold(x: nat): u16 {
    if x < TWO_16 then x else Fold(x % TWO_16 + x / TWO_16)
  }

  // ----- folding is arithmetic modulo 65535 -----

  lemma {:induction false} ResidueShift(x: int, k: nat)
    ensures (x + 0xffff * k) % 0xffff == x % 0xffff
  {
    if k > 0 {
      ResidueShift(x, k - 1);
      assert x + 0xffff * k == (x + 0xffff * (k - 1)) + 0xffff;
    }
  }

  lemma FoldStep(x: nat)
    requires x >= TWO_16
    ensures 0 < x % TWO_16 + x / TWO_16 < x
    ensures (x % TWO_16 + x / TWO_16 - 1) % 0xffff == (x - 1) % 0xffff
  {
    var q := x / TWO_16;
    assert x - 1 == (x % TWO_16 + q - 1) + q * 0xffff;
    ResidueShift(x % TWO_16 + q - 1, q);
  }

  lemma {:induction false} FoldIsResidue(x: nat)
    ensures Fold(x) == if x == 0 then 0 else (x - 1) % 0xffff + 1
  {
    if x >= TWO_16 {
      FoldStep(x);
      FoldIsResidue(x % TWO_16 + x / TWO_16);
    }
  }

  lemma AddIsResidue(f: u16, w: u16)
    ensures Add1sComplement(f, w) == if f + w == 0 then 0 else (f + w - 1) % 0xffff + 1
  {
    if f + w >= TWO_16 {
      assert (f + w) / TWO_16 == 1;
    }
  }

  lemma ResidueAbsorbs(x: nat, f: nat, w: u16)
    requires x > 0 && f == (x - 1) % 0xffff + 1
    ensures (x + w - 1) % 0xffff == (f + w - 1) % 0xffff
  {
    var k := (x - 1) / 0xffff;
    assert x == k * 0xffff + f;
    ResidueShift(f + w - 1, k);
  }

  /** Folding at the end or after every word is the same. */
  lemma FoldAbsorbs(x: nat, w: u16)
    ensures Fold(x + w) == Add1sComplement(Fold(x), w)
  {
    FoldIsResidue(x);
    FoldIsResidue(x + w);
    AddIsResidue(Fold(x), w);
    if x > 0 {
      ResidueAbsorbs(x, Fold(x), w);
    }
  }

  lemma {:induction false} FoldIsOnesSum(s: seq<byte>, n: nat)
    requires 2 * n <= |s|
    ensures Fold(Sum(s, n)) == OnesSum(s, n)
  {
    if n > 0 {
      FoldIsOnesSum(s, n - 1);
      FoldAbsorbs(Sum(s, n - 1), Net16(s, 2 * (n - 1)));
    }
  }

  lemma {:induction false} SumOfPrefix(s: seq<byte>, t: seq<byte>, n: nat)
    requires 2 * n <= |s| <= |t| && forall i | 0 <= i < 2 * n :: s[i] == t[i]
    ensures Sum(s, n) == Sum(t, n)
  {
    if n > 0 {
      SumOfPrefix(s, t, n - 1);
    }
  }

  /** The fast form computes the simple one. */
  lemma FoldTotalIsChecksum(s: seq<byte>)
    ensures 0xffff - Fold(Total(s)) == Checksum(s)
  {
    var p := Padded(s);
    var n := |p| / 2;
    FoldIsOnesSum(p, n);
    if |s| % 2 == 1 {
      SumOfPrefix(s, p, n - 1);
      assert 2 * n == |p| && p[|s| - 1] == s[|s| - 1] && p[|s|] == 0;
    }
  }

  lemma ChecksumOf(s: seq<byte>, sum: nat)
    requires Total(s) == sum
    ensures Checksum(s) == 0xffff - Fold(sum)
  {
    FoldTotalIsChecksum(s);
  }

  /** A receiver that adds the checksum back to what it covers gets all ones. */
  lemma ChecksumVerifies(x: nat)
    requires x > 0
    ensures Fold(x + (0xffff - Fold(x))) == 0xffff
  {
    FoldIsResidue(x);
    FoldIsResidue(x + (0xffff - Fold(x)));
    var k := (x - 1) / 0xffff;
    assert x == k * 0xffff + Fold(x);
    ResidueShift(0xffff - 1, k);
  }

  // ----- sums of concatenations -----

  lemma {:induction false} SumShifts(s: seq<byte>, k: nat, n: nat)
    requires 2 * (k + n) <= |s|
    ensures Sum(s, k + n) == Sum(s, k) + Sum(s[2 * k..], n)
  {
    if n > 0 {
      SumShifts(s, k, n - 1);
      assert Net16(s[2 * k..], 2 * (n - 1)) == Net16(s, 2 * (k + n - 1));
    }
  }

  lemma TotalOfHalf(s: seq<byte>, n: nat)
    requires 2 * n <= |s| <= 2 * n + 1
    ensures Total(s) == Sum(s, n) + if |s| == 2 * n then 0 else 0x100 * s[2 * n] as int
  {
    assert |s| / 2 == n;
  }

  lemma TotalSplits(s: seq<byte>, k: nat, t: seq<byte>)
    requires 2 * k <= |s| && t == s[2 * k..]
    ensures Total(s) == Sum(s, k) + Total(t)
  {
    var n := |t| / 2;
    TotalOfHalf(t, n);
    TotalOfHalf(s, k + n);
    SumShifts(s, k, n);
  }

  lemma ResiduesApart(k: nat, f: nat, m: nat, r: nat, g: nat)
    requires 1 <= f <= 0xffff && r < 0xffff && g == (k * 0xffff + f + m * 0xffff + r - 1) % 0xffff + 1
    ensures g == f <==> r == 0
  {
    ResidueShift(f - 1 + r, k + m);
  }

  /** Adding to a sum leaves what it folds to exactly if a multiple of 65535 is added. */
  lemma FoldTellsApart(x: nat, d: nat)
    requires x > 0
    ensures Fold(x + d) == Fold(x) <==> d % 0xffff == 0
  {
    FoldIsResidue(x);
    FoldIsResidue(x + d);
    var f, k, m, r := Fold(x), (x - 1) / 0xffff, d / 0xffff, d % 0xffff;
    assert x == k * 0xffff + f && d == m * 0xffff + r;
    ResiduesApart(k, f, m, r, Fold(x + d));
  }

  lemma ChecksumsApart(s: seq<byte>, t: seq<byte>, x: nat, d: nat)
    requires Total(s) == x && Total(t) == x + d && x > 0
    ensures Checksum(t) == Checksum(s) <==> d % 0xffff == 0
  {
    ChecksumOf(s, x);
    ChecksumOf(t, x + d);
    FoldTellsApart(x, d);
  }

  // ----- a total byte by byte -----

  /** The bytes from `m` up to `n`, those at even places as high bytes of words. */
  function Weight(s: seq<byte>, m: nat, n: nat): (w: nat)
    requires m <= n <= |s|
    decreases n - m
  {
    if m == n then 0 else Weight(s, m, n - 1) + (if n % 2 == 1 then 0x100 else 1) * s[n - 1] as int
  }

  lemma {:induction false} SumIsWeight(s: seq<byte>, n: nat)
    requires 2 * n <= |s|
    ensures Sum(s, n) == Weight(s, 0, 2 * n)
  {
    if n > 0 {
      SumIsWeight(s, n - 1);
      assert Weight(s, 0, 2 * n - 1) == Weight(s, 0, 2 * n - 2) + 0x100 * s[2 * n - 2] as int;
    }
  }

  lemma TotalIsWeight(s: seq<byte>)
    ensures Total(s) == Weight(s, 0, |s|)
  {
    SumIsWeight(s, |s| / 2);
  }

  lemma {:induction false} WeightSplits(s: seq<byte>, m: nat, n: nat)
    requires m <= n <= |s|
    ensures Weight(s, 0, n) == Weight(s, 0, m) + Weight(s, m, n)
    decreases n - m
  {
    if m < n {
      WeightSplits(s, m, n - 1);
    }
  }

  lemma {:induction false} WeightSame(s: seq<byte>, t: seq<byte>, m: nat, n: nat)
    requires m <= n <= |s| && n <= |t| && forall i | m <= i < n :: s[i] == t[i]
    ensures Weight(s, m, n) == Weight(t, m, n)
    decreases n - m
  {
    if m < n {
      WeightSame(s, t, m, n - 1);
    }
  }

  lemma {:induction false} WeightOfZeros(s: seq<byte>, m: nat, n: nat)
    requires m <= n <= |s| && forall i | m <= i < n :: s[i] == 0
    ensures Weight(s, m, n) == 0
    decreases n - m
  {
    if m < n {
      WeightOfZeros(s, m, n - 1);
    }
  }

  /** A longer sequence adds the weight of what is behind. */
  lemma TotalOfLonger(s: seq<byte>, t: seq<byte>)
    requires |s| <= |t| && forall i | 0 <= i < |s| :: s[i] == t[i]
    ensures Total(t) == Total(s) + Weight(t, |s|, |t|)
  {
    TotalIsWeight(s);
    TotalIsWeight(t);
    WeightSplits(t, |s|, |t|);
    WeightSame(s, t, 0, |s|);
  }

  lemma {:induction false} SumBounded(s: seq<byte>, n: nat)
    requires 2 * n <= |s|
    ensures Sum(s, n) <= 0xffff * n
  {
    if n > 0 {
      SumBounded(s, n - 1);
    }
  }

  lemma {:induction false} SumGrows(s: seq<byte>, m: nat, n: nat)
    requires m <= n && 2 * n <= |s|
    ensures Sum(s, m) <= Sum(s, n)
    decreases n - m
  {
    if m < n {
      SumGrows(s, m, n - 1);
    }
  }

  /** `s` with the network word at `at` set to `v`. */
  function Stored(s: seq<byte>, at: nat, v: u16): (r: seq<byte>)
    requires at + 2 <= |s|
    ensures |r| == |s|
  {
    s[at := v / 0x100][at + 1 := v % 0x100]
  }

  lemma {:induction false} StoredSum(s: seq<byte>, k: nat, v: u16, n: nat)
    requires 2 * k + 2 <= |s| && 2 * n <= |s|
    ensures Sum(Stored(s, 2 * k, v), n) == Sum(s, n) + if k < n then v - Net16(s, 2 * k) else 0
  {
    if n > 0 {
      StoredSum(s, k, v, n - 1);
      var r := Stored(s, 2 * k, v);
      assert n - 1 != k ==> r[2 * (n - 1)] == s[2 * (n - 1)] && r[2 * (n - 1) + 1] == s[2 * (n - 1) + 1];
    }
  }

  lemma TotalPositive(s: seq<byte>, k: nat)
    requires 2 * k + 2 <= |s| && Net16(s, 2 * k) > 0
    ensures Total(s) > 0
  {
    assert Sum(s, k + 1) > 0;
    SumGrows(s, k + 1, |s| / 2);
  }

  /** A zero word of `s` replaced by the checksum of `s` makes all the words add up to all ones. */
  lemma ChecksumStored(s: seq<byte>, k: nat, c: u16, r: seq<byte>)
    requires 2 * k + 2 <= |s| && Net16(s, 2 * k) == 0 && Total(s) > 0 && c == Checksum(s) && r == Stored(s, 2 * k, c)
    ensures Checksum(r) == 0
  {
    StoredSum(s, k, c, |s| / 2);
    assert |s| % 2 == 1 ==> r[|s| - 1] == s[|s| - 1];
    assert Total(r) == Total(s) + c;
    ChecksumOf(s, Total(s));
    ChecksumOf(r, Total(s) + c);
    ChecksumVerifies(Total(s));
  }

  lemma TotalBounded(s: seq<byte>)
    ensures Total(s) <= 0xffff * ((|s| + 1) / 2)
  {
    SumBounded(s, |s| / 2);
  }

  /** sumRange over `count` bytes from `at`. Its 32-bit accumulator wraps for no 16-bit count. */
  method SumRange(a: array<byte>, at: nat, count: u32) returns (res: u32)
    requires at + count <= a.Length
    ensures res == Wrap(Total(a[at..at + count]))
    ensures count < TWO_16 ==> res == Total(a[at..at + count]) <= 0xffff * 0x8000
  {
    ghost var s := a[at..at + count];
    TotalBounded(s);
    res := SumWords(a, at, count / 2, s);
    if count % 2 == 1 {
      var x := 0x100 * a[at + count - 1] as int;
      assert x == 0x100 * s[|s| - 1] as int;
      WrapAdds(Sum(s, count / 2), x);
      res := Wrap(res + x);
    }
  }

  /** Its loop over whole words, counting down. */
  method SumWords(a: array<byte>, at: nat, n: nat, ghost s: seq<byte>) returns (res: u32)
    requires at + |s| <= a.Length && s == a[at..at + |s|] && 2 * n <= |s|
    ensures res == Wrap(Sum(s, n))
  {
    ghost var acc := 0;
    res := 0;
    var numWords: nat := n;
    while numWords > 0
      invariant numWords <= n && acc + Sum(s, numWords) == Sum(s, n) && res == Wrap(acc)
    {
      numWords := numWords - 1;
      var x := Word(a, at + 2 * numWords);
      assert x == Net16(s, 2 * numWords);
      WrapAdds(acc, x);
      res, acc := Wrap(res + x), acc + x;
    }
  }

  /** ntohs of the word at `at`. */
  function Word(a: array<byte>, at: nat): (x: u16)
    requires at + 2 <= a.Length
    reads a
    ensures x == 0x100 * a[at] as int + a[at + 1] as int
  {
    0x100 * a[at] as int + a[at + 1] as int
  }

  /** The folding loop. */
  method FoldDown(x: u32) returns (r: u16)
    ensures r == Fold(x)
  {
    var res: u32 := x;
    while res >= TWO_16
      invariant Fold(res) == Fold(x)
    {
      res := res % TWO_16 + res / TWO_16;
    }
    r := res;
  }
}
