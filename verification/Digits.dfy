/** Printing integers, libs/utils/printf.c: division of a 64-bit number by ten with 32-bit halves, and the layout of the
    digits in a field. */
module Digits {
  import opened Words

  const TWO_8: nat := 0x100
  const TWO_64: nat := 0x1_0000_0000_0000_0000

  type u64 = x: int | 0 <= x < 0x1_0000_0000_0000_0000

  // ----- long division, a byte at a time -----

  /** The number written by the first `k` bytes, most significant first. */
  function Value(bs: seq<byte>, k: nat): nat
    requires k <= |bs|
  {
    if k == 0 then 0 else Value(bs, k - 1) * 0x100 + bs[k - 1]
  }

  /** Four of the bytes as a word. */
  function Word(bs: seq<byte>, at: nat): u32
    requires at + 4 <= |bs|
  {
    bs[at] * TWO_24 + bs[at + 1] * TWO_16 + bs[at + 2] * TWO_8 + bs[at + 3]
  }

  function BytesOf(w: u32): (bs: seq<byte>)
    ensures |bs| == 4
  {
    [w / TWO_24, w / TWO_16 % TWO_8, w / TWO_8 % TWO_8, w % TWO_8]
  }

  lemma BytesOfWord(w: u32)
    ensures Word(BytesOf(w), 0) == w
  {
    var h := w / TWO_16;
    assert w / TWO_24 == h / TWO_8 && h == h / TWO_8 * TWO_8 + h % TWO_8;
    assert w / TWO_8 % TWO_8 == w % TWO_16 / TWO_8;
  }

  lemma ValueOfTwo(bs: seq<byte>, k: nat)
    requires k + 2 <= |bs|
    ensures Value(bs, k + 2) == Value(bs, k) * TWO_16 + bs[k] as int * TWO_8 + bs[k + 1] as int
  {
  }

  lemma ValueOfWords(bs: seq<byte>)
    requires |bs| == 8
    ensures Value(bs, 8) == Word(bs, 0) * TWO_32 + Word(bs, 4)
  {
    ValueOfTwo(bs, 0);
    ValueOfTwo(bs, 2);
    ValueOfTwo(bs, 4);
    ValueOfTwo(bs, 6);
  }

  lemma {:induction false} ValueBelow(bs: seq<byte>, k: nat)
    requires k <= |bs| == 8
    ensures Value(bs, k) < TWO_64
    ensures k <= 7 ==> Value(bs, k) < TWO_64 / TWO_8
  {
    ValueOfWords(bs);
    assert Value(bs, 8) == Value(bs, 7) * 0x100 + bs[7];
    ValueGrows(bs, k, 8);
    if k <= 7 {
      ValueGrows(bs, k, 7);
    }
  }

  lemma {:induction false} ValueGrows(bs: seq<byte>, j: nat, k: nat)
    requires j <= k <= |bs|
    ensures Value(bs, j) <= Value(bs, k)
    decreases k - j
  {
    if j < k {
      ValueGrows(bs, j, k - 1);
    }
  }

  /** One step of long division: quotient and remainder of the number so far give those of the number with one more byte. */
  lemma DivisionStep(v: nat, b: byte)
    ensures var s := b + v % 10 * 0x100;
      && s / 10 < 0x100 && (v * 0x100 + b) / 10 == v / 10 * 0x100 + s / 10 && (v * 0x100 + b) % 10 == s % 10
  {
    var q, r := v / 10, v % 10;
    var s := b + r * 0x100;
    var n := q * 0x100 + s / 10;
    assert v * 0x100 + b == 10 * n + s % 10;
  }

  /** A 64-bit number in two halves, moved up a byte; what leaves the high half is lost. */
  function Up(high: u32, low: u32): (u32, u32) {
    (high * TWO_8 % TWO_32 + low / TWO_24, low * TWO_8 % TWO_32)
  }

  lemma UpShifts(high: u32, low: u32)
    requires high < TWO_24
    ensures var (h, l) := Up(high, low);
      h * TWO_32 + l == (high * TWO_32 + low) * TWO_8 && l <= TWO_32 - TWO_8
  {
    assert low * TWO_8 == low / TWO_24 * TWO_32 + low % TWO_24 * TWO_8;
  }

  lemma TopByte(a: byte, b: byte, c: byte, d: byte)
    ensures var w := a * TWO_24 + b * TWO_16 + c * TWO_8 + d;
      w / TWO_24 == a && w * TWO_8 % TWO_32 == b * TWO_24 + c * TWO_16 + d * TWO_8
  {
    var w := a * TWO_24 + b * TWO_16 + c * TWO_8 + d;
    assert w * TWO_8 == a * TWO_32 + (b * TWO_24 + c * TWO_16 + d * TWO_8);
  }

  /** Moving the number itself up brings its bytes to the top one after the other. */
  lemma UpDropsTop(left: seq<byte>, next: seq<byte>)
    requires |left| == 8 && next == left[1..] + [0]
    ensures Up(Word(left, 0), Word(left, 4)) == (Word(next, 0), Word(next, 4)) && Word(left, 0) / TWO_24 == left[0]
  {
    TopByte(left[0], left[1], left[2], left[3]);
    TopByte(left[4], left[5], left[6], left[7]);
  }

  /** The two halves of a number hold its bytes. */
  lemma HalvesHoldBytes(a: u64, bs: seq<byte>)
    requires bs == BytesOf(a / TWO_32) + BytesOf(a % TWO_32)
    ensures Word(bs, 0) == a / TWO_32 && Word(bs, 4) == a % TWO_32 && Value(bs, 8) == a
  {
    BytesOfWord(a / TWO_32);
    BytesOfWord(a % TWO_32);
    ValueOfWords(bs);
  }

  /** The quotient so far leaves its top byte free for the shift. */
  lemma ResultRoom(bs: seq<byte>, i: nat, high: u32, low: u32)
    requires |bs| == 8 && i < 8 && high * TWO_32 + low == Value(bs, i) / 10
    ensures high < TWO_24
  {
    ValueBelow(bs, i);
  }

  /** The quotient moved up a byte, and a new low byte added with its carry. */
  method AddByte(high: u32, low: u32, digit: byte) returns (h: u32, l: u32)
    requires high < TWO_24
    ensures h * TWO_32 + l == (high * TWO_32 + low) * TWO_8 + digit
  {
    UpShifts(high, low);
    h := high * TWO_8 % TWO_32 + low / TWO_24;
    l := low * TWO_8 % TWO_32;
    var lNew: u32 := (l + digit) % TWO_32;
    h := (h + if lNew < l then 1 else 0) % TWO_32;
    l := lNew;
  }

  /** udiv64by10. */
  method Udiv64By10(a: u64) returns (q: u64, mod: byte)
    ensures q == a / 10 && mod == a % 10
  {
    var aHigh: u32, aLow: u32 := a / TWO_32, a % TWO_32;
    var resHigh: u32, resLow: u32, carry: u16 := 0, 0, 0;
    ghost var bs := BytesOf(aHigh) + BytesOf(aLow);
    ghost var left := bs;
    HalvesHoldBytes(a, bs);
    for i := 0 to 8
      invariant |left| == 8 && aHigh == Word(left, 0) && aLow == Word(left, 4)
      invariant forall j | 0 <= j < 8 - i :: left[j] == bs[i + j]
      invariant resHigh * TWO_32 + resLow == Value(bs, i) / 10 && carry == Value(bs, i) % 10 * TWO_8
    {
      var b: byte := aHigh / TWO_24;
      UpDropsTop(left, left[1..] + [0]);
      left := left[1..] + [0];
      aHigh := aHigh * TWO_8 % TWO_32 + aLow / TWO_24;
      aLow := aLow * TWO_8 % TWO_32;
      var s := b + carry;
      DivisionStep(Value(bs, i), b);
      ResultRoom(bs, i, resHigh, resLow);
      carry := s % 10 * TWO_8;
      resHigh, resLow := AddByte(resHigh, resLow, s / 10);
    }
    q, mod := resHigh * TWO_32 + resLow, carry / TWO_8;
  }

  // ----- layout -----

  function Digit(d: nat): char
    requires d < 10
  {
    '0' + d as char
  }

  /** The decimal digits of `i`; none for zero. */
  function Numeral(i: nat): string {
    if i == 0 then "" else Numeral(i / 10) + [Digit(i % 10)]
  }

  predicate IsDigit(c: char) {
    '0' <= c <= '9'
  }

  function DigitValue(c: char): nat
    requires IsDigit(c)
  {
    c as int - 0x30
  }

  /** The number a string of digits stands for. */
  function Meaning(s: string): nat
    requires forall k | 0 <= k < |s| :: IsDigit(s[k])
  {
    if s == "" then 0 else Meaning(s[..|s| - 1]) * 10 + DigitValue(s[|s| - 1])
  }

  function Repeat(c: char, n: int): (s: string)
    ensures |s| == if n < 0 then 0 else n
    ensures forall k | 0 <= k < |s| :: s[k] == c
  {
    if n <= 0 then "" else Repeat(c, n - 1) + [c]
  }

  /** What layoutIntUnsigned writes: zeros up to the precision, then padding, then the digits. */
  function Laid(i: nat, fieldWidth: int, precision: int, zeroPadded: bool): string
    decreases i
  {
    if i == 0 then Repeat('0', precision) + Repeat(if zeroPadded then '0' else ' ', fieldWidth - Max(precision, 0))
    else Laid(i / 10, fieldWidth - 1, precision - 1, zeroPadded) + [Digit(i % 10)]
  }

  function Max(a: int, b: int): int {
    if a < b then b else a
  }

  /** A digit written behind a numeral. */
  lemma DigitBehind(t: string, d: nat, s: string)
    requires d < 10 && s == t + [Digit(d)] && forall k | 0 <= k < |t| :: IsDigit(t[k])
    ensures forall k | 0 <= k < |s| :: IsDigit(s[k])
    ensures Meaning(s) == 10 * Meaning(t) + d && (t != "" ==> s[0] == t[0])
  {
    assert s[..|s| - 1] == t && s[|s| - 1] == Digit(d);
  }

  lemma {:induction false} NumeralMeans(i: nat)
    ensures forall k | 0 <= k < |Numeral(i)| :: IsDigit(Numeral(i)[k])
    ensures Meaning(Numeral(i)) == i
    ensures i > 0 ==> Numeral(i) != "" && Numeral(i)[0] != '0'
  {
    if i > 0 {
      NumeralMeans(i / 10);
      DigitBehind(Numeral(i / 10), i % 10, Numeral(i));
    }
  }

  lemma {:induction false} LaidIs(i: nat, fieldWidth: int, precision: int, zeroPadded: bool)
    ensures var n := |Numeral(i)|;
      Laid(i, fieldWidth, precision, zeroPadded)
        == Repeat('0', precision - n)
         + Repeat(if zeroPadded then '0' else ' ', fieldWidth - Max(precision, n))
         + Numeral(i)
    decreases i
  {
    if i > 0 {
      LaidIs(i / 10, fieldWidth - 1, precision - 1, zeroPadded);
      var n, c := |Numeral(i)|, [Digit(i % 10)];
      var z, p := Repeat('0', precision - n), Repeat(if zeroPadded then '0' else ' ', fieldWidth - Max(precision, n));
      assert |Numeral(i / 10)| == n - 1 && Max(precision - 1, n - 1) == Max(precision, n) - 1;
      assert (z + p + Numeral(i / 10)) + c == z + p + (Numeral(i / 10) + c);
    }
  }

  /** `s` is blanks and then a numeral for `i`. */
  ghost predicate Shows(s: string, i: nat) {
    exists k: nat :: k <= |s| && (forall j | 0 <= j < k :: s[j] == ' ') && Means(s[k..], i)
  }

  predicate Means(s: string, i: nat) {
    s != "" && (forall k | 0 <= k < |s| :: IsDigit(s[k])) && Meaning(s) == i
  }

  lemma {:induction false} ZerosMeanNothing(z: string, s: string)
    requires forall k | 0 <= k < |z| :: z[k] == '0'
    requires forall k | 0 <= k < |s| :: IsDigit(s[k])
    ensures forall k | 0 <= k < |z + s| :: IsDigit((z + s)[k])
    ensures Meaning(z + s) == Meaning(s)
    decreases |z| + |s|
  {
    if s == "" {
      assert z + s == z;
      if z != "" {
        assert z[..|z| - 1] + "" == z[..|z| - 1];
        ZerosMeanNothing(z[..|z| - 1], "");
      }
    } else {
      assert (z + s)[..|z + s| - 1] == z + s[..|s| - 1];
      ZerosMeanNothing(z, s[..|s| - 1]);
    }
  }

  /** The field is as wide as asked, or as wide as its digits and zeros need. */
  lemma LaidWidth(i: nat, fieldWidth: int, precision: int, zeroPadded: bool)
    ensures |Laid(i, fieldWidth, precision, zeroPadded)| == Max(fieldWidth, Max(precision, |Numeral(i)|))
  {
    LaidIs(i, fieldWidth, precision, zeroPadded);
  }

  lemma BlanksThenNumeral(p: string, d: string, i: nat)
    requires (forall j | 0 <= j < |p| :: p[j] == ' ') && Means(d, i)
    ensures Shows(p + d, i)
  {
    assert (p + d)[|p|..] == d;
  }

  lemma ZeroThenBlank(s: string, m: nat, i: nat)
    requires 0 < m < |s| && s[0] == '0' && s[m] == ' '
    ensures !Shows(s, i)
  {
    forall k: nat | k <= |s| && forall j | 0 <= j < k :: s[j] == ' '
      ensures !Means(s[k..], i)
    {
      assert k == 0 && s[k..][m] == ' ';
    }
  }

  /** Zeros, padding, digits: the field shows the number unless blanks follow zeros. */
  lemma FieldShowsExactly(z: string, p: string, d: string, i: nat, blank: bool)
    requires Means(d, i) && (forall j | 0 <= j < |z| :: z[j] == '0')
    requires forall j | 0 <= j < |p| :: p[j] == if blank then ' ' else '0'
    ensures Shows(z + p + d, i) <==> z == "" || p == "" || !blank
  {
    if z == "" && blank {
      BlanksThenNumeral(p, d, i);
      assert z + p + d == p + d;
    } else if p == "" || !blank {
      ZerosMeanNothing(z + p, d);
      BlanksThenNumeral("", z + p + d, i);
      assert "" + (z + p + d) == z + p + d;
    } else {
      ZeroThenBlank(z + p + d, |z|, i);
    }
  }

  /** With zeros to write in front of the digits and blanks too, the zeros come first. The field shows the number exactly
      when it need not hold both. */
  lemma LaidShowsExactly(i: nat, fieldWidth: int, precision: int, zeroPadded: bool)
    requires i > 0
    ensures Shows(Laid(i, fieldWidth, precision, zeroPadded), i)
       <==> precision <= |Numeral(i)| || zeroPadded || fieldWidth <= precision
  {
    var n := |Numeral(i)|;
    LaidIs(i, fieldWidth, precision, zeroPadded);
    NumeralMeans(i);
    FieldShowsExactly(Repeat('0', precision - n), Repeat(if zeroPadded then '0' else ' ', fieldWidth - Max(precision, n)),
                      Numeral(i), i, !zeroPadded);
  }

  /** Five in a field of four with two digits at least. */
  lemma ZerosBeforeBlanks()
    ensures Laid(5, 4, 2, false) == "0  5" && !Shows(Laid(5, 4, 2, false), 5)
  {
    assert Repeat('0', 1) == "0" && Repeat(' ', 2) == "  ";
    assert Laid(0, 3, 1, false) == "0  ";
    assert Numeral(5) == "5";
    LaidShowsExactly(5, 4, 2, false);
  }

  // ----- onto a stream -----

  class Stream {
    var written: string

    constructor ()
      ensures written == ""
    {
      written := "";
    }

    method Write(c: char)
      modifies this
      ensures written == old(written) + [c]
    {
      written := written + [c];
    }
  }

  /** One of the two loops of layoutIntUnsigned. */
  method WriteRun(stream: Stream, c: char, n: int)
    modifies stream
    ensures stream.written == old(stream.written) + Repeat(c, n)
  {
    var left := n;
    while left > 0
      invariant left <= n && left >= Min(n, 0) && stream.written == old(stream.written) + Repeat(c, n - left)
    {
      stream.Write(c);
      left := left - 1;
    }
    assert left < n || n <= 0;
  }

  /** layoutIntUnsigned. */
  method LayoutUnsigned(stream: Stream, i: u64, fieldWidth: int, precision: int, zeroPadded: bool)
    modifies stream
    ensures stream.written == old(stream.written) + Laid(i, fieldWidth, precision, zeroPadded)
    decreases i
  {
    if i != 0 {
      var next, mod := Udiv64By10(i);
      LayoutUnsigned(stream, next, fieldWidth - 1, precision - 1, zeroPadded);
      stream.Write(Digit(mod));
    } else {
      WriteRun(stream, '0', precision);
      WriteRun(stream, if zeroPadded then '0' else ' ', fieldWidth - Max(precision, 0));
    }
  }
}
