/** Addresses as text, common/packet.c: the parser with its `::` expansion, the printer, and what they make of each other. */
module Addresses {
  import opened Words
  import opened Wrappers

  const GROUPS: nat := 8

  // ----- digits -----

  function Hexit(n: nat): char {
    if n < 10 then '0' + n as char else if n < 16 then 'a' + (n - 10) as char else '?'
  }

  /** hexitToNibble; -1 for what is no digit. */
  function Nibble(c: char): int {
    if '0' <= c <= '9' then c as int - '0' as int
    else if 'a' <= c <= 'f' then c as int - 'a' as int + 10
    else if 'A' <= c <= 'F' then c as int - 'A' as int + 10
    else -1
  }

  const LOWER := "0123456789abcdef"
  const UPPER := "0123456789ABCDEF"

  /** Digits are written in lower case and read in both. */
  lemma DigitsRead(n: nat)
    requires n < 16
    ensures Hexit(n) == LOWER[n] && Nibble(LOWER[n]) == Nibble(UPPER[n]) == n
  {
  }

  /** No other character is a digit. */
  lemma OnlyDigitsRead(c: char)
    ensures Nibble(c) < 0 <==> c !in LOWER && c !in UPPER
  {
    if Nibble(c) >= 0 {
      DigitsRead(Nibble(c));
      assert c == LOWER[Nibble(c)] || c == UPPER[Nibble(c)];
    } else {
      forall n: nat | n < 16
        ensures c != LOWER[n] && c != UPPER[n]
      {
        DigitsRead(n);
      }
    }
  }

  lemma NibbleOfHexit(n: nat)
    requires n < 16
    ensures Nibble(Hexit(n)) == n && Hexit(n) != ':'
  {
  }

  function Scale(n: nat): nat
    requires n <= 4
  {
    if n == 0 then 1 else if n == 1 then 0x10 else if n == 2 then 0x100 else if n == 3 then 0x1000 else 0x1_0000
  }

  /** Up to four digits of `s` from `pos` on, `n` of them read into `word` already: the number and where it ends. */
  function Hex(s: string, pos: nat, word: nat, n: nat): (r: Option<(u16, nat)>)
    requires n <= 4 && word < Scale(n) && pos <= |s|
    ensures r.Some? ==> pos <= r.value.1 <= |s|
    decreases |s| - pos
  {
    if pos == |s| || s[pos] == ':' || n == 4 then Some((word, pos))
    else if Nibble(s[pos]) < 0 then None
    else Hex(s, pos + 1, word * 0x10 + Nibble(s[pos]), n + 1)
  }

  // ----- the parser -----

  /** From label HEX on: the groups of `s` from `pos` on, behind `words`; `skip` is where the `::` was, -1 if there was none
      yet. */
  function Groups(s: string, pos: nat, words: seq<u16>, skip: int): Option<(seq<u16>, int)>
    requires |words| < GROUPS && pos <= |s|
    decreases GROUPS - |words|
  {
    match Hex(s, pos, 0, 0)
    case None => None
    case Some((word, at)) =>
      var more := words + [word];
      if |more| == GROUPS then if at == |s| then Some((more, skip)) else None
      else if at == |s| then Some((more, skip))
      else if s[at] != ':' then None
      else if at + 1 < |s| && s[at + 1] == ':' then if skip >= 0 then None else Groups(s, at + 2, more, |more|)
      else Groups(s, at + 1, more, skip)
  }

  function Zeros(n: nat): (z: seq<u16>)
    ensures |z| == n && forall i | 0 <= i < n :: z[i] == 0
  {
    seq(n, _ => 0)
  }

  /** The first `m` turns of the loop at label DONE on the words from the `::` on: one word after the other moves `gap`
      places up. */
  function Shifted(w: seq<u16>, gap: nat, m: nat): (r: seq<u16>)
    requires gap + m <= |w|
    ensures |r| == |w|
  {
    if m == 0 then w
    else
      var v := Shifted(w, gap, m - 1);
      v[gap + m - 1 := v[m - 1]][m - 1 := 0]
  }

  /** From label DONE on. */
  function Finish(words: seq<u16>, skip: int): (r: Option<seq<u16>>)
    requires |words| <= GROUPS && skip <= |words|
    ensures r.Some? ==> |r.value| == GROUPS
  {
    if skip >= 0 then
      var gap := GROUPS - |words|;
      Some(words[..skip] + Shifted(words[skip..] + Zeros(gap), gap, |words| - skip))
    else if |words| < GROUPS then None
    else Some(words)
  }

  lemma {:induction false} GroupsShape(s: string, pos: nat, words: seq<u16>, skip: int)
    requires |words| < GROUPS && skip <= |words| && pos <= |s|
    ensures var r := Groups(s, pos, words, skip);
      r.Some? ==> |words| < |r.value.0| <= GROUPS && skip <= r.value.1 <= |r.value.0|
    decreases GROUPS - |words|
  {
    var h := Hex(s, pos, 0, 0);
    if h.Some? {
      var at, more := h.value.1, words + [h.value.0];
      if |more| < GROUPS && at < |s| && s[at] == ':' {
        if at + 1 < |s| && s[at + 1] == ':' {
          if skip < 0 {
            GroupsShape(s, at + 2, more, |more|);
          }
        } else {
          GroupsShape(s, at + 1, more, skip);
        }
      }
    }
  }

  /** The groups of `s` from `pos` on, and what label DONE makes of them. */
  function FromHex(s: string, pos: nat, words: seq<u16>, skip: int): (r: Option<seq<u16>>)
    requires |words| < GROUPS && skip <= |words| && pos <= |s|
    ensures r.Some? ==> |r.value| == GROUPS
  {
    GroupsShape(s, pos, words, skip);
    match Groups(s, pos, words, skip)
    case None => None
    case Some((all, at)) => Finish(all, at)
  }

  /** PackosAddrFromString. */
  function Parse(s: string): (r: Option<seq<u16>>)
    ensures r.Some? ==> |r.value| == GROUPS
  {
    if s == "" || (s[0] == ':' && (|s| == 1 || s[1] != ':')) then None
    else if s[0] == ':' then FromHex(s, 2, [], 0)
    else FromHex(s, 0, [], -1)
  }

  // ----- the expansion -----

  /** What the `m`th turn of the loop reads, in terms of the words moved. */
  function Read(v: seq<u16>, gap: nat, m: nat): u16
    requires m < |v|
    decreases m
  {
    if m < gap || gap == 0 then v[m] else Read(v, gap, m - gap)
  }

  /** The words after `m` turns: those read are cleared, those moved stand behind. */
  lemma {:induction false} ShiftedIs(v: seq<u16>, gap: nat, m: nat)
    requires m <= |v|
    ensures var w := v + Zeros(gap); var r := Shifted(w, gap, m);
      forall q | 0 <= q < |w| ::
        r[q] == if q < m then 0 else if gap <= q < gap + m then Read(v, gap, q - gap) else w[q]
  {
    if m > 0 {
      ShiftedIs(v, gap, m - 1);
      var w := v + Zeros(gap);
      var u, r := Shifted(w, gap, m - 1), Shifted(w, gap, m);
      assert w[m - 1] == v[m - 1];
      assert u[m - 1] == if gap <= m - 1 < gap + m - 1 then Read(v, gap, m - 1 - gap) else w[m - 1];
      assert u[m - 1] == Read(v, gap, m - 1);
      assert r == u[gap + m - 1 := u[m - 1]][m - 1 := 0];
    }
  }

  /** The words in front of a `::`, zeros, the words behind it. */
  function Expansion(front: seq<u16>, back: seq<u16>): seq<u16>
    requires |front| + |back| <= GROUPS
  {
    front + (Zeros(GROUPS - |front| - |back|) + back)
  }

  /** The words that the copy destroys, because it runs upwards over itself, are zero. */
  predicate NoneLost(back: seq<u16>, gap: nat) {
    forall j | 0 <= j < |back| && (j + gap < |back| || j >= gap) :: back[j] == 0
  }

  lemma {:induction false} ReadsZero(v: seq<u16>, gap: nat, m: nat)
    requires m + gap < |v| && forall j | 0 <= j < |v| - gap :: v[j] == 0
    ensures Read(v, gap, m) == 0
    decreases m
  {
    if m >= gap && gap > 0 {
      ReadsZero(v, gap, m - gap);
    }
  }

  /** What is read late in the loop is lost already. */
  lemma ReadLate(v: seq<u16>, gap: nat, m: nat)
    requires m < |v| && m >= gap > 0 && forall j | 0 <= j < |v| - gap :: v[j] == 0
    ensures Read(v, gap, m) == 0
  {
    ReadsZero(v, gap, m - gap);
  }

  lemma LostIsZero(v: seq<u16>, gap: nat, r: seq<u16>)
    requires |r| == gap + |v| && NoneLost(v, gap)
    requires forall q | 0 <= q < |r| ::
      r[q] == if q < |v| then 0 else if gap <= q then Read(v, gap, q - gap) else 0
    ensures r == Zeros(gap) + v
  {
    forall q | gap <= q < |r|
      ensures r[q] == v[q - gap]
    {
      var j := q - gap;
      if q >= |v| && j >= gap > 0 {
        ReadLate(v, gap, j);
      }
    }
  }

  lemma LostIsMissed(v: seq<u16>, gap: nat, r: seq<u16>)
    requires |r| == gap + |v| && !NoneLost(v, gap)
    requires forall q | 0 <= q < |r| ::
      r[q] == if q < |v| then 0 else if gap <= q then Read(v, gap, q - gap) else 0
    ensures r != Zeros(gap) + v
  {
    if r == Zeros(gap) + v {
      assert forall j | 0 <= j < |v| :: v[j] == r[gap + j];
      assert forall j | 0 <= j < |v| - gap :: v[j] == 0;
      forall j | gap <= j < |v|
        ensures v[j] == 0
      {
        if gap > 0 && j + gap >= |v| {
          ReadLate(v, gap, j);
        }
      }
      assert false;
    }
  }

  lemma TailExpandsExactly(v: seq<u16>, gap: nat)
    ensures Shifted(v + Zeros(gap), gap, |v|) == Zeros(gap) + v <==> NoneLost(v, gap)
  {
    var r := Shifted(v + Zeros(gap), gap, |v|);
    ShiftedIs(v, gap, |v|);
    if NoneLost(v, gap) {
      LostIsZero(v, gap, r);
    } else {
      LostIsMissed(v, gap, r);
    }
  }

  /** The expansion is right exactly if none of the words that the copy destroys matters; always if at least as many groups
      are elided as follow. */
  lemma ExpandsExactly(front: seq<u16>, back: seq<u16>)
    requires |front| + |back| <= GROUPS
    ensures var gap := GROUPS - |front| - |back|;
      && (Finish(front + back, |front|) == Some(Expansion(front, back)) <==> NoneLost(back, gap))
      && (gap >= |back| ==> NoneLost(back, gap))
  {
    var gap := GROUPS - |front| - |back|;
    var words, r := front + back, Shifted(back + Zeros(gap), gap, |back|);
    assert words[..|front|] == front && words[|front|..] == back;
    assert (front + r)[|front|..] == r && Expansion(front, back)[|front|..] == Zeros(gap) + back;
    TailExpandsExactly(back, gap);
  }

  // ----- what texts mean -----

  /** Up to four hexadecimal digits. None stand for zero. */
  predicate IsGroup(g: string) {
    |g| <= 4 && forall i | 0 <= i < |g| :: Nibble(g[i]) >= 0
  }

  /** The number of the first `k` digits. */
  function Number(g: string, k: nat): (n: nat)
    requires k <= |g| && IsGroup(g)
    ensures n < Scale(k) <= TWO_16
  {
    if k == 0 then 0 else Number(g, k - 1) * 0x10 + Nibble(g[k - 1])
  }

  /** `s` has the group `g` at `pos`, and a colon or its end behind it. */
  predicate GroupAt(s: string, pos: nat, g: string) {
    && IsGroup(g) && pos + |g| <= |s| && (forall i | 0 <= i < |g| :: s[pos + i] == g[i])
    && (pos + |g| < |s| ==> s[pos + |g|] == ':')
  }

  /** From `pos` to `end`, `s` is the groups from the `k`th on, with colons between them. */
  predicate Spells(s: string, pos: nat, gs: seq<string>, k: nat, end: nat)
    requires k <= |gs|
    decreases |gs| - k
  {
    if k == |gs| then false
    else
      && GroupAt(s, pos, gs[k])
      && if k + 1 == |gs| then end == pos + |gs[k]| else pos + |gs[k]| < |s| && Spells(s, pos + |gs[k]| + 1, gs, k + 1, end)
  }

  /** No group between the first and the last is empty. */
  predicate Filled(gs: seq<string>) {
    forall i | 0 < i < |gs| - 1 :: gs[i] != ""
  }

  /** `words` are the numbers of the groups. */
  predicate Numbers(gs: seq<string>, words: seq<u16>) {
    |words| == |gs| && forall i | 0 <= i < |gs| :: IsGroup(gs[i]) && words[i] == Number(gs[i], |gs[i]|)
  }

  /** Eight groups; only the last may be empty. */
  predicate Full(s: string, gs: seq<string>) {
    |gs| == GROUPS && gs[0] != "" && Filled(gs) && Spells(s, 0, gs, 0, |s|)
  }

  /** `s` is groups, possibly none, and a `::` at `end`. */
  predicate SkipAt(s: string, front: seq<string>, end: nat) {
    && end + 2 <= |s| && s[end] == ':' && s[end + 1] == ':'
    && (forall i | 0 <= i < |front| :: front[i] != "")
    && if front == [] then end == 0 else Spells(s, 0, front, 0, end)
  }

  /** Up to eight groups with a `::` at `end`. Behind it at least one group is read; the first and the last may be
      empty. */
  predicate Skipping(s: string, front: seq<string>, end: nat, back: seq<string>) {
    && SkipAt(s, front, end) && |front| + |back| <= GROUPS
    && back != [] && Filled(back) && Spells(s, end + 2, back, 0, |s|)
  }

  lemma {:induction false} HexReads(s: string, pos: nat, g: string, k: nat)
    requires GroupAt(s, pos, g) && k <= |g|
    ensures Hex(s, pos + k, Number(g, k), k) == Some((Number(g, |g|), pos + |g|))
    decreases |g| - k
  {
    if k < |g| {
      assert s[pos + k] == g[k];
      HexReads(s, pos, g, k + 1);
    }
  }

  /** Behind a group's colon no second one follows. */
  lemma NoSkipBefore(s: string, pos: nat, gs: seq<string>, k: nat, end: nat)
    requires k + 1 < |gs| && Spells(s, pos, gs, k, end) && (gs[k + 1] != "" || (k + 2 == |gs| && end == |s|))
    ensures pos + |gs[k]| < |s| && s[pos + |gs[k]|] == ':'
    ensures var at := pos + |gs[k]|; at + 1 < |s| ==> s[at + 1] != ':'
  {
    if gs[k + 1] != "" {
      assert s[pos + |gs[k]| + 1] == gs[k + 1][0];
    }
  }

  /** Groups to the end of the text, behind `base` words. */
  lemma {:induction false} GroupsToEnd(s: string, pos: nat, gs: seq<string>, k: nat, words: seq<u16>, base: nat, skip: int)
    requires k < |gs| && Spells(s, pos, gs, k, |s|) && Filled(gs) && base + |gs| == |words| <= GROUPS
    requires Numbers(gs, words[base..])
    ensures Groups(s, pos, words[..base + k], skip) == Some((words, skip))
    decreases |gs| - k
  {
    HexReads(s, pos, gs[k], 0);
    assert words[base + k] == words[base..][k];
    assert words[..base + k] + [words[base + k]] == words[..base + k + 1];
    if k + 1 == |gs| {
      assert words[..base + k + 1] == words;
    } else {
      NoSkipBefore(s, pos, gs, k, |s|);
      GroupsToEnd(s, pos + |gs[k]| + 1, gs, k + 1, words, base, skip);
    }
  }

  /** Groups up to a `::`. */
  lemma {:induction false} GroupsToSkip(s: string, pos: nat, gs: seq<string>, k: nat, end: nat, words: seq<u16>)
    requires k < |gs| < GROUPS && Spells(s, pos, gs, k, end) && Numbers(gs, words)
    requires forall i | 0 <= i < |gs| :: gs[i] != ""
    requires end + 2 <= |s| && s[end] == ':' && s[end + 1] == ':'
    ensures Groups(s, pos, words[..k], -1) == Groups(s, end + 2, words, |words|)
    decreases |gs| - k
  {
    HexReads(s, pos, gs[k], 0);
    assert words[..k] + [words[k]] == words[..k + 1];
    if k + 1 == |gs| {
      assert words[..k + 1] == words;
    } else {
      NoSkipBefore(s, pos, gs, k, end);
      GroupsToSkip(s, pos + |gs[k]| + 1, gs, k + 1, end, words);
    }
  }

  /** Eight groups with colons between them are the address they spell; an empty last one is zero. */
  lemma FullTextParses(s: string, gs: seq<string>, words: seq<u16>)
    requires Full(s, gs) && Numbers(gs, words)
    ensures Parse(s) == Some(words)
  {
    assert s[0] == gs[0][0] && words[0..] == words && words[..0] == [];
    GroupsToEnd(s, 0, gs, 0, words, 0, -1);
  }

  lemma SkipReads(s: string, front: seq<string>, end: nat, words: seq<u16>)
    requires |front| < GROUPS && SkipAt(s, front, end) && Numbers(front, words)
    ensures Parse(s) == FromHex(s, end + 2, words, |words|)
  {
    if front == [] {
      assert words == [];
    } else {
      assert s[0] == front[0][0] && words[..0] == [];
      GroupsToSkip(s, 0, front, 0, end, words);
    }
  }

  lemma SkipTextReads(s: string, front: seq<string>, end: nat, back: seq<string>, w: seq<u16>, v: seq<u16>)
    requires Skipping(s, front, end, back) && Numbers(front, w) && Numbers(back, v)
    ensures Parse(s) == Finish(w + v, |w|)
  {
    assert (w + v)[|w|..] == v && (w + v)[..|w|] == w;
    SkipReads(s, front, end, w);
    GroupsToEnd(s, end + 2, back, 0, w + v, |w|, |w|);
  }

  /** A text with a `::` parses to its full expansion exactly if the words that the copy destroys are zero; so always if at
      least as many groups are elided as follow, and never if eight are there and one behind the `::` is not zero. */
  lemma SkipTextParsesExactly(s: string, front: seq<string>, end: nat, back: seq<string>, w: seq<u16>, v: seq<u16>)
    requires Skipping(s, front, end, back) && Numbers(front, w) && Numbers(back, v)
    ensures var gap := GROUPS - |w| - |v|;
      && (Parse(s) == Some(Expansion(w, v)) <==> NoneLost(v, gap))
      && (gap >= |v| ==> NoneLost(v, gap))
  {
    SkipTextReads(s, front, end, back, w, v);
    ExpandsExactly(w, v);
  }

  /** A text that ends in `::` parses to its full expansion. */
  lemma OpenTextParses(s: string, front: seq<string>, end: nat, w: seq<u16>)
    requires SkipAt(s, front, end) && end + 2 == |s| && |front| < GROUPS && Numbers(front, w)
    ensures Parse(s) == Some(w + Zeros(GROUPS - |w|))
  {
    assert Spells(s, end + 2, [""], 0, |s|);
    SkipTextParsesExactly(s, front, end, [""], w, [0]);
    assert Expansion(w, [0]) == w + Zeros(GROUPS - |w|);
  }

  // ----- exactly which texts are accepted -----

  lemma {:induction false} HexStops(s: string, pos: nat, word: nat, n: nat)
    requires n <= 4 && word < Scale(n) && pos <= |s| && Hex(s, pos, word, n).Some?
    ensures var at := Hex(s, pos, word, n).value.1;
      n + at - pos <= 4 && forall i | pos <= i < at :: Nibble(s[i]) >= 0
    decreases |s| - pos
  {
    if pos < |s| && s[pos] != ':' && n < 4 {
      HexStops(s, pos + 1, word * 0x10 + Nibble(s[pos]), n + 1);
    }
  }

  /** What label HEX read is a group. */
  lemma HexIsGroup(s: string, pos: nat) returns (g: string)
    requires pos <= |s| && Hex(s, pos, 0, 0).Some?
    requires var at := Hex(s, pos, 0, 0).value.1; at < |s| ==> s[at] == ':'
    ensures GroupAt(s, pos, g) && Hex(s, pos, 0, 0).value.1 == pos + |g|
    ensures pos < |s| && s[pos] != ':' ==> g != ""
  {
    HexStops(s, pos, 0, 0);
    g := s[pos..Hex(s, pos, 0, 0).value.1];
    if pos < |s| && s[pos] != ':' {
      assert Hex(s, pos, 0, 0) == Hex(s, pos + 1, Nibble(s[pos]), 1);
    }
  }

  lemma {:induction false} SpellsBehind(s: string, pos: nat, g: string, gs: seq<string>, k: nat, end: nat)
    requires k <= |gs| && Spells(s, pos, gs, k, end)
    ensures Spells(s, pos, [g] + gs, k + 1, end)
    decreases |gs| - k
  {
    assert ([g] + gs)[k + 1] == gs[k];
    if k + 1 < |gs| {
      SpellsBehind(s, pos + |gs[k]| + 1, g, gs, k + 1, end);
    }
  }

  /** What was read without a further `::`. */
  lemma {:induction false} TailIsSpelt(s: string, pos: nat, words: seq<u16>, skip: int) returns (gs: seq<string>)
    requires |words| < GROUPS && pos <= |s|
    requires Groups(s, pos, words, skip).Some? && Groups(s, pos, words, skip).value.1 == skip <= |words|
    ensures gs != [] && Filled(gs) && Spells(s, pos, gs, 0, |s|)
    ensures |words| + |gs| == |Groups(s, pos, words, skip).value.0|
    ensures pos < |s| && s[pos] != ':' ==> gs[0] != ""
    ensures pos < |s| && gs[0] == "" ==> |gs| > 1
    decreases GROUPS - |words|
  {
    var g := HexIsGroup(s, pos);
    var more, at := words + [Hex(s, pos, 0, 0).value.0], pos + |g|;
    if |more| == GROUPS || at == |s| {
      gs := [g];
    } else if at + 1 < |s| && s[at + 1] == ':' {
      GroupsShape(s, at + 2, more, |more|);
      assert false;
    } else {
      var rest := TailIsSpelt(s, at + 1, more, skip);
      SpellsBehind(s, at + 1, g, rest, 0, |s|);
      gs := [g] + rest;
    }
  }

  /** What was read up to a `::` and behind it. */
  lemma {:induction false} FrontIsSpelt(s: string, pos: nat, words: seq<u16>)
    returns (front: seq<string>, end: nat, back: seq<string>)
    requires |words| < GROUPS && pos < |s| && s[pos] != ':'
    requires Groups(s, pos, words, -1).Some? && Groups(s, pos, words, -1).value.1 >= 0
    ensures front != [] && (forall i | 0 <= i < |front| :: front[i] != "") && Spells(s, pos, front, 0, end)
    ensures end + 2 <= |s| && s[end] == ':' && s[end + 1] == ':'
    ensures back != [] && Filled(back) && Spells(s, end + 2, back, 0, |s|) && |words| + |front| + |back| <= GROUPS
    decreases GROUPS - |words|
  {
    var g := HexIsGroup(s, pos);
    var more, at := words + [Hex(s, pos, 0, 0).value.0], pos + |g|;
    if at + 1 < |s| && s[at + 1] == ':' {
      GroupsShape(s, at + 2, more, |more|);
      SkipIsKept(s, at + 2, more, |more|);
      front, end := [g], at;
      back := TailIsSpelt(s, at + 2, more, |more|);
    } else {
      var rest;
      rest, end, back := FrontIsSpelt(s, at + 1, more);
      SpellsBehind(s, at + 1, g, rest, 0, end);
      front := [g] + rest;
    }
  }

  /** A second `::` is refused. */
  lemma {:induction false} SkipIsKept(s: string, pos: nat, words: seq<u16>, skip: int)
    requires |words| < GROUPS && pos <= |s| && skip >= 0
    ensures Groups(s, pos, words, skip).Some? ==> Groups(s, pos, words, skip).value.1 == skip
    decreases GROUPS - |words|
  {
    var h := Hex(s, pos, 0, 0);
    if h.Some? {
      var at, more := h.value.1, words + [h.value.0];
      if |more| < GROUPS && at < |s| && s[at] == ':' && !(at + 1 < |s| && s[at + 1] == ':') {
        SkipIsKept(s, at + 1, more, skip);
      }
    }
  }

  lemma AcceptedIsSpelt(s: string)
    requires Parse(s).Some?
    ensures (exists gs :: Full(s, gs)) || (exists front, end, back :: Skipping(s, front, end, back))
  {
    if s[0] == ':' {
      SkipIsKept(s, 2, [], 0);
      GroupsShape(s, 2, [], 0);
      var back := TailIsSpelt(s, 2, [], 0);
      assert Skipping(s, [], 0, back);
    } else if Groups(s, 0, [], -1).value.1 >= 0 {
      GroupsShape(s, 0, [], -1);
      var front, end, back := FrontIsSpelt(s, 0, []);
      assert Skipping(s, front, end, back);
    } else {
      GroupsShape(s, 0, [], -1);
      var gs := TailIsSpelt(s, 0, [], -1);
      assert Full(s, gs);
    }
  }

  lemma {:induction false} SpeltAreGroups(s: string, pos: nat, gs: seq<string>, k: nat, end: nat)
    requires k < |gs| && Spells(s, pos, gs, k, end)
    ensures forall i | k <= i < |gs| :: IsGroup(gs[i])
    decreases |gs| - k
  {
    if k + 1 < |gs| {
      SpeltAreGroups(s, pos + |gs[k]| + 1, gs, k + 1, end);
    }
  }

  lemma NumbersOf(gs: seq<string>) returns (words: seq<u16>)
    requires forall i | 0 <= i < |gs| :: IsGroup(gs[i])
    ensures Numbers(gs, words)
  {
    words := seq(|gs|, i requires 0 <= i < |gs| && IsGroup(gs[i]) => Number(gs[i], |gs[i]|));
  }

  lemma SpeltIsAccepted(s: string, front: seq<string>, end: nat, back: seq<string>)
    requires Skipping(s, front, end, back)
    ensures Parse(s).Some?
  {
    if front != [] {
      SpeltAreGroups(s, 0, front, 0, end);
    }
    SpeltAreGroups(s, end + 2, back, 0, |s|);
    var w := NumbersOf(front);
    var v := NumbersOf(back);
    SkipTextReads(s, front, end, back, w, v);
  }

  /** The parser accepts exactly these texts: eight groups of which only the last may be empty, or up to eight around one
      `::`, with the first and the last behind it possibly empty. */
  lemma AcceptsExactly(s: string)
    ensures Parse(s).Some?
       <==> (exists gs :: Full(s, gs)) || (exists front, end, back :: Skipping(s, front, end, back))
  {
    if Parse(s).Some? {
      AcceptedIsSpelt(s);
    }
    if gs :| Full(s, gs) {
      SpeltAreGroups(s, 0, gs, 0, |s|);
      var words := NumbersOf(gs);
      FullTextParses(s, gs, words);
    }
    if front, end, back :| Skipping(s, front, end, back) {
      SpeltIsAccepted(s, front, end, back);
    }
  }

  lemma OneDigit(g: string)
    requires |g| == 1 && Nibble(g[0]) >= 0
    ensures IsGroup(g) && Number(g, 1) == Nibble(g[0])
  {
    assert Number(g, 0) == 0;
  }

  /** Single digits, each with a colon behind it, and nothing behind the last. */
  lemma {:induction false} DigitsSpell(s: string, gs: seq<string>, k: nat)
    requires k < |gs| && |s| == 2 * |gs| - 2 && gs[|gs| - 1] == ""
    requires forall i | 0 <= i < |gs| - 1 :: gs[i] == [s[2 * i]] && s[2 * i + 1] == ':' && Nibble(s[2 * i]) >= 0
    ensures Spells(s, 2 * k, gs, k, |s|)
    decreases |gs| - k
  {
    if k + 1 < |gs| {
      DigitsSpell(s, gs, k + 1);
      assert GroupAt(s, 2 * k, gs[k]);
    }
  }

  const SEVEN := "1:2:3:4:5:6:7:"
  const SEVEN_GROUPS := ["1", "2", "3", "4", "5", "6", "7", ""]

  lemma SevenSpelt()
    ensures Full(SEVEN, SEVEN_GROUPS)
  {
    DigitsSpell(SEVEN, SEVEN_GROUPS, 0);
  }

  lemma SevenNumbers()
    ensures Numbers(SEVEN_GROUPS, [1, 2, 3, 4, 5, 6, 7, 0])
  {
    OneDigit("1");
    OneDigit("2");
    OneDigit("3");
    OneDigit("4");
    OneDigit("5");
    OneDigit("6");
    OneDigit("7");
  }

  /** Seven groups and a trailing colon are accepted: the last group is empty. */
  lemma TrailingColonAccepted()
    ensures Parse("1:2:3:4:5:6:7:") == Some([1, 2, 3, 4, 5, 6, 7, 0])
  {
    SevenSpelt();
    SevenNumbers();
    FullTextParses(SEVEN, SEVEN_GROUPS, [1, 2, 3, 4, 5, 6, 7, 0]);
  }

  /** So is a third colon behind a `::`: the first group behind it is empty. */
  lemma ThirdColonAccepted()
    ensures Parse("1:::2") == Some([1, 0, 0, 0, 0, 0, 0, 2])
  {
    var s, back := "1:::2", ["", "2"];
    OneDigit("1");
    OneDigit("2");
    assert Spells(s, 0, ["1"], 0, 1);
    assert Spells(s, 4, back, 1, 5);
    SkipTextParsesExactly(s, ["1"], 1, back, [1], [0, 2]);
    assert Expansion([1], [0, 2]) == [1, 0, 0, 0, 0, 0, 0, 2];
  }

  const SIX := "1:2:3::4:5:6"
  const FRONT := ["1", "2", "3"]
  const BACK := ["4", "5", "6"]

  lemma SixSpelt()
    ensures Skipping(SIX, FRONT, 5, BACK)
  {
    assert Spells(SIX, 4, FRONT, 2, 5);
    assert Spells(SIX, 2, FRONT, 1, 5);
    assert Spells(SIX, 11, BACK, 2, 12);
    assert Spells(SIX, 9, BACK, 1, 12);
  }

  lemma SixNumbers()
    ensures Numbers(FRONT, [1, 2, 3]) && Numbers(BACK, [4, 5, 6])
  {
    OneDigit("1");
    OneDigit("2");
    OneDigit("3");
    OneDigit("4");
    OneDigit("5");
    OneDigit("6");
  }

  /** Three groups in front of a `::` and three behind it: the copy destroys the last. */
  lemma ExpansionFails()
    ensures Parse("1:2:3::4:5:6").Some? && Parse("1:2:3::4:5:6") != Some([1, 2, 3, 0, 0, 4, 5, 6])
  {
    SixSpelt();
    SixNumbers();
    FailedExpansion(SIX, FRONT, 5, BACK, [1, 2, 3], [4, 5, 6]);
    assert Expansion([1, 2, 3], [4, 5, 6]) == [1, 2, 3, 0, 0, 4, 5, 6];
  }

  lemma FailedExpansion(s: string, front: seq<string>, end: nat, back: seq<string>, w: seq<u16>, v: seq<u16>)
    requires Skipping(s, front, end, back) && Numbers(front, w) && Numbers(back, v)
    requires v != [] && v[0] != 0 && GROUPS - |w| - |v| < |v|
    ensures Parse(s).Some? && Parse(s) != Some(Expansion(w, v))
  {
    SkipTextReads(s, front, end, back, w, v);
    SkipTextParsesExactly(s, front, end, back, w, v);
  }

  // ----- printing -----

  function Hexits(w: u16): string {
    [Hexit(w / 0x1000), Hexit(w / 0x100 % 0x10), Hexit(w / 0x10 % 0x10), Hexit(w % 0x10)]
  }

  /** The text of an address. */
  function Print(a: seq<u16>): (s: string)
    ensures |s| == if a == [] then 0 else 5 * |a| - 1
  {
    if a == [] then ""
    else Print(a[..|a| - 1]) + (if |a| == 1 then "" else ":") + Hexits(a[|a| - 1])
  }

  lemma HexitsDigits(w: u16)
    ensures var g := Hexits(w);
      && Nibble(g[0]) == w / 0x1000 && Nibble(g[1]) == w / 0x100 % 0x10
      && Nibble(g[2]) == w / 0x10 % 0x10 && Nibble(g[3]) == w % 0x10
  {
    NibbleOfHexit(w / 0x1000);
    NibbleOfHexit(w / 0x100 % 0x10);
    NibbleOfHexit(w / 0x10 % 0x10);
    NibbleOfHexit(w % 0x10);
  }

  lemma FourDigits(g: string, w: u16)
    requires |g| == 4 && Nibble(g[0]) == w / 0x1000 && Nibble(g[1]) == w / 0x100 % 0x10
    requires Nibble(g[2]) == w / 0x10 % 0x10 && Nibble(g[3]) == w % 0x10
    ensures IsGroup(g) && Number(g, 4) == w
  {
    assert Number(g, 1) == w / 0x1000;
    assert Number(g, 2) == w / 0x100;
    assert Number(g, 3) == w / 0x10;
  }

  lemma HexitsSpell(w: u16)
    ensures IsGroup(Hexits(w)) && Number(Hexits(w), 4) == w
  {
    HexitsDigits(w);
    FourDigits(Hexits(w), w);
  }

  lemma SliceOfFront(p: string, q: string, i: nat, j: nat)
    requires i <= j <= |p|
    ensures (p + q)[i..j] == p[i..j]
  {
  }

  lemma {:induction false} PrintedAt(a: seq<u16>, k: nat)
    requires k < |a|
    ensures var s := Print(a);
      5 * k + 4 <= |s| && s[5 * k..5 * k + 4] == Hexits(a[k]) && (k + 1 < |a| ==> s[5 * k + 4] == ':')
  {
    var n := |a| - 1;
    var p, sep, h := Print(a[..n]), if n == 0 then "" else ":", Hexits(a[n]);
    assert Print(a) == (p + sep) + h;
    if k == n {
      assert ((p + sep) + h)[5 * k..5 * k + 4] == h;
    } else {
      PrintedAt(a[..n], k);
      assert a[..n][k] == a[k];
      SliceOfFront(p + sep, h, 5 * k, 5 * k + 4);
      SliceOfFront(p, sep, 5 * k, 5 * k + 4);
    }
  }

  lemma GroupOfSlice(s: string, pos: nat, g: string)
    requires IsGroup(g) && pos + |g| <= |s| && s[pos..pos + |g|] == g && (pos + |g| < |s| ==> s[pos + |g|] == ':')
    ensures GroupAt(s, pos, g)
  {
    forall i | 0 <= i < |g|
      ensures s[pos + i] == g[i]
    {
      assert s[pos + i] == s[pos..pos + |g|][i];
    }
  }

  lemma {:induction false} PrintedSpells(a: seq<u16>, gs: seq<string>, k: nat)
    requires k < |a| == |gs| && forall i | 0 <= i < |a| :: gs[i] == Hexits(a[i])
    ensures Spells(Print(a), 5 * k, gs, k, |Print(a)|)
    decreases |a| - k
  {
    PrintedAt(a, k);
    HexitsSpell(a[k]);
    GroupOfSlice(Print(a), 5 * k, gs[k]);
    if k + 1 < |a| {
      PrintedSpells(a, gs, k + 1);
    }
  }

  /** Parsing what was printed gives back the address. */
  lemma PrintedParses(a: seq<u16>)
    requires |a| == GROUPS
    ensures Parse(Print(a)) == Some(a)
  {
    var gs := seq(|a|, i requires 0 <= i < |a| => Hexits(a[i]));
    forall i | 0 <= i < |gs|
      ensures IsGroup(gs[i]) && a[i] == Number(gs[i], |gs[i]|)
    {
      HexitsSpell(a[i]);
    }
    PrintedSpells(a, gs, 0);
    FullTextParses(Print(a), gs, a);
  }

  // ----- in place -----

  /** Label HEX: the digits of one group. */
  method ReadHex(s: string, pos: nat) returns (ok: bool, word: u16, at: nat)
    requires pos <= |s|
    ensures at <= |s| && Hex(s, pos, 0, 0) == if ok then Some((word, at)) else None
  {
    var wordSoFar: nat, n: nat := 0, 0;
    at := pos;
    while at < |s| && s[at] != ':' && n < 4
      invariant pos <= at <= |s| && n <= 4 && wordSoFar < Scale(n)
      invariant Hex(s, pos, 0, 0) == Hex(s, at, wordSoFar, n)
      decreases |s| - at
    {
      var nib := Nibble(s[at]);
      at := at + 1;
      if nib < 0 {
        return false, 0, at;
      }
      wordSoFar := wordSoFar * 0x10 + nib;
      n := n + 1;
    }
    ok, word := true, wordSoFar;
  }

  /** One turn of the loop, behind the words in front of the `::`. */
  lemma ExpandTurn(front: seq<u16>, w: seq<u16>, gap: nat, j: nat)
    requires gap + j < |w|
    ensures var v, n := Shifted(w, gap, j), |front|;
      front + Shifted(w, gap, j + 1) == (front + v)[n + gap + j := v[j]][n + j := 0]
  {
  }

  lemma ExpandDone(words: seq<u16>, skipStart: nat, m: nat, w: seq<u16>)
    requires |words| == GROUPS && skipStart + m <= GROUPS && w == words[skipStart..]
    requires forall i | skipStart + m <= i < GROUPS :: words[i] == 0
    ensures var gap := GROUPS - skipStart - m;
      Finish(words[..skipStart + m], skipStart) == Some(words[..skipStart] + Shifted(w, gap, m))
  {
    var gap := GROUPS - skipStart - m;
    assert words[..skipStart + m][..skipStart] == words[..skipStart];
    assert w == words[..skipStart + m][skipStart..] + Zeros(gap);
  }

  /** Label DONE: the loop that expands a `::`, over the address itself. */
  method Expand(words: array<u16>, skipStart: nat, numAfterSkip: nat)
    requires words.Length == GROUPS && skipStart + numAfterSkip <= GROUPS
    requires forall i | skipStart + numAfterSkip <= i < GROUPS :: words[i] == 0
    modifies words
    ensures Finish(old(words[..skipStart + numAfterSkip]), skipStart) == Some(words[..])
  {
    ghost var front, w, gap := words[..skipStart], words[skipStart..], GROUPS - skipStart - numAfterSkip;
    ExpandDone(words[..], skipStart, numAfterSkip, w);
    assert words[..][..skipStart + numAfterSkip] == words[..skipStart + numAfterSkip];
    var skipTo := GROUPS - numAfterSkip;
    for j := 0 to numAfterSkip
      invariant words[..] == front + Shifted(w, gap, j)
    {
      ExpandTurn(front, w, gap, j);
      ghost var before := words[..];
      words[skipTo + j] := words[skipStart + j];
      words[skipStart + j] := 0;
      assert words[..] == before[skipTo + j := before[skipStart + j]][skipStart + j := 0];
    }
  }

  /** PackosAddrFromString. A failure may leave any words behind; the caller gets the zero address then. */
  method FromString(s: string, words: array<u16>) returns (ok: bool)
    requires words.Length == GROUPS
    modifies words
    ensures ok == Parse(s).Some? && (ok ==> words[..] == Parse(s).value)
  {
    for k := 0 to GROUPS
      invariant forall j | 0 <= j < k :: words[j] == 0
    {
      words[k] := 0;
    }
    if s == "" {
      return false;
    }
    var skipStart, pos: nat := -1, 0;
    if s[0] == ':' {
      if |s| == 1 || s[1] != ':' {
        return false;
      }
      skipStart, pos := 0, 2;
    }
    assert words[..0] == [];
    ok := ReadGroups(s, pos, words, skipStart);
  }

  /** Labels HEX to DONE. */
  method ReadGroups(s: string, start: nat, words: array<u16>, skip: int) returns (ok: bool)
    requires words.Length == GROUPS && (forall j | 0 <= j < GROUPS :: words[j] == 0) && start <= |s| && -1 <= skip <= 0
    modifies words
    ensures ok == FromHex(s, start, [], skip).Some? && (ok ==> words[..] == FromHex(s, start, [], skip).value)
  {
    var i: nat, pos: nat, skipStart, numAfterSkip: nat := 0, start, skip, 0;
    assert words[..0] == [];
    while true
      invariant i < GROUPS && pos <= |s| && -1 <= skipStart <= i
      invariant numAfterSkip == if skipStart >= 0 then i - skipStart else 0
      invariant forall j | i <= j < GROUPS :: words[j] == 0
      invariant Groups(s, start, [], skip) == Groups(s, pos, words[..i], skipStart)
      decreases GROUPS - i
    {
      var fine, word, at := ReadHex(s, pos);
      if !fine {
        return false;
      }
      ghost var before := words[..i];
      words[i] := word;
      i := i + 1;
      assert words[..i] == before + [word];
      if skipStart >= 0 {
        numAfterSkip := numAfterSkip + 1;
      }
      if i == GROUPS && at < |s| {
        return false;
      }
      if at == |s| {
        break;
      }
      if s[at] != ':' {
        return false;
      }
      pos := at + 1;
      if pos < |s| && s[pos] == ':' {
        if skipStart >= 0 {
          return false;
        }
        skipStart, pos := i, pos + 1;
      }
    }
    if skipStart >= 0 {
      Expand(words, skipStart, numAfterSkip);
    } else if i < GROUPS {
      return false;
    }
    ok := true;
  }

  /** PackosAddrToString: the length of the text, which leaves room for its end in 40 bytes; -1 for a smaller buffer. */
  method ToString(words: array<u16>, buflen: nat) returns (r: int, buf: string)
    requires words.Length == GROUPS
    ensures r == if buflen < 40 then -1 else 39
    ensures buf == if r < 0 then "" else Print(words[..])
    ensures r >= 0 ==> |buf| == r < buflen
  {
    buf := "";
    if buflen < 40 {
      return -1, "";
    }
    for i := 0 to words.Length
      invariant buf == Print(words[..i])
    {
      assert words[..i + 1][..i] == words[..i];
      if |buf| > 0 {
        buf := buf + ":";
      }
      buf := buf + Hexits(words[i]);
    }
    assert words[..words.Length] == words[..];
    r := |buf|;
  }
}
