/** What the loops of the pool mean for the pool as one flat sequence of masks. */
module PoolTheorems {
  import opened Types
  import opened Sequences
  import opened Callbacks
  import opened Arithmetic
  import opened Pool4List

  // ---------------------------------------------------- adding and removing

  /** Removing what was just added restores the pool exactly when it was not listed before. */
  lemma RemoveUndoesAdd(entries: seq<Pool4Entry>, e: Pool4Entry)
    ensures Without(entries + [e], e) == entries <==> e !in entries
  {
    WithoutSplit(entries, [e], e);
    WithoutIsFilter(entries, e);
  }

  lemma {:induction false} WithoutIsFilter(entries: seq<Pool4Entry>, e: Pool4Entry)
    ensures e !in Without(entries, e)
    ensures e !in entries ==> Without(entries, e) == entries
    ensures multiset(Without(entries, e)) == multiset(entries)[e := 0]
  {
    if entries != [] {
      WithoutIsFilter(entries[1..], e);
      assert entries == [entries[0]] + entries[1..];
    }
  }

  /** An entry without masks leaves the flat sequence alone when all its copies are removed. */
  lemma {:induction false} FlatWithoutEmpty(entries: seq<Pool4Entry>, e: Pool4Entry)
    requires Ports(e) == []
    ensures Flat(Without(entries, e)) == Flat(entries)
  {
    if entries != [] {
      var front, last := entries[..|entries| - 1], entries[|entries| - 1];
      assert entries == front + [last];
      WithoutSplit(front, [last], e);
      FlatWithoutEmpty(front, e);
      FlatMapAppend(Ports, Without(front, e), Without([last], e));
    }
  }

  // -------------------------------------------------------------- counting

  /** How far an inverted range `min > max + 1` pulls the count below the number of ports. */
  ghost function Deficit(entries: seq<Pool4Entry>): (d: nat) {
    if entries == [] then 0 else
      var e := entries[|entries| - 1];
      Deficit(entries[..|entries| - 1]) + if e.min > e.max + 1 then e.min - e.max - 1 else 0
  }

  lemma {:induction false} CountIsLengthMinusDeficit(entries: seq<Pool4Entry>)
    ensures CountOf(entries) == Unsigned(|Flat(entries)| - Deficit(entries))
  {
    if entries != [] {
      var front, e := entries[..|entries| - 1], entries[|entries| - 1];
      CountIsLengthMinusDeficit(front);
      UnsignedAdd(|Flat(front)| - Deficit(front), e.max - e.min + 1);
    }
  }

  /** `pool4_count` is the sum of the range widths, modulo 2^32; an inverted range has a negative one. */
  lemma {:induction false} CountIsSum(entries: seq<Pool4Entry>)
    ensures CountOf(entries) == Sum((e: Pool4Entry) => e.max - e.min + 1, entries) % 0x1_0000_0000
  {
    if entries != [] {
      var front, e := entries[..|entries| - 1], entries[|entries| - 1];
      CountIsSum(front);
      UnsignedAdd(Sum((e: Pool4Entry) => e.max - e.min + 1, front), e.max - e.min + 1);
    }
  }

  /** The deficit is the number of masks less the sum of the widths. */
  lemma {:induction false} DeficitIsDifference(entries: seq<Pool4Entry>)
    ensures Deficit(entries) == |Flat(entries)| - Sum((e: Pool4Entry) => e.max - e.min + 1, entries)
  {
    if entries != [] {
      DeficitIsDifference(entries[..|entries| - 1]);
    }
  }

  lemma {:induction false} DeficitZero(entries: seq<Pool4Entry>)
    ensures Deficit(entries) == 0 <==> NotInverted(entries)
    ensures Deficit(entries) <= 0x1_0000 * |entries|
  {
    if entries != [] {
      var front := entries[..|entries| - 1];
      DeficitZero(front);
      assert entries == front + [entries[|entries| - 1]];
      assert NotInverted(entries) <==>
             NotInverted(front) && entries[|entries| - 1].min <= entries[|entries| - 1].max + 1;
    }
  }

  /** Every range is ascending, or empty with adjacent bounds. */
  ghost predicate NotInverted(entries: seq<Pool4Entry>) {
    forall k :: 0 <= k < |entries| ==> entries[k].min <= entries[k].max + 1
  }

  ghost predicate WellFormed(entries: seq<Pool4Entry>) {
    NotInverted(entries) && Countable(entries)
  }

  /**
   `pool4_count` is the number of masks exactly when what inverted ranges pull it
   down by is a multiple of 2^32. Without inverted ranges that is nothing, and
   with fewer than 2^16 entries it cannot be anything else.
   */
  lemma CountExact(entries: seq<Pool4Entry>)
    requires Countable(entries)
    ensures Signed(CountOf(entries)) == |Flat(entries)| <==> Deficit(entries) % 0x1_0000_0000 == 0
    ensures NotInverted(entries) ==> Signed(CountOf(entries)) == |Flat(entries)| == CountOf(entries)
    ensures |entries| < 0x1_0000 && Signed(CountOf(entries)) == |Flat(entries)| ==> NotInverted(entries)
  {
    CountIsLengthMinusDeficit(entries);
    DeficitZero(entries);
    SignedRemainder(|Flat(entries)|, Deficit(entries));
  }

  lemma CountIsLength(entries: seq<Pool4Entry>)
    requires WellFormed(entries)
    ensures CountOf(entries) == |Flat(entries)|
  {
    CountExact(entries);
  }

  // ------------------------------------------------------------- iterating

  /** In a well-formed pool the walk starts at the offset modulo the number of masks. */
  lemma ForeachIsRotation(entries: seq<Pool4Entry>, offset: uint32)
    requires WellFormed(entries) && Flat(entries) != []
    ensures CountOf(entries) != 0
    ensures Rotate(Flat(entries), RotationPoint(entries, offset)) ==
            Rotate(Flat(entries), offset % |Flat(entries)|)
  {
    CountIsLength(entries);
    var n := |Flat(entries)|;
    if offset < n {
      ModUnique(0, n, offset);
      assert RotationPoint(entries, offset) == offset;
    } else if offset == n {
      ModUnique(1, n, 0);
      assert RotationPoint(entries, offset) == n;
      RotateWhole(Flat(entries));
    } else {
      assert RotationPoint(entries, offset) == offset % n;
    }
  }

  /** With a callback that always answers 0 every mask is visited exactly once, in rotated order. */
  lemma QuietForeachVisitsAll(entries: seq<Pool4Entry>, offset: uint32, cb: Callback<Pool4Mask>,
                              visited: seq<Pool4Mask>, error: int)
    requires WellFormed(entries) && Flat(entries) != [] && CountOf(entries) != 0
    requires forall history :: cb(history) == 0
    requires IsVisit(Rotate(Flat(entries), RotationPoint(entries, offset)), cb, visited, error)
    ensures error == 0 && |visited| == |Flat(entries)| && multiset(visited) == multiset(Flat(entries))
    ensures forall i :: 0 <= i < |visited| ==> visited[i] == Flat(entries)[(offset + i) % |Flat(entries)|]
  {
    ForeachIsRotation(entries, offset);
    QuietVisit(Flat(entries), offset, cb, visited, error);
  }

  // ---------------------------------------------------------------- tiling

  function Clip(x: nat, n: nat): (r: nat) {
    if x <= n then x else n
  }

  /** The masks of client position `p`; the last block may be short. */
  ghost function Block<T>(s: seq<T>, p: nat, m: nat): (b: seq<T>) {
    s[Clip(Times(p, m), |s|)..Clip(Times(p, m) + m, |s|)]
  }

  /** The first `c` blocks, one after the other. */
  ghost function Blocks<T>(s: seq<T>, m: nat, c: nat): (b: seq<T>) {
    if c == 0 then [] else Blocks(s, m, c - 1) + Block(s, c - 1, m)
  }

  lemma {:induction false} BlocksPrefix<T>(s: seq<T>, m: nat, c: nat)
    ensures Blocks(s, m, c) == s[..Clip(Times(c, m), |s|)]
  {
    if c > 0 {
      BlocksPrefix(s, m, c - 1);
      var a := Times(c - 1, m);
      PrefixPlusSlice(s, Clip(a, |s|), Clip(a + m, |s|));
    }
  }

  lemma PrefixPlusSlice<T>(s: seq<T>, a: nat, b: nat)
    requires a <= b <= |s|
    ensures s[..a] + s[a..b] == s[..b]
  {
  }

  /** How many client positions have a block of `m` masks in the pool. */
  ghost function BlockCount(entries: seq<Pool4Entry>, m: nat): (c: nat) {
    if m == 0 then 0 else Chunks(|Flat(entries)|, m)
  }

  /** Position `p` has a block iff `p * m` is a position of the pool. */
  lemma HasBlock(entries: seq<Pool4Entry>, p: nat, m: nat)
    ensures p < BlockCount(entries, m) <==> m > 0 && p * m < |Flat(entries)|
    ensures p * m == Times(p, m)
  {
    TimesIsProduct(p, m);
    if m > 0 {
      ChunksCount(|Flat(entries)|, m, p);
    }
  }

  /**
   `pool4_taddr4_find_pos` accepts exactly the first `BlockCount` positions, and each
   of their blocks starts with the mask it writes. A block is full unless the pool ends.
   */
  lemma BlockOfPosition(entries: seq<Pool4Entry>, p: nat, m: uint32, prior: MaskDomain)
    requires m > 0
    ensures p < BlockCount(entries, m) ==>
              && Block(Flat(entries), p, m) != []
              && DomainAt(entries, p, prior, m) == MaskDomain(Block(Flat(entries), p, m)[0].Taddr(), 1, m)
    ensures p >= BlockCount(entries, m) ==> DomainAt(entries, p, prior, m) == prior
    ensures Times(p + 1, m) <= |Flat(entries)| ==> |Block(Flat(entries), p, m)| == m
  {
    ChunksCount(|Flat(entries)|, m, p);
  }

  /** Every mask of the pool lies in the block of exactly one accepted position. */
  lemma BlocksDisjoint(entries: seq<Pool4Entry>, index: nat, p: nat, m: uint32)
    requires m > 0 && index < |Flat(entries)|
    ensures p < BlockCount(entries, m) && p * m <= index < p * m + m <==> p == index / m
  {
    InBlock(index, p, m);
    HasBlock(entries, p, m);
  }

  /** The blocks of the accepted positions, in position order, are the pool. */
  lemma BlocksTile(entries: seq<Pool4Entry>, m: uint32)
    requires m > 0
    ensures Blocks(Flat(entries), m, BlockCount(entries, m)) == Flat(entries)
  {
    var c := BlockCount(entries, m);
    BlocksPrefix(Flat(entries), m, c);
    ChunksCount(|Flat(entries)|, m, c);
  }

  // -------------------------------------------------- the nth mask of a domain

  /** Every `step`-th port from `i` up to `max`. */
  function Stride(addr: uint32, i: nat, max: uint16, step: nat): (s: seq<TransportAddr>)
    requires step > 0
    decreases max + 1 - i
  {
    if i > max then [] else [TransportAddr(addr, i)] + Stride(addr, i + step, max, step)
  }

  /** The strided walk restarts at `min` in every entry. */
  function StridedTail(entries: seq<Pool4Entry>, step: nat): (s: seq<TransportAddr>)
    requires step > 0
  {
    if entries == [] then [] else
      Stride(entries[0].addr, entries[0].min, entries[0].max, step) + StridedTail(entries[1..], step)
  }

  /** The walk of a domain: from its first mask to the end of that entry, then the later entries. */
  function Strided(entries: seq<Pool4Entry>, domain: MaskDomain): (s: seq<TransportAddr>)
    requires domain.step > 0
  {
    if entries == [] then []
    else if Starts(entries[0], domain.first) then
      Stride(entries[0].addr, domain.first.l4, entries[0].max, domain.step) + StridedTail(entries[1..], domain.step)
    else Strided(entries[1..], domain)
  }

  /** Its elements: `i + j * step` for as long as that does not exceed `max`. */
  lemma {:induction false} StrideAt(addr: uint32, i: nat, max: uint16, step: nat, j: nat)
    requires step > 0
    ensures j < |Stride(addr, i, max, step)| <==> i + j * step <= max
    ensures i + j * step <= max ==> Stride(addr, i, max, step)[j] == TransportAddr(addr, i + j * step)
    decreases max + 1 - i
  {
    assert j > 0 ==> j * step == (j - 1) * step + step;
    if i <= max && j > 0 {
      StrideAt(addr, i + step, max, step, j - 1);
    }
  }

  /** The later entries are walked one after the other, each from its first port. */
  lemma {:induction false} StridedTailAppend(xs: seq<Pool4Entry>, ys: seq<Pool4Entry>, step: nat)
    requires step > 0
    ensures StridedTail(xs + ys, step) == StridedTail(xs, step) + StridedTail(ys, step)
    ensures forall e: Pool4Entry :: StridedTail([e], step) == Stride(e.addr, e.min, e.max, step)
  {
    if xs == [] {
      assert xs + ys == ys;
    } else {
      assert (xs + ys)[1..] == xs[1..] + ys;
      StridedTailAppend(xs[1..], ys, step);
    }
  }

  function At<T>(s: seq<T>, n: nat): (x: Option<T>) {
    if n < |s| then Some(s[n]) else None
  }

  lemma AtAppend<T>(s: seq<T>, t: seq<T>, n: nat)
    ensures At(s + t, n) == if n < |s| then Some(s[n]) else At(t, n - |s|)
  {
  }

  /** Steps up to this bound never overflow the loop variable. */
  const MAX_STEP: int := INT_MAX - 0xffff

  lemma {:induction false} ScanIsStride(addr: uint32, i: nat, max: uint16, step: uint32, n: uint32)
    requires 0 < step <= MAX_STEP
    ensures var s := Stride(addr, i, max, step);
            if n < |s| then s[n].l3 == addr && ScanRange(i, max, step, n) == Hit(s[n].l4)
            else ScanRange(i, max, step, n) == Miss(n - |s|)
    decreases n
  {
    if i <= max && n > 0 {
      SignedSmall(i + step);
      ScanIsStride(addr, i + step, max, step, n - 1);
      var rest := Stride(addr, i + step, max, step);
      assert Stride(addr, i, max, step) == [TransportAddr(addr, i)] + rest;
      assert ScanRange(i, max, step, n) == ScanRange(i + step, max, step, n - 1);
    }
  }

  lemma {:induction false} ScanEntriesIsStrided(entries: seq<Pool4Entry>, step: uint32, n: uint32)
    requires 0 < step <= MAX_STEP
    ensures ScanEntries(entries, step, n) == At(StridedTail(entries, step), n)
  {
    if entries != [] {
      ScanIsStride(entries[0].addr, entries[0].min, entries[0].max, step, n);
      var s := Stride(entries[0].addr, entries[0].min, entries[0].max, step);
      if n >= |s| {
        ScanEntriesIsStrided(entries[1..], step, n - |s|);
      }
    }
  }

  /** `pool4_get_nth_taddr` picks element `n` of the strided walk, or fails when it is shorter. */
  lemma {:induction false} NthIsStrided(entries: seq<Pool4Entry>, domain: MaskDomain, n: uint32)
    requires 0 < domain.step <= MAX_STEP
    ensures NthTaddr(entries, domain, n) == At(Strided(entries, domain), n)
  {
    if entries == [] {
    } else if Starts(entries[0], domain.first) {
      ScanIsStride(entries[0].addr, domain.first.l4, entries[0].max, domain.step, n);
      var s := Stride(entries[0].addr, domain.first.l4, entries[0].max, domain.step);
      if n >= |s| {
        ScanEntriesIsStrided(entries[1..], domain.step, n - |s|);
      }
    } else {
      NthIsStrided(entries[1..], domain, n);
    }
  }

  /** The loop variable after `j` steps of any size, from `i`: it wraps round like a 32-bit int. */
  ghost function WalkAt(i: int, step: uint32, j: nat): (x: int) {
    Signed(i + Times(j, step))
  }

  lemma WalkShift(i: int, step: uint32, j: nat)
    ensures WalkAt(Signed(i + step), step, j) == WalkAt(i, step, j + 1)
  {
    UnsignedAdd(i + step, Times(j, step));
    UnsignedAdd(Signed(i + step), Times(j, step));
    UnsignedSigned(Unsigned(i + step));
  }

  /**
   The walk of one range with any step: it hits the `n`-th value if no value up to
   then exceeds `max`, and otherwise misses at the first one that does.
   */
  lemma {:induction false} ScanWraps(i: int, max: uint16, step: uint32, n: uint32) returns (len: nat)
    requires Signed(i) == i
    ensures len <= n + 1 && forall j: nat :: j < len ==> WalkAt(i, step, j) <= max
    ensures len == n + 1 ==> ScanRange(i, max, step, n) == Hit(WalkAt(i, step, n) % 0x1_0000)
    ensures len <= n ==> WalkAt(i, step, len) > max && ScanRange(i, max, step, n) == Miss(n - len)
    decreases n
  {
    assert WalkAt(i, step, 0) == i;
    if i > max {
      len := 0;
    } else if n == 0 {
      len := 1;
    } else {
      var next := Signed(i + step);
      UnsignedSigned(Unsigned(i + step));
      var rest := ScanWraps(next, max, step, n - 1);
      len := rest + 1;
      WalkShift(i, step, rest);
      WalkShift(i, step, n - 1);
      forall j: nat | j < len
        ensures WalkAt(i, step, j) <= max
      {
        if j > 0 {
          WalkShift(i, step, j - 1);
        }
      }
    }
  }

  /** The first `b` ports, at most, of the walk of one range with any step. */
  function StrideUpTo(addr: uint32, i: int, max: uint16, step: uint32, b: nat): (s: seq<TransportAddr>)
    decreases b
  {
    if b == 0 || i > max then [] else
      [TransportAddr(addr, i % 0x1_0000)] + StrideUpTo(addr, Signed(i + step), max, step, b - 1)
  }

  /** They are the wrapped values `i + j * step`, up to the first that exceeds `max`. */
  lemma {:induction false} StrideUpToAt(addr: uint32, i: int, max: uint16, step: uint32, b: nat, j: nat)
    requires Signed(i) == i
    ensures var s := StrideUpTo(addr, i, max, step, b);
            && |s| <= b
            && (j < |s| ==> WalkAt(i, step, j) <= max && s[j] == TransportAddr(addr, WalkAt(i, step, j) % 0x1_0000))
            && (j == |s| < b ==> WalkAt(i, step, j) > max)
    decreases b
  {
    assert WalkAt(i, step, 0) == i;
    if b > 0 && i <= max {
      var next := Signed(i + step);
      UnsignedSigned(Unsigned(i + step));
      StrideUpToAt(addr, next, max, step, b - 1, if j > 0 then j - 1 else 0);
      if j > 0 {
        WalkShift(i, step, j - 1);
      }
    }
  }

  function TailUpTo(entries: seq<Pool4Entry>, step: uint32, b: nat): (s: seq<TransportAddr>) {
    if entries == [] then [] else
      StrideUpTo(entries[0].addr, entries[0].min, entries[0].max, step, b) + TailUpTo(entries[1..], step, b)
  }

  /** The walk of a domain with any step, of which at most `b` ports are taken from each entry. */
  function WalkUpTo(entries: seq<Pool4Entry>, domain: MaskDomain, b: nat): (s: seq<TransportAddr>) {
    if entries == [] then []
    else if Starts(entries[0], domain.first) then
      StrideUpTo(entries[0].addr, domain.first.l4, entries[0].max, domain.step, b) +
      TailUpTo(entries[1..], domain.step, b)
    else WalkUpTo(entries[1..], domain, b)
  }

  lemma {:induction false} TailUpToAppend(xs: seq<Pool4Entry>, ys: seq<Pool4Entry>, step: uint32, b: nat)
    ensures TailUpTo(xs + ys, step, b) == TailUpTo(xs, step, b) + TailUpTo(ys, step, b)
    ensures forall e: Pool4Entry :: TailUpTo([e], step, b) == StrideUpTo(e.addr, e.min, e.max, step, b)
  {
    if xs == [] {
      assert xs + ys == ys;
    } else {
      assert (xs + ys)[1..] == xs[1..] + ys;
      TailUpToAppend(xs[1..], ys, step, b);
    }
  }

  /** The walk begins in the first entry that has the domain's first port below its last one. */
  lemma {:induction false} WalkBegins(entries: seq<Pool4Entry>, domain: MaskDomain, b: nat, k: nat)
    requires k <= |entries|
    requires forall j :: 0 <= j < k ==> !Starts(entries[j], domain.first)
    ensures k == |entries| ==> WalkUpTo(entries, domain, b) == []
    ensures k < |entries| && Starts(entries[k], domain.first) ==>
              WalkUpTo(entries, domain, b) ==
              StrideUpTo(entries[k].addr, domain.first.l4, entries[k].max, domain.step, b) +
              TailUpTo(entries[k + 1..], domain.step, b)
  {
    if k > 0 {
      WalkBegins(entries[1..], domain, b, k - 1);
      if k < |entries| {
        assert entries[1..][k..] == entries[k + 1..];
      }
    }
  }

  lemma {:induction false} ScanIsStrideUpTo(addr: uint32, i: int, max: uint16, step: uint32, n: uint32, b: nat)
    requires n < b
    ensures var s := StrideUpTo(addr, i, max, step, b);
            if n < |s| then s[n].l3 == addr && ScanRange(i, max, step, n) == Hit(s[n].l4)
            else ScanRange(i, max, step, n) == Miss(n - |s|)
    decreases b
  {
    if i <= max && n > 0 {
      ScanIsStrideUpTo(addr, Signed(i + step), max, step, n - 1, b - 1);
    }
  }

  lemma {:induction false} ScanEntriesIsTail(entries: seq<Pool4Entry>, step: uint32, n: uint32, b: nat)
    requires n < b
    ensures ScanEntries(entries, step, n) == At(TailUpTo(entries, step, b), n)
  {
    if entries != [] {
      var s := StrideUpTo(entries[0].addr, entries[0].min, entries[0].max, step, b);
      ScanIsStrideUpTo(entries[0].addr, entries[0].min, entries[0].max, step, n, b);
      AtAppend(s, TailUpTo(entries[1..], step, b), n);
      if n >= |s| {
        ScanEntriesIsTail(entries[1..], step, n - |s|, b);
      }
    }
  }

  /**
   `pool4_get_nth_taddr` for every 32-bit step: element `n` of the walk, wherever
   beyond `n` the walk of each entry is cut off.
   */
  lemma {:induction false} NthIsWalk(entries: seq<Pool4Entry>, domain: MaskDomain, n: uint32, b: nat)
    requires n < b
    ensures NthTaddr(entries, domain, n) == At(WalkUpTo(entries, domain, b), n)
  {
    if entries == [] {
    } else if Starts(entries[0], domain.first) {
      var s := StrideUpTo(entries[0].addr, domain.first.l4, entries[0].max, domain.step, b);
      ScanIsStrideUpTo(entries[0].addr, domain.first.l4, entries[0].max, domain.step, n, b);
      AtAppend(s, TailUpTo(entries[1..], domain.step, b), n);
      if n >= |s| {
        ScanEntriesIsTail(entries[1..], domain.step, n - |s|, b);
      }
    } else {
      NthIsWalk(entries[1..], domain, n, b);
    }
  }

  lemma {:induction false} ScanWithoutStep(i: uint16, max: uint16, n: uint32)
    requires i <= max
    ensures ScanRange(i, max, 0, n) == Hit(i)
    decreases n
  {
    if n > 0 {
      ScanWithoutStep(i, max, n - 1);
    }
  }

  /** A domain with step 0 has only its first mask, whatever `n` is. */
  lemma {:induction false} NthWithoutStep(entries: seq<Pool4Entry>, domain: MaskDomain, n: uint32)
    requires domain.step == 0
    ensures NthTaddr(entries, domain, n) ==
            if exists e :: e in entries && Starts(e, domain.first) then Some(domain.first) else None
  {
    if entries == [] {
    } else if Starts(entries[0], domain.first) {
      ScanWithoutStep(domain.first.l4, entries[0].max, n);
    } else {
      NthWithoutStep(entries[1..], domain, n);
      assert forall e :: e in entries <==> e == entries[0] || e in entries[1..];
    }
  }

  // --------------------------------- composing find_pos and get_nth_taddr

  predicate CoveredBy(e: Pool4Entry, t: TransportAddr) {
    e.addr == t.l3 && e.min <= t.l4 <= e.max
  }

  /** Two entries share an (address, port). */
  predicate Overlap(e: Pool4Entry, f: Pool4Entry) {
    e.addr == f.addr && e.min <= e.max && f.min <= f.max && e.min <= f.max && f.min <= e.max
  }

  /** No (address, port) occurs in two entries. */
  ghost predicate Disjoint(entries: seq<Pool4Entry>) {
    forall j, k :: 0 <= j < k < |entries| ==> !Overlap(entries[j], entries[k])
  }

  /** `t` is the last port of an entry. */
  ghost predicate EndsEntry(entries: seq<Pool4Entry>, t: TransportAddr) {
    exists k :: 0 <= k < |entries| && CoveredBy(entries[k], t) && entries[k].max == t.l4
  }

  /** The entry that a mask of the pool belongs to. */
  lemma MaskOwner(entries: seq<Pool4Entry>, pos: nat) returns (k: nat)
    requires pos < |Flat(entries)|
    ensures k < |entries| && CoveredBy(entries[k], Flat(entries)[pos].Taddr())
    ensures pos == |Flat(entries[..k])| + Flat(entries)[pos].port - entries[k].min
  {
    var i;
    k, i := FlatMapLocate(Ports, entries, pos);
    FlatMapAt(Ports, entries, k, i);
  }

  lemma EarlierEntry(entries: seq<Pool4Entry>, j: nat, k: nat)
    requires j < k <= |entries|
    ensures |Flat(entries[..j])| + |Ports(entries[j])| <= |Flat(entries[..k])|
  {
    assert entries[..k][..j] == entries[..j];
    FlatMapSplit(Ports, entries[..k], j);
  }

  /** Disjoint entries mean that no (address, port) occurs twice in the flat sequence, and conversely. */
  lemma DisjointIffDistinct(entries: seq<Pool4Entry>)
    ensures Disjoint(entries) <==>
            forall a, b :: 0 <= a < b < |Flat(entries)| ==> Flat(entries)[a].Taddr() != Flat(entries)[b].Taddr()
  {
    if Disjoint(entries) {
      forall a, b | 0 <= a < b < |Flat(entries)|
        ensures Flat(entries)[a].Taddr() != Flat(entries)[b].Taddr()
      {
        DisjointMasks(entries, a, b);
      }
    } else {
      var j, k :| 0 <= j < k < |entries| && Overlap(entries[j], entries[k]);
      var port := if entries[j].min <= entries[k].min then entries[k].min else entries[j].min;
      FlatAt(entries, j, port);
      FlatAt(entries, k, port);
      EarlierEntry(entries, j, k);
    }
  }

  lemma DisjointMasks(entries: seq<Pool4Entry>, a: nat, b: nat)
    requires Disjoint(entries) && a < b < |Flat(entries)|
    ensures Flat(entries)[a].Taddr() != Flat(entries)[b].Taddr()
  {
    var j := MaskOwner(entries, a);
    var k := MaskOwner(entries, b);
    if j < k {
      assert !Overlap(entries[j], entries[k]);
    } else if k < j {
      assert !Overlap(entries[k], entries[j]);
    }
  }

  /** A disjoint pool lists an entry with masks once. */
  lemma WithoutOnce(entries: seq<Pool4Entry>, e: Pool4Entry, k: nat)
    requires Disjoint(entries) && Ports(e) != [] && k < |entries| && entries[k] == e
    ensures Without(entries, e) == entries[..k] + entries[k + 1..]
  {
    var before, behind := entries[..k], entries[k + 1..];
    ListedOnce(entries, e, k);
    assert Without(before, e) == before && Without(behind, e) == behind by {
      WithoutIsFilter(before, e);
      WithoutIsFilter(behind, e);
    }
    WithoutAround(before, e, behind, e);
    SplitAt(entries, k);
  }

  /** Each entry is kept in its place or dropped, as it differs from `e` or not. */
  lemma WithoutAround(before: seq<Pool4Entry>, x: Pool4Entry, behind: seq<Pool4Entry>, e: Pool4Entry)
    ensures Without(before + ([x] + behind), e) ==
            Without(before, e) + ((if x == e then [] else [x]) + Without(behind, e))
  {
    WithoutSplit(before, [x] + behind, e);
    WithoutSplit([x], behind, e);
  }

  lemma ListedOnce(entries: seq<Pool4Entry>, e: Pool4Entry, k: nat)
    requires Disjoint(entries) && Ports(e) != [] && k < |entries| && entries[k] == e
    ensures e !in entries[..k] && e !in entries[k + 1..]
  {
    assert Overlap(e, e);
    forall j | 0 <= j < |entries| && j != k
      ensures entries[j] != e
    {
      assert !Overlap(entries[if j < k then j else k], entries[if j < k then k else j]);
    }
  }

  /** Removing `e` does not move the mask at `pos`: it is not listed, has no masks, or its masks come later. */
  ghost predicate StaysPut(entries: seq<Pool4Entry>, e: Pool4Entry, pos: nat) {
    e !in entries || Ports(e) == [] || pos < |Flat(entries[..FirstIndex(entries, e)])|
  }

  /** Otherwise the mask that was as far behind as the entry has masks takes its place. */
  lemma FlatAfterRemove(entries: seq<Pool4Entry>, e: Pool4Entry, pos: nat)
    requires Disjoint(entries) && pos < |Flat(Without(entries, e))|
    ensures var from := if StaysPut(entries, e, pos) then pos else pos + |Ports(e)|;
            from < |Flat(entries)| && Flat(Without(entries, e))[pos] == Flat(entries)[from]
  {
    if e !in entries {
      WithoutIsFilter(entries, e);
    } else if Ports(e) == [] {
      FlatWithoutEmpty(entries, e);
    } else {
      var k := FirstIndex(entries, e);
      WithoutOnce(entries, e, k);
      FlatMapAppend(Ports, entries[..k], entries[k + 1..]);
      FlatMapSplit(Ports, entries, k);
    }
  }

  lemma {:induction false} StrideOfOne(addr: uint32, i: nat, max: uint16, j: nat)
    ensures |Stride(addr, i, max, 1)| == if i <= max then max - i + 1 else 0
    ensures i + j <= max ==> Stride(addr, i, max, 1)[j] == TransportAddr(addr, i + j)
    decreases max + 1 - i
  {
    if i <= max {
      StrideOfOne(addr, i + 1, max, if j > 0 then j - 1 else 0);
    }
  }

  ghost function TaddrAt(entries: seq<Pool4Entry>, index: nat): (t: Option<TransportAddr>) {
    if index < |Flat(entries)| then Some(Flat(entries)[index].Taddr()) else None
  }

  lemma TaddrAtIn(entries: seq<Pool4Entry>, k: nat, j: nat)
    requires k < |entries| && j < |Ports(entries[k])|
    ensures TaddrAt(entries, |Flat(entries[..k])| + j) == Some(TransportAddr(entries[k].addr, entries[k].min + j))
  {
    FlatMapAt(Ports, entries, k, j);
  }

  /** A position behind entry `k` is a position of the entries after it. */
  lemma TaddrAtBehind(entries: seq<Pool4Entry>, k: nat, j: nat)
    requires k < |entries|
    ensures TaddrAt(entries, |Flat(entries[..k])| + |Ports(entries[k])| + j) == TaddrAt(entries[k + 1..], j)
  {
    FlatMapStep(Ports, entries, k);
    TaddrAtAfter(entries, k + 1, j);
  }

  lemma TaddrAtAfter(entries: seq<Pool4Entry>, k: nat, j: nat)
    requires k <= |entries|
    ensures TaddrAt(entries, |Flat(entries[..k])| + j) == TaddrAt(entries[k..], j)
  {
    FlatMapAfter(Ports, entries, k);
  }

  /** Position `j` lies in the first entry or in those after it. */
  lemma TaddrAtFirst(entries: seq<Pool4Entry>, j: nat)
    requires entries != []
    ensures var e, n := entries[0], |Ports(entries[0])|;
            TaddrAt(entries, j) ==
            if j < n then Some(TransportAddr(e.addr, e.min + j)) else TaddrAt(entries[1..], j - n)
  {
    assert Flat(entries[..0]) == [];
    if j < |Ports(entries[0])| {
      TaddrAtIn(entries, 0, j);
    } else {
      TaddrAtBehind(entries, 0, j - |Ports(entries[0])|);
    }
  }

  lemma {:induction false} StridedTailIsFlat(entries: seq<Pool4Entry>, j: nat)
    ensures At(StridedTail(entries, 1), j) == TaddrAt(entries, j)
  {
    if entries != [] {
      var e := entries[0];
      TaddrAtFirst(entries, j);
      StrideOfOne(e.addr, e.min, e.max, j);
      AtAppend(Stride(e.addr, e.min, e.max, 1), StridedTail(entries[1..], 1), j);
      if j >= |Ports(e)| {
        StridedTailIsFlat(entries[1..], j - |Ports(e)|);
      }
    }
  }

  lemma {:induction false} StridedFrom(entries: seq<Pool4Entry>, domain: MaskDomain, k: nat)
    requires domain.step == 1 && k <= |entries|
    requires forall j :: 0 <= j < k ==> !Starts(entries[j], domain.first)
    ensures Strided(entries, domain) == Strided(entries[k..], domain)
  {
    if k == 0 {
      assert entries[0..] == entries;
    } else {
      StridedFrom(entries[1..], domain, k - 1);
      assert entries[1..][k - 1..] == entries[k..];
    }
  }

  /** Element `j` of the walk that starts at a mask of a disjoint pool: the pool goes on, or nothing. */
  lemma StridedIsRest(entries: seq<Pool4Entry>, pos: nat, domain: MaskDomain, j: nat)
    requires Disjoint(entries) && pos < |Flat(entries)|
    requires domain.step == 1 && domain.first == Flat(entries)[pos].Taddr()
    ensures At(Strided(entries, domain), j) ==
            if EndsEntry(entries, domain.first) then None else TaddrAt(entries, pos + j)
  {
    var k := MaskOwner(entries, pos);
    var e, t := entries[k], domain.first;
    CoveredOnlyBy(entries, k, t);
    if t.l4 == e.max {
      StridedFrom(entries, domain, |entries|);
    } else {
      StridedFrom(entries, domain, k);
      StridedInEntry(entries, k, domain, j);
    }
  }

  lemma CoveredOnlyBy(entries: seq<Pool4Entry>, k: nat, t: TransportAddr)
    requires Disjoint(entries) && k < |entries| && CoveredBy(entries[k], t)
    ensures forall j :: 0 <= j < |entries| && j != k ==> !CoveredBy(entries[j], t)
    ensures EndsEntry(entries, t) <==> t.l4 == entries[k].max
  {
    forall j | 0 <= j < |entries| && j != k
      ensures !CoveredBy(entries[j], t)
    {
      var e, f := entries[if j < k then j else k], entries[if j < k then k else j];
      assert !Overlap(e, f);
    }
  }

  lemma StridedInEntry(entries: seq<Pool4Entry>, k: nat, domain: MaskDomain, j: nat)
    requires k < |entries| && Starts(entries[k], domain.first) && domain.step == 1
    ensures At(Strided(entries[k..], domain), j) ==
            TaddrAt(entries, |Flat(entries[..k])| + domain.first.l4 - entries[k].min + j)
  {
    var e, t, after := entries[k], domain.first, entries[k + 1..];
    assert entries[k..][0] == e && entries[k..][1..] == after;
    var here, rest := Stride(e.addr, t.l4, e.max, 1), StridedTail(after, 1);
    assert Strided(entries[k..], domain) == here + rest;
    AtAppend(here, rest, j);
    StrideOfOne(e.addr, t.l4, e.max, j);
    if j < |here| {
      TaddrAtIn(entries, k, t.l4 - e.min + j);
    } else {
      TaddrAtBehind(entries, k, j - |here|);
      StridedTailIsFlat(after, j - |here|);
    }
  }

  /**
   Asking for mask `n` of the domain of position `p` gives `Flat[p * m + n % m]`,
   or -ESRCH past the end, exactly when the domain does not begin at the last port
   of its entry, or that mask is past the end anyway. Otherwise it gives -ESRCH.
   */
  lemma NthOfFoundDomain(entries: seq<Pool4Entry>, p: nat, m: uint32, prior: MaskDomain, n: uint32)
    requires Disjoint(entries) && m > 0 && p * m < |Flat(entries)|
    ensures var domain := DomainAt(entries, p, prior, m);
            var index := p * m + n % m;
            var stuck := EndsEntry(entries, domain.first);
            && domain.count == m
            && NthTaddr(entries, domain, n % m) == (if stuck then None else TaddrAt(entries, index))
            && (NthTaddr(entries, domain, n % m) == TaddrAt(entries, index) <==> !stuck || index >= |Flat(entries)|)
  {
    var domain := DomainAt(entries, p, prior, m);
    TimesIsProduct(p, m);
    NthIsStrided(entries, domain, n % m);
    StridedIsRest(entries, p * m, domain, n % m);
  }
}
