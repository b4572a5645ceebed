/** IPv6 addresses as four words: the carry-propagating increment, and masking. */
module Address6 {
  import opened Types
  import opened Arithmetic

  // ------------------------------------------------------------- increment

  /** The four words of an address in memory. */
  function Stored(words: array<uint32>): (a: Addr6)
    requires words.Length == 4
    reads words
  {
    Addr6(words[0], words[1], words[2], words[3])
  }

  /** One increment. It never carries into word 0; the largest value stays. */
  function Next(a: Addr6): (b: Addr6) {
    if a.w3 != UINT_MAX then a.(w3 := a.w3 + 1)
    else if a.w2 != UINT_MAX then a.(w2 := a.w2 + 1, w3 := 0)
    else if a.w1 != UINT_MAX then a.(w1 := a.w1 + 1, w2 := 0, w3 := 0)
    else a
  }

  /** `addr6_iterations`; its last branch repeats the test before it and is never taken. */
  method Addr6Iterations(words: array<uint32>)
    requires words.Length == 4
    modifies words
    ensures Stored(words) == Next(old(Stored(words)))
    ensures words[0] == old(words[0])
    ensures var w1: int, w2: int := old(words[1]), old(words[2]);
            var v1: int, v2: int := words[1], words[2];
            var n := w1 * 0x1_0000_0000_0000_0000 + w2 * 0x1_0000_0000 + old(words[3]);
            v1 * 0x1_0000_0000_0000_0000 + v2 * 0x1_0000_0000 + words[3] ==
            if n < 0xffff_ffff_ffff_ffff_ffff_ffff then n + 1 else n
  {
    if words[3] != UINT_MAX {
      words[3] := words[3] + 1;
    } else if words[2] != UINT_MAX {
      words[3] := 0;
      words[2] := words[2] + 1;
    } else if words[1] != UINT_MAX {
      words[3] := 0;
      words[2] := 0;
      words[1] := words[1] + 1;
    }
  }

  function Iterate(a: Addr6, k: nat): (b: Addr6) {
    if k == 0 then a else Next(Iterate(a, k - 1))
  }

  /** Words 1 to 3 as one number. */
  function Low96(a: Addr6): (n: nat)
    ensures n == a.w1 * 0x1_0000_0000_0000_0000 + a.w2 * 0x1_0000_0000 + a.w3 <= MAX_96
  {
    (a.w1 * 0x1_0000_0000 + a.w2) * 0x1_0000_0000 + a.w3
  }

  const MAX_96: nat := 0xffff_ffff_ffff_ffff_ffff_ffff

  lemma DigitsUnique(x: nat, r: uint32, y: nat, s: uint32)
    requires x * 0x1_0000_0000 + r == y * 0x1_0000_0000 + s
    ensures x == y && r == s
  {
  }

  lemma Low96Injective(a: Addr6, b: Addr6)
    ensures a == b <==> a.w0 == b.w0 && Low96(a) == Low96(b)
  {
    if Low96(a) == Low96(b) {
      DigitsUnique(a.w1 * 0x1_0000_0000 + a.w2, a.w3, b.w1 * 0x1_0000_0000 + b.w2, b.w3);
      DigitsUnique(a.w1, a.w2, b.w1, b.w2);
    }
  }

  /** `k` increments are one saturating addition of `k` to words 1 to 3. */
  lemma {:induction false} IterateIsSaturatingAdd(a: Addr6, k: nat)
    ensures Iterate(a, k).w0 == a.w0
    ensures Low96(Iterate(a, k)) == if Low96(a) + k <= MAX_96 then Low96(a) + k else MAX_96
  {
    if k > 0 {
      IterateIsSaturatingAdd(a, k - 1);
      NextIsSaturatingIncrement(Iterate(a, k - 1));
    }
  }

  lemma NextIsSaturatingIncrement(a: Addr6)
    ensures Next(a).w0 == a.w0
    ensures Low96(Next(a)) == if Low96(a) < MAX_96 then Low96(a) + 1 else MAX_96
  {
  }

  /** While the last word does not overflow, only it changes. */
  lemma {:induction false} IterateInLastWord(a: Addr6, k: nat)
    requires a.w3 + k <= UINT_MAX
    ensures Iterate(a, k) == a.(w3 := a.w3 + k)
  {
    if k > 0 {
      IterateInLastWord(a, k - 1);
    }
  }

  /** At the top of the 96-bit range the last word saturates. */
  lemma {:induction false} IterateAtTop(a: Addr6, k: nat)
    requires a.w1 == a.w2 == UINT_MAX
    ensures Iterate(a, k) == a.(w3 := if a.w3 + k <= UINT_MAX then a.w3 + k else UINT_MAX)
  {
    if k > 0 {
      IterateAtTop(a, k - 1);
    }
  }

  // --------------------------------------------------------------- masking

  /** Bitwise and. */
  function BitAnd(x: nat, y: nat): (z: nat) {
    if x == 0 || y == 0 then 0 else 2 * BitAnd(x / 2, y / 2) + if x % 2 == 1 && y % 2 == 1 then 1 else 0
  }

  lemma {:induction false} BitAndAllOnes(x: nat, n: nat)
    requires x < Pow2(n)
    ensures BitAnd(x, Pow2(n) - 1) == x
  {
    if x > 0 {
      BitAndAllOnes(x / 2, n - 1);
      assert (Pow2(n) - 1) / 2 == Pow2(n - 1) - 1 && (Pow2(n) - 1) % 2 == 1;
    }
  }

  /** And-ing with the ones above bit `s` rounds down to a multiple of 2^s. */
  lemma {:induction false} BitAndHighOnes(x: nat, n: nat, s: nat)
    requires x < Pow2(n) && s <= n && Pow2(s) <= Pow2(n)
    ensures BitAnd(x, Pow2(n) - Pow2(s)) == x - x % Pow2(s)
  {
    if s == 0 {
      BitAndAllOnes(x, n);
    } else {
      BitAndHighOnes(x / 2, n - 1, s - 1);
      HalveMod(x, Pow2(s - 1));
      assert (Pow2(n) - Pow2(s)) / 2 == Pow2(n - 1) - Pow2(s - 1);
    }
  }

  lemma HalveMod(x: nat, p: nat)
    requires p > 0
    ensures x % (2 * p) == 2 * ((x / 2) % p) + x % 2
  {
    var q, r := x / 2 / p, (x / 2) % p;
    assert x / 2 == q * p + r;
    assert x == q * (2 * p) + (2 * r + x % 2);
    ModUnique(q, 2 * p, 2 * r + x % 2);
  }

  /** `1 << (128 - len)`: it doubles with every bit that the prefix is shorter. */
  function OneShifted(len: PrefixLen): (n: nat)
    decreases 128 - len
  {
    if len == 128 then 1 else 2 * OneShifted(len + 1)
  }

  lemma {:induction false} OneShiftedIsPow2(len: PrefixLen)
    ensures OneShifted(len) == Pow2(128 - len)
    decreases 128 - len
  {
    if len < 128 {
      OneShiftedIsPow2(len + 1);
    }
  }

  /** How many addresses a prefix has. */
  function AddrCount(p: Prefix6): (n: nat)
    ensures 0 < n <= 0x4000_0000
  {
    OneShiftedIsPow2(p.len);
    Pow2Bound(128 - p.len);
    OneShifted(p.len)
  }

  lemma AddrCountIsPow2(p: Prefix6)
    ensures AddrCount(p) == Pow2(128 - p.len)
  {
    OneShiftedIsPow2(p.len);
  }

  /** The mask of a prefix: 32 ones shifted in 64-bit arithmetic, cut to 32 bits. */
  function MaskOf(p: Prefix6): (mask: uint32) {
    Unsigned((0xffff_ffff * AddrCount(p)) % 0x1_0000_0000_0000_0000)
  }

  /** `prefix_contains`: the same 32-bit mask on all four words. */
  predicate PrefixContains(p: Prefix6, a: Addr6) {
    var mask := MaskOf(p);
    && BitAnd(p.address.w0, mask) == BitAnd(a.w0, mask)
    && BitAnd(p.address.w1, mask) == BitAnd(a.w1, mask)
    && BitAnd(p.address.w2, mask) == BitAnd(a.w2, mask)
    && BitAnd(p.address.w3, mask) == BitAnd(a.w3, mask)
  }

  lemma MaskIsHighOnes(p: Prefix6)
    ensures MaskOf(p) == 0x1_0000_0000 - Pow2(128 - p.len)
  {
    AddrCountIsPow2(p);
    var c := AddrCount(p);
    var shifted := 0xffff_ffff * c;
    assert shifted == (c - 1) * TWO_32 + (TWO_32 - c);
    assert 0 <= shifted < 0x1_0000_0000_0000_0000;
    ModUnique(c - 1, TWO_32, TWO_32 - c);
  }

  lemma BitAndMask(p: Prefix6, x: uint32)
    ensures BitAnd(x, MaskOf(p)) == x - x % AddrCount(p)
  {
    MaskIsHighOnes(p);
    OneShiftedIsPow2(p.len);
    Pow2Values();
    BitAndHighOnes(x, 32, 128 - p.len);
  }

  /** The start of the naturally aligned range of `c` words around `x`. */
  function RoundDown(x: uint32, c: nat): (base: int)
    requires c > 0
  {
    x - x % c
  }

  lemma SameQuotient(x: nat, y: nat, c: nat)
    requires c > 0
    ensures x - x % c == y - y % c <==> x / c == y / c
  {
    assert x - x % c == (x / c) * c && y - y % c == (y / c) * c;
    if x / c < y / c {
      MulLt(x / c, y / c, c);
    } else if y / c < x / c {
      MulLt(y / c, x / c, c);
    }
  }

  /** A prefix contains an address iff each word agrees with the prefix's above the lowest 128 - len bits. */
  lemma PrefixContainsMeaning(p: Prefix6, a: Addr6)
    ensures var c := Pow2(128 - p.len);
            PrefixContains(p, a) <==>
            && a.w0 / c == p.address.w0 / c
            && a.w1 / c == p.address.w1 / c
            && a.w2 / c == p.address.w2 / c
            && a.w3 / c == p.address.w3 / c
  {
    var c := AddrCount(p);
    PrefixContainsRanges(p, a);
    AddrCountIsPow2(p);
    SameQuotient(a.w0, p.address.w0, c);
    SameQuotient(a.w1, p.address.w1, c);
    SameQuotient(a.w2, p.address.w2, c);
    SameQuotient(a.w3, p.address.w3, c);
  }

  /** ... that is, it falls in the same aligned range. */
  lemma PrefixContainsRanges(p: Prefix6, a: Addr6)
    ensures var c := AddrCount(p);
            PrefixContains(p, a) <==>
            && RoundDown(a.w0, c) == RoundDown(p.address.w0, c)
            && RoundDown(a.w1, c) == RoundDown(p.address.w1, c)
            && RoundDown(a.w2, c) == RoundDown(p.address.w2, c)
            && RoundDown(a.w3, c) == RoundDown(p.address.w3, c)
  {
    BitAndMask(p, p.address.w0);
    BitAndMask(p, p.address.w1);
    BitAndMask(p, p.address.w2);
    BitAndMask(p, p.address.w3);
    BitAndMask(p, a.w0);
    BitAndMask(p, a.w1);
    BitAndMask(p, a.w2);
    BitAndMask(p, a.w3);
  }

  /** A host prefix contains its own address and no other. */
  lemma HostContains(p: Prefix6, a: Addr6)
    requires p.len == 128
    ensures AddrCount(p) == 1
    ensures PrefixContains(p, a) <==> a == p.address
  {
    PrefixContainsRanges(p, a);
  }

  // ------------------------------------------------ enumeration and masking

  /** An address and what `n - 1` further increments make of it. */
  function Increments(a: Addr6, n: nat): (s: seq<Addr6>)
    ensures |s| == n && forall k :: 0 <= k < n ==> s[k] == Iterate(a, k)
  {
    if n == 0 then [] else Increments(a, n - 1) + [Iterate(a, n - 1)]
  }

  /** The addresses of a prefix: its own, incremented again and again. */
  function Enumerate(p: Prefix6): (s: seq<Addr6>) {
    Increments(p.address, AddrCount(p))
  }

  /**
   Enumeration is interval membership: same word 0, and words 1 to 3 from the
   prefix's number on, up to its count or the top of the range.
   */
  lemma EnumerateIsInterval(p: Prefix6, a: Addr6)
    ensures a in Enumerate(p) <==>
            a.w0 == p.address.w0 && Low96(p.address) <= Low96(a) < Low96(p.address) + Pow2(128 - p.len)
  {
    AddrCountIsPow2(p);
    if a in Enumerate(p) {
      var k :| 0 <= k < AddrCount(p) && Enumerate(p)[k] == a;
      IterateIsSaturatingAdd(p.address, k);
    }
    var k := Low96(a) - Low96(p.address);
    if a.w0 == p.address.w0 && 0 <= k < AddrCount(p) {
      IterateIsSaturatingAdd(p.address, k);
      Low96Injective(a, Iterate(p.address, k));
      assert Enumerate(p)[k] == a;
    }
  }

  /** The addresses of a prefix are pairwise distinct exactly when the increment does not saturate. */
  lemma EnumerateDistinct(p: Prefix6)
    ensures (forall i, j :: 0 <= i < j < AddrCount(p) ==> Enumerate(p)[i] != Enumerate(p)[j]) <==>
            Low96(p.address) + AddrCount(p) - 1 <= MAX_96
  {
    if Low96(p.address) + AddrCount(p) - 1 <= MAX_96 {
      forall i, j | 0 <= i < j < AddrCount(p)
        ensures Enumerate(p)[i] != Enumerate(p)[j]
      {
        IterateIsSaturatingAdd(p.address, i);
        IterateIsSaturatingAdd(p.address, j);
      }
    } else {
      var j := AddrCount(p) - 1;
      IterateIsSaturatingAdd(p.address, j);
      IterateIsSaturatingAdd(p.address, j - 1);
      Low96Injective(Iterate(p.address, j), Iterate(p.address, j - 1));
      assert Enumerate(p)[j - 1] == Enumerate(p)[j];
    }
  }

  /** The last word starts an aligned range, so the prefix has no bits beyond its length there. */
  predicate Aligned(p: Prefix6) {
    p.address.w3 % AddrCount(p) == 0
  }

  /** The prefix lies in the topmost aligned range below the value where the increment saturates. */
  predicate AtTop(p: Prefix6) {
    && p.address.w1 == p.address.w2 == UINT_MAX
    && RoundDown(p.address.w3, AddrCount(p)) + AddrCount(p) == TWO_32
  }

  lemma RangeFits(p: Prefix6, x: uint32)
    ensures 0 <= RoundDown(x, AddrCount(p)) <= x < RoundDown(x, AddrCount(p)) + AddrCount(p) <= TWO_32
  {
    var shift := 128 - p.len;
    OneShiftedIsPow2(p.len);
    Pow2Sum(32 - shift, shift);
    Pow2Values();
    RangeBelowMultiple(x, AddrCount(p), Pow2(32 - shift));
  }

  lemma SameRange(base: uint32, c: nat, x: uint32)
    requires c > 0 && base % c == 0
    ensures RoundDown(x, c) == base <==> base <= x < base + c
  {
    assert base == (base / c) * c;
    if base <= x < base + c {
      ModUnique(base / c, c, x - base);
    }
  }

  lemma RoundDownAligned(x: uint32, c: nat)
    requires c > 0
    ensures RoundDown(x, c) >= 0 && RoundDown(x, c) % c == 0
  {
    assert x == (x / c) * c + x % c;
    ModUnique(x / c, c, 0);
  }

  /**
   Increment `i` of a prefix has passed the end of its aligned range: neither
   alignment nor saturation holds it back, and more steps were made than the range has left.
   */
  predicate Spills(p: Prefix6, i: nat) {
    var c, w := AddrCount(p), p.address.w3;
    !Aligned(p) && !AtTop(p) && RoundDown(w, c) + c - w <= i
  }

  lemma {:induction false} IterateSum(a: Addr6, k: nat, j: nat)
    ensures Iterate(a, k + j) == Iterate(Iterate(a, k), j)
  {
    if j > 0 {
      IterateSum(a, k, j - 1);
    }
  }

  /** The last word after `i` increments, and whether it is still in the range it started from. */
  lemma LastWordInRange(p: Prefix6, i: nat)
    requires i < AddrCount(p)
    ensures var base := RoundDown(p.address.w3, AddrCount(p));
            base <= Iterate(p.address, i).w3 < base + AddrCount(p) <==> !Spills(p, i)
    ensures !Spills(p, i) ==> Iterate(p.address, i) == p.address.(w3 := Iterate(p.address, i).w3)
  {
    var c, w := AddrCount(p), p.address.w3;
    var end := RoundDown(w, c) + c;
    RangeFits(p, w);
    if AtTop(p) {
      IterateAtTop(p.address, i);
    } else if w + i < TWO_32 {
      IterateInLastWord(p.address, i);
    } else {
      var k := TWO_32 - w;
      IterateInLastWord(p.address, k - 1);
      var top := Next(p.address.(w3 := UINT_MAX));
      IterateSum(p.address, k, i - k);
      SpillsOver(p, top, i - k);
    }
  }

  lemma SpillsOver(p: Prefix6, a: Addr6, j: nat)
    requires j < AddrCount(p) && a == Next(p.address.(w3 := UINT_MAX))
    requires !AtTop(p)
    ensures Iterate(a, j).w3 == j || p.address.w1 == p.address.w2 == UINT_MAX == Iterate(a, j).w3
  {
    if p.address.w1 == p.address.w2 == UINT_MAX {
      IterateAtTop(a, j);
    } else {
      IterateInLastWord(a, j);
    }
  }

  /** What a prefix enumerates fails its masking test exactly when it spills. */
  lemma SpillsExactly(p: Prefix6, i: nat)
    requires i < AddrCount(p)
    ensures PrefixContains(p, Iterate(p.address, i)) <==> !Spills(p, i)
  {
    var c, w := AddrCount(p), p.address.w3;
    LastWordInRange(p, i);
    RoundDownAligned(w, c);
    SameRange(RoundDown(w, c), c, Iterate(p.address, i).w3);
    PrefixContainsRanges(p, Iterate(p.address, i));
  }

  /**
   The two membership tests agree on what a prefix enumerates exactly when the
   prefix is aligned, or it saturates before it leaves its aligned range.
   */
  lemma EnumerationImpliesMasking(p: Prefix6)
    ensures (forall a :: a in Enumerate(p) ==> PrefixContains(p, a)) <==> Aligned(p) || AtTop(p)
  {
    if Aligned(p) || AtTop(p) {
      forall a | a in Enumerate(p)
        ensures PrefixContains(p, a)
      {
        var k :| 0 <= k < AddrCount(p) && Enumerate(p)[k] == a;
        SpillsExactly(p, k);
      }
    } else {
      var c, w := AddrCount(p), p.address.w3;
      RangeFits(p, w);
      var k := RoundDown(w, c) + c - w;
      SpillsExactly(p, k);
      assert Enumerate(p)[k] == Iterate(p.address, k);
      assert Iterate(p.address, k) in Enumerate(p);
    }
  }

  /**
   Masking accepts more than enumeration as soon as a prefix has more than one
   address: the two tests agree on every address exactly for host prefixes.
   */
  lemma MaskingEqualsEnumeration(p: Prefix6)
    ensures (forall a :: a in Enumerate(p) <==> PrefixContains(p, a)) <==> p.len == 128
  {
    if p.len == 128 {
      forall a
        ensures a in Enumerate(p) <==> PrefixContains(p, a)
      {
        HostContains(p, a);
        AddrCountIsPow2(p);
        EnumerateIsInterval(p, a);
        Low96Injective(a, p.address);
      }
    } else {
      var c, w := AddrCount(p), p.address.w0;
      assert c == 2 * OneShifted(p.len + 1);
      RangeFits(p, w);
      RoundDownAligned(w, c);
      var a := p.address.(w0 := if w % c == 0 then w + 1 else w - 1);
      SameRange(RoundDown(w, c), c, a.w0);
      PrefixContainsRanges(p, a);
      AddrCountIsPow2(p);
      EnumerateIsInterval(p, a);
    }
  }
}
