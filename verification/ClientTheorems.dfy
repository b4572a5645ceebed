/** What the loops of the client table mean for the table as one sequence of addresses. */
module ClientTheorems {
  import opened Types
  import opened Sequences
  import opened Callbacks
  import Arithmetic
  import opened Address6
  import opened Pool4List
  import opened PoolTheorems
  import opened ClientTable

  // -------------------------------------------------------------- counting

  /** `client_count` is the number of addresses, modulo 2^32. */
  lemma {:induction false} ClientCountIsLength(prefixes: seq<Prefix6>)
    ensures ClientCountOf(prefixes) == Unsigned(|Addrs(prefixes)|)
  {
    if prefixes != [] {
      var front, p := prefixes[..|prefixes| - 1], prefixes[|prefixes| - 1];
      ClientCountIsLength(front);
      assert |Addrs(prefixes)| == |Addrs(front)| + AddrCount(p);
      SignedSmall(AddrCount(p));
      UnsignedAdd(|Addrs(front)|, AddrCount(p));
    }
  }

  /** `client_count` is the sum of the powers 2^(128-len), modulo 2^32. */
  lemma {:induction false} ClientCountIsSum(prefixes: seq<Prefix6>)
    ensures ClientCountOf(prefixes) ==
            Sum((p: Prefix6) => Arithmetic.Pow2(128 - p.len), prefixes) % 0x1_0000_0000
  {
    if prefixes != [] {
      var front, p := prefixes[..|prefixes| - 1], prefixes[|prefixes| - 1];
      ClientCountIsSum(front);
      AddrCountIsPow2(p);
      SignedSmall(AddrCount(p));
      UnsignedAdd(Sum((p: Prefix6) => Arithmetic.Pow2(128 - p.len), front), AddrCount(p));
    }
  }

  lemma {:induction false} FewerPrefixesThanAddrs(prefixes: seq<Prefix6>)
    ensures |prefixes| <= |Addrs(prefixes)|
  {
    if prefixes != [] {
      FewerPrefixesThanAddrs(prefixes[..|prefixes| - 1]);
    }
  }

  lemma ClientCountExact(prefixes: seq<Prefix6>)
    ensures ClientCountOf(prefixes) == |Addrs(prefixes)| <==> |Addrs(prefixes)| <= UINT_MAX
  {
    ClientCountIsLength(prefixes);
  }

  /** It wraps: four prefixes of 2^30 addresses count as none, so any pool seems large enough. */
  lemma ClientCountWraps(p: Prefix6)
    requires p.len == 98
    ensures |Addrs([p, p, p])| == 0xc000_0000 && |Addrs([p, p, p, p])| == TWO_32
    ensures ClientCountOf([p, p, p, p]) == 0
  {
    assert AddrCount(p) == 0x4000_0000 by {
      OneShiftedIsPow2(p.len);
      Arithmetic.Pow2Values();
    }
    ThreeAddrs(p);
    assert [p, p, p] + [p] == [p, p, p, p];
    AddrsAdd([p, p, p], p);
    ClientCountIsLength([p, p, p, p]);
  }

  lemma ThreeAddrs(p: Prefix6)
    ensures |Addrs([p, p, p])| == 3 * AddrCount(p)
  {
    assert [] + [p] == [p] && [p] + [p] == [p, p] && [p, p] + [p] == [p, p, p];
    AddrsAdd([], p);
    AddrsAdd([p], p);
    AddrsAdd([p, p], p);
  }

  lemma AddrsAdd(prefixes: seq<Prefix6>, p: Prefix6)
    ensures Addrs(prefixes + [p]) == Addrs(prefixes) + Enumerate(p)
    ensures |Addrs(prefixes + [p])| == |Addrs(prefixes)| + AddrCount(p)
  {
    assert (prefixes + [p])[..|prefixes|] == prefixes;
  }

  // ------------------------------------------------------------- membership

  /** `client_addr_exist` is interval membership: some prefix has the same word 0 and reaches the address. */
  lemma MembershipIsInterval(prefixes: seq<Prefix6>, a: Addr6)
    ensures a in Addrs(prefixes) <==>
            exists k :: && 0 <= k < |prefixes|
                        && prefixes[k].address.w0 == a.w0
                        && 0 <= Low96(a) - Low96(prefixes[k].address) < Arithmetic.Pow2(128 - prefixes[k].len)
  {
    FlatMapMember(Enumerate, prefixes, a);
    forall k | 0 <= k < |prefixes|
      ensures a in Enumerate(prefixes[k]) <==>
              && prefixes[k].address.w0 == a.w0
              && 0 <= Low96(a) - Low96(prefixes[k].address) < Arithmetic.Pow2(128 - prefixes[k].len)
    {
      EnumerateIsInterval(prefixes[k], a);
    }
  }

  /** Every prefix enumerates only what it contains by masking. */
  ghost predicate MaskingTable(prefixes: seq<Prefix6>) {
    forall k :: 0 <= k < |prefixes| ==> Aligned(prefixes[k]) || AtTop(prefixes[k])
  }

  lemma EnumeratedHasPos(prefixes: seq<Prefix6>, a: Addr6)
    requires MaskingTable(prefixes) && a in Addrs(prefixes)
    ensures ClientPos(prefixes, a).Some?
  {
    FlatMapMember(Enumerate, prefixes, a);
    var k :| 0 <= k < |prefixes| && a in Enumerate(prefixes[k]);
    EnumerationImpliesMasking(prefixes[k]);
    ClientPosExists(prefixes, a, k);
  }

  // ------------------------------------------------------------- iterating

  /** With a callback that always answers 0 every address is visited once per occurrence, in rotated order. */
  lemma QuietForEachVisitsAll(prefixes: seq<Prefix6>, offset: uint32, cb: Callback<Addr6>,
                              visited: seq<Addr6>, error: int)
    requires Addrs(prefixes) != [] && forall history :: cb(history) == 0
    requires IsVisit(Rotate(Addrs(prefixes), offset % |Addrs(prefixes)|), cb, visited, error)
    ensures error == 0 && |visited| == |Addrs(prefixes)| && multiset(visited) == multiset(Addrs(prefixes))
    ensures forall i :: 0 <= i < |visited| ==> visited[i] == Addrs(prefixes)[(offset + i) % |Addrs(prefixes)|]
  {
    QuietVisit(Addrs(prefixes), offset, cb, visited, error);
  }

  // -------------------------------------------------------------- deletion

  lemma WithoutFirstAt(prefixes: seq<Prefix6>, d: nat, j: nat)
    requires d < |prefixes| && IsFirst(prefixes, prefixes[d], d)
    ensures var rest := WithoutFirst(prefixes, prefixes[d]);
            |rest| == |prefixes| - 1 && (j < |rest| ==> rest[j] == prefixes[if j < d then j else j + 1])
  {
    FirstUnique(prefixes, prefixes[d], d);
  }

  /** What the search would find without the prefix at `d`, as a position of the whole list. */
  function PosBesides(prefixes: seq<Prefix6>, a: Addr6, d: nat): (pos: Option<nat>) {
    if ClientPos(prefixes, a) == Some(d) then ClientPosFrom(prefixes, a, d + 1) else ClientPos(prefixes, a)
  }

  /** Nothing before it contains the address, except the prefix at `d`. */
  lemma PosBesidesMeaning(prefixes: seq<Prefix6>, a: Addr6, d: nat)
    ensures var r := PosBesides(prefixes, a, d);
            var end := if r.Some? then r.value else |prefixes|;
            && (r.Some? ==> r.value < |prefixes| && r.value != d && PrefixContains(prefixes[r.value], a))
            && forall j :: 0 <= j < end && j != d ==> !PrefixContains(prefixes[j], a)
  {
    ClientPosFromMeaning(prefixes, a, 0);
    ClientPosFromMeaning(prefixes, a, d + 1);
  }

  /** Deleting the prefix at `d` moves the positions behind it up by one, and its own clients to their next match. */
  lemma PosAfterDelete(prefixes: seq<Prefix6>, a: Addr6, d: nat)
    requires d < |prefixes| && IsFirst(prefixes, prefixes[d], d)
    ensures var pos := PosBesides(prefixes, a, d);
            ClientPos(WithoutFirst(prefixes, prefixes[d]), a) ==
            if pos.Some? && pos.value > d then Some(pos.value - 1) else pos
  {
    var rest := WithoutFirst(prefixes, prefixes[d]);
    var pos := PosBesides(prefixes, a, d);
    PosBesidesMeaning(prefixes, a, d);
    var end := if pos.None? then |rest| else if pos.value > d then pos.value - 1 else pos.value;
    forall j | 0 <= j < end
      ensures j < |rest| && !PrefixContains(rest[j], a)
    {
      WithoutFirstAt(prefixes, d, j);
    }
    WithoutFirstAt(prefixes, d, end);
    if pos.Some? {
      ClientPosIs(rest, a, end);
    } else {
      ClientPosFromMeaning(rest, a, 0);
    }
  }

  // ------------------------------------------------------------------ lookup

  /**
   A lookup fails with 1 if the wrapped number of clients exceeds the pool's count,
   else with -ESRCH if no prefix contains the address, else with 1 if the block size
   is 0. Otherwise it writes the block of the first such prefix `p` if that starts
   in the pool, and leaves what was there if it does not.
   */
  lemma LookupExactly(entries: seq<Pool4Entry>, prefixes: seq<Prefix6>, a: Addr6, prior: MaskDomain, m: uint32, p: nat)
    requires FirstOrNone(prefixes, a, p)
    ensures var pos, flat := p * m, Flat(entries);
            MaskDomainFor(entries, prefixes, a, prior, m) ==
            if |Addrs(prefixes)| % 0x1_0000_0000 > CountOf(entries) then (1, prior)
            else if p == |prefixes| then (-3, prior)
            else if m == 0 then (1, prior)
            else if 0 <= pos < |flat| then (0, MaskDomain(TransportAddr(flat[pos].addr, flat[pos].port), 1, m))
            else (0, prior)
  {
    ClientCountIsLength(prefixes);
    Arithmetic.TimesIsProduct(p, m);
    FirstOrNonePos(prefixes, a, p);
  }

  /**
   Mask `n` of what a lookup wrote, for an address whose first prefix is at `p`:
   `Flat[p * m + n % m]`, or none past the end or if the block begins at the last
   port of an entry.
   */
  lemma NthOfLookup(entries: seq<Pool4Entry>, prefixes: seq<Prefix6>, a: Addr6, prior: MaskDomain, m: uint32,
                    p: nat, n: uint32)
    requires Disjoint(entries) && IsClientPos(prefixes, a, p)
    requires MaskDomainFor(entries, prefixes, a, prior, m).0 == 0
    requires m > 0 ==> p * m < |Flat(entries)|
    ensures m > 0
    ensures var domain := MaskDomainFor(entries, prefixes, a, prior, m).1;
            var index := p * m + n % m;
            && domain.count == m
            && NthTaddr(entries, domain, n % domain.count) ==
               if EndsEntry(entries, Flat(entries)[p * m].Taddr()) || index >= |Flat(entries)| then None
               else Some(Flat(entries)[index].Taddr())
  {
    ClientPosIs(prefixes, a, p);
    Arithmetic.TimesIsProduct(p, m);
    NthOfFoundDomain(entries, p, m, prior, n);
  }

  /** With one mask per client a successful lookup always writes its result. */
  lemma OneMaskAlwaysWritten(entries: seq<Pool4Entry>, prefixes: seq<Prefix6>, a: Addr6, prior: MaskDomain)
    requires WellFormed(entries) && |Addrs(prefixes)| <= UINT_MAX
    ensures var (error, domain) := MaskDomainFor(entries, prefixes, a, prior, 1);
            error == 0 ==>
              var p := ClientPos(prefixes, a);
              p.Some? && p.value < |Flat(entries)| && domain == MaskDomain(Flat(entries)[p.value].Taddr(), 1, 1)
  {
    FewerPrefixesThanAddrs(prefixes);
    if ClientPos(prefixes, a).Some? {
      Arithmetic.TimesIsProduct(ClientPos(prefixes, a).value, 1);
    }
    ClientPosFromMeaning(prefixes, a, 0);
    ClientCountExact(prefixes);
    CountIsLength(entries);
  }

  /**
   The return codes of a lookup by the numbers they compare: 1 if there are more clients, modulo
   2^32, than masks, or a listed client asks with no masks; -ESRCH if no prefix contains it.
   */
  lemma LookupErrors(entries: seq<Pool4Entry>, prefixes: seq<Prefix6>, a: Addr6, prior: MaskDomain, m: uint32)
    requires WellFormed(entries)
    ensures var (error, domain) := MaskDomainFor(entries, prefixes, a, prior, m);
            var full := |Addrs(prefixes)| % 0x1_0000_0000 > |Flat(entries)|;
            var listed := exists k :: 0 <= k < |prefixes| && PrefixContains(prefixes[k], a);
            && (error == 1 <==> full || (listed && m == 0))
            && (error == -ESRCH <==> !full && !listed)
            && (error == 0 <==> !full && listed && m > 0)
            && (error != 0 ==> domain == prior)
  {
    ClientCountIsLength(prefixes);
    CountIsLength(entries);
    ClientPosFromMeaning(prefixes, a, 0);
  }
}
