/** `get_mask`: one request of a source address for a mask. */
module Allocator {
  import opened Types
  import opened Sequences
  import Arithmetic
  import opened Address6
  import opened Pool4List
  import opened PoolTheorems
  import opened ClientTable
  import opened ClientTheorems

  /** What `get_spool_mask` hands out: 0.0.0.0:0. */
  const SPOOL: TransportAddr := TransportAddr(0, 0)

  /** Whether a mask is in use already: its port is odd. */
  function BibdbContains4(t: TransportAddr): (r: int) {
    t.l4 % 2
  }

  datatype Response = Given(mask: TransportAddr) | Failed(error: int)

  function Host(a: Addr6): (p: Prefix6) {
    Prefix6(a, 128)
  }

  /** `t` is an (address, port) of the pool. */
  ghost predicate Offers(entries: seq<Pool4Entry>, t: TransportAddr) {
    exists k :: 0 <= k < |entries| && CoveredBy(entries[k], t)
  }

  /** The first mask of a domain if the pool has it and it is free; the spool's otherwise. */
  ghost function AnswerFor(entries: seq<Pool4Entry>, domain: MaskDomain): (t: TransportAddr) {
    if Offers(entries, domain.first) && BibdbContains4(domain.first) == 0 then domain.first else SPOOL
  }

  /** The client table after a request, whatever its outcome. */
  ghost function TableAfter(entries: seq<Pool4Entry>, prefixes: seq<Prefix6>, src: Addr6): (table: seq<Prefix6>) {
    if entries == [] || src in Addrs(prefixes) then prefixes else prefixes + [Host(src)]
  }

  /** The outcome of a request; `stack` is what the mask domain held before the call. */
  ghost function Respond(entries: seq<Pool4Entry>, prefixes: seq<Prefix6>, src: Addr6, m: uint32, stack: MaskDomain)
    : (r: Response)
  {
    if entries == [] then Given(SPOOL) else
      var (error, domain) := MaskDomainFor(entries, TableAfter(entries, prefixes, src), src, stack, m);
      if error != 0 then Failed(error) else Given(AnswerFor(entries, domain))
  }

  /**
   One request. The uninitialised mask domain of the source is the parameter
   `stack`; `result0` is what the result held before the call.
   */
  method GetMask(cpool: Pool4, client: Client, src: Addr6, masksPerClient: uint32,
                 stack: MaskDomain, result0: TransportAddr)
    returns (error: int, result: TransportAddr)
    requires Countable(cpool.entries)
    requires |TableAfter(cpool.entries, client.prefixes, src)| <= INT_MAX
    modifies client
    ensures cpool.entries == [] ==>
              error == 0 && result == TransportAddr(0, 0) && client.prefixes == old(client.prefixes)
    ensures cpool.entries != [] ==>
              client.prefixes == old(client.prefixes) + if src in Addrs(old(client.prefixes)) then [] else [Host(src)]
    ensures client.prefixes == TableAfter(cpool.entries, old(client.prefixes), src)
    ensures match Respond(cpool.entries, old(client.prefixes), src, masksPerClient, stack)
            case Given(t) => error == 0 && result == t
            case Failed(e) => error == e && e != 0 && result == result0
  {
    result := result0;
    var empty := cpool.IsEmpty();
    if empty != 0 {
      return 0, SPOOL;
    }
    var exist := client.AddrExist(src);
    if !exist {
      error := client.Add(Host(src));
    }
    var maskDomain;
    error, maskDomain := client.GetMaskDomain(cpool, src, stack, masksPerClient);
    if error != 0 {
      return;
    }
    error, result := Search(cpool, maskDomain, result);
  }

  /** The part of `get_mask` that looks for a free mask in the domain. */
  method Search(cpool: Pool4, maskDomain: MaskDomain, result0: TransportAddr)
    returns (error: int, result: TransportAddr)
    ensures error == 0 && result == AnswerFor(cpool.entries, maskDomain)
    ensures var t := maskDomain.first;
            result == if Offers(cpool.entries, t) && t.l4 % 2 == 0 then t else TransportAddr(0, 0)
  {
    var first := maskDomain.first;
    var n := Signed(maskDomain.count);
    result := result0;
    error := 0;
    for k := 0 to |cpool.entries|
      invariant BibdbContains4(first) == 0 ==> forall j :: 0 <= j < k ==> !CoveredBy(cpool.entries[j], first)
    {
      var entry := cpool.entries[k];
      var i: int := entry.min;
      while i <= entry.max
        invariant entry.min <= i
        invariant BibdbContains4(first) == 0 ==> !(entry.addr == first.l3 && entry.min <= first.l4 < i)
      {
        if entry.addr == first.l3 && i == first.l4 {
          result := TransportAddr(entry.addr, i);
          if BibdbContains4(result) == 0 {
            assert CoveredBy(cpool.entries[k], first);
            return;
          }
          n := Signed(n - 1);
          if n == 0 {
            break;
          }
        }
        i := i + 1;
      }
    }
    result := SPOOL;
  }

  // ------------------------------------------------------------ one request

  /** `t` is the (address, port) of some mask of the flat sequence. */
  ghost predicate InFlat(entries: seq<Pool4Entry>, t: TransportAddr) {
    exists pos :: 0 <= pos < |Flat(entries)| && Flat(entries)[pos].Taddr() == t
  }

  /** The pool offers what the flat sequence contains. */
  lemma OffersIsMembership(entries: seq<Pool4Entry>, t: TransportAddr)
    ensures Offers(entries, t) <==> InFlat(entries, t)
  {
    if k :| 0 <= k < |entries| && CoveredBy(entries[k], t) {
      FlatAt(entries, k, t.l4);
    }
    if pos :| 0 <= pos < |Flat(entries)| && Flat(entries)[pos].Taddr() == t {
      var k := MaskOwner(entries, pos);
    }
  }

  /**
   A request is answered with the spool's address, a free mask of the pool, or one
   of two errors, whatever the mask domain held before.
   */
  lemma ResponseIsSafe(entries: seq<Pool4Entry>, prefixes: seq<Prefix6>, src: Addr6, m: uint32, stack: MaskDomain)
    ensures match Respond(entries, prefixes, src, m, stack)
            case Failed(error) => error == 1 || error == -ESRCH
            case Given(t) => t == TransportAddr(0, 0) || (t.l4 % 2 == 0 && InFlat(entries, t))
  {
    var r := Respond(entries, prefixes, src, m, stack);
    if r.Given? {
      OffersIsMembership(entries, r.mask);
    }
  }

  /**
   On a non-empty pool a request leaves the table alone or appends the source as
   a host; the source is enumerable afterwards, and asking again changes nothing.
   */
  lemma TableGrowth(entries: seq<Pool4Entry>, prefixes: seq<Prefix6>, src: Addr6)
    requires entries != []
    ensures var t := TableAfter(entries, prefixes, src);
            && (t == prefixes || t == prefixes + [Host(src)])
            && (t == prefixes <==> src in Addrs(prefixes))
            && src in Addrs(t)
            && TableAfter(entries, t, src) == t
  {
    FlatMapAppend(Enumerate, prefixes, [Host(src)]);
    HostEnumerates(src);
    FlatMapStep(Enumerate, [Host(src)], 0);
  }

  lemma HostEnumerates(a: Addr6)
    ensures Enumerate(Host(a)) == [a]
  {
    assert Iterate(a, 0) == a;
    assert AddrCount(Host(a)) == 1;
  }

  /** On an empty pool a request gets 0.0.0.0:0, whoever is listed, and no source is added. */
  lemma EmptyPoolRequest(prefixes: seq<Prefix6>, src: Addr6, m: uint32, stack: MaskDomain)
    ensures Respond([], prefixes, src, m, stack) == Given(TransportAddr(0, 0))
    ensures TableAfter([], prefixes, src) == prefixes
  {
  }

  /** The table after a request, in its own terms. */
  ghost function Listed(entries: seq<Pool4Entry>, prefixes: seq<Prefix6>, src: Addr6): (table: seq<Prefix6>) {
    prefixes + if entries != [] && src !in Addrs(prefixes) then [Prefix6(src, 128)] else []
  }

  /**
   The whole of `get_mask` on a non-empty pool, in terms of the numbers of
   addresses, the first prefix `p` that contains the source, the flat sequence and
   the parity of ports.
   */
  lemma RespondExactly(entries: seq<Pool4Entry>, prefixes: seq<Prefix6>, src: Addr6, m: uint32, stack: MaskDomain,
                       p: nat)
    requires entries != [] && FirstOrNone(Listed(entries, prefixes, src), src, p)
    ensures TableAfter(entries, prefixes, src) == Listed(entries, prefixes, src)
    ensures var t, flat, pos := Listed(entries, prefixes, src), Flat(entries), p * m;
            var first := if 0 <= pos < |flat| then TransportAddr(flat[pos].addr, flat[pos].port) else stack.first;
            Respond(entries, prefixes, src, m, stack) ==
            if |Addrs(t)| % 0x1_0000_0000 > CountOf(entries) then Failed(1)
            else if p == |t| then Failed(-3)
            else if m == 0 then Failed(1)
            else if InFlat(entries, first) && first.l4 % 2 == 0 then Given(first)
            else Given(TransportAddr(0, 0))
  {
    var t := Listed(entries, prefixes, src);
    assert TableAfter(entries, prefixes, src) == t;
    var r := MaskDomainFor(entries, t, src, stack, m);
    OffersIsMembership(entries, r.1.first);
    assert Respond(entries, prefixes, src, m, stack) ==
           if r.0 != 0 then Failed(r.0)
           else if InFlat(entries, r.1.first) && r.1.first.l4 % 2 == 0 then Given(r.1.first)
           else Given(TransportAddr(0, 0));
    LookupExactly(entries, t, src, stack, m, p);
  }

  // ------------------------------------------------------------- no -ESRCH

  /** A dynamic add keeps the table so. */
  lemma TableAfterMasks(entries: seq<Pool4Entry>, prefixes: seq<Prefix6>, src: Addr6)
    requires MaskingTable(prefixes)
    ensures MaskingTable(TableAfter(entries, prefixes, src))
  {
    assert AddrCount(Host(src)) == 1;
  }

  /** Such a table never gives -ESRCH; the other failure is 1. */
  lemma NeverEsrch(entries: seq<Pool4Entry>, prefixes: seq<Prefix6>, src: Addr6, m: uint32, stack: MaskDomain)
    requires MaskingTable(prefixes)
    ensures var r := Respond(entries, prefixes, src, m, stack);
            r.Failed? ==> r.error == 1
  {
    if entries != [] {
      var t := TableAfter(entries, prefixes, src);
      assert src in Addrs(t) by {
        TableGrowth(entries, prefixes, src);
      }
      TableAfterMasks(entries, prefixes, src);
      EnumeratedHasPos(t, src);
      var code := MaskDomainFor(entries, t, src, stack, m).0;
      assert code == 0 || code == 1;
    }
  }

  /** -ESRCH answers exactly a source that is enumerated, fits the pool and has no position. */
  lemma EsrchExactly(entries: seq<Pool4Entry>, prefixes: seq<Prefix6>, src: Addr6, m: uint32, stack: MaskDomain)
    requires entries != []
    ensures Respond(entries, prefixes, src, m, stack) == Failed(-ESRCH) <==>
            && src in Addrs(prefixes)
            && ClientCountOf(prefixes) <= CountOf(entries)
            && ClientPos(prefixes, src).None?
  {
    if src !in Addrs(prefixes) {
      var t := prefixes + [Host(src)];
      HostContains(t[|prefixes|], src);
      ClientPosExists(t, src, |prefixes|);
    }
  }

  /** Every address that a prefix enumerates past its own aligned range is contained in some prefix. */
  ghost predicate SpillCovered(prefixes: seq<Prefix6>) {
    forall k, i: nat :: 0 <= k < |prefixes| && i < AddrCount(prefixes[k]) && Spills(prefixes[k], i) ==>
      ClientPos(prefixes, Iterate(prefixes[k].address, i)).Some?
  }

  lemma SpillCoveredMeaning(prefixes: seq<Prefix6>)
    ensures SpillCovered(prefixes) <==> forall a :: a in Addrs(prefixes) ==> ClientPos(prefixes, a).Some?
  {
    if SpillCovered(prefixes) {
      forall a | a in Addrs(prefixes)
        ensures ClientPos(prefixes, a).Some?
      {
        FlatMapMember(Enumerate, prefixes, a);
        var k :| 0 <= k < |prefixes| && a in Enumerate(prefixes[k]);
        var i :| 0 <= i < AddrCount(prefixes[k]) && Enumerate(prefixes[k])[i] == a;
        if !Spills(prefixes[k], i) {
          SpillsExactly(prefixes[k], i);
          ClientPosExists(prefixes, a, k);
        }
      }
    } else {
      var k, i: nat :| 0 <= k < |prefixes| && i < AddrCount(prefixes[k]) && Spills(prefixes[k], i) &&
        ClientPos(prefixes, Iterate(prefixes[k].address, i)).None?;
      AddrsAt(prefixes, k, i);
    }
  }

  /** No source gets -ESRCH exactly when the table is too large for the pool, or its spills are covered. */
  lemma NeverEsrchIffCovered(entries: seq<Pool4Entry>, prefixes: seq<Prefix6>, m: uint32, stack: MaskDomain)
    requires entries != []
    ensures (forall src :: Respond(entries, prefixes, src, m, stack) != Failed(-ESRCH)) <==>
            ClientCountOf(prefixes) > CountOf(entries) || SpillCovered(prefixes)
  {
    SpillCoveredMeaning(prefixes);
    forall src
      ensures Respond(entries, prefixes, src, m, stack) == Failed(-ESRCH) <==>
              src in Addrs(prefixes) && ClientCountOf(prefixes) <= CountOf(entries) && ClientPos(prefixes, src).None?
    {
      EsrchExactly(entries, prefixes, src, m, stack);
    }
  }

  /** 1 answers exactly when the wrapped number of clients is too large, or a listed source asks for no masks. */
  lemma RefusedExactly(entries: seq<Pool4Entry>, prefixes: seq<Prefix6>, src: Addr6, m: uint32, stack: MaskDomain)
    requires entries != []
    ensures var t := TableAfter(entries, prefixes, src);
            Respond(entries, prefixes, src, m, stack) == Failed(1) <==>
            |Addrs(t)| % 0x1_0000_0000 > CountOf(entries) || (m == 0 && ClientPos(t, src).Some?)
  {
    ClientCountIsLength(TableAfter(entries, prefixes, src));
  }

  // ------------------------------------------------ the uninitialised mask domain

  /** The request gets as far as looking up the position of the source, and finds it. */
  ghost predicate Accepted(entries: seq<Pool4Entry>, prefixes: seq<Prefix6>, src: Addr6, m: uint32) {
    var t := TableAfter(entries, prefixes, src);
    entries != [] && m > 0 && ClientCountOf(t) <= CountOf(entries) && ClientPos(t, src).Some?
  }

  /** ... and that position has a block in the pool. */
  ghost predicate Served(entries: seq<Pool4Entry>, prefixes: seq<Prefix6>, src: Addr6, m: uint32) {
    && Accepted(entries, prefixes, src, m)
    && ClientPos(TableAfter(entries, prefixes, src), src).value < BlockCount(entries, m)
  }

  /** That is: the pool is not empty, not too small, and the first prefix with the source has a block. */
  lemma ServedMeaning(entries: seq<Pool4Entry>, prefixes: seq<Prefix6>, src: Addr6, m: uint32, p: nat)
    requires FirstOrNone(Listed(entries, prefixes, src), src, p)
    ensures var t := Listed(entries, prefixes, src);
            Served(entries, prefixes, src, m) <==>
            && entries != [] && m > 0
            && |Addrs(t)| % 0x1_0000_0000 <= CountOf(entries)
            && p < |t| && p * m < |Flat(entries)|
  {
    var t := Listed(entries, prefixes, src);
    assert TableAfter(entries, prefixes, src) == t;
    ClientCountIsLength(t);
    HasBlock(entries, p, m);
    FirstOrNonePos(t, src, p);
  }

  /** A free mask of the pool that differs from the spool's answer. */
  ghost predicate IsFreeMask(entries: seq<Pool4Entry>, t: TransportAddr) {
    Offers(entries, t) && t.l4 % 2 == 0 && t != TransportAddr(0, 0)
  }

  ghost predicate HasFreeMask(entries: seq<Pool4Entry>) {
    exists t :: IsFreeMask(entries, t)
  }

  /**
   The outcome does not depend on what the mask domain held before, exactly when
   the request fails, or its position has a block, or no mask could be given anyway.
   */
  lemma StackIrrelevant(entries: seq<Pool4Entry>, prefixes: seq<Prefix6>, src: Addr6, m: uint32)
    ensures (forall s, s' :: Respond(entries, prefixes, src, m, s) == Respond(entries, prefixes, src, m, s')) <==>
            !Accepted(entries, prefixes, src, m) || Served(entries, prefixes, src, m) || !HasFreeMask(entries)
  {
    if Served(entries, prefixes, src, m) {
      forall s
        ensures Respond(entries, prefixes, src, m, s) == Respond(entries, prefixes, src, m, MaskDomain(SPOOL, 0, 0))
      {
        ServedAnswer(entries, prefixes, src, m, s);
        ServedAnswer(entries, prefixes, src, m, MaskDomain(SPOOL, 0, 0));
      }
    } else if Accepted(entries, prefixes, src, m) {
      Arithmetic.ChunksCount(|Flat(entries)|, m, ClientPos(TableAfter(entries, prefixes, src), src).value);
      forall s
        ensures Respond(entries, prefixes, src, m, s) == Given(AnswerFor(entries, s))
      {
      }
      if HasFreeMask(entries) {
        var t :| IsFreeMask(entries, t);
        var s, s' := MaskDomain(t, 1, 1), MaskDomain(TransportAddr(0, 1), 1, 1);
        assert AnswerFor(entries, s) == t && AnswerFor(entries, s') == SPOOL;
        assert Respond(entries, prefixes, src, m, s) != Respond(entries, prefixes, src, m, s');
      } else {
        forall s
          ensures AnswerFor(entries, s) == SPOOL
        {
          assert !IsFreeMask(entries, s.first);
        }
      }
    }
  }

  // ------------------------------------------------------- sharing a mask

  /** What a served request answers depends only on the position of its source. */
  lemma ServedAnswer(entries: seq<Pool4Entry>, prefixes: seq<Prefix6>, src: Addr6, m: uint32, stack: MaskDomain)
    requires Served(entries, prefixes, src, m)
    ensures var p := ClientPos(TableAfter(entries, prefixes, src), src).value;
            Respond(entries, prefixes, src, m, stack) == Given(Allotted(entries, p, m))
  {
    AllottedIsAnswer(entries, ClientPos(TableAfter(entries, prefixes, src), src).value, m, stack);
  }

  /** The mask of position `p`: the first of its block if it is free, otherwise the spool's. */
  ghost function Allotted(entries: seq<Pool4Entry>, p: nat, m: uint32): (t: TransportAddr)
    requires p < BlockCount(entries, m)
  {
    Arithmetic.ChunksCount(|Flat(entries)|, m, p);
    var t := Flat(entries)[Arithmetic.Times(p, m)].Taddr();
    if BibdbContains4(t) == 0 then t else SPOOL
  }

  /** A position with a block has the mask at `p * m` if its port is even, otherwise 0.0.0.0:0. */
  lemma AllottedByParity(entries: seq<Pool4Entry>, p: nat, m: uint32)
    requires p < BlockCount(entries, m)
    ensures p * m < |Flat(entries)|
    ensures var t := Flat(entries)[p * m].Taddr();
            Allotted(entries, p, m) == if t.l4 % 2 == 0 then t else TransportAddr(0, 0)
  {
    HasBlock(entries, p, m);
  }

  /** The same for a served source, `p` being the first prefix that contains it. */
  lemma ServedByParity(entries: seq<Pool4Entry>, prefixes: seq<Prefix6>, src: Addr6, m: uint32, stack: MaskDomain)
    requires Served(entries, prefixes, src, m)
    ensures var p := ClientPos(TableAfter(entries, prefixes, src), src).value;
            && p * m < |Flat(entries)|
            && var t := Flat(entries)[p * m].Taddr();
               && (t.l4 % 2 == 0 ==> Respond(entries, prefixes, src, m, stack) == Given(t))
               && (t.l4 % 2 == 1 ==> Respond(entries, prefixes, src, m, stack) == Given(TransportAddr(0, 0)))
  {
    ServedAnswer(entries, prefixes, src, m, stack);
    AllottedByParity(entries, ClientPos(TableAfter(entries, prefixes, src), src).value, m);
  }

  lemma AllottedIsAnswer(entries: seq<Pool4Entry>, p: nat, m: uint32, stack: MaskDomain)
    requires p < BlockCount(entries, m)
    ensures AnswerFor(entries, DomainAt(entries, p, stack, m)) == Allotted(entries, p, m)
  {
    Arithmetic.ChunksCount(|Flat(entries)|, m, p);
    OffersIsMembership(entries, Flat(entries)[Arithmetic.Times(p, m)].Taddr());
  }

  lemma AllottedDistinct(pool: seq<Pool4Entry>, k: nat, l: nat, m: uint32)
    requires Disjoint(pool) && k != l && k < BlockCount(pool, m) && l < BlockCount(pool, m)
    ensures Allotted(pool, k, m) == Allotted(pool, l, m) ==> Allotted(pool, k, m) == SPOOL
  {
    Arithmetic.ChunksCount(|Flat(pool)|, m, k);
    Arithmetic.ChunksCount(|Flat(pool)|, m, l);
    if k < l {
      Arithmetic.TimesGrows(k, l, m);
      DisjointMasks(pool, Arithmetic.Times(k, m), Arithmetic.Times(l, m));
    } else {
      Arithmetic.TimesGrows(l, k, m);
      DisjointMasks(pool, Arithmetic.Times(l, m), Arithmetic.Times(k, m));
    }
  }

  /** Removing an entry from a disjoint pool keeps the mask of a position exactly when it does not move it. */
  lemma AllottedAfterRemove(pool: seq<Pool4Entry>, e: Pool4Entry, p: nat, m: uint32)
    requires Disjoint(pool) && p < BlockCount(pool, m) && p < BlockCount(Without(pool, e), m)
    requires Allotted(pool, p, m) != SPOOL
    ensures Allotted(Without(pool, e), p, m) == Allotted(pool, p, m) <==>
            StaysPut(pool, e, Arithmetic.Times(p, m))
  {
    var start := Arithmetic.Times(p, m);
    Arithmetic.ChunksCount(|Flat(pool)|, m, p);
    Arithmetic.ChunksCount(|Flat(Without(pool, e))|, m, p);
    FlatAfterRemove(pool, e, start);
    if !StaysPut(pool, e, start) {
      DisjointMasks(pool, start, start + |Ports(e)|);
    }
  }

  /** `r` is the mask of the position that `src` has in this table. */
  ghost predicate IsAllotment(entries: seq<Pool4Entry>, prefixes: seq<Prefix6>, src: Addr6, m: uint32, r: Response) {
    var p := ClientPos(prefixes, src);
    p.Some? && p.value < BlockCount(entries, m) && r == Given(Allotted(entries, p.value, m))
  }

  lemma AllotmentsShared(entries: seq<Pool4Entry>, prefixes: seq<Prefix6>, a: Addr6, b: Addr6, m: uint32,
                         r: Response, r': Response)
    requires Disjoint(entries) && r != Given(SPOOL)
    requires IsAllotment(entries, prefixes, a, m, r) && IsAllotment(entries, prefixes, b, m, r')
    ensures r == r' <==> ClientPos(prefixes, a) == ClientPos(prefixes, b)
  {
    var k, l := ClientPos(prefixes, a).value, ClientPos(prefixes, b).value;
    if k != l {
      AllottedDistinct(entries, k, l, m);
    }
  }

  /**
   On a disjoint pool two served sources that are in the table share a mask of the
   pool exactly when the same prefix is the first to contain both: masks belong to
   prefixes, not to addresses.
   */
  lemma SharedIffSamePosition(entries: seq<Pool4Entry>, prefixes: seq<Prefix6>, a: Addr6, b: Addr6, m: uint32,
                              s: MaskDomain, s': MaskDomain)
    requires Disjoint(entries) && a in Addrs(prefixes) && b in Addrs(prefixes)
    requires Served(entries, prefixes, a, m) && Served(entries, prefixes, b, m)
    requires Respond(entries, prefixes, a, m, s) != Given(SPOOL)
    ensures Respond(entries, prefixes, a, m, s) == Respond(entries, prefixes, b, m, s') <==>
            ClientPos(prefixes, a) == ClientPos(prefixes, b)
  {
    assert TableAfter(entries, prefixes, a) == prefixes == TableAfter(entries, prefixes, b);
    ServedAnswer(entries, prefixes, a, m, s);
    ServedAnswer(entries, prefixes, b, m, s');
    var r, r' := Respond(entries, prefixes, a, m, s), Respond(entries, prefixes, b, m, s');
    AllotmentsShared(entries, prefixes, a, b, m, r, r');
  }
}
