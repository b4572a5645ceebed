/** The client table: an ordered list of prefixes and the loops that walk their addresses. */
module ClientTable {
  import opened Types
  import opened Sequences
  import opened Callbacks
  import Paging
  import opened Address6
  import opened Pool4List

  /** The table as one sequence of addresses, in list order. */
  ghost function Addrs(prefixes: seq<Prefix6>): (s: seq<Addr6>) {
    FlatMap(Enumerate, prefixes)
  }

  /** The sum that `client_count` forms, in 32-bit unsigned arithmetic. */
  function ClientCountOf(prefixes: seq<Prefix6>): (count: uint32) {
    if prefixes == [] then 0 else
      Unsigned(ClientCountOf(prefixes[..|prefixes| - 1]) + AddrCount(prefixes[|prefixes| - 1]))
  }

  /** `k` is the position of the first prefix that contains `a` by masking. */
  ghost predicate IsClientPos(prefixes: seq<Prefix6>, a: Addr6, k: nat) {
    && k < |prefixes|
    && PrefixContains(prefixes[k], a)
    && forall j :: 0 <= j < k ==> !PrefixContains(prefixes[j], a)
  }

  /** The search of `client_get_mask_domain`, from position `k` on. */
  function ClientPosFrom(prefixes: seq<Prefix6>, a: Addr6, k: nat): (pos: Option<nat>)
    decreases |prefixes| - k
  {
    if k >= |prefixes| then None
    else if PrefixContains(prefixes[k], a) then Some(k)
    else ClientPosFrom(prefixes, a, k + 1)
  }

  function ClientPos(prefixes: seq<Prefix6>, a: Addr6): (pos: Option<nat>) {
    ClientPosFrom(prefixes, a, 0)
  }

  /** The search from `k` on ends at the first prefix there that contains `a`, or there is none. */
  lemma {:induction false} ClientPosFromMeaning(prefixes: seq<Prefix6>, a: Addr6, k: nat)
    ensures var r := ClientPosFrom(prefixes, a, k);
            if r.Some? then
              && k <= r.value < |prefixes|
              && PrefixContains(prefixes[r.value], a)
              && forall j :: k <= j < r.value ==> !PrefixContains(prefixes[j], a)
            else forall j :: k <= j < |prefixes| ==> !PrefixContains(prefixes[j], a)
    decreases |prefixes| - k
  {
    if k < |prefixes| && !PrefixContains(prefixes[k], a) {
      ClientPosFromMeaning(prefixes, a, k + 1);
    }
  }

  lemma ClientPosIs(prefixes: seq<Prefix6>, a: Addr6, k: nat)
    requires IsClientPos(prefixes, a, k)
    ensures ClientPos(prefixes, a) == Some(k)
  {
    ClientPosFromMeaning(prefixes, a, 0);
    var r := ClientPos(prefixes, a);
    assert r.Some? && !(r.value < k) && !(k < r.value);
  }

  /** `p` is the first position whose prefix contains `a`, or the end of the list if there is none. */
  ghost predicate FirstOrNone(prefixes: seq<Prefix6>, a: Addr6, p: nat) {
    && p <= |prefixes|
    && (forall j :: 0 <= j < p ==> !PrefixContains(prefixes[j], a))
    && (p < |prefixes| ==> PrefixContains(prefixes[p], a))
  }

  lemma FirstOrNonePos(prefixes: seq<Prefix6>, a: Addr6, p: nat)
    requires FirstOrNone(prefixes, a, p)
    ensures ClientPos(prefixes, a) == if p < |prefixes| then Some(p) else None
  {
    if p < |prefixes| {
      ClientPosIs(prefixes, a, p);
    } else {
      ClientPosFromMeaning(prefixes, a, 0);
    }
  }

  /** A prefix that contains the address gives it a position. */
  lemma ClientPosExists(prefixes: seq<Prefix6>, a: Addr6, j: nat)
    requires j < |prefixes| && PrefixContains(prefixes[j], a)
    ensures ClientPos(prefixes, a).Some?
  {
    ClientPosFromMeaning(prefixes, a, 0);
  }

  /** The return code and the mask domain of `client_get_mask_domain`. */
  ghost function MaskDomainFor(entries: seq<Pool4Entry>, prefixes: seq<Prefix6>, a: Addr6, prior: MaskDomain, m: uint32)
    : (r: (int, MaskDomain))
  {
    if ClientCountOf(prefixes) > CountOf(entries) then (1, prior) else
      match ClientPos(prefixes, a)
      case None => (-ESRCH, prior)
      case Some(p) => if m == 0 then (1, prior) else (0, DomainAt(entries, p, prior, m))
  }

  /** The list without the first prefix equal to `p`. */
  ghost function WithoutFirst(prefixes: seq<Prefix6>, p: Prefix6): (rest: seq<Prefix6>) {
    if p in prefixes then prefixes[..FirstIndex(prefixes, p)] + prefixes[FirstIndex(prefixes, p) + 1..] else prefixes
  }

  // -------------------------------------------------- walking the addresses

  lemma AddrsAt(prefixes: seq<Prefix6>, k: nat, i: nat)
    requires k < |prefixes| && i < AddrCount(prefixes[k])
    ensures var pos := |Addrs(prefixes[..k])| + i;
            pos < |Addrs(prefixes)| && Addrs(prefixes)[pos] == Iterate(prefixes[k].address, i)
  {
    FlatMapAt(Enumerate, prefixes, k, i);
  }

  lemma AddrsStep(prefixes: seq<Prefix6>, k: nat)
    requires k < |prefixes|
    ensures |Addrs(prefixes[..k + 1])| == |Addrs(prefixes[..k])| + AddrCount(prefixes[k]) <= |Addrs(prefixes)|
  {
    FlatMapStep(Enumerate, prefixes, k);
    FlatMapSplit(Enumerate, prefixes, k);
  }

  lemma ClientCountStep(prefixes: seq<Prefix6>, k: nat)
    requires k < |prefixes|
    ensures ClientCountOf(prefixes[..k + 1]) == Unsigned(ClientCountOf(prefixes[..k]) + AddrCount(prefixes[k]))
  {
    assert prefixes[..k + 1][..k] == prefixes[..k];
  }

  /** The address under the loop variables is the next one of the rotation. */
  lemma OfferAddr(prefixes: seq<Prefix6>, k: nat, i: nat, o: nat, cb: Callback<Addr6>, visited: seq<Addr6>)
    requires k < |prefixes| && i < AddrCount(prefixes[k])
    requires o <= |Addrs(prefixes)|
    requires var index := |Addrs(prefixes[..k])| + i;
             |visited| == if index < o then |Addrs(prefixes)| - o + index else index - o
    requires visited <= Rotate(Addrs(prefixes), o) && Quiet(cb, visited)
    ensures var rot := Rotate(Addrs(prefixes), o);
            var next := visited + [Iterate(prefixes[k].address, i)];
            && next <= rot
            && (cb(next) == 0 ==> Quiet(cb, next))
            && (cb(next) != 0 ==> IsVisit(rot, cb, next, cb(next)))
  {
    var rot := Rotate(Addrs(prefixes), o);
    var x := Iterate(prefixes[k].address, i);
    AddrsAt(prefixes, k, i);
    assert rot[|visited|] == x;
    Offer(rot, cb, visited, x);
  }

  /** The first pass before address `index`: it counts the offset `o` down to 0, then visits. */
  ghost predicate FirstPass(rot: seq<Addr6>, o: nat, cb: Callback<Addr6>, index: nat, offset: int,
                            visited: seq<Addr6>)
  {
    && visited <= rot && Quiet(cb, visited)
    && if offset == 0 then index == o + |visited| else 0 < offset == o - index && visited == []
  }

  lemma FirstPassStep(prefixes: seq<Prefix6>, k: nat, i: nat, o: nat, cb: Callback<Addr6>, offset: int,
                      visited: seq<Addr6>)
    requires k < |prefixes| && i < AddrCount(prefixes[k]) && o <= |Addrs(prefixes)|
    requires FirstPass(Rotate(Addrs(prefixes), o), o, cb, |Addrs(prefixes[..k])| + i, offset, visited)
    ensures var rot, index := Rotate(Addrs(prefixes), o), |Addrs(prefixes[..k])| + i + 1;
            var next := visited + [Iterate(prefixes[k].address, i)];
            if offset != 0 then FirstPass(rot, o, cb, index, offset - 1, visited)
            else if cb(next) == 0 then FirstPass(rot, o, cb, index, 0, next)
            else IsVisit(rot, cb, next, cb(next))
  {
    if offset == 0 {
      OfferAddr(prefixes, k, i, o, cb, visited);
    }
  }

  /** The second pass before address `index`, which has not reached the offset `o`. */
  ghost predicate SecondPass(rot: seq<Addr6>, o: nat, cb: Callback<Addr6>, index: nat, visited: seq<Addr6>) {
    && visited <= rot && Quiet(cb, visited)
    && index <= o && |visited| == |rot| - o + index
  }

  lemma SecondPassStep(prefixes: seq<Prefix6>, k: nat, i: nat, o: nat, cb: Callback<Addr6>, visited: seq<Addr6>)
    requires k < |prefixes| && i < AddrCount(prefixes[k]) && o <= |Addrs(prefixes)|
    requires |Addrs(prefixes[..k])| + i < o
    requires SecondPass(Rotate(Addrs(prefixes), o), o, cb, |Addrs(prefixes[..k])| + i, visited)
    ensures var rot, index := Rotate(Addrs(prefixes), o), |Addrs(prefixes[..k])| + i + 1;
            var next := visited + [Iterate(prefixes[k].address, i)];
            if cb(next) == 0 then SecondPass(rot, o, cb, index, next) else IsVisit(rot, cb, next, cb(next))
  {
    OfferAddr(prefixes, k, i, o, cb, visited);
  }

  class Client {
    var prefixes: seq<Prefix6>

    constructor ()
      ensures prefixes == []
    {
      prefixes := [];
    }

    method Add(p: Prefix6) returns (error: int)
      modifies this
      ensures error == 0 && prefixes == old(prefixes) + [p]
    {
      prefixes := prefixes + [p];
      error := 0;
    }

    method Delete(p: Prefix6) returns (error: int)
      modifies this
      ensures error == 0 && prefixes == WithoutFirst(old(prefixes), p)
      ensures p !in old(prefixes) ==> prefixes == old(prefixes)
      ensures forall k: nat :: IsFirst(old(prefixes), p, k) ==> prefixes == old(prefixes)[..k] + old(prefixes)[k + 1..]
    {
      for k := 0 to |prefixes|
        invariant p !in prefixes[..k] && prefixes == old(prefixes)
      {
        if prefixes[k] == p {
          FirstUnique(prefixes, p, k);
          prefixes := prefixes[..k] + prefixes[k + 1..];
          return 0;
        }
      }
      error := 0;
    }

    method Flush() returns (error: int)
      modifies this
      ensures error == 0 && prefixes == []
    {
      while prefixes != []
        decreases |prefixes|
      {
        prefixes := prefixes[1..];
      }
      error := 0;
    }

    method Count() returns (r: uint32)
      ensures r == ClientCountOf(prefixes)
    {
      r := 0;
      for k := 0 to |prefixes|
        invariant r == ClientCountOf(prefixes[..k])
      {
        ClientCountStep(prefixes, k);
        r := Unsigned(r + AddrCount(prefixes[k]));
      }
      assert prefixes[..|prefixes|] == prefixes;
    }

    method ForEachSample(cb: Callback<Prefix6>, offset: Option<Prefix6>)
      returns (error: int, visited: seq<Prefix6>)
      ensures Paging.IsPage(prefixes, offset, cb, visited, error)
      ensures offset.Some? && offset.value !in prefixes ==> error == -ESRCH && visited == []
      ensures error == -ESRCH ==>
                (offset.Some? && offset.value !in prefixes) || (visited != [] && cb(visited) == -ESRCH)
    {
      var rest := offset;
      error, visited := 0, [];
      for k := 0 to |prefixes|
        invariant Paging.Sampling(prefixes, offset, cb, k, rest, visited)
        invariant error == 0
      {
        Paging.SamplingStep(prefixes, offset, cb, k, rest, visited);
        if rest.None? {
          visited := visited + [prefixes[k]];
          error := cb(visited);
          if error != 0 {
            break;
          }
        } else if rest.value == prefixes[k] {
          rest := None;
        }
      }
      if error == 0 {
        Paging.SamplingEnds(prefixes, offset, cb, rest, visited);
      }
      error := if rest.Some? then -ESRCH else error;
      Paging.PageOfAbsent(prefixes, offset, cb, visited, error);
    }

    method AddrExist(a: Addr6) returns (r: bool)
      ensures r <==> a in Addrs(prefixes)
    {
      var dummy := new uint32[4];
      for k := 0 to |prefixes|
        invariant forall j :: 0 <= j < k ==> a !in Enumerate(prefixes[j])
      {
        var p := prefixes[k];
        dummy[0], dummy[1], dummy[2], dummy[3] := p.address.w0, p.address.w1, p.address.w2, p.address.w3;
        for i := 0 to AddrCount(p)
          invariant Stored(dummy) == Iterate(p.address, i)
          invariant forall j :: 0 <= j < i ==> Enumerate(p)[j] != a
        {
          if a.w0 == dummy[0] && a.w1 == dummy[1] && a.w2 == dummy[2] && a.w3 == dummy[3] {
            assert a == Enumerate(p)[i];
            FlatMapMember(Enumerate, prefixes, a);
            return true;
          }
          Addr6Iterations(dummy);
        }
      }
      FlatMapMember(Enumerate, prefixes, a);
      return false;
    }

    method ForEach(cb: Callback<Addr6>, offset0: uint32) returns (error: int, visited: seq<Addr6>)
      requires prefixes != [] && |Addrs(prefixes)| <= INT_MAX
      ensures Addrs(prefixes) != []
      ensures IsVisit(Rotate(Addrs(prefixes), offset0 % |Addrs(prefixes)|), cb, visited, error)
    {
      AddrsStep(prefixes, 0);
      var total := 0;
      for k := 0 to |prefixes|
        invariant total == |Addrs(prefixes[..k])|
      {
        AddrsStep(prefixes, k);
        total := total + AddrCount(prefixes[k]);
      }
      assert prefixes[..|prefixes|] == prefixes;
      var offset := offset0 % total;
      error, visited := VisitFromOffset(cb, offset);
      if error == 0 {
        error, visited := VisitUpTo(cb, offset, visited);
      }
    }

    /** First pass: counts the offset down to 0 and visits from there on. */
    method VisitFromOffset(cb: Callback<Addr6>, clientIndex: int) returns (error: int, visited: seq<Addr6>)
      requires 0 <= clientIndex < |Addrs(prefixes)|
      ensures var rot := Rotate(Addrs(prefixes), clientIndex);
              if error == 0 then visited <= rot && |visited| == |rot| - clientIndex && Quiet(cb, visited)
              else IsVisit(rot, cb, visited, error)
    {
      ghost var list, rot := prefixes, Rotate(Addrs(prefixes), clientIndex);
      var offset := clientIndex;
      var dummy := new uint32[4];
      error, visited := 0, [];
      for k := 0 to |prefixes|
        invariant FirstPass(rot, clientIndex, cb, |Addrs(list[..k])|, offset, visited)
      {
        var p := prefixes[k];
        dummy[0], dummy[1], dummy[2], dummy[3] := p.address.w0, p.address.w1, p.address.w2, p.address.w3;
        for i := 0 to AddrCount(p)
          invariant Stored(dummy) == Iterate(p.address, i)
          invariant FirstPass(rot, clientIndex, cb, |Addrs(list[..k])| + i, offset, visited)
        {
          FirstPassStep(list, k, i, clientIndex, cb, offset, visited);
          if offset == 0 {
            visited := visited + [Stored(dummy)];
            error := cb(visited);
            if error != 0 {
              return;
            }
          } else {
            offset := offset - 1;
          }
          Addr6Iterations(dummy);
        }
        AddrsStep(list, k);
      }
      assert list[..|list|] == list;
      error := 0;
    }

    /** Second pass: from the first address on, until the offset is reached. */
    method VisitUpTo(cb: Callback<Addr6>, clientIndex: int, before: seq<Addr6>)
      returns (error: int, visited: seq<Addr6>)
      requires 0 <= clientIndex < |Addrs(prefixes)|
      requires var rot := Rotate(Addrs(prefixes), clientIndex);
               before <= rot && |before| == |rot| - clientIndex && Quiet(cb, before)
      ensures IsVisit(Rotate(Addrs(prefixes), clientIndex), cb, visited, error)
    {
      ghost var list, rot := prefixes, Rotate(Addrs(prefixes), clientIndex);
      assert list[..|list|] == list;
      var clientIndexAux := 0;
      var dummy := new uint32[4];
      error, visited := 0, before;
      for k := 0 to |prefixes|
        invariant clientIndexAux == |Addrs(list[..k])|
        invariant SecondPass(rot, clientIndex, cb, clientIndexAux, visited) && error == 0
      {
        var p := prefixes[k];
        dummy[0], dummy[1], dummy[2], dummy[3] := p.address.w0, p.address.w1, p.address.w2, p.address.w3;
        for i := 0 to AddrCount(p)
          invariant Stored(dummy) == Iterate(p.address, i)
          invariant clientIndexAux == |Addrs(list[..k])| + i
          invariant SecondPass(rot, clientIndex, cb, clientIndexAux, visited) && error == 0
        {
          if clientIndexAux < clientIndex {
            SecondPassStep(list, k, i, clientIndex, cb, visited);
            visited := visited + [Stored(dummy)];
            error := cb(visited);
            if error != 0 {
              return;
            }
            Addr6Iterations(dummy);
          } else {
            return;
          }
          clientIndexAux := clientIndexAux + 1;
        }
        AddrsStep(list, k);
      }
      assert false;  // the table has more addresses than the offset, so the loop has returned
    }

    method GetMaskDomain(pool4: Pool4, a: Addr6, prior: MaskDomain, masksPerClient: uint32)
      returns (error: int, result: MaskDomain)
      requires Countable(pool4.entries)
      requires |prefixes| <= INT_MAX  // otherwise the position overflows
      ensures (error, result) == MaskDomainFor(pool4.entries, prefixes, a, prior, masksPerClient)
    {
      var clients := Count();
      var masks := pool4.Count();
      UnsignedSigned(CountOf(pool4.entries));
      if clients > Unsigned(masks) {
        return 1, prior;
      }
      var addrExist := false;
      var ipv6Pos: int32 := 0;
      for k := 0 to |prefixes|
        invariant ipv6Pos == k && !addrExist
        invariant forall j :: 0 <= j < k ==> !PrefixContains(prefixes[j], a)
      {
        if PrefixContains(prefixes[k], a) {
          addrExist := true;
          break;
        }
        ipv6Pos := ipv6Pos + 1;
      }
      if !addrExist {
        ClientPosFromMeaning(prefixes, a, 0);
        return -ESRCH, prior;
      }
      ClientPosIs(prefixes, a, ipv6Pos);
      error, result := pool4.FindPos(ipv6Pos, prior, masksPerClient);
    }
  }
}
