/** The IPv4 pool: an ordered list of entries and the loops that walk its ports. */
module Pool4List {
  import opened Types
  import opened Sequences
  import opened Callbacks
  import Arithmetic
  import Paging

  // ---------------------------------------------------------------- meaning

  /** The masks of an entry from port `i` on. */
  function PortsFrom(e: Pool4Entry, i: nat): (r: seq<Pool4Mask>)
    ensures |r| == if i <= e.max then e.max - i + 1 else 0
    ensures forall j :: 0 <= j < |r| ==> r[j] == Pool4Mask(e.mark, e.proto, e.addr, i + j)
    decreases e.max + 1 - i
  {
    if i > e.max then [] else [Pool4Mask(e.mark, e.proto, e.addr, i)] + PortsFrom(e, i + 1)
  }

  /** The masks of one entry, in port order; none if the range is inverted. */
  function Ports(e: Pool4Entry): (s: seq<Pool4Mask>) {
    PortsFrom(e, e.min)
  }

  /** The pool as one sequence of masks, in list order and then port order. */
  ghost function Flat(entries: seq<Pool4Entry>): (s: seq<Pool4Mask>) {
    FlatMap(Ports, entries)
  }

  /** The loop counters of the source are ints: the masks can be counted with one. */
  ghost predicate Countable(entries: seq<Pool4Entry>) {
    |Flat(entries)| <= INT_MAX
  }

  /** The sum that `pool4_count` forms, in 32-bit unsigned arithmetic. */
  function CountOf(entries: seq<Pool4Entry>): (count: uint32) {
    if entries == [] then 0 else
      var e := entries[|entries| - 1];
      Unsigned(CountOf(entries[..|entries| - 1]) + Unsigned(e.max - e.min + 1))
  }

  /** The domain of client position `p`: the block of `m` masks that starts at mask `p * m`. */
  ghost function DomainAt(entries: seq<Pool4Entry>, p: int, prior: MaskDomain, m: uint32): (domain: MaskDomain) {
    if 0 <= p && Arithmetic.Times(p, m) < |Flat(entries)| then
      MaskDomain(Flat(entries)[Arithmetic.Times(p, m)].Taddr(), 1, m)
    else prior
  }

  /**
   Where `pool4_foreach_taddr4` starts: the offset is reduced modulo the count
   only when it exceeds it, and one past the end visits everything in list order.
   */
  ghost function RotationPoint(entries: seq<Pool4Entry>, offset: uint32): (o: nat)
    requires CountOf(entries) == 0 ==> offset == 0
    ensures o <= |Flat(entries)|
  {
    var reduced := if offset > CountOf(entries) then offset % CountOf(entries) else offset;
    if reduced <= |Flat(entries)| then reduced else |Flat(entries)|
  }

  /** Entry `e` is where `pool4_get_nth_taddr` starts: the upper bound is strict. */
  predicate Starts(e: Pool4Entry, first: TransportAddr) {
    first.l3 == e.addr && e.min <= first.l4 < e.max
  }

  /** A port range was walked: it ended at a port, or `left` steps remain. */
  datatype Scan = Hit(port: uint16) | Miss(left: uint32)

  /** Counts `n` down while `i` advances by `step` in 32-bit arithmetic. */
  function ScanRange(i: int, max: uint16, step: uint32, n: uint32): (scan: Scan)
    decreases n
  {
    if i > max then Miss(n)
    else if n == 0 then Hit(i % 0x1_0000)
    else ScanRange(Signed(i + step), max, step, n - 1)
  }

  function ScanEntries(entries: seq<Pool4Entry>, step: uint32, n: uint32): (t: Option<TransportAddr>) {
    if entries == [] then None else
      match ScanRange(entries[0].min, entries[0].max, step, n)
      case Hit(port) => Some(TransportAddr(entries[0].addr, port))
      case Miss(left) => ScanEntries(entries[1..], step, left)
  }

  /** The transport address `n` steps into a domain, for every step that fits 32 bits. */
  function NthTaddr(entries: seq<Pool4Entry>, domain: MaskDomain, n: uint32): (t: Option<TransportAddr>) {
    if entries == [] then None
    else if Starts(entries[0], domain.first) then
      match ScanRange(domain.first.l4, entries[0].max, domain.step, n)
      case Hit(port) => Some(TransportAddr(entries[0].addr, port))
      case Miss(left) => ScanEntries(entries[1..], domain.step, left)
    else NthTaddr(entries[1..], domain, n)
  }

  /** The list without any entry equal to `e`. */
  function Without(entries: seq<Pool4Entry>, e: Pool4Entry): (rest: seq<Pool4Entry>) {
    if entries == [] then []
    else (if entries[0] == e then [] else [entries[0]]) + Without(entries[1..], e)
  }

  // ------------------------------------------------------- walking the ports

  /** The mask under the loop variables `k`, `i` is the one `i - min` after the earlier entries. */
  lemma FlatAt(entries: seq<Pool4Entry>, k: nat, i: int)
    requires k < |entries| && entries[k].min <= i <= entries[k].max
    ensures var pos := |Flat(entries[..k])| + i - entries[k].min;
            && pos < |Flat(entries)|
            && Flat(entries)[pos] == Pool4Mask(entries[k].mark, entries[k].proto, entries[k].addr, i)
  {
    FlatMapAt(Ports, entries, k, i - entries[k].min);
  }

  lemma FlatStep(entries: seq<Pool4Entry>, k: nat)
    requires k < |entries|
    ensures |Flat(entries[..k + 1])| == |Flat(entries[..k])| + |Ports(entries[k])|
    ensures |Flat(entries[..k + 1])| <= |Flat(entries)|
  {
    FlatMapStep(Ports, entries, k);
    FlatMapSplit(Ports, entries, k);
  }

  lemma CountStep(entries: seq<Pool4Entry>, k: nat)
    requires k < |entries|
    ensures CountOf(entries[..k + 1]) ==
            Unsigned(CountOf(entries[..k]) + Unsigned(entries[k].max - entries[k].min + 1))
  {
    assert entries[..k + 1][..k] == entries[..k];
  }

  /** The mask under the loop variables is the next one of the rotation. */
  lemma OfferMask(entries: seq<Pool4Entry>, k: nat, i: int, o: nat, cb: Callback<Pool4Mask>, visited: seq<Pool4Mask>)
    requires k < |entries| && entries[k].min <= i <= entries[k].max
    requires o <= |Flat(entries)|
    requires var indx := |Flat(entries[..k])| + i - entries[k].min;
             |visited| == if indx < o then |Flat(entries)| - o + indx else indx - o
    requires var rot := Rotate(Flat(entries), o);
             visited <= rot && Quiet(cb, visited)
    ensures var rot := Rotate(Flat(entries), o);
            var next := visited + [Pool4Mask(entries[k].mark, entries[k].proto, entries[k].addr, i)];
            && next <= rot
            && (cb(next) == 0 ==> Quiet(cb, next))
            && (cb(next) != 0 ==> IsVisit(rot, cb, next, cb(next)))
  {
    var rot := Rotate(Flat(entries), o);
    var x := Pool4Mask(entries[k].mark, entries[k].proto, entries[k].addr, i);
    FlatAt(entries, k, i);
    assert rot[|visited|] == x;
    Offer(rot, cb, visited, x);
  }

  /** A loop counter that is a multiple of `m` stands at the start of a block. */
  lemma BlockStart(entries: seq<Pool4Entry>, k: nat, i: int, counter: nat, prior: MaskDomain, m: uint32)
    requires k < |entries| && entries[k].min <= i <= entries[k].max
    requires counter == |Flat(entries[..k])| + i - entries[k].min
    requires m > 0 && counter % m == 0
    ensures DomainAt(entries, Arithmetic.Chunks(counter, m), prior, m) ==
            MaskDomain(TransportAddr(entries[k].addr, i), 1, m)
  {
    FlatAt(entries, k, i);
    Arithmetic.ChunksStep(counter, m);
  }

  lemma StartOf(p: int, m: uint32)
    requires m > 0
    ensures 0 <= p ==> Arithmetic.Times(p, m) == p * m
    ensures p < 0 ==> p * m < 0
  {
    if 0 <= p {
      Arithmetic.TimesIsProduct(p, m);
    } else {
      Arithmetic.MulLt(p, 0, m);
    }
  }

  lemma {:induction false} WithoutSplit(xs: seq<Pool4Entry>, ys: seq<Pool4Entry>, e: Pool4Entry)
    ensures Without(xs + ys, e) == Without(xs, e) + Without(ys, e)
  {
    if xs == [] {
      assert xs + ys == ys;
    } else {
      assert (xs + ys)[1..] == xs[1..] + ys;
      WithoutSplit(xs[1..], ys, e);
    }
  }

  class Pool4 {
    var entries: seq<Pool4Entry>

    constructor ()
      ensures entries == []
    {
      entries := [];
    }

    method Add(mark: uint32, proto: uint8, addr: uint32, min: uint16, max: uint16) returns (error: int)
      modifies this
      ensures error == 0 && entries == old(entries) + [Pool4Entry(mark, proto, addr, min, max)]
    {
      entries := entries + [Pool4Entry(mark, proto, addr, min, max)];
      error := 0;
    }

    method Remove(mark: uint32, proto: uint8, addr: uint32, min: uint16, max: uint16) returns (error: int)
      modifies this
      ensures error == 0 && entries == Without(old(entries), Pool4Entry(mark, proto, addr, min, max))
    {
      var rm := Pool4Entry(mark, proto, addr, min, max);
      var i := 0;
      while i < |entries|
        invariant i <= |entries|
        invariant Without(entries[..i], rm) == entries[..i]
        invariant Without(entries, rm) == Without(old(entries), rm)
        decreases |entries| - i
      {
        WithoutSplit(entries[..i], entries[i..], rm);
        assert entries == entries[..i] + entries[i..];
        if entries[i] == rm {
          WithoutSplit(entries[..i], entries[i + 1..], rm);
          assert entries[i..][1..] == entries[i + 1..];
          assert (entries[..i] + entries[i + 1..])[..i] == entries[..i];
          entries := entries[..i] + entries[i + 1..];
        } else {
          WithoutSplit(entries[..i], [entries[i]], rm);
          assert entries[..i + 1] == entries[..i] + [entries[i]];
          i := i + 1;
        }
      }
      assert entries[..i] == entries;
      error := 0;
    }

    method Flush() returns (error: int)
      modifies this
      ensures error == 0 && entries == []
    {
      while entries != []
        decreases |entries|
      {
        entries := entries[1..];
      }
      error := 0;
    }

    method IsEmpty() returns (r: int)
      ensures r == if entries == [] then 1 else 0
    {
      r := if entries != [] then 0 else 1;
    }

    method Count() returns (r: int)
      ensures r == Signed(CountOf(entries))
    {
      var sum: uint32 := 0;
      var ports: uint32 := 0;
      for k := 0 to |entries|
        invariant sum == CountOf(entries[..k])
      {
        CountStep(entries, k);
        ports := Unsigned(entries[k].max - entries[k].min + 1);
        sum := Unsigned(sum + ports);
      }
      assert entries[..|entries|] == entries;
      r := Signed(sum);
    }

    method ForeachSample(cb: Callback<Pool4Entry>, offset: Option<Pool4Entry>)
      returns (error: int, visited: seq<Pool4Entry>)
      ensures Paging.IsPage(entries, offset, cb, visited, error)
      ensures offset.Some? && offset.value !in entries ==> error == -ESRCH && visited == []
      ensures error == -ESRCH ==>
                (offset.Some? && offset.value !in entries) || (visited != [] && cb(visited) == -ESRCH)
    {
      var rest := offset;
      error, visited := 0, [];
      for k := 0 to |entries|
        invariant Paging.Sampling(entries, offset, cb, k, rest, visited)
        invariant error == 0
      {
        Paging.SamplingStep(entries, offset, cb, k, rest, visited);
        if rest.None? {
          visited := visited + [entries[k]];
          error := cb(visited);
          if error != 0 {
            break;
          }
        } else if rest.value == entries[k] {
          rest := None;
        }
      }
      if error == 0 {
        Paging.SamplingEnds(entries, offset, cb, rest, visited);
      }
      error := if rest.Some? then -ESRCH else error;
      Paging.PageOfAbsent(entries, offset, cb, visited, error);
    }

    method FindPos(ipv6Pos: int32, prior: MaskDomain, masksPerClient: uint32)
      returns (error: int, result: MaskDomain)
      requires Countable(entries)
      ensures masksPerClient == 0 ==> error == 1 && result == prior
      ensures masksPerClient > 0 ==> error == 0 && result == DomainAt(entries, ipv6Pos, prior, masksPerClient)
      ensures var pos: int, flat := ipv6Pos * masksPerClient, Flat(entries);
              masksPerClient > 0 ==>
                if 0 <= pos < |flat| then
                  result == MaskDomain(TransportAddr(flat[pos].addr, flat[pos].port), 1, masksPerClient)
                else result == prior
    {
      var portsPos := 0;
      var counter := 0;
      result := prior;
      if masksPerClient == 0 {
        return 1, result;
      }
      ghost var answer := DomainAt(entries, ipv6Pos, prior, masksPerClient);
      for k := 0 to |entries|
        invariant counter == |Flat(entries[..k])|
        invariant portsPos == Arithmetic.Chunks(counter, masksPerClient)
        invariant result == if 0 <= ipv6Pos < portsPos then answer else prior
      {
        var entry := entries[k];
        var i: int := entry.min;
        ghost var base := counter;
        FlatStep(entries, k);
        while i <= entry.max
          invariant i == entry.min || entry.min <= i <= entry.max + 1
          invariant counter == base + i - entry.min
          invariant portsPos == Arithmetic.Chunks(counter, masksPerClient)
          invariant result == if 0 <= ipv6Pos < portsPos then answer else prior
        {
          Arithmetic.ChunksStep(counter, masksPerClient);
          if counter % masksPerClient == 0 {
            if ipv6Pos == portsPos {
              result := MaskDomain(TransportAddr(entry.addr, i), 1, masksPerClient);
              BlockStart(entries, k, i, counter, prior, masksPerClient);
            }
            portsPos := portsPos + 1;
          }
          counter := counter + 1;
          i := i + 1;
        }
      }
      assert entries[..|entries|] == entries;
      StartOf(ipv6Pos, masksPerClient);
      if 0 <= ipv6Pos {
        Arithmetic.ChunksCount(counter, masksPerClient, ipv6Pos);
      }
      error := 0;
    }

    method ForeachTaddr4(cb: Callback<Pool4Mask>, offset0: uint32)
      returns (error: int, visited: seq<Pool4Mask>)
      requires Countable(entries)
      requires CountOf(entries) == 0 ==> offset0 == 0  // otherwise the source divides by zero
      ensures IsVisit(Rotate(Flat(entries), RotationPoint(entries, offset0)), cb, visited, error)
      ensures var flat := Flat(entries);
              var o := if offset0 > CountOf(entries) then offset0 % CountOf(entries) else offset0;
              error == 0 ==> visited == if o <= |flat| then flat[o..] + flat[..o] else flat
    {
      var offset: uint32 := offset0;
      var count := Count();
      UnsignedSigned(CountOf(entries));
      if offset > Unsigned(count) {
        offset := offset % Unsigned(count);
      }
      ghost var o := RotationPoint(entries, offset0);
      ghost var rot := Rotate(Flat(entries), o);
      error, visited := VisitToEnd(cb, offset, o, rot);
      if error != 0 || offset == 0 {
        return;
      }
      error, visited := VisitBefore(cb, offset, o, rot, visited);
    }

    /** First pass: from the offset to the end. */
    method VisitToEnd(cb: Callback<Pool4Mask>, offset: uint32, ghost o: nat, ghost rot: seq<Pool4Mask>)
      returns (error: int, visited: seq<Pool4Mask>)
      requires o == if offset <= |Flat(entries)| then offset else |Flat(entries)|
      requires rot == Rotate(Flat(entries), o)
      ensures if error == 0 then visited <= rot && |visited| == |rot| - o && Quiet(cb, visited)
              else IsVisit(rot, cb, visited, error)
    {
      ghost var flat := Flat(entries);
      error, visited := 0, [];
      var indx := 0;
      for k := 0 to |entries|
        invariant indx == |Flat(entries[..k])| <= |flat|
        invariant |visited| == if indx <= o then 0 else indx - o
        invariant visited <= rot && Quiet(cb, visited)
      {
        var entry := entries[k];
        var i: int := entry.min;
        ghost var base := indx;
        FlatStep(entries, k);
        while i <= entry.max
          invariant i == entry.min || entry.min <= i <= entry.max + 1
          invariant indx == base + i - entry.min
          invariant |visited| == if indx <= o then 0 else indx - o
          invariant visited <= rot && Quiet(cb, visited)
        {
          var mask := Pool4Mask(entry.mark, entry.proto, entry.addr, i);
          if indx >= offset {
            OfferMask(entries, k, i, o, cb, visited);
            visited := visited + [mask];
            error := cb(visited);
            if error != 0 {
              return;
            }
          }
          indx := indx + 1;
          i := i + 1;
        }
      }
      assert entries[..|entries|] == entries;
      error := 0;
    }

    /** Second pass: from the first one to just before the offset. */
    method VisitBefore(cb: Callback<Pool4Mask>, offset: uint32, ghost o: nat, ghost rot: seq<Pool4Mask>,
                       before: seq<Pool4Mask>)
      returns (error: int, visited: seq<Pool4Mask>)
      requires o == if offset <= |Flat(entries)| then offset else |Flat(entries)|
      requires rot == Rotate(Flat(entries), o)
      requires before <= rot && |before| == |rot| - o && Quiet(cb, before)
      ensures IsVisit(rot, cb, visited, error)
    {
      ghost var flat := Flat(entries);
      error, visited := 0, before;
      var indx := 0;
      for k := 0 to |entries|
        invariant indx == |Flat(entries[..k])| <= |flat|
        invariant |visited| == |flat| - o + if indx < o then indx else o
        invariant visited <= rot && Quiet(cb, visited)
      {
        var entry := entries[k];
        var i: int := entry.min;
        ghost var base := indx;
        FlatStep(entries, k);
        while i <= entry.max
          invariant i == entry.min || entry.min <= i <= entry.max + 1
          invariant indx == base + i - entry.min
          invariant |visited| == |flat| - o + if indx < o then indx else o
          invariant visited <= rot && Quiet(cb, visited)
        {
          var mask := Pool4Mask(entry.mark, entry.proto, entry.addr, i);
          if indx < offset {
            OfferMask(entries, k, i, o, cb, visited);
            visited := visited + [mask];
            error := cb(visited);
            if error != 0 {
              return;
            }
          }
          indx := indx + 1;
          i := i + 1;
        }
      }
      assert entries[..|entries|] == entries;
      error := 0;
    }

    method GetNthTaddr(domain: MaskDomain, n0: uint32) returns (error: int, result: Option<TransportAddr>)
      requires domain.count != 0
      ensures result == NthTaddr(entries, domain, n0 % domain.count)
      ensures error == if result.None? then -ESRCH else 0
    {
      var flag := false;
      var n: uint32 := n0 % domain.count;
      ghost var answer := NthTaddr(entries, domain, n);
      for k := 0 to |entries|
        invariant flag ==> answer == ScanEntries(entries[k..], domain.step, n)
        invariant !flag ==> answer == NthTaddr(entries[k..], domain, n)
      {
        var entry := entries[k];
        assert entries[k..][1..] == entries[k + 1..];
        if Starts(entry, domain.first) || flag {
          if !flag {
            var i: int := domain.first.l4;
            ghost var scan := ScanRange(i, entry.max, domain.step, n);
            while i <= entry.max
              invariant scan == ScanRange(i, entry.max, domain.step, n)
              decreases n
            {
              if n == 0 {
                return 0, Some(TransportAddr(entry.addr, i % 0x1_0000));
              }
              n := n - 1;
              i := Signed(i + domain.step);
            }
            flag := true;
          } else {
            var i: int := entry.min;
            ghost var scan := ScanRange(i, entry.max, domain.step, n);
            while i <= entry.max
              invariant scan == ScanRange(i, entry.max, domain.step, n)
              decreases n
            {
              if n == 0 {
                return 0, Some(TransportAddr(entry.addr, i % 0x1_0000));
              }
              n := n - 1;
              i := Signed(i + domain.step);
            }
          }
        }
      }
      return -ESRCH, None;
    }
  }
}
