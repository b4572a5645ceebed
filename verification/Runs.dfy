/** The allocator as a state machine, and what holds over whole runs. */
module Runs {
  import opened Types
  import opened Sequences
  import Arithmetic
  import opened Address6
  import opened Pool4List
  import opened PoolTheorems
  import opened ClientTable
  import opened ClientTheorems
  import opened Allocator

  datatype State = State(pool: seq<Pool4Entry>, clients: seq<Prefix6>)

  datatype Event =
    | Request(src: Addr6, stack: MaskDomain)
    | ClientAdd(prefix: Prefix6)
    | ClientDelete(prefix: Prefix6)
    | ClientFlush
    | PoolAdd(entry: Pool4Entry)
    | PoolRemove(entry: Pool4Entry)
    | PoolFlush

  ghost function Step(s: State, e: Event): (next: State) {
    match e
    case Request(src, stack) => s.(clients := TableAfter(s.pool, s.clients, src))
    case ClientAdd(p) => s.(clients := s.clients + [p])
    case ClientDelete(p) => s.(clients := WithoutFirst(s.clients, p))
    case ClientFlush => s.(clients := [])
    case PoolAdd(entry) => s.(pool := s.pool + [entry])
    case PoolRemove(entry) => s.(pool := Without(s.pool, entry))
    case PoolFlush => s.(pool := [])
  }

  /** The state after the first `n` events of a run. */
  ghost function After(s: State, run: seq<Event>, n: nat): (now: State)
    requires n <= |run|
  {
    if n == 0 then s else Step(After(s, run, n - 1), run[n - 1])
  }

  lemma AfterRequest(s: State, run: seq<Event>, i: nat, now: State)
    requires i < |run| && run[i].Request? && now == After(s, run, i)
    ensures After(s, run, i + 1) == now.(clients := TableAfter(now.pool, now.clients, run[i].src))
  {
  }

  /** The answer to the request at position `i` of a run. */
  ghost function Reply(s: State, run: seq<Event>, i: nat, m: uint32): (r: Response)
    requires i < |run| && run[i].Request?
  {
    var now := After(s, run, i);
    Respond(now.pool, now.clients, run[i].src, m, run[i].stack)
  }

  // ------------------------------------------------- the machine on the objects

  ghost function StateOf(cpool: Pool4, client: Client): (s: State)
    reads cpool, client
  {
    State(cpool.entries, client.prefixes)
  }

  /** What an event answers; only requests do. */
  ghost function Answer(s: State, e: Event, m: uint32): (r: Option<Response>) {
    if e.Request? then Some(Respond(s.pool, s.clients, e.src, m, e.stack)) else None
  }

  ghost function AnswerAt(s: State, run: seq<Event>, i: nat, m: uint32): (r: Option<Response>)
    requires i < |run|
  {
    Answer(After(s, run, i), run[i], m)
  }

  /** The answers to the first `n` events of a run. */
  ghost function Answers(s: State, run: seq<Event>, n: nat, m: uint32): (answers: seq<Option<Response>>)
    requires n <= |run|
    ensures |answers| == n
  {
    if n == 0 then [] else Answers(s, run, n - 1, m) + [AnswerAt(s, run, n - 1, m)]
  }

  lemma {:induction false} AnswersAt(s: State, run: seq<Event>, n: nat, m: uint32, i: nat)
    requires i < n <= |run|
    ensures Answers(s, run, n, m)[i] == AnswerAt(s, run, i, m)
  {
    if i < n - 1 {
      AnswersAt(s, run, n - 1, m, i);
    }
  }

  /** One event on the two lists. */
  method Apply(cpool: Pool4, client: Client, e: Event, m: uint32) returns (answer: Option<Response>)
    requires e.Request? ==> Countable(cpool.entries)
    requires e.Request? ==> |Step(StateOf(cpool, client), e).clients| <= INT_MAX
    modifies cpool, client
    ensures StateOf(cpool, client) == Step(old(StateOf(cpool, client)), e)
    ensures answer == Answer(old(StateOf(cpool, client)), e, m)
    ensures e.PoolAdd? || e.PoolRemove? || e.PoolFlush? ==> client.prefixes == old(client.prefixes)
    ensures e.Request? || e.ClientAdd? || e.ClientDelete? || e.ClientFlush? ==> cpool.entries == old(cpool.entries)
    ensures e.Request? ==> client.prefixes == Listed(old(cpool.entries), old(client.prefixes), e.src)
    ensures e.ClientAdd? ==> client.prefixes == old(client.prefixes) + [e.prefix]
    ensures e.ClientDelete? && e.prefix !in old(client.prefixes) ==> client.prefixes == old(client.prefixes)
    ensures e.ClientDelete? ==>
              forall k: nat :: IsFirst(old(client.prefixes), e.prefix, k) ==>
                client.prefixes == old(client.prefixes)[..k] + old(client.prefixes)[k + 1..]
    ensures e.ClientFlush? ==> client.prefixes == []
    ensures e.PoolAdd? ==> cpool.entries == old(cpool.entries) + [e.entry]
    ensures e.PoolRemove? ==> cpool.entries == Without(old(cpool.entries), e.entry)
    ensures e.PoolFlush? ==> cpool.entries == []
  {
    answer := None;
    var error;
    match e {
      case Request(src, stack) =>
        var mask;
        error, mask := GetMask(cpool, client, src, m, stack, SPOOL);
        answer := Some(if error == 0 then Given(mask) else Failed(error));
      case ClientAdd(p) => error := client.Add(p);
      case ClientDelete(p) => error := client.Delete(p);
      case ClientFlush => error := client.Flush();
      case PoolAdd(entry) => error := cpool.Add(entry.mark, entry.proto, entry.addr, entry.min, entry.max);
      case PoolRemove(entry) => error := cpool.Remove(entry.mark, entry.proto, entry.addr, entry.min, entry.max);
      case PoolFlush => error := cpool.Flush();
    }
  }

  /** A whole run on the two lists: it ends in the last state of the machine and gives its answers. */
  method Execute(cpool: Pool4, client: Client, run: seq<Event>, m: uint32) returns (answers: seq<Option<Response>>)
    requires var s := StateOf(cpool, client);
             forall i :: 0 <= i < |run| && run[i].Request? ==>
               Countable(After(s, run, i).pool) && |Step(After(s, run, i), run[i]).clients| <= INT_MAX
    modifies cpool, client
    ensures StateOf(cpool, client) == After(old(StateOf(cpool, client)), run, |run|)
    ensures |answers| == |run|
    ensures var s := old(StateOf(cpool, client));
            forall i :: 0 <= i < |run| ==> answers[i] == if run[i].Request? then Some(Reply(s, run, i, m)) else None
  {
    ghost var s := StateOf(cpool, client);
    answers := [];
    for n := 0 to |run|
      invariant StateOf(cpool, client) == After(s, run, n)
      invariant answers == Answers(s, run, n, m)
    {
      var answer := Apply(cpool, client, run[n], m);
      answers := answers + [answer];
    }
    forall i | 0 <= i < |run|
      ensures answers[i] == if run[i].Request? then Some(Reply(s, run, i, m)) else None
    {
      AnswersAt(s, run, |run|, m, i);
    }
  }

  // ------------------------------------------------- safety over every run

  /** Only prefixes whose two membership tests agree are added by hand. */
  ghost predicate AddsMaskingPrefixes(run: seq<Event>) {
    forall i :: 0 <= i < |run| && run[i].ClientAdd? ==> Aligned(run[i].prefix) || AtTop(run[i].prefix)
  }

  lemma StepMasks(s: State, e: Event)
    requires MaskingTable(s.clients) && (e.ClientAdd? ==> Aligned(e.prefix) || AtTop(e.prefix))
    ensures MaskingTable(Step(s, e).clients)
  {
    if e.Request? {
      TableAfterMasks(s.pool, s.clients, e.src);
    }
  }

  lemma {:induction false} TableStaysMasking(s: State, run: seq<Event>, n: nat)
    requires MaskingTable(s.clients) && AddsMaskingPrefixes(run) && n <= |run|
    ensures MaskingTable(After(s, run, n).clients)
  {
    if n > 0 {
      TableStaysMasking(s, run, n - 1);
      StepMasks(After(s, run, n - 1), run[n - 1]);
    }
  }

  /**
   In every run, whatever is added, removed or flushed in between, a request is
   answered with the spool's address, a free mask of the pool as it is then, or
   one of two errors.
   */
  lemma EveryReplyIsSafe(s: State, run: seq<Event>, i: nat, m: uint32)
    requires i < |run| && run[i].Request?
    ensures match Reply(s, run, i, m)
            case Failed(error) => error == 1 || error == -ESRCH
            case Given(t) =>
              t == TransportAddr(0, 0) || (t.l4 % 2 == 0 && InFlat(After(s, run, i).pool, t))
  {
    var now := After(s, run, i);
    ResponseIsSafe(now.pool, now.clients, run[i].src, m, run[i].stack);
  }

  /** A request at a state with an empty pool gets 0.0.0.0:0 and leaves that state alone. */
  lemma EmptyPoolReplies(s: State, run: seq<Event>, i: nat, m: uint32)
    requires i < |run| && run[i].Request? && After(s, run, i).pool == []
    ensures Reply(s, run, i, m) == Given(TransportAddr(0, 0))
    ensures After(s, run, i + 1) == After(s, run, i)
  {
    var now := After(s, run, i);
    EmptyPoolRequest(now.clients, run[i].src, m, run[i].stack);
    assert After(s, run, i + 1) == Step(now, run[i]);
  }

  /** The second of them never occurs as long as only masking prefixes are added. */
  lemma NeverEsrchInRun(s: State, run: seq<Event>, i: nat, m: uint32)
    requires MaskingTable(s.clients) && AddsMaskingPrefixes(run)
    requires i < |run| && run[i].Request?
    ensures Reply(s, run, i, m) != Failed(-ESRCH)
  {
    var now := After(s, run, i);
    TableStaysMasking(s, run, i);
    NeverEsrch(now.pool, now.clients, run[i].src, m, run[i].stack);
  }

  // ------------------------------------------------------------ growing runs

  /** Requests and additions: both lists only grow at the tail. */
  predicate Grows(e: Event) {
    e.Request? || e.ClientAdd? || e.PoolAdd?
  }

  ghost predicate GrowsBetween(run: seq<Event>, i: nat, j: nat) {
    forall k :: i <= k < j && k < |run| ==> Grows(run[k])
  }

  /** Both lists of `end` extend those of `s` at the tail. */
  ghost predicate Extends(end: State, s: State) {
    s.pool <= end.pool && s.clients <= end.clients
  }

  lemma StepGrows(s: State, e: Event)
    requires Grows(e)
    ensures Extends(Step(s, e), s)
  {
  }

  lemma ExtendsTransitive(a: State, b: State, c: State)
    requires Extends(b, a) && Extends(c, b)
    ensures Extends(c, a)
  {
  }

  lemma {:induction false} GrowOnly(s: State, run: seq<Event>, i: nat, j: nat)
    requires i <= j <= |run| && GrowsBetween(run, i, j)
    ensures Extends(After(s, run, j), After(s, run, i))
    decreases j - i
  {
    if i < j {
      GrowOnly(s, run, i, j - 1);
      var first, last := After(s, run, i), After(s, run, j - 1);
      StepGrows(last, run[j - 1]);
      ExtendsTransitive(first, last, Step(last, run[j - 1]));
    }
  }

  lemma GrownBy(s: State, run: seq<Event>, i: nat, j: nat, first: State, last: State)
    requires i <= j <= |run| && GrowsBetween(run, i, j)
    requires first == After(s, run, i) && last == After(s, run, j)
    ensures Extends(last, first)
  {
    GrowOnly(s, run, i, j);
  }

  /** What a request at `i` left behind is still there after `e` events. */
  lemma RequestKept(s: State, run: seq<Event>, i: nat, e: nat, now: State, end: State)
    requires i < e <= |run| && run[i].Request? && GrowsBetween(run, i, e)
    requires now == After(s, run, i) && end == After(s, run, e)
    ensures Extends(end, now.(clients := TableAfter(now.pool, now.clients, run[i].src)))
  {
    var next := now.(clients := TableAfter(now.pool, now.clients, run[i].src));
    assert Extends(end, next) by {
      AfterRequest(s, run, i, now);
      GrownBy(s, run, i + 1, e, next, end);
    }
  }

  /** Growing at the tail moves neither the position of a client nor the masks of a position. */
  lemma PosStays(prefixes: seq<Prefix6>, later: seq<Prefix6>, a: Addr6)
    requires prefixes <= later && ClientPos(prefixes, a).Some?
    ensures ClientPos(later, a) == ClientPos(prefixes, a)
  {
    var k := ClientPos(prefixes, a).value;
    ClientPosFromMeaning(prefixes, a, 0);
    assert forall j :: 0 <= j < |prefixes| ==> later[j] == prefixes[j];
    assert IsClientPos(later, a, k);
    ClientPosIs(later, a, k);
  }

  lemma FlatStays(entries: seq<Pool4Entry>, later: seq<Pool4Entry>, pos: nat)
    requires entries <= later && pos < |Flat(entries)|
    ensures pos < |Flat(later)| && Flat(later)[pos] == Flat(entries)[pos]
  {
    assert later[..|entries|] == entries;
    FlatMapAfter(Ports, later, |entries|);
  }

  lemma AllottedStays(entries: seq<Pool4Entry>, later: seq<Pool4Entry>, p: nat, m: uint32)
    requires entries <= later && p < BlockCount(entries, m)
    ensures p < BlockCount(later, m) && Allotted(entries, p, m) == Allotted(later, p, m)
  {
    Arithmetic.ChunksCount(|Flat(entries)|, m, p);
    Arithmetic.ChunksCount(|Flat(later)|, m, p);
    FlatStays(entries, later, Arithmetic.Times(p, m));
  }

  lemma TableAfterGrows(entries: seq<Pool4Entry>, prefixes: seq<Prefix6>, later: seq<Prefix6>, src: Addr6)
    requires entries != [] && TableAfter(entries, prefixes, src) <= later
    ensures forall entries' :: TableAfter(entries', later, src) == later
  {
    var t := TableAfter(entries, prefixes, src);
    TableGrowth(entries, prefixes, src);
    assert later == t + later[|t|..];
    FlatMapAppend(Enumerate, t, later[|t|..]);
  }

  /** The answer to a served source, seen from a state that both lists grew into. */
  lemma AllotmentStays(now: State, end: State, src: Addr6, m: uint32, stack: MaskDomain)
    requires Served(now.pool, now.clients, src, m)
    requires Extends(end, now.(clients := TableAfter(now.pool, now.clients, src)))
    ensures IsAllotment(end.pool, end.clients, src, m, Respond(now.pool, now.clients, src, m, stack))
  {
    var t := TableAfter(now.pool, now.clients, src);
    ServedAnswer(now.pool, now.clients, src, m, stack);
    PosStays(t, end.clients, src);
    AllottedStays(now.pool, end.pool, ClientPos(t, src).value, m);
  }

  /** A served source asks again in a state that both lists grew into. */
  lemma ServedAgain(now: State, later: State, src: Addr6, m: uint32, stack: MaskDomain, stack': MaskDomain)
    requires Served(now.pool, now.clients, src, m)
    requires Extends(later, now.(clients := TableAfter(now.pool, now.clients, src)))
    ensures Respond(now.pool, now.clients, src, m, stack).Given?
    ensures Respond(later.pool, later.clients, src, m, stack') ==
            if ClientCountOf(later.clients) > CountOf(later.pool) then Failed(1)
            else Respond(now.pool, now.clients, src, m, stack)
  {
    ServedAnswer(now.pool, now.clients, src, m, stack);
    AllotmentStays(now, later, src, m, stack);
    TableAfterGrows(now.pool, now.clients, later.clients, src);
    assert TableAfter(later.pool, later.clients, src) == later.clients;
    AllottedIsAnswer(later.pool, ClientPos(later.clients, src).value, m, stack');
  }

  /**
   Stability: once a source has been served, every later request of it gets the
   same mask, or error 1 because there are more clients than masks by then; no
   other outcome is possible while both lists only grow.
   */
  lemma Stability(s: State, run: seq<Event>, i: nat, j: nat, m: uint32)
    requires i < j < |run| && run[i].Request? && run[j].Request? && run[i].src == run[j].src
    requires GrowsBetween(run, i, j)
    requires var now := After(s, run, i); Served(now.pool, now.clients, run[i].src, m)
    ensures Reply(s, run, i, m).Given?
    ensures var later := After(s, run, j);
            Reply(s, run, j, m) ==
            if ClientCountOf(later.clients) > CountOf(later.pool) then Failed(1) else Reply(s, run, i, m)
  {
    var now, later := After(s, run, i), After(s, run, j);
    RequestKept(s, run, i, j, now, later);
    ServedAgain(now, later, run[i].src, m, run[i].stack, run[j].stack);
  }

  /** Two served sources, seen from a later state. */
  lemma SharedLater(first: State, second: State, end: State, a: Addr6, b: Addr6, m: uint32,
                    stack: MaskDomain, stack': MaskDomain)
    requires Served(first.pool, first.clients, a, m) && Served(second.pool, second.clients, b, m)
    requires Extends(end, first.(clients := TableAfter(first.pool, first.clients, a)))
    requires Extends(end, second.(clients := TableAfter(second.pool, second.clients, b)))
    requires Disjoint(end.pool) && Respond(first.pool, first.clients, a, m, stack) != Given(SPOOL)
    ensures Respond(first.pool, first.clients, a, m, stack) == Respond(second.pool, second.clients, b, m, stack') <==>
            ClientPos(end.clients, a) == ClientPos(end.clients, b)
  {
    var r := Respond(first.pool, first.clients, a, m, stack);
    var r' := Respond(second.pool, second.clients, b, m, stack');
    AllotmentStays(first, end, a, m, stack);
    AllotmentStays(second, end, b, m, stack');
    AllotmentsShared(end.pool, end.clients, a, b, m, r, r');
  }

  /**
   Exclusivity in any growing run, with prefixes of any length: two served
   requests get the same mask of a disjoint pool exactly when the same client of
   the table at any later point `e` is the first to contain both sources.
   */
  lemma SharedIffSameClient(s: State, run: seq<Event>, i: nat, j: nat, e: nat, m: uint32)
    requires i < j < e <= |run| && run[i].Request? && run[j].Request? && GrowsBetween(run, i, e)
    requires var now := After(s, run, i); Served(now.pool, now.clients, run[i].src, m)
    requires var later := After(s, run, j); Served(later.pool, later.clients, run[j].src, m)
    requires Disjoint(After(s, run, e).pool) && Reply(s, run, i, m) != Given(SPOOL)
    ensures var clients := After(s, run, e).clients;
            Reply(s, run, i, m) == Reply(s, run, j, m) <==>
            ClientPos(clients, run[i].src) == ClientPos(clients, run[j].src)
  {
    var first, second, end := After(s, run, i), After(s, run, j), After(s, run, e);
    RequestKept(s, run, i, e, first, end);
    RequestKept(s, run, j, e, second, end);
    SharedLater(first, second, end, run[i].src, run[j].src, m, run[i].stack, run[j].stack);
  }

  /** Nothing is removed from the pool; the client table may change in any way. */
  ghost predicate PoolGrowsBetween(run: seq<Event>, i: nat, j: nat) {
    forall k :: i <= k < j && k < |run| ==> !run[k].PoolRemove? && !run[k].PoolFlush?
  }

  lemma {:induction false} PoolGrows(s: State, run: seq<Event>, i: nat, j: nat)
    requires i <= j <= |run| && PoolGrowsBetween(run, i, j)
    ensures After(s, run, i).pool <= After(s, run, j).pool
    decreases j - i
  {
    if i < j {
      PoolGrows(s, run, i, j - 1);
      var last := After(s, run, j - 1);
      assert After(s, run, j) == Step(last, run[j - 1]) && last.pool <= Step(last, run[j - 1]).pool;
    }
  }

  /** Two served requests in any two tables, on a pool that only grew in between. */
  lemma SharedAcross(first: State, second: State, a: Addr6, b: Addr6, m: uint32, stack: MaskDomain, stack': MaskDomain)
    requires Served(first.pool, first.clients, a, m) && Served(second.pool, second.clients, b, m)
    requires first.pool <= second.pool && Disjoint(second.pool)
    requires Respond(first.pool, first.clients, a, m, stack) != Given(SPOOL)
    ensures Respond(first.pool, first.clients, a, m, stack) == Respond(second.pool, second.clients, b, m, stack') <==>
            ClientPos(TableAfter(first.pool, first.clients, a), a) ==
            ClientPos(TableAfter(second.pool, second.clients, b), b)
  {
    var p := ClientPos(TableAfter(first.pool, first.clients, a), a).value;
    var q := ClientPos(TableAfter(second.pool, second.clients, b), b).value;
    ServedAnswer(first.pool, first.clients, a, m, stack);
    ServedAnswer(second.pool, second.clients, b, m, stack');
    AllottedStays(first.pool, second.pool, p, m);
    if p != q {
      AllottedDistinct(second.pool, p, q, m);
    }
  }

  /**
   Stability and exclusivity in runs that change the table in any way, deletions
   and flushes included: two served requests get the same mask exactly when their
   sources have the same position in the tables that they leave behind.
   */
  lemma SameMaskIffSamePos(s: State, run: seq<Event>, i: nat, j: nat, m: uint32)
    requires i < j < |run| && run[i].Request? && run[j].Request? && PoolGrowsBetween(run, i, j)
    requires var now := After(s, run, i); Served(now.pool, now.clients, run[i].src, m)
    requires var later := After(s, run, j); Served(later.pool, later.clients, run[j].src, m)
    requires Disjoint(After(s, run, j).pool) && Reply(s, run, i, m) != Given(SPOOL)
    ensures Reply(s, run, i, m) == Reply(s, run, j, m) <==>
            ClientPos(After(s, run, i + 1).clients, run[i].src) == ClientPos(After(s, run, j + 1).clients, run[j].src)
  {
    var first, second := After(s, run, i), After(s, run, j);
    PoolGrows(s, run, i, j);
    SharedAcross(first, second, run[i].src, run[j].src, m, run[i].stack, run[j].stack);
    assert After(s, run, i + 1) == Step(first, run[i]) && After(s, run, j + 1) == Step(second, run[j]);
  }

  /**
   In every run, a request on a non-empty pool is refused with 1 exactly when the
   clients it leaves behind, counted modulo 2^32, are more than the pool counts, or
   a listed source asks for no masks.
   */
  lemma RefusedIffFull(s: State, run: seq<Event>, j: nat, m: uint32)
    requires j < |run| && run[j].Request? && After(s, run, j).pool != []
    ensures var clients := After(s, run, j + 1).clients;
            Reply(s, run, j, m) == Failed(1) <==>
            || |Addrs(clients)| % 0x1_0000_0000 > CountOf(After(s, run, j).pool)
            || (m == 0 && ClientPos(clients, run[j].src).Some?)
  {
    var now := After(s, run, j);
    RefusedExactly(now.pool, now.clients, run[j].src, m, run[j].stack);
    AfterRequest(s, run, j, now);
  }

  /**
   With a fixed pool, once there are more clients than masks every later request
   fails with 1, until the number of clients passes a multiple of 2^32.
   */
  lemma RefusedForever(s: State, run: seq<Event>, i: nat, j: nat, m: uint32)
    requires i <= j < |run| && run[j].Request?
    requires forall k :: i <= k < j ==> run[k].Request? || run[k].ClientAdd?
    requires var now := After(s, run, i); now.pool != [] && |Addrs(now.clients)| % 0x1_0000_0000 > CountOf(now.pool)
    requires |Addrs(After(s, run, j + 1).clients)| / 0x1_0000_0000 == |Addrs(After(s, run, i).clients)| / 0x1_0000_0000
    ensures Reply(s, run, j, m) == Failed(1)
  {
    var now, later, last := After(s, run, i), After(s, run, j), After(s, run, j + 1);
    assert later.pool == now.pool by {
      SamePool(s, run, i, j);
    }
    GrownBy(s, run, i, j + 1, now, last);
    AddrsGrow(now.clients, last.clients);
    RefusedIffFull(s, run, j, m);
  }

  /**
   At such a multiple the refusal can end: three prefixes of 2^30 addresses are more
   than any pool, but with a fourth one the count wraps to 0 and requests succeed.
   */
  lemma RefusalEndsByWrapping(pool: seq<Pool4Entry>, p: Prefix6, m: uint32, stack: MaskDomain)
    requires WellFormed(pool) && pool != [] && m > 0 && p.len == 98
    ensures Respond(pool, [p, p, p], p.address, m, stack) == Failed(1)
    ensures Respond(pool, [p, p, p, p], p.address, m, stack).Given?
  {
    ClientCountWraps(p);
    ClientCountExact([p, p, p]);
    CountIsLength(pool);
    FirstAddress([p, p, p]);
    FirstAddress([p, p, p, p]);
    assert ClientCountOf([p, p, p]) > CountOf(pool) >= ClientCountOf([p, p, p, p]);
    assert TableAfter(pool, [p, p, p], p.address) == [p, p, p];
    assert TableAfter(pool, [p, p, p, p], p.address) == [p, p, p, p];
  }

  /** A table enumerates the address of its first prefix, and that prefix contains it. */
  lemma FirstAddress(prefixes: seq<Prefix6>)
    requires prefixes != []
    ensures prefixes[0].address in Addrs(prefixes)
    ensures ClientPos(prefixes, prefixes[0].address).Some?
  {
    AddrsAt(prefixes, 0, 0);
    ClientPosExists(prefixes, prefixes[0].address, 0);
  }

  lemma {:induction false} SamePool(s: State, run: seq<Event>, i: nat, j: nat)
    requires i <= j <= |run|
    requires forall k :: i <= k < j ==> run[k].Request? || run[k].ClientAdd?
    ensures After(s, run, i).pool == After(s, run, j).pool
    decreases j - i
  {
    if i < j {
      SamePool(s, run, i, j - 1);
      var last := After(s, run, j - 1);
      assert After(s, run, j) == Step(last, run[j - 1]) && Step(last, run[j - 1]).pool == last.pool;
    }
  }

  lemma AddrsGrow(prefixes: seq<Prefix6>, later: seq<Prefix6>)
    requires prefixes <= later
    ensures |Addrs(prefixes)| <= |Addrs(later)|
  {
    assert later[..|prefixes|] == prefixes;
    FlatMapAfter(Enumerate, later, |prefixes|);
  }

  // ------------------------------------------ exact allocation, from no clients

  /** The table of the given hosts. */
  function Hosts(sources: seq<Addr6>): (table: seq<Prefix6>) {
    seq(|sources|, k requires 0 <= k < |sources| => Host(sources[k]))
  }

  ghost predicate OnlyRequests(run: seq<Event>) {
    forall i :: 0 <= i < |run| ==> run[i].Request?
  }

  /** The distinct sources of the first `n` requests of a run, in the order of their first request. */
  ghost function FirstSeen(run: seq<Event>, n: nat): (sources: seq<Addr6>)
    requires OnlyRequests(run) && n <= |run|
    ensures forall i :: 0 <= i < n ==> run[i].src in sources
  {
    if n == 0 then [] else
      var before := FirstSeen(run, n - 1);
      if run[n - 1].src in before then before else before + [run[n - 1].src]
  }

  /** ... of all of them. */
  ghost function Sources(run: seq<Event>): (sources: seq<Addr6>)
    requires OnlyRequests(run)
    ensures forall i :: 0 <= i < |run| ==> run[i].src in sources
  {
    FirstSeen(run, |run|)
  }

  /** Each source that asked is listed once, and no other address is. */
  lemma {:induction false} FirstSeenDistinct(run: seq<Event>, n: nat)
    requires OnlyRequests(run) && n <= |run|
    ensures Distinct(FirstSeen(run, n))
    ensures forall a :: a in FirstSeen(run, n) ==> exists i :: 0 <= i < n && run[i].src == a
  {
    if n > 0 {
      FirstSeenDistinct(run, n - 1);
      var before, src := FirstSeen(run, n - 1), run[n - 1].src;
      forall a | a in FirstSeen(run, n)
        ensures exists i :: 0 <= i < n && run[i].src == a
      {
        if a !in before {
          assert a == src;
        }
      }
    }
  }

  lemma {:induction false} HostAddrs(sources: seq<Addr6>)
    ensures Addrs(Hosts(sources)) == sources
  {
    if sources == [] {
      assert Hosts(sources) == [];
    } else {
      var front, last := sources[..|sources| - 1], sources[|sources| - 1];
      HostAddrs(front);
      assert Hosts(sources)[..|sources| - 1] == Hosts(front);
      HostEnumerates(last);
      assert sources == front + [last];
    }
  }

  lemma HostCount(sources: seq<Addr6>)
    ensures ClientCountOf(Hosts(sources)) == |sources| % 0x1_0000_0000
  {
    HostAddrs(sources);
    ClientCountIsLength(Hosts(sources));
  }

  lemma HostPos(sources: seq<Addr6>, a: Addr6)
    requires a in sources
    ensures ClientPos(Hosts(sources), a) == Some(FirstIndex(sources, a))
  {
    var t := Hosts(sources);
    var k := FirstIndex(sources, a);
    forall j | 0 <= j < |t|
      ensures PrefixContains(t[j], a) <==> sources[j] == a
    {
      HostContains(t[j], a);
    }
    assert IsClientPos(t, a, k);
    ClientPosIs(t, a, k);
  }

  /** A request adds its source to a table of hosts if it is new. */
  lemma HostStep(entries: seq<Pool4Entry>, sources: seq<Addr6>, src: Addr6)
    requires entries != []
    ensures TableAfter(entries, Hosts(sources), src) == Hosts(if src in sources then sources else sources + [src])
  {
    HostAddrs(sources);
    assert Hosts(sources + [src]) == Hosts(sources) + [Host(src)];
  }

  /** Whatever the outcomes, the table is the list of sources in first-request order. */
  lemma {:induction false} TableOfRun(pool: seq<Pool4Entry>, run: seq<Event>, n: nat)
    requires pool != [] && OnlyRequests(run) && n <= |run|
    ensures After(State(pool, []), run, n) == State(pool, Hosts(FirstSeen(run, n)))
  {
    if n == 0 {
      assert Hosts([]) == [];
    } else {
      var before, src := FirstSeen(run, n - 1), run[n - 1].src;
      assert TableAfter(pool, Hosts(before), src) == Hosts(FirstSeen(run, n)) by {
        HostStep(pool, before, src);
      }
      TableOfRun(pool, run, n - 1);
    }
  }

  lemma {:induction false} FirstSeenGrows(run: seq<Event>, i: nat, j: nat)
    requires OnlyRequests(run) && i <= j <= |run|
    ensures FirstSeen(run, i) <= FirstSeen(run, j)
    decreases j - i
  {
    if i < j {
      FirstSeenGrows(run, i, j - 1);
    }
  }

  /** The answer to the source of rank `k` when `seen` sources are listed, also beyond the capacity of the pool. */
  ghost function AnswerOfRank(pool: seq<Pool4Entry>, k: nat, seen: nat, m: uint32, stack: MaskDomain): (r: Response) {
    if seen % 0x1_0000_0000 > CountOf(pool) || m == 0 then Failed(1)
    else Given(AnswerFor(pool, DomainAt(pool, k, stack, m)))
  }

  lemma ReplyOfHosts(pool: seq<Pool4Entry>, before: seq<Addr6>, now: seq<Addr6>, src: Addr6, m: uint32,
                     stack: MaskDomain)
    requires pool != [] && now == if src in before then before else before + [src]
    ensures Respond(pool, Hosts(before), src, m, stack) == AnswerOfRank(pool, FirstIndex(now, src), |now|, m, stack)
  {
    HostStep(pool, before, src);
    HostCount(now);
    HostPos(now, src);
  }

  /**
   Every request of a run that starts without clients is answered by the rank of
   its source and the number of sources seen by then.
   */
  lemma ReplyOfRun(pool: seq<Pool4Entry>, run: seq<Event>, i: nat, m: uint32)
    requires pool != [] && OnlyRequests(run) && i < |run|
    ensures var k, seen := FirstIndex(Sources(run), run[i].src), |FirstSeen(run, i + 1)|;
            && k < seen <= |Sources(run)|
            && Reply(State(pool, []), run, i, m) == AnswerOfRank(pool, k, seen, m, run[i].stack)
  {
    var src := run[i].src;
    var before, now := FirstSeen(run, i), FirstSeen(run, i + 1);
    assert Reply(State(pool, []), run, i, m) == Respond(pool, Hosts(before), src, m, run[i].stack) by {
      TableOfRun(pool, run, i);
    }
    FirstSeenGrows(run, i + 1, |run|);
    ReplyOfHosts(pool, before, now, src, m, run[i].stack);
    FirstInPrefix(now, Sources(run), src);
  }

  /** The pool has a block for each of `d` sources. */
  ghost predicate Fits(pool: seq<Pool4Entry>, d: nat, m: uint32) {
    d <= BlockCount(pool, m)
  }

  lemma FitsMeaning(pool: seq<Pool4Entry>, d: nat, m: uint32)
    ensures Fits(pool, d, m) <==> d == 0 || (m > 0 && (d - 1) * m < |Flat(pool)|)
    ensures Fits(pool, d, m) ==> d <= |Flat(pool)|
  {
    if d > 0 {
      HasBlock(pool, d - 1, m);
      if m > 0 {
        Arithmetic.MulAtLeast(d - 1, m);
      }
    }
  }

  /** The request at position `i` gets the mask of its source's rank among the sources of the run. */
  ghost predicate GetsAllotted(pool: seq<Pool4Entry>, run: seq<Event>, i: nat, m: uint32)
    requires OnlyRequests(run)
    requires i < |run|
  {
    var k := FirstIndex(Sources(run), run[i].src);
    k < BlockCount(pool, m) && Reply(State(pool, []), run, i, m) == Given(Allotted(pool, k, m))
  }

  lemma GetsByParity(pool: seq<Pool4Entry>, run: seq<Event>, i: nat, m: uint32)
    requires OnlyRequests(run)
    requires i < |run| && GetsAllotted(pool, run, i, m)
    ensures GetsFirst(pool, run, i, m)
  {
    AllottedByParity(pool, FirstIndex(Sources(run), run[i].src), m);
  }

  /** That mask is `Flat[k * m]` if its port is even, otherwise 0.0.0.0:0. */
  ghost predicate GetsFirst(pool: seq<Pool4Entry>, run: seq<Event>, i: nat, m: uint32)
    requires OnlyRequests(run)
    requires i < |run|
  {
    var k := FirstIndex(Sources(run), run[i].src);
    && k * m < |Flat(pool)|
    && var t := Flat(pool)[k * m].Taddr();
       Reply(State(pool, []), run, i, m) == Given(if t.l4 % 2 == 0 then t else TransportAddr(0, 0))
  }

  lemma RankWithBlock(pool: seq<Pool4Entry>, k: nat, seen: nat, m: uint32, stack: MaskDomain)
    requires WellFormed(pool) && seen <= |Flat(pool)| && k < BlockCount(pool, m)
    ensures AnswerOfRank(pool, k, seen, m, stack) == Given(Allotted(pool, k, m))
  {
    CountIsLength(pool);
    SignedSmall(seen);
    AllottedIsAnswer(pool, k, m, stack);
  }

  lemma ExactReply(pool: seq<Pool4Entry>, run: seq<Event>, i: nat, m: uint32)
    requires WellFormed(pool) && pool != [] && m > 0
    requires OnlyRequests(run)
    requires Fits(pool, |Sources(run)|, m) && i < |run|
    ensures GetsAllotted(pool, run, i, m)
  {
    var k := FirstIndex(Sources(run), run[i].src);
    FitsMeaning(pool, |Sources(run)|, m);
    ReplyOfRun(pool, run, i, m);
    RankWithBlock(pool, k, |FirstSeen(run, i + 1)|, m, run[i].stack);
  }

  /**
   Exact allocation: from an empty table, a run of requests whose `d` distinct
   sources fit never fails, leaves exactly those sources in the table, and gives
   the k-th of them the first mask of block k if it is free, or the spool's.
   */
  lemma ExactAllocation(pool: seq<Pool4Entry>, run: seq<Event>, m: uint32)
    requires WellFormed(pool) && pool != [] && m > 0
    requires OnlyRequests(run)
    requires Fits(pool, |Sources(run)|, m)
    ensures Distinct(Sources(run))
    ensures After(State(pool, []), run, |run|) == State(pool, Hosts(Sources(run)))
    ensures forall i :: 0 <= i < |run| ==> GetsFirst(pool, run, i, m)
  {
    FirstSeenDistinct(run, |run|);
    TableOfRun(pool, run, |run|);
    forall i | 0 <= i < |run|
      ensures GetsFirst(pool, run, i, m)
    {
      ExactReply(pool, run, i, m);
      GetsByParity(pool, run, i, m);
    }
  }

  /** Two requests of different sources never get the same mask, other than the spool's. */
  ghost predicate Exclusive(pool: seq<Pool4Entry>, run: seq<Event>, m: uint32)
    requires OnlyRequests(run)
  {
    forall i, j :: 0 <= i < |run| && 0 <= j < |run| && run[i].src != run[j].src ==>
      var r := Reply(State(pool, []), run, i, m);
      r.Given? && r == Reply(State(pool, []), run, j, m) ==> r.mask == SPOOL
  }

  /**
   How many sources the pool and the block size can keep apart: there is no free
   mask to share, or all accepted sources have a block, or only one has none and
   no other source gets a mask that it could repeat.
   */
  ghost predicate KeepsApart(pool: seq<Pool4Entry>, d: nat, m: uint32) {
    var b, accepted := BlockCount(pool, m), Clip(d, |Flat(pool)|);
    || m == 0
    || !HasFreeMask(pool)
    || (d <= UINT_MAX && accepted <= b)
    || (d <= UINT_MAX && accepted == b + 1 && forall k: nat :: k < b ==> Allotted(pool, k, m) == SPOOL)
  }

  lemma {:induction false} EmptyPoolStays(run: seq<Event>, i: nat)
    requires OnlyRequests(run) && i <= |run|
    ensures After(State([], []), run, i) == State([], [])
  {
    if i > 0 {
      EmptyPoolStays(run, i - 1);
    }
  }

  lemma EmptyPoolReply(run: seq<Event>, i: nat, m: uint32)
    requires OnlyRequests(run) && i < |run|
    ensures Reply(State([], []), run, i, m) == Given(SPOOL)
  {
    EmptyPoolStays(run, i);
    EmptyPoolReplies(State([], []), run, i, m);
  }

  /** A rank that gets a mask of the pool is accepted, and has this mask if it has a block. */
  lemma MaskedRank(pool: seq<Pool4Entry>, k: nat, seen: nat, m: uint32, stack: MaskDomain, t: TransportAddr)
    requires WellFormed(pool) && k < seen
    requires AnswerOfRank(pool, k, seen, m, stack) == Given(t) && t != SPOOL
    ensures m > 0 && HasFreeMask(pool)
    ensures seen <= UINT_MAX ==> k < |Flat(pool)|
    ensures k < BlockCount(pool, m) ==> Allotted(pool, k, m) == t
  {
    assert IsFreeMask(pool, t);
    CountIsLength(pool);
    if k < BlockCount(pool, m) {
      AllottedIsAnswer(pool, k, m, stack);
    }
  }

  lemma MaskedReply(pool: seq<Pool4Entry>, run: seq<Event>, i: nat, m: uint32, t: TransportAddr) returns (k: nat)
    requires WellFormed(pool) && OnlyRequests(run) && i < |run|
    requires Reply(State(pool, []), run, i, m) == Given(t) && t != SPOOL
    ensures m > 0 && HasFreeMask(pool)
    ensures k == FirstIndex(Sources(run), run[i].src)
    ensures |Sources(run)| <= UINT_MAX ==> k < Clip(|Sources(run)|, |Flat(pool)|)
    ensures k < BlockCount(pool, m) ==> Allotted(pool, k, m) == t
  {
    k := FirstIndex(Sources(run), run[i].src);
    assert pool != [] by {
      EmptyPoolReply(run, i, m);
    }
    ReplyOfRun(pool, run, i, m);
    MaskedRank(pool, k, |FirstSeen(run, i + 1)|, m, run[i].stack, t);
  }

  lemma ExclusivePair(pool: seq<Pool4Entry>, run: seq<Event>, i: nat, j: nat, m: uint32, t: TransportAddr)
    requires WellFormed(pool) && Disjoint(pool) && OnlyRequests(run)
    requires KeepsApart(pool, |Sources(run)|, m)
    requires i < |run| && j < |run| && run[i].src != run[j].src
    requires Reply(State(pool, []), run, i, m) == Given(t) == Reply(State(pool, []), run, j, m)
    ensures t == SPOOL
  {
    if t != SPOOL {
      var k := MaskedReply(pool, run, i, m, t);
      var l := MaskedReply(pool, run, j, m, t);
      assert k != l;
      if k < BlockCount(pool, m) && l < BlockCount(pool, m) {
        AllottedDistinct(pool, k, l, m);
      }
    }
  }

  /** Exclusivity in every run of requests whose sources can be kept apart. */
  lemma ExclusiveIfKeptApart(pool: seq<Pool4Entry>, run: seq<Event>, m: uint32)
    requires WellFormed(pool) && Disjoint(pool) && OnlyRequests(run)
    requires KeepsApart(pool, |Sources(run)|, m)
    ensures Exclusive(pool, run, m)
  {
    forall i, j | 0 <= i < |run| && 0 <= j < |run| && run[i].src != run[j].src
      ensures var r := Reply(State(pool, []), run, i, m);
              r.Given? && r == Reply(State(pool, []), run, j, m) ==> r.mask == SPOOL
    {
      var r := Reply(State(pool, []), run, i, m);
      if r.Given? && r == Reply(State(pool, []), run, j, m) {
        ExclusivePair(pool, run, i, j, m, r.mask);
      }
    }
  }

  /** The run in which each source asks once, with the given contents of the mask domain. */
  function OneRequestEach(sources: seq<Addr6>, stacks: seq<MaskDomain>): (run: seq<Event>)
    requires |stacks| == |sources|
    ensures |run| == |sources| && forall i :: 0 <= i < |run| ==> run[i].Request?
  {
    seq(|sources|, i requires 0 <= i < |sources| => Request(sources[i], stacks[i]))
  }

  lemma {:induction false} OneRequestEachSeen(sources: seq<Addr6>, run: seq<Event>, n: nat)
    requires OnlyRequests(run) && |run| == |sources| && forall i :: 0 <= i < |run| ==> run[i].src == sources[i]
    requires Distinct(sources) && n <= |run|
    ensures FirstSeen(run, n) == sources[..n]
  {
    if n > 0 {
      OneRequestEachSeen(sources, run, n - 1);
      assert sources[..n] == sources[..n - 1] + [sources[n - 1]];
    }
  }

  /** Source `p` gets the mask `t`: from its block, or, as it has none, from a mask domain that holds it. */
  ghost predicate Obtains(pool: seq<Pool4Entry>, p: nat, m: uint32, t: TransportAddr) {
    if p < BlockCount(pool, m) then Allotted(pool, p, m) == t else (p + 1) % 0x1_0000_0000 <= |Flat(pool)|
  }

  lemma ObtainedRank(pool: seq<Pool4Entry>, p: nat, m: uint32, t: TransportAddr)
    requires WellFormed(pool) && m > 0 && IsFreeMask(pool, t) && Obtains(pool, p, m, t)
    ensures pool != [] && AnswerOfRank(pool, p, p + 1, m, MaskDomain(t, 1, 1)) == Given(t)
  {
    if p < BlockCount(pool, m) {
      FitsMeaning(pool, p + 1, m);
      RankWithBlock(pool, p, p + 1, m, MaskDomain(t, 1, 1));
    } else {
      Arithmetic.ChunksCount(|Flat(pool)|, m, p);
      CountIsLength(pool);
    }
  }

  lemma ObtainedReply(pool: seq<Pool4Entry>, sources: seq<Addr6>, p: nat, m: uint32, t: TransportAddr)
    requires WellFormed(pool) && m > 0 && Distinct(sources) && p < |sources|
    requires IsFreeMask(pool, t) && Obtains(pool, p, m, t)
    ensures var run := OneRequestEach(sources, seq(|sources|, _ => MaskDomain(t, 1, 1)));
            Reply(State(pool, []), run, p, m) == Given(t)
  {
    var run := OneRequestEach(sources, seq(|sources|, _ => MaskDomain(t, 1, 1)));
    OneRequestEachSeen(sources, run, |run|);
    OneRequestEachSeen(sources, run, p + 1);
    assert sources[..|run|] == sources;
    FirstOfDistinct(sources, p);
    ReplyOfRun(pool, run, p, m);
    ObtainedRank(pool, p, m, t);
  }

  lemma SharedBy(pool: seq<Pool4Entry>, sources: seq<Addr6>, p: nat, q: nat, m: uint32, t: TransportAddr)
    requires WellFormed(pool) && m > 0 && Distinct(sources) && p < q < |sources|
    requires IsFreeMask(pool, t) && Obtains(pool, p, m, t) && Obtains(pool, q, m, t)
    ensures !Exclusive(pool, OneRequestEach(sources, seq(|sources|, _ => MaskDomain(t, 1, 1))), m)
  {
    var run := OneRequestEach(sources, seq(|sources|, _ => MaskDomain(t, 1, 1)));
    ObtainedReply(pool, sources, p, m, t);
    ObtainedReply(pool, sources, q, m, t);
    assert run[p].src != run[q].src;
  }

  /** If each mask of the pool starts a block, a free one is some position's. */
  lemma FreeMaskAllotted(pool: seq<Pool4Entry>, m: uint32, t: TransportAddr) returns (k: nat)
    requires m > 0 && IsFreeMask(pool, t) && BlockCount(pool, m) >= |Flat(pool)|
    ensures k < BlockCount(pool, m) && Allotted(pool, k, m) == t
  {
    OffersIsMembership(pool, t);
    var pos :| 0 <= pos < |Flat(pool)| && Flat(pool)[pos].Taddr() == t;
    k := pos;
    var last := |Flat(pool)| - 1;
    HasBlock(pool, last, m);
    HasBlock(pool, pos, m);
    if m > 1 {
      Arithmetic.MulLe(2, m, last);
    }
    assert pos * m == pos;
  }

  /** Where the condition fails, two positions can obtain the same mask. */
  lemma TwoObtain(pool: seq<Pool4Entry>, d: nat, m: uint32) returns (p: nat, q: nat, t: TransportAddr)
    requires WellFormed(pool) && !KeepsApart(pool, d, m)
    ensures m > 0 && p < q < d && IsFreeMask(pool, t) && Obtains(pool, p, m, t) && Obtains(pool, q, m, t)
  {
    var b, n := BlockCount(pool, m), |Flat(pool)|;
    FitsMeaning(pool, b, m);
    t :| IsFreeMask(pool, t);
    if d > UINT_MAX {
      p, q := b, UINT_MAX;
      if b == n {
        p := FreeMaskAllotted(pool, m, t);
      }
    } else if Clip(d, n) > b + 1 {
      p, q := b, b + 1;
    } else {
      p :| p < b && Allotted(pool, p, m) != SPOOL;
      q, t := b, Allotted(pool, p, m);
      AllottedIsFree(pool, p, m);
    }
  }

  lemma AllottedIsFree(pool: seq<Pool4Entry>, p: nat, m: uint32)
    requires p < BlockCount(pool, m) && Allotted(pool, p, m) != SPOOL
    ensures IsFreeMask(pool, Allotted(pool, p, m))
  {
    Arithmetic.ChunksCount(|Flat(pool)|, m, p);
    OffersIsMembership(pool, Flat(pool)[Arithmetic.Times(p, m)].Taddr());
  }

  /**
   On a disjoint pool, `d` sources that ask once each are kept apart whatever the
   uninitialised mask domains hold exactly under that condition.
   */
  lemma ExclusiveIffKeptApart(pool: seq<Pool4Entry>, sources: seq<Addr6>, m: uint32)
    requires WellFormed(pool) && Disjoint(pool) && Distinct(sources)
    ensures (forall stacks: seq<MaskDomain> :: |stacks| == |sources| ==>
               Exclusive(pool, OneRequestEach(sources, stacks), m)) <==>
            KeepsApart(pool, |sources|, m)
  {
    if KeepsApart(pool, |sources|, m) {
      forall stacks: seq<MaskDomain> | |stacks| == |sources|
        ensures Exclusive(pool, OneRequestEach(sources, stacks), m)
      {
        var run := OneRequestEach(sources, stacks);
        OneRequestEachSeen(sources, run, |run|);
        assert sources[..|run|] == sources;
        ExclusiveIfKeptApart(pool, run, m);
      }
    } else {
      var p, q, t := TwoObtain(pool, |sources|, m);
      SharedBy(pool, sources, p, q, m, t);
    }
  }

  // ------------------------------------------------- deletion and removal

  /** A source that no prefix contains and that the table does not enumerate gets the tail position. */
  lemma TailPos(entries: seq<Pool4Entry>, prefixes: seq<Prefix6>, a: Addr6)
    requires entries != [] && a !in Addrs(prefixes) && ClientPos(prefixes, a).None?
    ensures ClientPos(TableAfter(entries, prefixes, a), a) == Some(|prefixes|)
  {
    var t := prefixes + [Host(a)];
    ClientPosFromMeaning(prefixes, a, 0);
    HostContains(t[|prefixes|], a);
    assert forall j :: 0 <= j < |prefixes| ==> t[j] == prefixes[j];
    ClientPosIs(t, a, |prefixes|);
  }

  /** The position of `a` when it asks after the prefix at `d` is deleted: its other match moved up, or the tail. */
  function PosWhenAsking(prefixes: seq<Prefix6>, a: Addr6, d: nat): (p: nat)
    requires d < |prefixes|
  {
    match PosBesides(prefixes, a, d)
    case None => |prefixes| - 1
    case Some(k) => if k > d then k - 1 else k
  }

  /** That is the position it had, exactly when it was in front or the gap at `d` closes under it. */
  lemma PosKept(prefixes: seq<Prefix6>, a: Addr6, d: nat)
    requires d < |prefixes| && ClientPos(prefixes, a).Some?
    ensures var k, other := ClientPos(prefixes, a).value, ClientPosFrom(prefixes, a, d + 1);
            PosWhenAsking(prefixes, a, d) == k <==>
            k < d || (k == d && (other == Some(d + 1) || (other == None && d == |prefixes| - 1)))
  {
    ClientPosFromMeaning(prefixes, a, 0);
    ClientPosFromMeaning(prefixes, a, d + 1);
  }

  /** After a deletion a source has that position, or none if it is enumerated but not contained. */
  lemma PosAfterDeleting(entries: seq<Pool4Entry>, prefixes: seq<Prefix6>, a: Addr6, d: nat)
    requires d < |prefixes| && IsFirst(prefixes, prefixes[d], d)
    ensures var rest := WithoutFirst(prefixes, prefixes[d]);
            ClientPos(TableAfter(entries, rest, a), a) ==
            if PosBesides(prefixes, a, d).Some? || (entries != [] && a !in Addrs(rest)) then
              Some(PosWhenAsking(prefixes, a, d))
            else None
  {
    var rest := WithoutFirst(prefixes, prefixes[d]);
    PosAfterDelete(prefixes, a, d);
    WithoutFirstAt(prefixes, d, 0);
    PosBesidesMeaning(prefixes, a, d);
    if PosBesides(prefixes, a, d).Some? {
      PosStays(rest, TableAfter(entries, rest, a), a);
    } else if entries != [] && a !in Addrs(rest) {
      TailPos(entries, rest, a);
    }
  }

  /** A source that is served after the prefix at `d` is deleted from any table is served from that block. */
  lemma DeleteShifts(s: State, d: nat, a: Addr6, m: uint32, stack: MaskDomain)
    requires d < |s.clients| && IsFirst(s.clients, s.clients[d], d)
    requires var next := Step(s, ClientDelete(s.clients[d])); Served(next.pool, next.clients, a, m)
    ensures var next := Step(s, ClientDelete(s.clients[d]));
            var p := PosWhenAsking(s.clients, a, d);
            p < BlockCount(s.pool, m) && Respond(next.pool, next.clients, a, m, stack) == Given(Allotted(s.pool, p, m))
  {
    var next := Step(s, ClientDelete(s.clients[d]));
    PosAfterDeleting(s.pool, s.clients, a, d);
    ServedAnswer(next.pool, next.clients, a, m, stack);
  }

  /**
   Stability under deletion, exactly: a source of the table keeps its mask when the
   prefix at `d` is deleted if and only if its position `k` is in front of `d`, or
   it was a client of that prefix and either the next prefix contains it, too, or
   it is added again and that prefix was the last.
   */
  lemma DeletionKeepsMask(s: State, d: nat, a: Addr6, m: uint32, stack: MaskDomain, stack': MaskDomain)
    requires d < |s.clients| && IsFirst(s.clients, s.clients[d], d)
    requires Disjoint(s.pool) && a in Addrs(s.clients) && Served(s.pool, s.clients, a, m)
    requires var next := Step(s, ClientDelete(s.clients[d])); Served(next.pool, next.clients, a, m)
    requires Respond(s.pool, s.clients, a, m, stack) != Given(SPOOL)
    ensures var next := Step(s, ClientDelete(s.clients[d]));
            var k := ClientPos(s.clients, a).value;
            var other := ClientPosFrom(s.clients, a, d + 1);
            Respond(next.pool, next.clients, a, m, stack') == Respond(s.pool, s.clients, a, m, stack) <==>
            || k < d
            || (k == d && (other == Some(d + 1) || (other == None && d == |s.clients| - 1)))
  {
    var next := Step(s, ClientDelete(s.clients[d]));
    assert TableAfter(s.pool, s.clients, a) == s.clients;
    PosAfterDeleting(s.pool, s.clients, a, d);
    PosKept(s.clients, a, d);
    SharedAcross(s, next, a, a, m, stack, stack');
  }

  const EXAMPLE_POOL := [Pool4Entry(0, 6, 0xc000_0201, 1024, 1027)]

  const EXAMPLE_MASKS := [TransportAddr(0xc000_0201, 1024), TransportAddr(0xc000_0201, 1026)]

  /** With two masks per client it has two blocks, and both start with a free mask. */
  lemma ExampleBlocks(k: nat)
    requires k < 2
    ensures WellFormed(EXAMPLE_POOL) && |Flat(EXAMPLE_POOL)| == 4
    ensures k < BlockCount(EXAMPLE_POOL, 2) && Allotted(EXAMPLE_POOL, k, 2) == EXAMPLE_MASKS[k]
  {
    var pool := EXAMPLE_POOL;
    assert |Flat(pool)| == 4 && Flat(pool)[2 * k].Taddr() == EXAMPLE_MASKS[k] by {
      assert pool[..0] == [];
      assert Flat(pool) == Flat(pool[..0]) + Ports(pool[0]) == Ports(pool[0]);
    }
    HasBlock(pool, k, 2);
    AllottedByParity(pool, k, 2);
  }

  lemma PairPositions(a: Addr6, b: Addr6)
    requires a != b
    ensures Distinct([a, b]) && FirstIndex([a, b], a) == 0 && FirstIndex([a, b], b) == 1
  {
    FirstOfDistinct([a, b], 0);
    FirstOfDistinct([a, b], 1);
  }

  lemma FirstHostDeleted(a: Addr6, b: Addr6)
    ensures WithoutFirst(Hosts([a, b]), Host(a)) == Hosts([b])
  {
    FirstUnique(Hosts([a, b]), Host(a), 0);
  }

  lemma ExampleReply(before: seq<Addr6>, now: seq<Addr6>, src: Addr6, stack: MaskDomain)
    requires now == if src in before then before else before + [src]
    requires |now| <= 2 && Distinct(now)
    ensures Respond(EXAMPLE_POOL, Hosts(before), src, 2, stack) == Given(EXAMPLE_MASKS[FirstIndex(now, src)])
  {
    var k := FirstIndex(now, src);
    ReplyOfHosts(EXAMPLE_POOL, before, now, src, 2, stack);
    ExampleBlocks(k);
    RankWithBlock(EXAMPLE_POOL, k, |now|, 2, stack);
  }

  /**
   Where it is not kept: of two hosts, the first is deleted. The second then gets
   the mask that the first one held, and the first one, asking again, the second's.
   */
  lemma DeletionSwapsMasks(a: Addr6, b: Addr6, stack: MaskDomain)
    requires a != b
    ensures var s := State(EXAMPLE_POOL, Hosts([a, b]));
            var next := Step(s, ClientDelete(Host(a)));
            var later := Step(next, Request(b, stack));
            && Respond(s.pool, s.clients, a, 2, stack) == Given(EXAMPLE_MASKS[0])
            && Respond(s.pool, s.clients, b, 2, stack) == Given(EXAMPLE_MASKS[1])
            && Respond(next.pool, next.clients, b, 2, stack) == Given(EXAMPLE_MASKS[0])
            && Respond(later.pool, later.clients, a, 2, stack) == Given(EXAMPLE_MASKS[1])
  {
    FirstHostDeleted(a, b);
    HostStep(EXAMPLE_POOL, [b], b);
    PairPositions(a, b);
    PairPositions(b, a);
    ExampleReply([a, b], [a, b], a, stack);
    ExampleReply([a, b], [a, b], b, stack);
    ExampleReply([b], [b], b, stack);
    ExampleReply([b], [b, a], a, stack);
  }

  /**
   Stability under removal from the pool, exactly: a source of the table keeps its
   mask when all copies of `e` are removed if and only if `e` is not listed, has no
   masks, or all of them come behind that mask.
   */
  lemma RemovalKeepsMask(s: State, e: Pool4Entry, a: Addr6, m: uint32, stack: MaskDomain, stack': MaskDomain)
    requires Disjoint(s.pool) && a in Addrs(s.clients) && Served(s.pool, s.clients, a, m)
    requires var next := Step(s, PoolRemove(e)); Served(next.pool, next.clients, a, m)
    requires Respond(s.pool, s.clients, a, m, stack) != Given(SPOOL)
    ensures var next := Step(s, PoolRemove(e));
            Respond(next.pool, next.clients, a, m, stack') == Respond(s.pool, s.clients, a, m, stack) <==>
            StaysPut(s.pool, e, Arithmetic.Times(ClientPos(s.clients, a).value, m))
  {
    var next := Step(s, PoolRemove(e));
    ServedAnswer(s.pool, s.clients, a, m, stack);
    ServedAnswer(next.pool, next.clients, a, m, stack');
    AllottedAfterRemove(s.pool, e, ClientPos(s.clients, a).value, m);
  }
}
