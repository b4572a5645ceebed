# A verified model of the pool4 mask allocator

The allocator hands out IPv4 masks (an address and a port) to IPv6 sources. It joins two in-memory lists:

- the **pool** (`Pool4List.dfy`), an ordered list of entries, each an address with an inclusive port range. Its meaning is
  one flat sequence of masks, `Flat`, in list order and then port order;
- the **client table** (`ClientTable.dfy`), an ordered list of IPv6 prefixes. Its meaning is the sequence `Addrs` of
  addresses that repeated increments enumerate;
- **`get_mask`** (`Allocator.dfy`), which appends an unknown source to the table as a /128, takes the position `p` of the
  first prefix that contains it, and answers with the first mask of the block `Flat[p*m .. p*m + m]`, where `m` is the
  number of masks per client, or with the spool's address if that mask is in use.

The lists are classes, and the loops of the source are loops over their fields, with its counters, flags, second passes
and early exits. Each method is proved against a specification in terms of `Flat` and `Addrs`; `PoolTheorems.dfy`,
`ClientTheorems.dfy`, `Allocator.dfy` and `Runs.dfy` then prove what those specifications mean for one call and over whole
runs. `Callbacks.dfy` says what an iterator owes its callback, `Paging.dfy` what successive sampling calls add up to,
`Address6.dfy` holds the 128-bit increment and the masking test, and `Sequences.dfy`, `Arithmetic.dfy` and `Types.dfy`
are shared.

How the code is read:

- Integers have their C widths where it matters: counts are summed modulo 2^32 and converted to int explicitly, the step
  of `pool4_get_nth_taddr` is added in 32-bit arithmetic, prefix masks are shifted in 64 bits and cut to 32. Other counters
  are ints; the methods that need it require that they do not overflow: the masks of the pool can be counted (`Countable`),
  and the table has at most 2^31 - 1 prefixes, since `ipv6_pos` is an int. The lemmas about the machine put no bound on the
  table; they speak of the code for tables within that one, as `Runs.Execute` says.
- Addresses are four 32-bit words as stored. Increment and masking both act on raw words, so byte order plays no part; no
  claim is made about their numeric order on the wire.
- The position `p * m` is written `Times(p, m)`, repeated addition, in the specifications (`Arithmetic.TimesIsProduct`).
- A callback answers with an int that may depend on everything it has been handed so far; the elements handed over are a
  result of the iterator.
- `get_mask` passes on a mask domain it never initialised. That content is the parameter `stack`; statements hold for every
  value of it. Likewise `result0` is what the result held before the call.

Where the code does not do what its use suggests, the model follows the code, a lemma says when the two agree, and the
table below names it: `CountExact` (inverted ranges), `RefusedIffFull` and `RefusalEndsByWrapping` (counts wrap),
`SpillsExactly`, `MaskingEqualsEnumeration` and `NeverEsrchIffCovered` (the two membership tests), `StackIrrelevant` and
`ExclusiveIffKeptApart` (the uninitialised domain), `NthOfFoundDomain` (the strict comparison),
`PagingCompleteIffDistinct` (duplicate entries), `DeletionKeepsMask`, `DeletionSwapsMasks` and `RemovalKeepsMask` (masks move
when a client or a pool entry is removed).

Run `dafny verify dfyconfig.toml` to check the project.

## Model

| member | source | states |
|---|---|---|
| Runs.ExactAllocation | src/pool4/pool4.c:347-405 | From an empty table, a run of requests whose d distinct sources fit a well-formed, non-empty pool never fails, leaves exactly those sources in first-request order as /128s, and gives the k-th of them the mask Flat[k*m] if its port is even, else 0.0.0.0:0 |
| Runs.ReplyOfRun | src/pool4/pool4.c:347-405 | The outcome of every request of a run of requests that starts without clients, as long as a position fits an int (at most 2^31 - 1 sources): error 1 iff the number of sources seen, modulo 2^32, exceeds the pool's count or m = 0, else what the domain of the source's rank gives, including an unwritten one |
| Runs.TableOfRun | src/pool4/pool4.c:365-376 | Whatever the outcomes, the table after a run of requests is the list of distinct sources in first-request order |
| Runs.FirstSeenDistinct | src/pool4/pool4.c:365-376 | Each source that asked is listed once in first-request order, and no other address is |
| Runs.FitsMeaning | src/pool4/pool4.c:207-221 | d sources fit iff the start (d-1)*m of the last block is a position of the pool; then there are no more sources than masks |
| Runs.ExclusiveIfKeptApart | src/pool4/pool4.c:347-405 | On a well-formed disjoint pool, two requests of different sources never get the same mask of the pool in any run of requests, repeats included, whose number d of distinct sources meets KeepsApart: m = 0, or no free mask, or d < 2^32 and, of min(d, N) sources, at most one lacks a block and then all blocks give the spool's address |
| Runs.ExclusiveIffKeptApart | src/pool4/pool4.c:356-404 | For every well-formed disjoint pool, every m and any distinct sources asking once each: exclusivity for every content of the uninitialised domains iff KeepsApart holds |
| Runs.Stability | src/pool4/pool4.c:365-399 | In any run of requests and additions, a source that was served gets the same mask at every later request, or error 1 if there are more clients than masks by then |
| Runs.SharedIffSameClient | src/client/client.c:275-289 | In any such run two served requests share a mask of a disjoint pool iff the same client of the table is the first to contain both sources |
| Runs.SameMaskIffSamePos | src/client/client.c:38-67 | In any run that removes nothing from the pool, client deletions and flushes included: two served requests get the same mask of a disjoint pool iff their sources have the same position in the tables right after them; for one source this is stability, for two exclusivity |
| Runs.PosStays | src/client/client.c:275-282 | Appending to the table does not move the position of a client |
| Runs.FlatStays | src/pool4/pool4.c:23-40 | Appending to the pool does not move any of its masks |
| Runs.RefusedIffFull | src/client/client.c:270-289 | In every run, a request on a non-empty pool returns 1 iff the number of enumerated addresses it leaves, modulo 2^32, exceeds the pool's count, or a contained source asks with m = 0 |
| Runs.RefusedForever | src/client/client.c:270-273 | In a run of requests and client additions, once there are more clients than the pool counts (modulo 2^32) every later request returns 1 until the number of addresses passes a multiple of 2^32 |
| Runs.RefusalEndsByWrapping | src/client/client.c:83-97 | At such a multiple: three prefixes of 2^30 addresses are refused, four are accepted |
| ClientTheorems.PosAfterDelete | src/client/client.c:38-52 | For any table: after the prefix at d is deleted, positions behind it are one lower, those in front stay, and an address of the deleted prefix goes to its next match or to none |
| Runs.PosAfterDeleting | src/client/client.c:38-52 | Where any source stands in any table when it asks after the prefix at d is deleted: its first other match, one lower if it was behind d; else the tail if it is added again; else nowhere |
| Runs.DeleteShifts | src/pool4/pool4.c:378-402 | A source served after a deletion gets the mask of the block of that position, if it is free, else the spool's |
| Runs.DeletionKeepsMask | src/client/client.c:38-52 | On a disjoint pool, a source of the table that is served with a pool mask before a deletion, and served after it, keeps the mask iff its position was in front of d, or it was d and the next prefix contains the source, too, or no later prefix does and d was the last |
| Runs.DeletionSwapsMasks | src/client/client.c:38-52 | A pool of four ports, two masks per client, any two hosts: after the first is deleted the second gets the mask the first held, and the first, asking again, gets the second's |
| Runs.RemovalKeepsMask | src/pool4/pool4.c:62-85 | On a disjoint pool, a source of the table that is served with a pool mask before all copies of an entry are removed, and served after it, keeps the mask iff the entry is not listed, has no masks, or lies behind that mask |
| Allocator.AllottedAfterRemove | src/pool4/pool4.c:62-85 | On a disjoint pool, a position with a block before and after a removal keeps its pool mask iff the entry was not listed, has no masks or starts behind that mask |
| PoolTheorems.FlatAfterRemove | src/pool4/pool4.c:62-85 | After a removal from a disjoint pool, each position holds the mask it held if the entry was not listed, has no masks or starts behind it, else the mask that was as many places behind as the entry had masks |
| Runs.TableStaysMasking | src/client/client.c:24-36 | Every run that adds only prefixes whose two membership tests agree keeps a table of such prefixes |
| Runs.EveryReplyIsSafe | src/pool4/pool4.c:347-405 | In every run of additions, removals, flushes and requests, a request is answered with 0.0.0.0:0, an even-ported mask of the pool at that time, error 1 or -ESRCH |
| Runs.EmptyPoolReplies | src/pool4/pool4.c:359-363 | In every run, a request at a state with an empty pool, whoever is listed, gets 0.0.0.0:0 with success and changes nothing |
| Runs.NeverEsrchInRun | src/client/client.c:275-287 | If the first table and every prefix added by hand are aligned or at the top of the range, no request of the run is answered with -ESRCH |
| Runs.Apply | src/pool4/pool4.c:347-405 | One event on the two lists makes one step of the machine and gives its answer; what it leaves in the two lists is said event by event |
| Runs.Execute | src/pool4/pool4.c:347-405 | Running any events on the two lists ends in the last state of the machine and gives each request its reply, as long as the pool can be counted and the positions of the table fit an int at every request |
| Allocator.GetMask | src/pool4/pool4.c:347-405 | The table afterwards, the return code and the result for every source, block size and prior content, on every pool and table whose masks and prefixes an int can count; an empty pool answers 0 with 0.0.0.0:0 and leaves the table; a failure leaves the result |
| Allocator.Search | src/pool4/pool4.c:383-404 | Walking the pool for the domain gives its first mask if an entry covers it and its port is even, else 0.0.0.0:0; later masks of the block are never tried |
| Allocator.OffersIsMembership | src/pool4/pool4.c:385-389 | An entry covers an (address, port) iff it occurs in the flat sequence |
| Allocator.ResponseIsSafe | src/pool4/pool4.c:331-404 | A request gives 0.0.0.0:0, an (address, port) of the flat pool with an even port, error 1 or -ESRCH, for any content of the mask domain |
| Allocator.RespondExactly | src/pool4/pool4.c:347-405 | The whole outcome on a non-empty pool, case by case: 1 if the wrapped number of addresses exceeds the count, else -ESRCH if no prefix contains the source, else 1 if m = 0, else the mask Flat[p*m] of the first containing prefix p (or the prior content if p*m is past the end) if the pool has it and its port is even, else 0.0.0.0:0 |
| Allocator.EmptyPoolRequest | src/pool4/pool4.c:359-363 | On an empty pool every request gets 0.0.0.0:0 and the table is unchanged, whoever is listed |
| Allocator.TableGrowth | src/pool4/pool4.c:365-376 | On a non-empty pool a request leaves the table alone or appends one /128, makes the source enumerable, and asking again changes nothing |
| Allocator.TableAfterMasks | src/pool4/pool4.c:365-370 | The dynamic add keeps a table whose prefixes enumerate only what they contain |
| Allocator.NeverEsrch | src/client/client.c:275-287 | On such a table a request fails only with 1, never with -ESRCH, also right after a dynamic add |
| Allocator.EsrchExactly | src/client/client.c:270-287 | On a non-empty pool a request returns -ESRCH iff its source is enumerated, the counts let it through, and no prefix contains it by masking |
| Allocator.NeverEsrchIffCovered | src/client/client.c:157-197 | On a non-empty pool and any table, no source gets -ESRCH iff the client count exceeds the pool's or every address enumerated past the aligned range of its prefix is contained in some prefix |
| Allocator.RefusedExactly | src/client/client.c:270-291 | On a non-empty pool a request returns 1 iff the number of addresses after it, modulo 2^32, exceeds the pool's count, or a contained source asks with m = 0 |
| Allocator.StackIrrelevant | src/pool4/pool4.c:356-392 | The outcome is independent of the uninitialised domain iff the request is not accepted, or its position has a block, or the pool has no free mask |
| Allocator.ServedAnswer | src/pool4/pool4.c:378-402 | A source whose position has a block gets the first mask of that block if it is free, else the spool's, whatever the domain held |
| Allocator.ServedByParity | src/pool4/pool4.c:331-402 | A served source gets Flat[p*m] if that port is even and 0.0.0.0:0 if it is odd |
| Allocator.ServedMeaning | src/client/client.c:270-289 | A source is served iff the pool is not empty, m > 0, the wrapped number of addresses does not exceed the count and the first containing prefix p has p*m below the number of masks |
| Allocator.SharedIffSamePosition | src/client/client.c:275-289 | Two served sources of one table share a mask of a disjoint pool iff the same prefix is the first to contain both |
| ClientTable.Client.constructor | src/client/client.c:18-22 | A new table is empty |
| ClientTable.Client.Add | src/client/client.c:24-36 | Appends the prefix at the tail and returns 0 |
| ClientTable.Client.Delete | src/client/client.c:38-52 | Removes the first prefix that is equal and nothing else, leaves the table alone if there is none, and returns 0 |
| ClientTable.Client.Flush | src/client/client.c:54-67 | Empties the table |
| ClientTable.Client.Count | src/client/client.c:83-97 | The 32-bit sum of the prefix sizes |
| ClientTable.Client.ForEachSample | src/client/client.c:117-137 | Offers the prefixes after the first occurrence of the offset to the callback, up to its first non-zero answer; an absent offset gives -ESRCH without a call, and nothing else does unless the callback answers so itself |
| ClientTable.Client.AddrExist | src/client/client.c:175-197 | True iff the address is among the enumerated ones |
| ClientTable.Client.ForEach | src/client/client.c:199-257 | Hands over the rotation of all addresses by the offset modulo their number: all of it and 0, or the shortest prefix of it after which the callback answers non-zero, and that answer |
| ClientTable.Client.GetMaskDomain | src/client/client.c:259-294 | The return code and the domain for every address and block size, on every pool and table whose masks and prefixes an int can count; the position never overflows |
| ClientTable.ClientPosFromMeaning | src/client/client.c:275-282 | The search from any position ends at the first prefix there that contains the address by masking, or none there contains it |
| ClientTheorems.LookupErrors | src/client/client.c:270-293 | Return codes on a well-formed pool: 1 iff the number of addresses, modulo 2^32, exceeds the number of masks or a contained address asks with m = 0; -ESRCH iff neither too many nor contained; 0 otherwise; nothing written on failure |
| ClientTheorems.LookupExactly | src/client/client.c:259-294 | Code and domain of a lookup on any pool and table: 1, -ESRCH or 1 as the wrapped count, the masking match and m = 0 demand, in that order; else 0 with the domain {Flat[p*m], step 1, count m} of the first containing prefix p, or the prior content if p*m is past the end |
| ClientTheorems.NthOfLookup | src/pool4/pool4.c:285-329 | Asking a domain that a lookup on a disjoint pool wrote for mask n gives Flat[p*m + n mod m], or -ESRCH if that is past the end or the domain begins at the last port of its entry |
| ClientTheorems.OneMaskAlwaysWritten | src/client/client.c:270-289 | With m = 1, a well-formed pool and fewer than 2^32 client addresses, a successful lookup always writes its result: position < number of masks |
| ClientTheorems.ClientCountIsLength | src/client/client.c:83-97 | The count is the number of enumerated addresses modulo 2^32 |
| ClientTheorems.ClientCountIsSum | src/client/client.c:83-97 | The count is the sum of 2^(128-len) over the prefixes, modulo 2^32 |
| ClientTheorems.ClientCountExact | src/client/client.c:83-97 | It is that number iff the number fits 32 bits |
| ClientTheorems.ClientCountWraps | src/client/client.c:83-97 | Four prefixes of 2^30 addresses count as 0 |
| ClientTheorems.MembershipIsInterval | src/client/client.c:175-197 | An address is found iff some prefix has the same word 0 and its 96-bit distance from the prefix lies in [0, 2^(128-len)) |
| ClientTheorems.EnumeratedHasPos | src/client/client.c:157-197 | If every prefix enumerates only what it contains, every enumerated address has a position |
| ClientTheorems.QuietForEachVisitsAll | src/client/client.c:199-257 | With an always-zero callback the i-th address handed over is number (offset + i) mod n, each occurrence once |
| Address6.Addr6Iterations | src/client/client.c:139-155 | The words in place after one increment: word 0 stays, words 1 to 3 as one 96-bit number grow by one unless that is the largest |
| Address6.IterateIsSaturatingAdd | src/client/client.c:139-155 | k increments keep word 0 and add k to the 96-bit number of words 1 to 3, saturating at 2^96 - 1 |
| Address6.OneShiftedIsPow2 | src/client/client.c:13-16 | The shift by 128 - len is 2^(128-len) |
| Address6.AddrCountIsPow2 | src/client/client.c:13-16 | The number of addresses that counting, membership and masking use for a prefix is 2^(128-len) |
| Address6.EnumerateIsInterval | src/client/client.c:184-193 | A prefix enumerates exactly the interval of 2^(128-len) numbers from its own, cut at the top |
| Address6.EnumerateDistinct | src/client/client.c:184-193 | The enumerated addresses are pairwise distinct iff the increment does not saturate |
| Address6.MaskIsHighOnes | src/client/client.c:159-159 | The shifted and truncated mask is 2^32 - 2^(128-len) |
| Address6.PrefixContainsMeaning | src/client/client.c:157-173 | A prefix contains an address iff each of the four words has the same quotient by 2^(128-len) |
| Address6.HostContains | src/client/client.c:157-173 | A /128 contains its own address and no other |
| Address6.SpillsExactly | src/client/client.c:157-197 | Address i that a prefix enumerates fails its masking test iff the prefix is neither aligned nor at the top and i increments have passed the end of its aligned range |
| Address6.EnumerationImpliesMasking | src/client/client.c:157-197 | Every address a prefix enumerates passes its masking test iff the prefix is aligned or saturates inside its range |
| Address6.MaskingEqualsEnumeration | src/client/client.c:157-197 | The two tests agree on every address iff the prefix is a /128 |
| Pool4List.Pool4.constructor | src/pool4/pool4.c:17-21 | A new pool is empty |
| Pool4List.Pool4.Add | src/pool4/pool4.c:23-40 | Appends the entry at the tail and returns 0 |
| Pool4List.Pool4.Remove | src/pool4/pool4.c:62-85 | Removes every equal entry and keeps the order of the rest |
| Pool4List.Pool4.Flush | src/pool4/pool4.c:87-99 | Empties the pool |
| Pool4List.Pool4.IsEmpty | src/pool4/pool4.c:101-110 | 1 iff no entry is listed |
| Pool4List.Pool4.Count | src/pool4/pool4.c:154-169 | The 32-bit sum of the range widths, as an int |
| Pool4List.Pool4.ForeachSample | src/pool4/pool4.c:171-190 | Offers the entries after the first occurrence of the offset to the callback, up to its first non-zero answer; an absent offset gives -ESRCH without a call, and nothing else does unless the callback answers so itself |
| Pool4List.Pool4.FindPos | src/pool4/pool4.c:192-224 | Writes mask Flat[p*m] with step 1 and count m iff 0 <= p*m < N; otherwise, negative positions included, leaves the result alone and still returns 0; returns 1 if m is 0 |
| Pool4List.Pool4.ForeachTaddr4 | src/pool4/pool4.c:226-283 | Hands over the pool rotated by the reduced offset: all of it and 0, or the shortest prefix of it after which the callback answers non-zero, and that answer |
| Pool4List.Pool4.GetNthTaddr | src/pool4/pool4.c:285-329 | The n-mod-count-th transport address of the domain's walk, or -ESRCH and nothing written |
| PoolTheorems.CountExact | src/pool4/pool4.c:154-169 | The count is the number of masks iff the summed deficits of inverted ranges are a multiple of 2^32; so it is without inverted ranges, and with fewer than 2^16 entries only then |
| PoolTheorems.CountIsSum | src/pool4/pool4.c:154-169 | The count is the sum of max - min + 1 over the entries, inverted ones included, modulo 2^32 |
| PoolTheorems.DeficitIsDifference | src/pool4/pool4.c:154-169 | The deficit is the number of masks less the sum of the widths |
| PoolTheorems.RemoveUndoesAdd | src/pool4/pool4.c:62-85 | Removing what was just added restores the pool iff it was not listed before |
| PoolTheorems.WithoutAround | src/pool4/pool4.c:62-85 | A removal keeps each entry in its place or drops it, as it differs from the removed one or not |
| PoolTheorems.ForeachIsRotation | src/pool4/pool4.c:238-280 | In a well-formed pool the walk is the rotation by offset mod N, including an unreduced offset equal to N |
| PoolTheorems.QuietForeachVisitsAll | src/pool4/pool4.c:238-282 | With an always-zero callback every mask is handed over once, the i-th being number (offset + i) mod N |
| PoolTheorems.HasBlock | src/pool4/pool4.c:207-221 | Position p is below the number of blocks iff p*m is a position of the pool |
| PoolTheorems.BlockOfPosition | src/pool4/pool4.c:207-221 | The accepted positions are the first ones, each writes the first mask of its block, and a block is full unless the pool ends |
| PoolTheorems.BlocksDisjoint | src/pool4/pool4.c:207-221 | Every mask lies in the block of exactly one accepted position |
| PoolTheorems.BlocksTile | src/pool4/pool4.c:207-221 | The blocks of the accepted positions, one after the other, are the pool |
| PoolTheorems.NthIsStrided | src/pool4/pool4.c:293-326 | For steps that cannot overflow the n-th address is element n of the strided walk that restarts at min in every later entry |
| PoolTheorems.StrideAt | src/pool4/pool4.c:299-321 | Element j of the strided walk of a range is i + j*step, for as long as that does not exceed max |
| PoolTheorems.ScanWraps | src/pool4/pool4.c:299-321 | For every 32-bit step, the walk of one range hits i + n*step wrapped to a 32-bit int iff no value up to it exceeds max, else it misses at the first that does with the rest of n left |
| PoolTheorems.NthIsWalk | src/pool4/pool4.c:293-326 | For every 32-bit step the n-th address is element n of the domain's walk over all entries, of which each entry's part may be cut off anywhere beyond n |
| PoolTheorems.StrideUpToAt | src/pool4/pool4.c:299-321 | The elements of the part of one entry: i + j*step wrapped to a 32-bit int, up to the first that exceeds max |
| PoolTheorems.WalkBegins | src/pool4/pool4.c:293-326 | The walk begins at the domain's first port in the first entry that has it below its last port, and goes through the later entries from their first ports; without such an entry it is empty |
| PoolTheorems.NthWithoutStep | src/pool4/pool4.c:293-326 | With step 0 every n gives the first address of the domain, if its entry is found |
| PoolTheorems.NthOfFoundDomain | src/pool4/pool4.c:285-329 | On a disjoint pool the domain written for p gives Flat[p*m + n mod m], or -ESRCH past the end, iff it does not begin at the last port of its entry or that index is past the end; otherwise it gives -ESRCH |
| PoolTheorems.DisjointIffDistinct | src/pool4/pool4.c:207-221 | No two entries overlap iff no (address, port) occurs twice in the flat sequence |
| Callbacks.VisitUnique | src/pool4/pool4.c:252-275 | What the iterators promise determines the elements handed over and the answer |
| Callbacks.VisitMeaning | src/pool4/pool4.c:252-275 | What is handed over is a prefix after whose proper parts the callback answered 0; its last answer is returned; an answer of 0 means that everything was handed over |
| Paging.PageOfPresent | src/pool4/pool4.c:171-190 | After the first occurrence of the offset, or from the start without one, entries are handed over in order up to the first non-zero answer |
| Paging.PageOfAbsent | src/client/client.c:117-137 | An absent offset gives -ESRCH and no callback; otherwise -ESRCH is only ever an answer of the callback |
| Paging.EsrchIffAbsent | src/client/client.c:117-137 | If the callback never answers -ESRCH, a call returns it iff the offset is absent |
| Paging.PagesAdvance | src/pool4/pool4.c:171-190 | Without duplicates each page continues exactly after the entry handed over last, and every call makes progress |
| Paging.PagesCycle | src/pool4/pool4.c:179-187 | With a duplicate, pages of one entry never end |
| Paging.PagingCompleteIffDistinct | src/client/client.c:117-137 | Reading in pages gives exactly the list, for every choice of callbacks with enough calls, iff no entry is listed twice |

## Left out

- Linked-list pointers, allocation and its failure (-ENOMEM): each list is a sequence owned by a class.
- Writes of a callback into the address or entry it is handed: callbacks see values.
- Prefix lengths below 98 or above 128: `1 << (128 - len)` is then not a positive int in C.
- Loop counters beyond the range of int: the walks of the pool and of the client addresses require at most 2^31 - 1 elements, and the search for a position at most 2^31 - 1 prefixes.
- The spool lists and the packet: `get_spool_mask` always answers 0.0.0.0:0, and a request is its source address.
- `dynamic_assignment` switched off: it is a constant 1 in the source.
- `pool4_contains`, `client_exist`, printing and address formatting: no property beyond a search or output.
- `src/nf_hook.c` and `src/unit_test.h`: a driver with fixed inputs.
- Concurrent callers: the source takes no lock, so a call is one step.
