/**
 Reading a list page by page with the sampling iterators: each call continues
 after the entry that the previous call handed over last.
 */
module Paging {
  import opened Types
  import opened Sequences
  import opened Callbacks

  /** What a call offers: the whole list, or what comes after the first occurrence of the offset. */
  ghost function Offered<T>(list: seq<T>, offset: Option<T>): (tail: Option<seq<T>>) {
    match offset
    case None => Some(list)
    case Some(x) => if x in list then Some(list[FirstIndex(list, x) + 1..]) else None
  }

  /** One call. An absent offset gives -ESRCH and no callback. */
  ghost predicate IsPage<T>(list: seq<T>, offset: Option<T>, cb: Callback<T>, page: seq<T>, error: int) {
    match Offered(list, offset)
    case Some(tail) => IsVisit(tail, cb, page, error)
    case None => page == [] && error == -ESRCH
  }

  /** An absent offset is answered with -ESRCH, without a callback; otherwise only a callback can answer so. */
  lemma PageOfAbsent<T>(list: seq<T>, offset: Option<T>, cb: Callback<T>, page: seq<T>, error: int)
    requires IsPage(list, offset, cb, page, error)
    ensures offset.Some? && offset.value !in list ==> error == -3 && page == []
    ensures error == -3 ==> (offset.Some? && offset.value !in list) || (page != [] && cb(page) == -3)
  {
    if Offered(list, offset).Some? {
      VisitMeaning(Offered(list, offset).value, cb, page, error);
    }
  }

  lemma EsrchIffAbsent<T>(list: seq<T>, offset: Option<T>, cb: Callback<T>, page: seq<T>, error: int)
    requires IsPage(list, offset, cb, page, error)
    requires forall history :: cb(history) != -3
    ensures error == -3 <==> offset.Some? && offset.value !in list
  {
    PageOfAbsent(list, offset, cb, page, error);
    assert page != [] ==> cb(page) != -3;
  }

  /** Otherwise what follows the first occurrence of the offset is offered, or the whole list without one. */
  lemma PageOfPresent<T>(list: seq<T>, k: nat, cb: Callback<T>, page: seq<T>, error: int)
    requires k <= |list| && (k > 0 ==> list[k - 1] !in list[..k - 1])
    requires IsPage(list, OffsetAfter(list, k), cb, page, error)
    ensures k + |page| <= |list| && page == list[k..k + |page|]
    ensures forall j :: 0 < j < |page| ==> cb(page[..j]) == 0
    ensures error == if page == [] then 0 else cb(page)
    ensures error == 0 ==> k + |page| == |list|
  {
    if k > 0 {
      OfferedAfter(list, list[k - 1], k - 1);
    }
    var tail := list[k..];
    assert Offered(list, OffsetAfter(list, k)) == Some(tail);
    VisitMeaning(tail, cb, page, error);
    forall j | 0 < j < |page|
      ensures cb(page[..j]) == 0
    {
      assert tail[..j] == page[..j];
    }
  }

  lemma OfferedAfter<T>(list: seq<T>, x: T, k: nat)
    requires IsFirst(list, x, k)
    ensures Offered(list, Some(x)) == Some(list[k + 1..])
  {
    FirstUnique(list, x, k);
  }

  /**
   A call before element `k`: still looking for the offset `rest`, or handing over
   what is offered.
   */
  ghost predicate Sampling<T>(list: seq<T>, offset: Option<T>, cb: Callback<T>, k: nat, rest: Option<T>, page: seq<T>) {
    && k <= |list|
    && match rest
       case Some(x) => offset == rest && x !in list[..k] && page == []
       case None =>
         match Offered(list, offset)
         case None => false
         case Some(tail) => page <= tail && Quiet(cb, page) && k >= |page| && tail == list[k - |page|..]
  }

  lemma SamplingStep<T>(list: seq<T>, offset: Option<T>, cb: Callback<T>, k: nat, rest: Option<T>, page: seq<T>)
    requires k < |list| && Sampling(list, offset, cb, k, rest, page)
    ensures var next := page + [list[k]];
            match rest
            case Some(x) => Sampling(list, offset, cb, k + 1, if x == list[k] then None else rest, page)
            case None =>
              if cb(next) == 0 then Sampling(list, offset, cb, k + 1, rest, next)
              else IsPage(list, offset, cb, next, cb(next))
  {
    match rest
    case Some(x) =>
      assert list[..k + 1] == list[..k] + [list[k]];
      if x == list[k] {
        OfferedAfter(list, x, k);
      }
    case None =>
      Offer(Offered(list, offset).value, cb, page, list[k]);
  }

  lemma SamplingEnds<T>(list: seq<T>, offset: Option<T>, cb: Callback<T>, rest: Option<T>, page: seq<T>)
    requires Sampling(list, offset, cb, |list|, rest, page)
    ensures IsPage(list, offset, cb, page, if rest.Some? then -ESRCH else 0)
  {
    if rest.None? {
      assert page == Offered(list, offset).value;
    } else {
      assert list[..|list|] == list;
    }
  }

  lemma PageExists<T>(list: seq<T>, offset: Option<T>, cb: Callback<T>)
    ensures exists page, error :: IsPage(list, offset, cb, page, error)
  {
    var v := match Offered(list, offset)
      case Some(tail) => Visit(tail, cb)
      case None => ([], -ESRCH);
    assert IsPage(list, offset, cb, v.0, v.1);
  }

  /** The page that one call hands over. */
  ghost function Page<T>(list: seq<T>, offset: Option<T>, cb: Callback<T>): (page: seq<T>) {
    PageExists(list, offset, cb);
    var page, error :| IsPage(list, offset, cb, page, error);
    page
  }

  lemma PageIs<T>(list: seq<T>, offset: Option<T>, cb: Callback<T>) returns (page: seq<T>, error: int)
    ensures page == Page(list, offset, cb) && IsPage(list, offset, cb, page, error)
  {
    PageExists(list, offset, cb);
    page := Page(list, offset, cb);
    error :| IsPage(list, offset, cb, page, error);
  }

  /** The offset for the next call: the entry handed over last, if there was one. */
  function NextOffset<T>(offset: Option<T>, page: seq<T>): (next: Option<T>) {
    if page == [] then offset else Some(page[|page| - 1])
  }

  /** The pages of successive calls, one after the other. */
  ghost function Pages<T>(list: seq<T>, offset: Option<T>, cbs: seq<Callback<T>>): (s: seq<T>)
    decreases |cbs|
  {
    if cbs == [] then [] else
      var page := Page(list, offset, cbs[0]);
      page + Pages(list, NextOffset(offset, page), cbs[1..])
  }

  /** The offset with which a reader continues after the first `k` entries. */
  function OffsetAfter<T>(list: seq<T>, k: nat): (offset: Option<T>)
    requires k <= |list|
  {
    if k == 0 then None else Some(list[k - 1])
  }

  lemma PageAt<T>(list: seq<T>, k: nat, cb: Callback<T>, page: seq<T>, error: int)
    requires Distinct(list) && k <= |list|
    requires IsPage(list, OffsetAfter(list, k), cb, page, error)
    ensures page == [] ==> k == |list|
    ensures k + |page| <= |list| && page == list[k..k + |page|]
    ensures NextOffset(OffsetAfter(list, k), page) == OffsetAfter(list, k + |page|)
  {
    if k == 0 {
      assert list[0..] == list;
    } else {
      FirstOfDistinct(list, k - 1);
    }
    assert IsVisit(list[k..], cb, page, error);
    assert list[k..k + |page|] == list[k..][..|page|];
  }

  lemma Slices<T>(s: seq<T>, a: nat, b: nat, c: nat)
    requires a <= b <= c <= |s|
    ensures s[a..b] + s[b..c] == s[a..c]
  {
  }

  /** Without duplicates, pages continue exactly where they stopped and each call makes progress. */
  lemma {:induction false} PagesAdvance<T>(list: seq<T>, k: nat, cbs: seq<Callback<T>>) returns (end: nat)
    requires Distinct(list) && k <= |list|
    ensures k <= end <= |list| && (end == |list| || end >= k + |cbs|)
    ensures Pages(list, OffsetAfter(list, k), cbs) == list[k..end]
    decreases |cbs|
  {
    if cbs == [] {
      end := k;
      assert list[k..k] == [];
    } else {
      var page, error := PageIs(list, OffsetAfter(list, k), cbs[0]);
      PageAt(list, k, cbs[0], page, error);
      var next := k + |page|;
      end := PagesAdvance(list, next, cbs[1..]);
      var rest := Pages(list, OffsetAfter(list, next), cbs[1..]);
      assert Pages(list, OffsetAfter(list, k), cbs) == page + rest;
      Slices(list, k, next, end);
      assert page + rest == list[k..next] + list[next..end];
    }
  }

  /** A callback that ends the page after one entry. */
  function OneEntry<T>(history: seq<T>): (answer: int) {
    1
  }

  /** With a duplicate, pages of one entry go round before the second occurrence for ever. */
  lemma {:induction false} PagesCycle<T>(list: seq<T>, i: nat, j: nat, offset: Option<T>, cbs: seq<Callback<T>>)
    requires i < j < |list| && list[i] == list[j]
    requires offset.Some? ==> offset.value in list[..j + 1]
    requires forall c :: 0 <= c < |cbs| ==> cbs[c] == OneEntry
    ensures |Pages(list, offset, cbs)| == |cbs|
    decreases |cbs|
  {
    if cbs != [] {
      var from := 0;
      if offset.Some? {
        var t :| 0 <= t <= j && list[t] == offset.value;
        from := FirstIndex(list, offset.value) + 1;
        FirstLeast(list, offset.value, if t == j then i else t);
      }
      var page, error := PageIs(list, offset, cbs[0]);
      assert IsVisit(list[from..], cbs[0], page, error);
      VisitAnswers(list[from..], cbs[0], page, error, 1);
      assert page == [list[from]];
      PagesCycle(list, i, j, Some(list[from]), cbs[1..]);
    }
  }

  /**
   Reading in pages is complete, for every choice of pages with enough calls, if
   and only if no entry is listed twice.
   */
  lemma PagingCompleteIffDistinct<T>(list: seq<T>)
    ensures (forall cbs: seq<Callback<T>> :: |cbs| >= |list| ==> Pages(list, None, cbs) == list) <==> Distinct(list)
  {
    if Distinct(list) {
      forall cbs: seq<Callback<T>> | |cbs| >= |list|
        ensures Pages(list, None, cbs) == list
      {
        var end := PagesAdvance(list, 0, cbs);
        assert list[0..end] == list;
      }
    } else {
      var i, j :| 0 <= i < j < |list| && list[i] == list[j];
      var cbs := seq(|list| + 1, _ => OneEntry<T>);
      PagesCycle(list, i, j, None, cbs);
      assert Pages(list, None, cbs) != list;
    }
  }
}
