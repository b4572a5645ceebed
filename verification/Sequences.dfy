/** Facts about sequences that both lists share. */
module Sequences {

  ghost predicate Distinct<T>(s: seq<T>) {
    forall i, j :: 0 <= i < j < |s| ==> s[i] != s[j]
  }

  /** The elements from position `o` on, followed by those before it. */
  function Rotate<T>(s: seq<T>, o: nat): (r: seq<T>)
    requires o <= |s|
  {
    s[o..] + s[..o]
  }

  lemma SplitAt<T>(s: seq<T>, k: nat)
    requires k < |s|
    ensures s == s[..k] + ([s[k]] + s[k + 1..])
  {
  }

  lemma RotateWhole<T>(s: seq<T>)
    ensures Rotate(s, |s|) == Rotate(s, 0)
  {
  }

  lemma RotateIsPermutation<T>(s: seq<T>, o: nat)
    requires o <= |s|
    ensures |Rotate(s, o)| == |s| && multiset(Rotate(s, o)) == multiset(s)
    ensures forall i :: 0 <= i < |s| ==> Rotate(s, o)[i] == s[if o + i < |s| then o + i else o + i - |s|]
  {
    assert s == s[..o] + s[o..];
  }

  /** The blocks `f(x)` one after the other, in list order. */
  ghost function FlatMap<A, B>(f: A -> seq<B>, xs: seq<A>): (s: seq<B>) {
    if xs == [] then [] else FlatMap(f, xs[..|xs| - 1]) + f(xs[|xs| - 1])
  }

  lemma FlatMapStep<A, B>(f: A -> seq<B>, xs: seq<A>, k: nat)
    requires k < |xs|
    ensures FlatMap(f, xs[..k + 1]) == FlatMap(f, xs[..k]) + f(xs[k])
  {
    assert xs[..k + 1][..k] == xs[..k];
  }

  lemma {:induction false} FlatMapAppend<A, B>(f: A -> seq<B>, xs: seq<A>, ys: seq<A>)
    ensures FlatMap(f, xs + ys) == FlatMap(f, xs) + FlatMap(f, ys)
  {
    if ys == [] {
      assert xs + ys == xs;
    } else {
      var front := ys[..|ys| - 1];
      assert (xs + ys)[..|xs + ys| - 1] == xs + front;
      FlatMapAppend(f, xs, front);
    }
  }

  lemma FlatMapSplit<A, B>(f: A -> seq<B>, xs: seq<A>, k: nat)
    requires k < |xs|
    ensures FlatMap(f, xs) == FlatMap(f, xs[..k]) + f(xs[k]) + FlatMap(f, xs[k + 1..])
  {
    assert xs == xs[..k + 1] + xs[k + 1..];
    FlatMapAppend(f, xs[..k + 1], xs[k + 1..]);
    FlatMapStep(f, xs, k);
  }

  /** Element `i` of block `k` sits at the length of the earlier blocks plus `i`. */
  lemma FlatMapAt<A, B>(f: A -> seq<B>, xs: seq<A>, k: nat, i: nat)
    requires k < |xs| && i < |f(xs[k])|
    ensures |FlatMap(f, xs[..k])| + i < |FlatMap(f, xs)|
    ensures FlatMap(f, xs)[|FlatMap(f, xs[..k])| + i] == f(xs[k])[i]
  {
    FlatMapSplit(f, xs, k);
  }

  /** What comes after the first `k` blocks is the rest, flattened. */
  lemma FlatMapAfter<A, B>(f: A -> seq<B>, xs: seq<A>, k: nat)
    requires k <= |xs|
    ensures FlatMap(f, xs) == FlatMap(f, xs[..k]) + FlatMap(f, xs[k..])
  {
    assert xs == xs[..k] + xs[k..];
    FlatMapAppend(f, xs[..k], xs[k..]);
  }

  /** Every position of the flattened sequence belongs to some block. */
  lemma {:induction false} FlatMapLocate<A, B>(f: A -> seq<B>, xs: seq<A>, pos: nat) returns (k: nat, i: nat)
    requires pos < |FlatMap(f, xs)|
    ensures k < |xs| && i < |f(xs[k])|
    ensures pos == |FlatMap(f, xs[..k])| + i
  {
    var front := xs[..|xs| - 1];
    if pos < |FlatMap(f, front)| {
      k, i := FlatMapLocate(f, front, pos);
      assert front[..k] == xs[..k];
    } else {
      k, i := |xs| - 1, pos - |FlatMap(f, front)|;
    }
  }

  lemma FlatMapMember<A, B>(f: A -> seq<B>, xs: seq<A>, y: B)
    ensures y in FlatMap(f, xs) <==> exists k :: 0 <= k < |xs| && y in f(xs[k])
  {
    if y in FlatMap(f, xs) {
      var pos :| 0 <= pos < |FlatMap(f, xs)| && FlatMap(f, xs)[pos] == y;
      var k, i := FlatMapLocate(f, xs, pos);
      FlatMapAt(f, xs, k, i);
    }
    if k :| 0 <= k < |xs| && y in f(xs[k]) {
      var i :| 0 <= i < |f(xs[k])| && f(xs[k])[i] == y;
      FlatMapAt(f, xs, k, i);
    }
  }

  ghost function Sum<A>(f: A -> int, xs: seq<A>): (n: int) {
    if xs == [] then 0 else Sum(f, xs[..|xs| - 1]) + f(xs[|xs| - 1])
  }

  ghost predicate IsFirst<T>(s: seq<T>, x: T, k: nat) {
    k < |s| && s[k] == x && x !in s[..k]
  }

  lemma {:induction false} FirstExists<T>(s: seq<T>, x: T, n: nat)
    requires n <= |s| && x in s[..n]
    ensures exists k: nat :: IsFirst(s, x, k)
  {
    if x in s[..n - 1] {
      FirstExists(s, x, n - 1);
    } else {
      assert s[..n] == s[..n - 1] + [s[n - 1]];
      assert IsFirst(s, x, n - 1);
    }
  }

  /** The position of the first occurrence of `x`. */
  ghost function FirstIndex<T>(s: seq<T>, x: T): (k: nat)
    requires x in s
    ensures IsFirst(s, x, k)
  {
    assert s[..|s|] == s;
    FirstExists(s, x, |s|);
    var k: nat :| IsFirst(s, x, k);
    k
  }

  lemma FirstUnique<T>(s: seq<T>, x: T, k: nat)
    requires IsFirst(s, x, k)
    ensures FirstIndex(s, x) == k
  {
    FirstLeast(s, x, k);
    assert forall u :: 0 <= u < k ==> s[u] in s[..k];
  }

  lemma FirstLeast<T>(s: seq<T>, x: T, t: nat)
    requires t < |s| && s[t] == x
    ensures FirstIndex(s, x) <= t
  {
    var i := FirstIndex(s, x);
    assert forall u :: 0 <= u < i ==> s[u] in s[..i];
  }

  lemma FirstInPrefix<T>(s: seq<T>, t: seq<T>, x: T)
    requires s <= t && x in s
    ensures x in t && FirstIndex(t, x) == FirstIndex(s, x)
  {
    var k := FirstIndex(s, x);
    assert t[..k] == s[..k] && t[k] == x;
    FirstUnique(t, x, k);
  }

  lemma FirstOfDistinct<T>(s: seq<T>, k: nat)
    requires Distinct(s) && k < |s|
    ensures FirstIndex(s, s[k]) == k
  {
  }
}
