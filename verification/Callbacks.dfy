/**
 What an iterator does with a callback. A callback answers with an int that may
 depend on everything it has been handed so far, so it is a function of the
 history that ends with the current element; this covers callbacks that keep
 state behind their `arg` pointer.
 */
module Callbacks {
  import opened Sequences
  import Arithmetic

  type Callback<!T> = seq<T> -> int

  /** The callback answers 0 after each element of `v`. */
  ghost predicate Quiet<T>(cb: Callback<T>, v: seq<T>) {
    forall j :: 0 < j <= |v| ==> cb(v[..j]) == 0
  }

  /**
   Offering `s` in order hands over `v` and answers `error`: either the callback
   stays quiet and gets everything, or `v` is the shortest prefix after which it
   answers something else than 0, and that answer is returned.
   */
  ghost predicate IsVisit<T>(s: seq<T>, cb: Callback<T>, v: seq<T>, error: int) {
    && v <= s
    && if error == 0 then v == s && Quiet(cb, s)
       else v != [] && cb(v) == error && Quiet(cb, v[..|v| - 1])
  }

  lemma QuietExtend<T>(cb: Callback<T>, v: seq<T>, x: T)
    requires Quiet(cb, v) && cb(v + [x]) == 0
    ensures Quiet(cb, v + [x])
  {
    forall j | 0 < j <= |v + [x]|
      ensures cb((v + [x])[..j]) == 0
    {
      assert (v + [x])[..j] == if j <= |v| then v[..j] else v + [x];
    }
  }

  /** One more element is handed over. */
  lemma Offer<T>(s: seq<T>, cb: Callback<T>, v: seq<T>, x: T)
    requires v <= s && |v| < |s| && s[|v|] == x && Quiet(cb, v)
    ensures v + [x] <= s
    ensures cb(v + [x]) == 0 ==> Quiet(cb, v + [x])
    ensures cb(v + [x]) != 0 ==> IsVisit(s, cb, v + [x], cb(v + [x]))
  {
    assert (v + [x])[..|v|] == v;
    if cb(v + [x]) == 0 {
      QuietExtend(cb, v, x);
    }
  }

  /** Until the last element handed over, every answer is 0; the last one is returned. */
  lemma VisitAnswers<T>(s: seq<T>, cb: Callback<T>, v: seq<T>, error: int, j: nat)
    requires IsVisit(s, cb, v, error) && 0 < j <= |v|
    ensures cb(s[..j]) == if j < |v| then 0 else error
  {
    assert s[..j] == v[..j] == if j < |v| then v[..|v| - 1][..j] else v;
  }

  /** A run of the callback in its own terms: it stops after the first non-zero answer, which is returned. */
  lemma VisitMeaning<T>(s: seq<T>, cb: Callback<T>, v: seq<T>, error: int)
    requires IsVisit(s, cb, v, error)
    ensures |v| <= |s| && v == s[..|v|]
    ensures forall j :: 0 < j < |v| ==> cb(s[..j]) == 0
    ensures error == if v == [] then 0 else cb(v)
    ensures error == 0 ==> v == s
  {
    forall j | 0 < j < |v|
      ensures cb(s[..j]) == 0
    {
      VisitAnswers(s, cb, v, error, j);
    }
    assert v[..|v|] == v;
  }

  /** The trace and the answer are determined by the sequence and the callback. */
  lemma VisitUnique<T>(s: seq<T>, cb: Callback<T>, v: seq<T>, error: int, v': seq<T>, error': int)
    requires IsVisit(s, cb, v, error) && IsVisit(s, cb, v', error')
    ensures v == v' && error == error'
  {
    var j := if |v| < |v'| then |v| else |v'|;
    if 0 < j {
      VisitAnswers(s, cb, v, error, j);
      VisitAnswers(s, cb, v', error', j);
    }
  }

  /** The trace and answer when offering the rest of `s` after `v`. */
  ghost function VisitFrom<T>(s: seq<T>, cb: Callback<T>, v: seq<T>): (r: (seq<T>, int))
    requires v <= s && Quiet(cb, v)
    ensures IsVisit(s, cb, r.0, r.1)
    decreases |s| - |v|
  {
    if |v| == |s| then (v, 0) else
      var next := v + [s[|v|]];
      Offer(s, cb, v, s[|v|]);
      if cb(next) != 0 then (next, cb(next)) else VisitFrom(s, cb, next)
  }

  ghost function Visit<T>(s: seq<T>, cb: Callback<T>): (r: (seq<T>, int))
    ensures IsVisit(s, cb, r.0, r.1)
  {
    VisitFrom(s, cb, [])
  }

  /**
   A callback that always answers 0 gets every element exactly once, the `i`-th
   one at `offset + i` modulo the length.
   */
  lemma QuietVisit<T>(s: seq<T>, offset: nat, cb: Callback<T>, visited: seq<T>, error: int)
    requires s != [] && forall history :: cb(history) == 0
    requires IsVisit(Rotate(s, offset % |s|), cb, visited, error)
    ensures error == 0 && |visited| == |s| && multiset(visited) == multiset(s)
    ensures forall i :: 0 <= i < |s| ==> visited[i] == s[(offset + i) % |s|]
  {
    RotateIsPermutation(s, offset % |s|);
    assert error == 0 by {
      if error != 0 {
        assert cb(visited) == 0;
      }
    }
    forall i | 0 <= i < |s|
      ensures visited[i] == s[(offset + i) % |s|]
    {
      RotateByOffset(s, offset, i);
    }
  }

  lemma RotateByOffset<T>(s: seq<T>, offset: nat, i: nat)
    requires i < |s|
    ensures Rotate(s, offset % |s|)[i] == s[(offset + i) % |s|]
  {
    var n, q, o := |s|, offset / |s|, offset % |s|;
    RotateIsPermutation(s, o);
    assert offset + i == q * n + (o + i);
    if o + i < n {
      Arithmetic.ModUnique(q, n, o + i);
    } else {
      assert (q + 1) * n == q * n + n;
      Arithmetic.ModUnique(q + 1, n, o + i - n);
    }
  }
}
