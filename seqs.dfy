/** Generic sequence operations shared by both scripts: element-wise map,
    order-preserving filter, flattening, and the embedding that says one
    sequence is picked out of another at increasing positions. */
module Seqs {

  /** `[f(x) for x in s]`. */
  function Map<T, U>(f: T -> U, s: seq<T>): seq<U>
  {
    seq(|s|, k requires 0 <= k < |s| => f(s[k]))
  }

  /** Mapping a non-empty sequence maps its head and then its tail. */
  lemma MapCons<T, U>(f: T -> U, s: seq<T>)
    requires s != []
    ensures Map(f, s) == [f(s[0])] + Map(f, s[1..])
  {
    assert forall k :: 1 <= k < |s| ==> s[1..][k - 1] == s[k];
  }

  /** The elements of `s` satisfying `p`, in their original order and with
      duplicates kept (what appending inside a `for` loop builds). */
  function Filter<T>(p: T -> bool, s: seq<T>): (r: seq<T>)
    ensures |r| <= |s|
    ensures forall k :: 0 <= k < |r| ==> p(r[k])
  {
    if s == [] then []
    else Filter(p, s[..|s| - 1]) + (if p(s[|s| - 1]) then [s[|s| - 1]] else [])
  }

  /** The concatenation of all sequences in `ss`. */
  function Flatten<T>(ss: seq<seq<T>>): seq<T>
  {
    if ss == [] then [] else ss[0] + Flatten(ss[1..])
  }

  /** `a` is `b` read at the strictly increasing positions `idx`. */
  ghost predicate Embeds<T>(a: seq<T>, b: seq<T>, idx: seq<nat>)
  {
    && |idx| == |a|
    && (forall k :: 0 <= k < |idx| ==> idx[k] < |b| && b[idx[k]] == a[k])
    && (forall j, k :: 0 <= j < k < |idx| ==> idx[j] < idx[k])
  }

  /** `Filter(p, s)` is exactly `s` restricted to the positions whose element
      satisfies `p`, in order: a subsequence that misses no qualifying element. */
  lemma {:induction false} FilterSelects<T>(p: T -> bool, s: seq<T>) returns (idx: seq<nat>)
    ensures Embeds(Filter(p, s), s, idx)
    ensures forall k :: 0 <= k < |s| ==> (p(s[k]) <==> k in idx)
  {
    if s == [] {
      idx := [];
    } else {
      var n := |s| - 1;
      var front := s[..n];
      var prev := FilterSelects(p, front);
      assert forall k :: 0 <= k < |prev| ==> prev[k] < n;
      if p(s[n]) {
        idx := prev + [n];
        assert Filter(p, s) == Filter(p, front) + [s[n]];
      } else {
        idx := prev;
        assert Filter(p, s) == Filter(p, front);
      }
      forall k | 0 <= k < |s|
        ensures p(s[k]) <==> k in idx
      {
        if k < n {
          assert front[k] == s[k];
        }
      }
    }
  }

  /** Each value occurs in `Filter(p, s)` as often as in `s` when it satisfies
      `p`, and not at all otherwise. */
  lemma {:induction false} FilterCount<T>(p: T -> bool, s: seq<T>, x: T)
    ensures multiset(Filter(p, s))[x] == if p(x) then multiset(s)[x] else 0
  {
    if s != [] {
      var n := |s| - 1;
      FilterCount(p, s[..n], x);
      assert s == s[..n] + [s[n]];
    }
  }
}
