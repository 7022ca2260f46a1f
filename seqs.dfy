/**
 * The JavaScript array combinators the extension's code is written with
 * (`filter`, `find`, `map` over index lists), as functions on sequences,
 * with the facts about them that the rest of the model relies on.
 */
module Seqs {
  import opened Wrappers

  /** The indices 0, 1, ..., n - 1: document order over a list of n elements. */
  function Indices(n: nat): (r: seq<nat>)
    ensures |r| == n
    ensures forall i :: 0 <= i < n ==> r[i] == i
  {
    seq(n, i => i)
  }

  /** `Array.prototype.filter`: the entries of `s` satisfying `p`, in their original order. */
  function Filter<T>(s: seq<T>, p: T -> bool): (r: seq<T>)
    ensures |r| <= |s|
    ensures forall i :: 0 <= i < |r| ==> p(r[i])
    ensures forall i :: 0 <= i < |r| ==> r[i] in s
    ensures forall i :: 0 <= i < |s| && p(s[i]) ==> s[i] in r
  {
    if s == [] then []
    else (if p(s[0]) then [s[0]] else []) + Filter(s[1..], p)
  }

  /** k is the position of the first entry of `s` satisfying `p`. */
  ghost predicate IsFirst<T>(s: seq<T>, p: T -> bool, k: int) {
    0 <= k < |s| && p(s[k]) && forall j :: 0 <= j < k ==> !p(s[j])
  }

  /** `Array.prototype.findIndex`, with `None` for -1. */
  function FindIndex<T>(s: seq<T>, p: T -> bool): (r: Option<nat>)
    ensures r.Some? ==> IsFirst(s, p, r.value)
    ensures r.None? ==> forall j :: 0 <= j < |s| ==> !p(s[j])
  {
    if s == [] then None
    else if p(s[0]) then Some(0)
    else match FindIndex(s[1..], p)
      case None => None
      case Some(k) => Some(k + 1)
  }

  /** `Array.prototype.find`, with `None` for `undefined`. */
  function Find<T>(s: seq<T>, p: T -> bool): (r: Option<T>)
    ensures r.None? <==> forall j :: 0 <= j < |s| ==> !p(s[j])
    ensures r.Some? ==> exists k :: IsFirst(s, p, k) && r.value == s[k]
  {
    match FindIndex(s, p)
    case None => None
    case Some(k) => Some(s[k])
  }

  /** Strictly increasing: a list of element indices in document order, without repetition. */
  ghost predicate Increasing(s: seq<nat>) {
    forall i, j :: 0 <= i < j < |s| ==> s[i] < s[j]
  }

  /** `idx` embeds `a` into `b` in order: `a[k] == b[idx[k]]` with strictly increasing positions. */
  ghost predicate Embeds<T>(idx: seq<nat>, a: seq<T>, b: seq<T>) {
    && |idx| == |a|
    && Increasing(idx)
    && (forall k :: 0 <= k < |idx| ==> idx[k] < |b| && a[k] == b[idx[k]])
  }

  /** `a` is an order-preserving subsequence of `b`. */
  ghost predicate IsSubsequence<T>(a: seq<T>, b: seq<T>) {
    exists idx :: Embeds(idx, a, b)
  }

  /** `filter` keeps every occurrence of an entry satisfying `p` and no occurrence of any other. */
  lemma {:induction false} FilterCount<T>(s: seq<T>, p: T -> bool)
    ensures forall x :: multiset(Filter(s, p))[x] == if p(x) then multiset(s)[x] else 0
  {
    if s != [] {
      FilterCount(s[1..], p);
      assert s == [s[0]] + s[1..];
      assert multiset(s) == multiset{s[0]} + multiset(s[1..]);
      assert multiset(Filter(s, p)) == multiset(if p(s[0]) then [s[0]] else []) + multiset(Filter(s[1..], p));
    }
  }

  /** The positions at or after `from` that `Filter(s[from..], p)` keeps, in order. */
  function KeptPositions<T>(s: seq<T>, p: T -> bool, from: nat): (r: seq<nat>)
    requires from <= |s|
    ensures |r| == |Filter(s[from..], p)|
    ensures forall k :: 0 <= k < |r| ==> from <= r[k] < |s| && Filter(s[from..], p)[k] == s[r[k]]
    ensures Increasing(r)
    decreases |s| - from
  {
    if from == |s| then []
    else
      var rest := KeptPositions(s, p, from + 1);
      var r := if p(s[from]) then [from] + rest else rest;
      FilterFrom(s, p, from);
      ConsPositions(s, from, p(s[from]), Filter(s[from..], p), Filter(s[from + 1..], p), rest, r);
      r
  }

  /** One step of `Filter` on a suffix. */
  lemma FilterFrom<T>(s: seq<T>, p: T -> bool, from: nat)
    requires from < |s|
    ensures Filter(s[from..], p) == (if p(s[from]) then [s[from]] else []) + Filter(s[from + 1..], p)
  {
    assert s[from..][1..] == s[from + 1..];
  }

  /** Positions of `b` in `s` after `from` extend to positions of `a`, which is `b` with
      `s[from]` possibly put in front. */
  lemma ConsPositions<T>(s: seq<T>, from: nat, keep: bool, a: seq<T>, b: seq<T>, rest: seq<nat>, r: seq<nat>)
    requires from < |s|
    requires a == (if keep then [s[from]] else []) + b
    requires |rest| == |b| && forall k :: 0 <= k < |rest| ==> from + 1 <= rest[k] < |s| && b[k] == s[rest[k]]
    requires Increasing(rest)
    requires r == if keep then [from] + rest else rest
    ensures |r| == |a| && forall k :: 0 <= k < |r| ==> from <= r[k] < |s| && a[k] == s[r[k]]
    ensures Increasing(r)
  {
    if keep {
      forall k | 1 <= k < |r| ensures r[k] == rest[k - 1] && a[k] == b[k - 1] && from < r[k] {
      }
    }
  }

  /** The result of `filter` is an order-preserving subsequence of its input. */
  lemma FilterIsSubsequence<T>(s: seq<T>, p: T -> bool)
    ensures IsSubsequence(Filter(s, p), s)
  {
    var idx := KeptPositions(s, p, 0);
    assert s[0..] == s;
    assert Embeds(idx, Filter(s, p), s);
  }

  /** Filtering with a predicate that holds of every entry changes nothing. */
  lemma {:induction false} FilterAll<T>(s: seq<T>, p: T -> bool)
    requires forall i :: 0 <= i < |s| ==> p(s[i])
    ensures Filter(s, p) == s
  {
    if s != [] {
      FilterAll(s[1..], p);
    }
  }

  /** `filter` distributes over concatenation. */
  lemma {:induction false} FilterAppend<T>(a: seq<T>, b: seq<T>, p: T -> bool)
    ensures Filter(a + b, p) == Filter(a, p) + Filter(b, p)
  {
    if a == [] {
      assert a + b == b;
    } else {
      assert (a + b)[1..] == a[1..] + b;
      FilterAppend(a[1..], b, p);
    }
  }

  /** Filtering with a predicate that holds of no entry leaves nothing. */
  lemma FilterNone<T>(s: seq<T>, p: T -> bool)
    requires forall i :: 0 <= i < |s| ==> !p(s[i])
    ensures Filter(s, p) == []
  {
    var r := Filter(s, p);
    if r != [] {
      var i :| 0 <= i < |s| && s[i] == r[0];
    }
  }
}
