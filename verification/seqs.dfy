/** `Array.prototype.filter` and the order-preserving subsequence relation. */
module Seqs {

  /** `a` is obtained from `b` by deleting elements, keeping the order. */
  predicate Subsequence<T(==)>(a: seq<T>, b: seq<T>)
    decreases |b|
  {
    if |a| == 0 then true
    else if |b| == 0 then false
    else if a[0] == b[0] && Subsequence(a[1..], b[1..]) then true
    else Subsequence(a, b[1..])
  }

  /** The number of elements of `s` that satisfy `keep`. */
  function CountWhere<T>(s: seq<T>, keep: T -> bool): nat {
    if |s| == 0 then 0
    else (if keep(s[|s| - 1]) then 1 else 0) + CountWhere(s[..|s| - 1], keep)
  }

  lemma {:induction false} CountWhereAppend<T>(a: seq<T>, x: T, keep: T -> bool)
    ensures CountWhere([x] + a, keep) == (if keep(x) then 1 else 0) + CountWhere(a, keep)
    decreases |a|
  {
    if |a| > 0 {
      assert ([x] + a)[..|[x] + a| - 1] == [x] + a[..|a| - 1];
      CountWhereAppend(a[..|a| - 1], x, keep);
    }
  }

  /** `s.filter(keep)`: an order-preserving subsequence of `s` that holds
      every element satisfying `keep`, as often as `s` does, and nothing
      else. */
  function Filter<T(==,!new)>(s: seq<T>, keep: T -> bool): (r: seq<T>)
    ensures Subsequence(r, s)
    ensures forall x :: multiset(r)[x] == if keep(x) then multiset(s)[x] else 0
    ensures |r| == CountWhere(s, keep)
  {
    if |s| == 0 then []
    else
      var rest := Filter(s[1..], keep);
      assert s == [s[0]] + s[1..];
      CountWhereAppend(s[1..], s[0], keep);
      if keep(s[0]) then
        assert ([s[0]] + rest)[1..] == rest;
        [s[0]] + rest
      else rest
  }

  /** Filtering a non-empty sequence decides on the head, then filters
      the tail. */
  lemma FilterCons<T(!new)>(s: seq<T>, keep: T -> bool)
    requires |s| > 0
    ensures Filter(s, keep) == (if keep(s[0]) then [s[0]] else []) + Filter(s[1..], keep)
  {
  }

  /** Filtering a sequence whose every element is kept changes nothing. */
  lemma {:induction false} FilterKeepsAll<T(!new)>(s: seq<T>, keep: T -> bool)
    requires forall i :: 0 <= i < |s| ==> keep(s[i])
    ensures Filter(s, keep) == s
  {
    if |s| > 0 {
      FilterKeepsAll(s[1..], keep);
    }
  }
}
