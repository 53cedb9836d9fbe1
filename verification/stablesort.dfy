/** `Array.prototype.sort(compare)` with a consistent comparator. Since
    ES2019 the sort is stable, and a stable sort of a total preorder has one
    possible result; `Sort` computes it by insertion. The comparator is
    given as `le(a, b)`, meaning `compare(a, b) <= 0`. */
module StableSort {

  ghost predicate Total<T(!new)>(le: (T, T) -> bool) {
    forall a, b :: le(a, b) || le(b, a)
  }

  ghost predicate Transitive<T(!new)>(le: (T, T) -> bool) {
    forall a, b, c :: le(a, b) && le(b, c) ==> le(a, c)
  }

  ghost predicate TotalPreorder<T(!new)>(le: (T, T) -> bool) {
    Total(le) && Transitive(le)
  }

  /** `a` and `b` compare equal. */
  predicate Tied<T>(le: (T, T) -> bool, a: T, b: T) {
    le(a, b) && le(b, a)
  }

  ghost predicate Sorted<T>(s: seq<T>, le: (T, T) -> bool) {
    forall i, j :: 0 <= i < j < |s| ==> le(s[i], s[j])
  }

  /** The elements of `s` that compare equal to `x`, in their order in `s`.
      A sort is stable when it leaves every such class as it was. */
  function Class<T>(s: seq<T>, le: (T, T) -> bool, x: T): seq<T> {
    if |s| == 0 then []
    else (if Tied(le, x, s[0]) then [s[0]] else []) + Class(s[1..], le, x)
  }

  /** Places `x` before the first element it does not exceed. */
  function Insert<T>(x: T, s: seq<T>, le: (T, T) -> bool): seq<T> {
    if |s| == 0 then [x]
    else if le(x, s[0]) then [x] + s
    else [s[0]] + Insert(x, s[1..], le)
  }

  lemma {:induction false} InsertMultiset<T>(x: T, s: seq<T>, le: (T, T) -> bool)
    ensures multiset(Insert(x, s, le)) == multiset([x] + s)
  {
    if |s| > 0 && !le(x, s[0]) {
      InsertMultiset(x, s[1..], le);
      assert s == [s[0]] + s[1..];
    }
  }

  lemma {:induction false} InsertSorted<T(!new)>(x: T, s: seq<T>, le: (T, T) -> bool)
    requires TotalPreorder(le) && Sorted(s, le)
    ensures Sorted(Insert(x, s, le), le)
  {
    if |s| > 0 && !le(x, s[0]) {
      var rest := Insert(x, s[1..], le);
      InsertSorted(x, s[1..], le);
      InsertMultiset(x, s[1..], le);
      forall i | 0 <= i < |rest|
        ensures le(s[0], rest[i])
      {
        assert rest[i] in multiset([x] + s[1..]);
      }
    }
  }

  lemma {:induction false} InsertClass<T(!new)>(x: T, s: seq<T>, le: (T, T) -> bool, y: T)
    requires TotalPreorder(le) && Sorted(s, le)
    ensures Class(Insert(x, s, le), le, y) == (if Tied(le, y, x) then [x] else []) + Class(s, le, y)
  {
    if |s| > 0 && !le(x, s[0]) {
      InsertClass(x, s[1..], le, y);
      assert !(Tied(le, y, x) && Tied(le, y, s[0]));
    }
  }

  /** The stable sort: a sorted permutation of `s` that keeps every class
      of equal elements in input order. */
  function Sort<T(!new)>(s: seq<T>, le: (T, T) -> bool): (r: seq<T>)
    requires TotalPreorder(le)
    ensures multiset(r) == multiset(s)
    ensures Sorted(r, le)
    ensures forall x :: Class(r, le, x) == Class(s, le, x)
  {
    if |s| == 0 then []
    else
      var rest := Sort(s[1..], le);
      InsertMultiset(s[0], rest, le);
      InsertSorted(s[0], rest, le);
      assert s == [s[0]] + s[1..];
      assert forall x :: Class(Insert(s[0], rest, le), le, x) == Class(s, le, x) by {
        forall x {
          InsertClass(s[0], rest, le, x);
        }
      }
      Insert(s[0], rest, le)
  }

  /** Two elements in the wrong order are swapped. */
  lemma SortSwapsTwo<T(!new)>(x: T, y: T, le: (T, T) -> bool)
    requires TotalPreorder(le) && !le(x, y)
    ensures Sort([x, y], le) == [y, x]
  {
    assert [x, y][1..] == [y];
    assert [y][1..] == [];
    assert Sort([y], le) == [y];
    assert Insert(x, [y], le) == [y] + Insert(x, [], le);
  }

  /** Sorting a sequence that is already sorted changes nothing. */
  lemma {:induction false} SortSortedIsIdentity<T(!new)>(s: seq<T>, le: (T, T) -> bool)
    requires TotalPreorder(le) && Sorted(s, le)
    ensures Sort(s, le) == s
  {
    if |s| > 0 {
      SortSortedIsIdentity(s[1..], le);
      assert s == [s[0]] + s[1..];
    }
  }

  /** Stability pins the result down: two sorted sequences with the same
      classes of equal elements are the same sequence. So `Sort` agrees with
      every stable sort, whatever algorithm the browser uses. */
  lemma {:induction false} StableSortUnique<T(!new)>(r1: seq<T>, r2: seq<T>, le: (T, T) -> bool)
    requires TotalPreorder(le) && Sorted(r1, le) && Sorted(r2, le)
    requires forall x :: Class(r1, le, x) == Class(r2, le, x)
    ensures r1 == r2
    decreases |r1| + |r2|
  {
    assert |r1| > 0 ==> Class(r1, le, r1[0]) != [];
    assert |r2| > 0 ==> Class(r2, le, r2[0]) != [];
    if |r1| > 0 && |r2| > 0 {
      var a, b := r1[0], r2[0];
      ClassHead(r1, le, b);
      ClassHead(r2, le, a);
      assert Tied(le, a, b);
      assert Class(r1, le, a)[0] == a;
      assert Class(r2, le, a)[0] == b;
      assert a == b;
      forall x
        ensures Class(r1[1..], le, x) == Class(r2[1..], le, x)
      {
        var head := if Tied(le, x, a) then [a] else [];
        assert Class(r1, le, x) == head + Class(r1[1..], le, x);
        assert Class(r2, le, x) == head + Class(r2[1..], le, x);
        assert (head + Class(r1[1..], le, x))[|head|..] == Class(r1[1..], le, x);
        assert (head + Class(r2[1..], le, x))[|head|..] == Class(r2[1..], le, x);
      }
      StableSortUnique(r1[1..], r2[1..], le);
      assert r1 == [a] + r1[1..] && r2 == [b] + r2[1..];
    }
  }

  /** In a sorted sequence the head is not above any element whose class
      is non-empty. */
  lemma {:induction false} ClassHead<T(!new)>(r: seq<T>, le: (T, T) -> bool, x: T)
    requires TotalPreorder(le) && Sorted(r, le) && |r| > 0
    requires Class(r, le, x) != []
    ensures le(r[0], x)
    decreases |r|
  {
    if !Tied(le, x, r[0]) {
      ClassHead(r[1..], le, x);
      if |r| > 1 {
        assert le(r[0], r[1]);
      }
    }
  }
}
