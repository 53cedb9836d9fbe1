/** The facet lists of `generate_html`:
    `sorted(set(x.get(field) for x in items if x.get(field)))`. */
module Facets {
  import opened Wrappers
  import opened Text

  /** Strictly increasing in Python's string order, hence duplicate-free. */
  ghost predicate StrictlySorted(s: seq<string>) {
    forall i, j :: 0 <= i < j < |s| ==> Before(s[i], s[j])
  }

  lemma BeforeTrans(a: string, b: string, c: string)
    requires Before(a, b) && Below(b, c)
    ensures Before(a, c)
  {
    BelowTrans(a, b, c);
    if a == c {
      BelowAntisym(a, b);
    }
  }

  function InsertDistinct(x: string, s: seq<string>): (r: seq<string>)
    requires StrictlySorted(s)
    ensures StrictlySorted(r)
    ensures forall v :: v in r <==> v == x || v in s
  {
    if |s| == 0 then [x]
    else if x == s[0] then s
    else if Below(x, s[0]) then
      assert forall j :: 0 < j < |s| ==> Before(x, s[j]) by {
        forall j | 0 < j < |s| ensures Before(x, s[j]) {
          BeforeTrans(x, s[0], s[j]);
        }
      }
      [x] + s
    else
      BelowTotal(x, s[0]);
      var rest := InsertDistinct(x, s[1..]);
      assert s == [s[0]] + s[1..];
      assert forall k :: 0 <= k < |rest| ==> Before(s[0], rest[k]) by {
        forall k | 0 <= k < |rest| ensures Before(s[0], rest[k]) {
          assert rest[k] in rest;
        }
      }
      [s[0]] + rest
  }

  /** The distinct truthy values, sorted. */
  function Facet(values: seq<Option<string>>): (r: seq<string>)
    ensures StrictlySorted(r)
    ensures forall v :: v in r <==> v != "" && Some(v) in values
  {
    if |values| == 0 then []
    else
      var init := values[..|values| - 1];
      var last := values[|values| - 1];
      var rest := Facet(init);
      assert values == init + [last];
      if Truthy(last) then InsertDistinct(last.value, rest) else rest
  }

  /** The facet of one field of a list of records: the distinct truthy
      values of `field` over `items`, sorted. */
  function FacetOf<T>(items: seq<T>, field: T -> Option<string>): (r: seq<string>)
    ensures StrictlySorted(r)
    ensures forall v :: v in r <==> v != "" && exists x :: x in items && field(x) == Some(v)
  {
    var values := seq(|items|, i requires 0 <= i < |items| => field(items[i]));
    assert forall v :: Some(v) in values <==> exists x :: x in items && field(x) == Some(v) by {
      forall v ensures Some(v) in values ==> exists x :: x in items && field(x) == Some(v) {
        if Some(v) in values {
          var i :| 0 <= i < |values| && values[i] == Some(v);
          assert items[i] in items;
        }
      }
      forall v ensures (exists x :: x in items && field(x) == Some(v)) ==> Some(v) in values {
        if exists x :: x in items && field(x) == Some(v) {
          var x :| x in items && field(x) == Some(v);
          var i :| 0 <= i < |items| && items[i] == x;
          assert values[i] == Some(v);
        }
      }
    }
    Facet(values)
  }

  /** A strictly sorted list is determined by its elements: the facet list
      is the only sorted, duplicate-free listing of the values. */
  lemma {:induction false} StrictlySortedUnique(a: seq<string>, b: seq<string>)
    requires StrictlySorted(a) && StrictlySorted(b)
    requires forall v :: v in a <==> v in b
    ensures a == b
    decreases |a|
  {
    assert |a| > 0 ==> a[0] in b;
    assert |b| > 0 ==> b[0] in a;
    if |a| > 0 && |b| > 0 {
      var i :| 0 <= i < |b| && b[i] == a[0];
      var j :| 0 <= j < |a| && a[j] == b[0];
      assert i > 0 ==> Before(b[0], a[0]);
      assert j > 0 ==> Before(a[0], b[0]);
      if i > 0 && j > 0 {
        BelowAntisym(a[0], b[0]);
      }
      assert a[0] == b[0];
      forall v
        ensures v in a[1..] <==> v in b[1..]
      {
        assert v in a[1..] ==> v in a && v != a[0];
        assert v in b[1..] ==> v in b && v != b[0];
        assert v in a && v != a[0] ==> v in a[1..];
        assert v in b && v != b[0] ==> v in b[1..];
      }
      StrictlySortedUnique(a[1..], b[1..]);
      assert a == [a[0]] + a[1..] && b == [b[0]] + b[1..];
    }
  }
}
