/** The parts of `filterAndSort` and of the render functions that the news
    page and the ramen page share: the text query over the space-joined
    truthy search fields, the exact-equality selects, and the count and
    empty-state outcome of a render. */
module Catalog {
  import opened Wrappers
  import opened Text
  import Seqs

  /** `[...].filter(Boolean)` on optional strings: the truthy values, in
      order. Element by element, the result is `Seqs.Filter` with
      truthiness as the test, unwrapped. */
  function Present(fields: seq<Option<string>>): (r: seq<string>)
    ensures |r| == |Seqs.Filter(fields, Truthy)|
    ensures forall k :: 0 <= k < |r| ==> Some(r[k]) == Seqs.Filter(fields, Truthy)[k]
    ensures forall i :: 0 <= i < |r| ==> r[i] != ""
    ensures forall i :: 0 <= i < |fields| && Truthy(fields[i]) ==> fields[i].value in r
  {
    if |fields| == 0 then []
    else
      var rest := Present(fields[1..]);
      var r := if Truthy(fields[0]) then [fields[0].value] + rest else rest;
      UnwrapCons(fields, rest, r);
      TruthyFieldsListed(fields, r);
      r
  }

  /** The step of `Present`: unwrapping the head, if it is truthy, in
      front of the unwrapped filtered tail unwraps the filtered whole. */
  lemma UnwrapCons(fields: seq<Option<string>>, rest: seq<string>, r: seq<string>)
    requires |fields| > 0
    requires |rest| == |Seqs.Filter(fields[1..], Truthy)|
    requires forall k :: 0 <= k < |rest| ==> Some(rest[k]) == Seqs.Filter(fields[1..], Truthy)[k]
    requires forall i :: 0 <= i < |rest| ==> rest[i] != ""
    requires r == if Truthy(fields[0]) then [fields[0].value] + rest else rest
    ensures |r| == |Seqs.Filter(fields, Truthy)|
    ensures forall k :: 0 <= k < |r| ==> Some(r[k]) == Seqs.Filter(fields, Truthy)[k]
    ensures forall i :: 0 <= i < |r| ==> r[i] != ""
  {
    var f, tail := Seqs.Filter(fields, Truthy), Seqs.Filter(fields[1..], Truthy);
    Seqs.FilterCons(fields, Truthy);
    if Truthy(fields[0]) {
      assert f == [fields[0]] + tail;
      forall k | 0 <= k < |r|
        ensures Some(r[k]) == f[k] && r[k] != ""
      {
        if k > 0 {
          assert r[k] == rest[k - 1] && f[k] == tail[k - 1];
        }
      }
    } else {
      assert f == tail;
    }
  }

  /** A list that unwraps the filtered fields element by element holds
      every truthy field's value. */
  lemma TruthyFieldsListed(fields: seq<Option<string>>, r: seq<string>)
    requires |r| == |Seqs.Filter(fields, Truthy)|
    requires forall k :: 0 <= k < |r| ==> Some(r[k]) == Seqs.Filter(fields, Truthy)[k]
    ensures forall i :: 0 <= i < |fields| && Truthy(fields[i]) ==> fields[i].value in r
  {
    var f := Seqs.Filter(fields, Truthy);
    forall i | 0 <= i < |fields| && Truthy(fields[i])
      ensures fields[i].value in r
    {
      assert fields[i] in multiset(fields);
      assert fields[i] in multiset(f);
      var k :| 0 <= k < |f| && f[k] == fields[i];
      assert Some(r[k]) == fields[i];
    }
  }

  /** `[...].filter(Boolean).join(' ').toLowerCase()`. */
  function SearchText(fields: seq<Option<string>>): string {
    Lower(Join(Present(fields), " "))
  }

  /** The text-query test: an empty (lower-cased) query matches everything,
      any other must occur in the search text. */
  predicate MatchesQuery(fields: seq<Option<string>>, query: string) {
    var q := Lower(query);
    |q| == 0 || Contains(SearchText(fields), q)
  }

  /** A select: `''` means any value, otherwise the field must be exactly
      the selected value, so a missing field never matches. */
  predicate Selected(selection: string, field: Option<string>) {
    selection == "" || field == Some(selection)
  }

  /** A query found inside any one truthy field is found in the search
      text, whatever the other fields hold. */
  lemma QueryHitInField(fields: seq<Option<string>>, query: string, i: nat)
    requires i < |fields| && Truthy(fields[i])
    requires Contains(Lower(fields[i].value), Lower(query))
    ensures MatchesQuery(fields, query)
  {
    var present := Present(fields);
    var j :| 0 <= j < |present| && present[j] == fields[i].value;
    JoinContains(present, " ", j);
    LowerContains(Join(present, " "), fields[i].value);
    ContainsTrans(SearchText(fields), Lower(fields[i].value), Lower(query));
  }

  /** `p l` is a three-character needle with a space in the middle, so it
      occurs in no string without a space. */
  lemma NoSpaceNoHit(w: string)
    requires forall i :: 0 <= i < |w| ==> w[i] != ' '
    ensures !Contains(w, "p l")
  {
    forall k | 0 <= k <= |w|
      ensures !OccursAt(w, "p l", k)
    {
      if k + 3 <= |w| {
        var part := w[k..k + 3];
        assert part[1] == w[k + 1] != ' ';
        assert "p l"[1] == ' ';
        assert part != "p l";
      }
    }
  }

  /** Two truthy fields are both kept, in order. */
  lemma PresentOfTwo(x: string, y: string)
    requires x != "" && y != ""
    ensures Present([Some(x), Some(y)]) == [x, y]
  {
    var fields := [Some(x), Some(y)];
    assert fields[1..] == [Some(y)] && fields[1..][1..] == [];
    assert Present(fields[1..][1..]) == [];
    assert Present(fields[1..]) == [y];
  }

  /** The search text of the fields `deep` and `learning`. */
  lemma DeepLearningText()
    ensures SearchText([Some("deep"), Some("learning")]) == "deep learning"
  {
    PresentOfTwo("deep", "learning");
    assert Join(["deep", "learning"], " ") == "deep learning";
    assert Lower("deep learning") == "deep learning";
  }

  /** A match may span the joining space: `p l` is in no field of
      `deep`/`learning`, yet the search text `deep learning` holds it. */
  lemma MatchSpansJoin()
    ensures MatchesQuery([Some("deep"), Some("learning")], "p l")
    ensures !Contains("deep", "p l") && !Contains("learning", "p l")
  {
    DeepLearningText();
    assert Lower("p l") == "p l";
    assert OccursAt("deep learning", "p l", 3);
    NoSpaceNoHit("deep");
    NoSpaceNoHit("learning");
  }

  /** What a render shows: the count text, the cards, and whether the
      no-results view replaces an empty grid. */
  datatype View<T> = View(count: nat, cards: seq<T>, noResults: bool)

  /** `renderNews` / `renderShops` without the card markup. */
  function Render<T>(shown: seq<T>): View<T> {
    if |shown| == 0 then View(0, [], true) else View(|shown|, shown, false)
  }
}
