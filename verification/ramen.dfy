/** The catalog engine of the Shibuya ramen page: facet lists,
    `filterAndSort`, `renderShops`' count and empty state, and
    `clearFilters`. */
module RamenCatalog {
  import opened Wrappers
  import opened Text
  import opened Catalog
  import Seqs
  import StableSort
  import Facets

  /** One shop of the dataset; every field may be missing. A missing
      `specialties` list is the empty list, as `shop.specialties || []`
      reads it. A missing or zero rating is 0, as `shop.rating || 0` reads
      it. */
  datatype Shop = Shop(
    name: Option<string>,
    address: Option<string>,
    area: Option<string>,
    genre: Option<string>,
    description: Option<string>,
    rating: Option<real>,
    priceRange: Option<string>,
    hours: Option<string>,
    closedDays: Option<string>,
    url: Option<string>,
    specialties: seq<string>)

  /** The controls: search box, two selects and the sort order. */
  datatype RamenFilter = RamenFilter(query: string, area: string, genre: string, sort: string)

  /** The state `clearFilters` sets, which is also the state on load. */
  const Cleared: RamenFilter := RamenFilter("", "", "", "name")

  /** Name, address, area, genre, description, then each specialty. */
  function SearchFields(s: Shop): seq<Option<string>> {
    [s.name, s.address, s.area, s.genre, s.description]
      + seq(|s.specialties|, i requires 0 <= i < |s.specialties| => Some(s.specialties[i]))
  }

  predicate Passes(s: Shop, f: RamenFilter) {
    && MatchesQuery(SearchFields(s), f.query)
    && Selected(f.area, s.area)
    && Selected(f.genre, s.genre)
  }

  function Keep(f: RamenFilter): Shop -> bool {
    s => Passes(s, f)
  }

  /** `shop.rating || 0`. */
  function Rating(s: Shop): real {
    s.rating.GetOr(0.0)
  }

  /** The comparators, as "`compare(a, b) <= 0`". */
  predicate ByName(a: Shop, b: Shop) {
    Below(OrEmpty(a.name), OrEmpty(b.name))
  }

  predicate ByArea(a: Shop, b: Shop) {
    Below(OrEmpty(a.area), OrEmpty(b.area))
  }

  /** `(b.rating || 0) - (a.rating || 0) <= 0`. */
  predicate ByRating(a: Shop, b: Shop) {
    Rating(b) - Rating(a) <= 0.0
  }

  /** The `switch (sort)`: unknown keys fall to the name order. */
  function Order(sort: string): (Shop, Shop) -> bool {
    if sort == "rating" then ByRating
    else if sort == "area" then ByArea
    else ByName
  }

  lemma OrderIsTotalPreorder(sort: string)
    ensures StableSort.TotalPreorder(Order(sort))
  {
    forall a: Shop, b: Shop
      ensures ByName(a, b) || ByName(b, a)
      ensures ByArea(a, b) || ByArea(b, a)
    {
      BelowTotal(OrEmpty(a.name), OrEmpty(b.name));
      BelowTotal(OrEmpty(a.area), OrEmpty(b.area));
    }
    forall a: Shop, b: Shop, c: Shop
      ensures ByName(a, b) && ByName(b, c) ==> ByName(a, c)
      ensures ByArea(a, b) && ByArea(b, c) ==> ByArea(a, c)
    {
      if ByName(a, b) && ByName(b, c) {
        BelowTrans(OrEmpty(a.name), OrEmpty(b.name), OrEmpty(c.name));
      }
      if ByArea(a, b) && ByArea(b, c) {
        BelowTrans(OrEmpty(a.area), OrEmpty(b.area), OrEmpty(c.area));
      }
    }
  }

  /** `shops.filter(...)`: the shops that pass every active control, in
      their original order, each as often as in the dataset. */
  function FilterShops(shops: seq<Shop>, f: RamenFilter): (r: seq<Shop>)
    ensures Seqs.Subsequence(r, shops)
    ensures forall s :: multiset(r)[s] == if Passes(s, f) then multiset(shops)[s] else 0
    ensures |r| == Seqs.CountWhere(shops, Keep(f))
  {
    Seqs.Filter(shops, Keep(f))
  }

  /** `filterAndSort`: a permutation of the filtered shops, sorted by the
      chosen order, with shops that compare equal kept in their dataset
      order. */
  function FilterAndSort(shops: seq<Shop>, f: RamenFilter): (r: seq<Shop>)
    ensures forall s :: multiset(r)[s] == if Passes(s, f) then multiset(shops)[s] else 0
    ensures StableSort.Sorted(r, Order(f.sort))
    ensures forall x :: StableSort.Class(r, Order(f.sort), x) == StableSort.Class(FilterShops(shops, f), Order(f.sort), x)
  {
    OrderIsTotalPreorder(f.sort);
    StableSort.Sort(FilterShops(shops, f), Order(f.sort))
  }

  /** One `filterAndSort` pass with its render: the count is the number of
      shops that pass, and when none pass the grid is cleared and the
      no-results view shown. */
  function Refresh(shops: seq<Shop>, f: RamenFilter): (v: View<Shop>)
    ensures v.count == Seqs.CountWhere(shops, Keep(f))
    ensures v.noResults <==> forall i :: 0 <= i < |shops| ==> !Passes(shops[i], f)
    ensures v.noResults ==> v.cards == []
    ensures !v.noResults ==> v.cards == FilterAndSort(shops, f)
  {
    var shown := FilterAndSort(shops, f);
    assert |shown| == |FilterShops(shops, f)| by {
      assert |multiset(shown)| == |multiset(FilterShops(shops, f))|;
    }
    assert |shown| == 0 <==> forall i :: 0 <= i < |shops| ==> !Passes(shops[i], f) by {
      if |shown| > 0 {
        assert multiset(shown)[shown[0]] > 0;
        var i :| 0 <= i < |shops| && shops[i] == shown[0];
        assert Passes(shops[i], f);
      }
      forall i | 0 <= i < |shops| && Passes(shops[i], f)
        ensures |shown| > 0
      {
        assert multiset(shops)[shops[i]] > 0;
        assert multiset(shown)[shops[i]] > 0;
      }
    }
    Render(shown)
  }

  /** Every shown shop passes each active control: an active select keeps
      only exact matches, so a shop without the field is never shown under
      it. */
  lemma ShownShopsPass(shops: seq<Shop>, f: RamenFilter, i: nat)
    requires i < |FilterAndSort(shops, f)|
    ensures var s := FilterAndSort(shops, f)[i];
      && s in shops
      && MatchesQuery(SearchFields(s), f.query)
      && (f.area != "" ==> s.area == Some(f.area))
      && (f.genre != "" ==> s.genre == Some(f.genre))
  {
    var r := FilterAndSort(shops, f);
    assert multiset(r)[r[i]] > 0;
  }

  /** After `clearFilters` every shop passes, so the page shows the whole
      dataset (in name order). */
  lemma ClearedKeepsAll(shops: seq<Shop>)
    ensures FilterShops(shops, Cleared) == shops
    ensures multiset(FilterAndSort(shops, Cleared)) == multiset(shops)
  {
    forall i | 0 <= i < |shops|
      ensures Keep(Cleared)(shops[i])
    {
      assert Lower("") == "";
    }
    Seqs.FilterKeepsAll(shops, Keep(Cleared));
  }

  /** The sort orders in terms of the fields: rating highest first, area
      ascending, name ascending (unknown keys too); a missing name or area
      sorts as `''`, a missing rating as 0. */
  lemma SortOrderByKey(shops: seq<Shop>, f: RamenFilter, i: nat, j: nat)
    requires i < j < |FilterAndSort(shops, f)|
    ensures var r := FilterAndSort(shops, f);
      if f.sort == "rating" then Rating(r[j]) <= Rating(r[i])
      else if f.sort == "area" then Below(OrEmpty(r[i].area), OrEmpty(r[j].area))
      else Below(OrEmpty(r[i].name), OrEmpty(r[j].name))
  {
    var r := FilterAndSort(shops, f);
    assert Order(f.sort)(r[i], r[j]);
  }

  /** Re-running `filterAndSort` on its own output changes nothing. */
  lemma FilterAndSortIdempotent(shops: seq<Shop>, f: RamenFilter)
    ensures FilterAndSort(FilterAndSort(shops, f), f) == FilterAndSort(shops, f)
  {
    var r := FilterAndSort(shops, f);
    forall i | 0 <= i < |r|
      ensures Keep(f)(r[i])
    {
      assert multiset(r)[r[i]] > 0;
    }
    Seqs.FilterKeepsAll(r, Keep(f));
    OrderIsTotalPreorder(f.sort);
    StableSort.SortSortedIsIdentity(r, Order(f.sort));
  }

  /** The area facet: sorted, duplicate-free, and exactly the truthy areas
      of the shops. */
  function Areas(shops: seq<Shop>): (r: seq<string>)
    ensures Facets.StrictlySorted(r)
    ensures forall v :: v in r <==> v != "" && exists s :: s in shops && s.area == Some(v)
  {
    Facets.FacetOf(shops, (s: Shop) => s.area)
  }

  /** The genre facet: sorted, duplicate-free, and exactly the truthy
      genres of the shops. */
  function Genres(shops: seq<Shop>): (r: seq<string>)
    ensures Facets.StrictlySorted(r)
    ensures forall v :: v in r <==> v != "" && exists s :: s in shops && s.genre == Some(v)
  {
    Facets.FacetOf(shops, (s: Shop) => s.genre)
  }
}
