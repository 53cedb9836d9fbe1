/** The catalog engine of the AI news page: facet lists, `filterAndSort`,
    `renderNews`' count and empty state, and `clearFilters`. */
module NewsCatalog {
  import opened Wrappers
  import opened Text
  import opened Catalog
  import Seqs
  import StableSort
  import Facets

  /** One article of the dataset; every field may be missing. A missing
      `tags` list is the empty list, as `article.tags || []` reads it. */
  datatype Article = Article(
    title: Option<string>,
    summary: Option<string>,
    source: Option<string>,
    category: Option<string>,
    date: Option<string>,
    url: Option<string>,
    importance: Option<string>,
    tags: seq<string>)

  /** The controls: search box, three selects and the sort order. */
  datatype NewsFilter = NewsFilter(query: string, category: string, source: string, importance: string, sort: string)

  /** The state `clearFilters` sets, which is also the state on load. */
  const Cleared: NewsFilter := NewsFilter("", "", "", "", "date")

  /** Title, summary, source, category, then each tag. */
  function SearchFields(a: Article): seq<Option<string>> {
    [a.title, a.summary, a.source, a.category] + seq(|a.tags|, i requires 0 <= i < |a.tags| => Some(a.tags[i]))
  }

  predicate Passes(a: Article, f: NewsFilter) {
    && MatchesQuery(SearchFields(a), f.query)
    && Selected(f.category, a.category)
    && Selected(f.source, a.source)
    && Selected(f.importance, a.importance)
  }

  function Keep(f: NewsFilter): Article -> bool {
    a => Passes(a, f)
  }

  /** `importancePriority[a.importance] ?? 3`. */
  function Rank(importance: Option<string>): nat {
    if importance == Some("high") then 0
    else if importance == Some("medium") then 1
    else if importance == Some("low") then 2
    else 3
  }

  /** The comparators, as "`compare(a, b) <= 0`". */
  predicate ByDate(a: Article, b: Article) {
    Below(OrEmpty(b.date), OrEmpty(a.date))
  }

  predicate ByImportance(a: Article, b: Article) {
    || Rank(a.importance) < Rank(b.importance)
    || (Rank(a.importance) == Rank(b.importance) && ByDate(a, b))
  }

  predicate BySource(a: Article, b: Article) {
    Below(OrEmpty(a.source), OrEmpty(b.source))
  }

  predicate ByCategory(a: Article, b: Article) {
    Below(OrEmpty(a.category), OrEmpty(b.category))
  }

  /** The `switch (sort)`: unknown keys fall to the date order. */
  function Order(sort: string): (Article, Article) -> bool {
    if sort == "importance" then ByImportance
    else if sort == "source" then BySource
    else if sort == "category" then ByCategory
    else ByDate
  }

  lemma OrderIsTotalPreorder(sort: string)
    ensures StableSort.TotalPreorder(Order(sort))
  {
    forall a: Article, b: Article
      ensures ByDate(a, b) || ByDate(b, a)
      ensures BySource(a, b) || BySource(b, a)
      ensures ByCategory(a, b) || ByCategory(b, a)
      ensures ByImportance(a, b) || ByImportance(b, a)
    {
      BelowTotal(OrEmpty(a.date), OrEmpty(b.date));
      BelowTotal(OrEmpty(a.source), OrEmpty(b.source));
      BelowTotal(OrEmpty(a.category), OrEmpty(b.category));
    }
    forall a: Article, b: Article, c: Article
      ensures ByDate(a, b) && ByDate(b, c) ==> ByDate(a, c)
      ensures BySource(a, b) && BySource(b, c) ==> BySource(a, c)
      ensures ByCategory(a, b) && ByCategory(b, c) ==> ByCategory(a, c)
      ensures ByImportance(a, b) && ByImportance(b, c) ==> ByImportance(a, c)
    {
      if ByDate(a, b) && ByDate(b, c) {
        BelowTrans(OrEmpty(c.date), OrEmpty(b.date), OrEmpty(a.date));
      }
      if BySource(a, b) && BySource(b, c) {
        BelowTrans(OrEmpty(a.source), OrEmpty(b.source), OrEmpty(c.source));
      }
      if ByCategory(a, b) && ByCategory(b, c) {
        BelowTrans(OrEmpty(a.category), OrEmpty(b.category), OrEmpty(c.category));
      }
    }
  }

  /** `articles.filter(...)`: the articles that pass every active control,
      in their original order, each as often as in the dataset. */
  function FilterArticles(articles: seq<Article>, f: NewsFilter): (r: seq<Article>)
    ensures Seqs.Subsequence(r, articles)
    ensures forall a :: multiset(r)[a] == if Passes(a, f) then multiset(articles)[a] else 0
    ensures |r| == Seqs.CountWhere(articles, Keep(f))
  {
    Seqs.Filter(articles, Keep(f))
  }

  /** `filterAndSort`: a permutation of the filtered articles, sorted by
      the chosen order, with articles that compare equal kept in their
      dataset order. */
  function FilterAndSort(articles: seq<Article>, f: NewsFilter): (r: seq<Article>)
    ensures forall a :: multiset(r)[a] == if Passes(a, f) then multiset(articles)[a] else 0
    ensures StableSort.Sorted(r, Order(f.sort))
    ensures forall x :: StableSort.Class(r, Order(f.sort), x) == StableSort.Class(FilterArticles(articles, f), Order(f.sort), x)
  {
    OrderIsTotalPreorder(f.sort);
    StableSort.Sort(FilterArticles(articles, f), Order(f.sort))
  }

  /** One `filterAndSort` pass with its render: the count is the number of
      articles that pass (never `total_count`), and when none pass the grid
      is cleared and the no-results view shown. */
  function Refresh(articles: seq<Article>, f: NewsFilter): (v: View<Article>)
    ensures v.count == Seqs.CountWhere(articles, Keep(f))
    ensures v.noResults <==> forall i :: 0 <= i < |articles| ==> !Passes(articles[i], f)
    ensures v.noResults ==> v.cards == []
    ensures !v.noResults ==> v.cards == FilterAndSort(articles, f)
  {
    var shown := FilterAndSort(articles, f);
    assert |shown| == |FilterArticles(articles, f)| by {
      assert |multiset(shown)| == |multiset(FilterArticles(articles, f))|;
    }
    assert |shown| == 0 <==> forall i :: 0 <= i < |articles| ==> !Passes(articles[i], f) by {
      if |shown| > 0 {
        assert multiset(shown)[shown[0]] > 0;
        var i :| 0 <= i < |articles| && articles[i] == shown[0];
        assert Passes(articles[i], f);
      }
      forall i | 0 <= i < |articles| && Passes(articles[i], f)
        ensures |shown| > 0
      {
        assert multiset(articles)[articles[i]] > 0;
        assert multiset(shown)[articles[i]] > 0;
      }
    }
    Render(shown)
  }

  /** Every shown article passes each active control: an active select
      keeps only exact matches, so an article without the field is never
      shown under it. */
  lemma ShownArticlesPass(articles: seq<Article>, f: NewsFilter, i: nat)
    requires i < |FilterAndSort(articles, f)|
    ensures var a := FilterAndSort(articles, f)[i];
      && a in articles
      && MatchesQuery(SearchFields(a), f.query)
      && (f.category != "" ==> a.category == Some(f.category))
      && (f.source != "" ==> a.source == Some(f.source))
      && (f.importance != "" ==> a.importance == Some(f.importance))
  {
    var r := FilterAndSort(articles, f);
    assert multiset(r)[r[i]] > 0;
  }

  /** After `clearFilters` every article passes, so the page shows the
      whole dataset (in date order). */
  lemma ClearedKeepsAll(articles: seq<Article>)
    ensures FilterArticles(articles, Cleared) == articles
    ensures multiset(FilterAndSort(articles, Cleared)) == multiset(articles)
  {
    forall i | 0 <= i < |articles|
      ensures Keep(Cleared)(articles[i])
    {
      assert Lower("") == "";
    }
    Seqs.FilterKeepsAll(articles, Keep(Cleared));
  }

  /** The sort orders in terms of the fields: date newest first (unknown
      keys too), importance by rank and then newest first, source and
      category ascending; missing values sort as `''`. */
  lemma SortOrderByKey(articles: seq<Article>, f: NewsFilter, i: nat, j: nat)
    requires i < j < |FilterAndSort(articles, f)|
    ensures var r := FilterAndSort(articles, f);
      if f.sort == "importance" then
        && Rank(r[i].importance) <= Rank(r[j].importance)
        && (Rank(r[i].importance) == Rank(r[j].importance) ==> Below(OrEmpty(r[j].date), OrEmpty(r[i].date)))
      else if f.sort == "source" then Below(OrEmpty(r[i].source), OrEmpty(r[j].source))
      else if f.sort == "category" then Below(OrEmpty(r[i].category), OrEmpty(r[j].category))
      else Below(OrEmpty(r[j].date), OrEmpty(r[i].date))
  {
    var r := FilterAndSort(articles, f);
    assert Order(f.sort)(r[i], r[j]);
  }

  /** Re-running `filterAndSort` on its own output changes nothing. */
  lemma FilterAndSortIdempotent(articles: seq<Article>, f: NewsFilter)
    ensures FilterAndSort(FilterAndSort(articles, f), f) == FilterAndSort(articles, f)
  {
    var r := FilterAndSort(articles, f);
    forall i | 0 <= i < |r|
      ensures Keep(f)(r[i])
    {
      assert multiset(r)[r[i]] > 0;
    }
    Seqs.FilterKeepsAll(r, Keep(f));
    OrderIsTotalPreorder(f.sort);
    StableSort.SortSortedIsIdentity(r, Order(f.sort));
  }

  /** The category facet: sorted, duplicate-free, and exactly the truthy
      categories of the articles. */
  function Categories(articles: seq<Article>): (r: seq<string>)
    ensures Facets.StrictlySorted(r)
    ensures forall c :: c in r <==> c != "" && exists a :: a in articles && a.category == Some(c)
  {
    Facets.FacetOf(articles, (a: Article) => a.category)
  }

  /** The source facet: sorted, duplicate-free, and exactly the truthy
      sources of the articles. */
  function Sources(articles: seq<Article>): (r: seq<string>)
    ensures Facets.StrictlySorted(r)
    ensures forall s :: s in r <==> s != "" && exists a :: a in articles && a.source == Some(s)
  {
    Facets.FacetOf(articles, (a: Article) => a.source)
  }

  /** The two articles of the worked example: "A" dated 2026-01-01 and
      "B" dated 2026-01-03, with no other fields. */
  const ExampleA: Article :=
    Article(Some("A"), None, None, None, Some("2026-01-01"), None, None, [])

  const ExampleB: Article :=
    Article(Some("B"), None, None, None, Some("2026-01-03"), None, None, [])

  /** "B" is strictly later than "A". */
  lemma ExampleDates()
    ensures ByDate(ExampleB, ExampleA) && !ByDate(ExampleA, ExampleB)
  {
    var da, db := OrEmpty(ExampleA.date), OrEmpty(ExampleB.date);
    assert da == "2026-01-01" && db == "2026-01-03";
    assert da[..9] == db[..9];
    BelowAtDifference(da, db, 9);
  }

  /** The date order shows the later article first. */
  lemma DateOrderExample()
    ensures FilterAndSort([ExampleA, ExampleB], Cleared) == [ExampleB, ExampleA]
  {
    var a, b := ExampleA, ExampleB;
    ExampleDates();
    OrderIsTotalPreorder("date");
    ClearedKeepsAll([a, b]);
    StableSort.SortSwapsTwo(a, b, Order("date"));
  }

  /** Only the first of four fields present. */
  lemma PresentExample(fields: seq<Option<string>>, v: string)
    requires fields == [Some(v), None, None, None] && v != ""
    ensures Present(fields) == [v]
  {
    var f1 := fields[1..];
    var f2 := f1[1..];
    var f3 := f2[1..];
    assert f3 == [None] && f3[1..] == [];
    assert Present(f3) == [];
    assert Present(f2) == [];
    assert Present(f1) == [];
  }

  /** The query "a" passes "A" and rejects "B". */
  lemma QueryPassesExample()
    ensures Passes(ExampleA, NewsFilter("a", "", "", "", "date"))
    ensures !Passes(ExampleB, NewsFilter("a", "", "", "", "date"))
  {
    QueryExampleFields(ExampleA, "A", "a");
    QueryExampleFields(ExampleB, "B", "b");
    assert Lower("a") == "a";
    assert MatchesQuery(SearchFields(ExampleA), "a") by {
      assert OccursAt("a", "a", 0);
    }
    assert !MatchesQuery(SearchFields(ExampleB), "a") by {
      assert !OccursAt("b", "a", 0) by { assert "b"[0] != "a"[0]; }
      assert !OccursAt("b", "a", 1);
    }
  }

  /** The query "a" keeps only "A", whatever the case. */
  lemma QueryExample()
    ensures FilterArticles([ExampleA, ExampleB], NewsFilter("a", "", "", "", "date")) == [ExampleA]
  {
    var a, b := ExampleA, ExampleB;
    var keep := Keep(NewsFilter("a", "", "", "", "date"));
    QueryPassesExample();
    FilterOfTwo(a, b, keep);
  }

  /** Filtering two elements of which only the first is kept. */
  lemma FilterOfTwo(a: Article, b: Article, keep: Article -> bool)
    requires keep(a) && !keep(b)
    ensures Seqs.Filter([a, b], keep) == [a]
  {
    assert [a, b][1..] == [b] && [b][1..] == [];
    Seqs.FilterCons([b], keep);
    Seqs.FilterCons([a, b], keep);
  }

  /** The search text of an article whose only searchable field is a
      one-letter title. */
  lemma QueryExampleFields(x: Article, t: string, lower: string)
    requires x.title == Some(t) && x.summary == None && x.source == None && x.category == None && x.tags == []
    requires |t| == 1 && |lower| == 1 && lower[0] == LowerChar(t[0])
    ensures SearchText(SearchFields(x)) == lower
  {
    assert SearchFields(x) == [Some(t), None, None, None];
    PresentExample(SearchFields(x), t);
    assert Join([t], " ") == t;
  }
}
