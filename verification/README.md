# Dafny model of the news and ramen catalog cores

The repository holds two near-identical agents: an AI news collector and a
Shibuya ramen collector. Each one has two pure components that this project
models and proves properties of:

- **The extractor** (`extract_json_from_text`). It turns the agent's
  accumulated text output into a JSON document. It tries three stages in
  order:
  1. The last ```` ```json ```` fenced block.
  2. The greedy brace span around the quoted collection key (`"articles"` or
     `"shops"`), retried last to first.
  3. A fixed error template.
- **The catalog engine**. This is the JavaScript embedded in the generated
  page (`filterAndSort`, the count and empty state of `renderNews` /
  `renderShops`, `escapeHtml`, `clearFilters`), together with the Python facet
  derivation and `generate_options`. Filtering is conjunctive:
  - A case-insensitive substring test over the space-joined truthy search
    fields.
  - Exact-equality selects, where `''` means "any".
  - A stable sort by the chosen key.

Modules:

| file | module | what it holds |
|---|---|---|
| wrappers.dfy | `Wrappers` | `Option` |
| text.dfy | `Text` | Python/JS truthiness, substring search, `toLowerCase`, `join`, string order |
| fenced.dfy | `Fenced` | ```` ```json\s*([\s\S]*?)\s*``` ```` under `re.findall`: scanner, meaning, uniqueness, group shape |
| brace.dfy | `Brace` | `\{[\s\S]*"key"[\s\S]*\}` under `re.findall`: scanner and leftmost-longest proof |
| extractor.dfy | `Extractor` | JSON values, dict lookup, the fallback chain, the error template |
| seqs.dfy | `Seqs` | order-preserving filter |
| stablesort.dfy | `StableSort` | stable insertion sort for a total preorder, and why it is the only stable result |
| facets.dfy | `Facets` | `sorted(set(...))` over truthy values |
| catalog.dfy | `Catalog` | query and select predicates, and the render outcome, shared by both pages |
| escape.dfy | `Escape` | `escapeHtml` and its inverse |
| options.dfy | `Options` | `generate_options` and a reader for its output |
| news.dfy | `NewsCatalog` | the news page instance |
| ramen.dfy | `RamenCatalog` | the ramen page instance |

Abstractions:

- `json.loads` is a parameter `parse: string -> Option<Json>`. `None` stands
  for `JSONDecodeError`.
- `datetime.now()` is a parameter `now`.
- `localeCompare` is code-point lexicographic order (`Text.Below`).
- `toLowerCase` is a per-character map (`Text.LowerChar`, ASCII letters).
- Ratings are `real`.
- Every record field is an `Option`, because JS `null`, `undefined` and `''`
  are all falsy and `x || ''` reads them alike.

Each extractor and catalog function here is a pure function of its inputs.
That makes `ExtractNews` / `ExtractRamen` deterministic in the text, the parser
and `now`.

Two behaviours of the code that are easy to misread:

- Only the LAST fenced block is parsed (`matches[-1]`). If it fails, the
  extractor goes straight to the brace stage. It does not walk back to an
  earlier block.
- The default filter state does not keep the input order. The page starts, and
  `clearFilters` returns, with sort `'date'` (news, latest first) or `'name'`
  (ramen). So the cleared state shows every record, but in that order
  (`ClearedKeepsAll`, `DateOrderExample`).

## Model

| member | source | states |
|---|---|---|
| Fenced.Scan | ai_news_agent/news_collector.py:157-158 | The fences found satisfy the `findall` meaning. Each match starts at the first ```` ```json ```` at or after the resume point. It is a valid fence (whitespace run, lazy body, whitespace, first closing ```` ``` ````). The search resumes after its closing fence. When no match is left, no opening fence after the resume point has a closing fence after it |
| Fenced.FindAllUnique | ai_news_agent/news_collector.py:157-158 | The `findall` meaning determines the list of matches uniquely, so any scanner meeting it returns what `re.findall` returns |
| Fenced.FindAllOrdered | ai_news_agent/news_collector.py:157-158 | Matches are valid, come left to right, and never overlap: each ends (closing fence included) before the next opens |
| Fenced.FenceDeterminedByOpen | ai_news_agent/news_collector.py:157 | Once the opening fence is fixed, the lazy group and the greedy whitespace determine the whole match |
| Fenced.CaptureIsStripped | ai_news_agent/news_collector.py:157 | The group is the text between the tag and the next closing fence, with surrounding whitespace stripped |
| Fenced.CaptureHasNoClose | ai_news_agent/news_collector.py:157 | A group never contains a closing fence |
| Fenced.Groups | ai_news_agent/news_collector.py:158 | One group per match, each the stripped, fence-free text of its match |
| Fenced.Captures | shibuya_ramen_agent/ramen_collector.py:150-151 | `re.findall` of the fenced pattern over the whole text: one stripped group per non-overlapping match, in order |
| Brace.BraceSpan | ai_news_agent/news_collector.py:168-169 | The scanner's span matches the brace pattern: it starts with `{`, ends with `}`, and has the quoted key strictly between. Every match of the pattern lies inside it, so it is the leftmost-longest match. None means the pattern matches nowhere |
| Brace.Candidates | shibuya_ramen_agent/ramen_collector.py:161-162 | `findall` of the greedy brace pattern yields at most one candidate, and yields one exactly when the pattern matches somewhere. That candidate is the text of the match that covers every other match. It starts with `{`, ends with `}` and contains the quoted key inside |
| Extractor.LastParsed | ai_news_agent/news_collector.py:171-176 | The reversed loop gives None exactly when every candidate fails to parse. Otherwise it gives the parse of the last candidate that parses: every later candidate fails |
| Extractor.Template | ai_news_agent/news_collector.py:178-184 | The failure document has exactly four members: `collected_at` = now, `total_count` = 0, the collection key = `[]`, and a non-empty string `error` |
| Extractor.Extract | ai_news_agent/news_collector.py:152-184 | If the last fenced group parses, the result is that document as it is (`total_count` is not checked against the list). Otherwise, if the one brace candidate exists and parses, the result is its document. Otherwise it is the template. No parse failure escapes |
| Extractor.NothingParses | ai_news_agent/news_collector.py:160-184 | When the parser rejects every string, no parse error escapes: the chain ends at the error template |
| Extractor.OnlyLastBlockMatters | ai_news_agent/news_collector.py:160-165 | Earlier fenced blocks are never consulted: parsers that agree on the last group and on the brace candidates give the same result |
| Extractor.ExtractNews | ai_news_agent/news_collector.py:152-184 | The news extractor returns the last fenced block's document if it parses. Otherwise it returns the `"articles"` brace candidate's document if that parses. Otherwise it returns the template, with an empty `articles` and zero `total_count`. When nothing parses, the result is that template |
| Extractor.ExtractRamen | shibuya_ramen_agent/ramen_collector.py:143-177 | The ramen extractor tries the last fenced block first, then the `"shops"` brace candidate. It falls back to `{collected_at: now, total_count: 0, shops: [], error}` when neither parses |
| Extractor.Get | ai_news_agent/news_collector.py:179-184 | Dict lookup on an object: a value found is bound to the name, and no later member rebinds it (the last binding of a repeated key wins). None on an object means no member has the name. Non-objects have no members |
| Seqs.Filter | ai_news_agent/generate_web.py:489-521 | `Array.filter`: the result is an order-preserving subsequence. It holds each kept element as often as the input and drops the rest. Its length is the number of elements that pass |
| StableSort.Sort | ai_news_agent/generate_web.py:524-539 | `Array.sort` with a comparator read as `cmp(a, b) <= 0`: a permutation, sorted, and stable (every class of tied elements keeps its input order) |
| StableSort.StableSortUnique | ai_news_agent/generate_web.py:524-539 | Any two sorted sequences with the same tie classes are equal, so every stable sort agrees with this one |
| StableSort.SortSortedIsIdentity | shibuya_ramen_agent/generate_web.py:440-450 | Sorting an already sorted sequence changes nothing |
| Facets.Facet | ai_news_agent/generate_web.py:24-25 | `sorted(set(v for ... if v))`: strictly increasing (sorted, no duplicates) and holding exactly the truthy values present |
| Facets.FacetOf | ai_news_agent/generate_web.py:24-25 | The facet of one record field: strictly increasing, and holding exactly the truthy values the field takes over the records |
| Facets.StrictlySortedUnique | shibuya_ramen_agent/generate_web.py:24-25 | Two strictly sorted lists with the same members are equal, so the facet list is the one `sorted(set(...))` builds |
| Catalog.MatchesQuery | ai_news_agent/generate_web.py:491-502 | Definition of the query test: an empty query passes, any other must occur in the lower-cased, space-joined truthy search fields. Its properties are stated by Catalog.QueryHitInField, Catalog.MatchSpansJoin and the ShownArticlesPass / ShownShopsPass rows |
| Catalog.Selected | ai_news_agent/generate_web.py:506-518 | Definition of a select test: `''` passes everything, any other selection needs exact equality, so a missing field never matches. Its properties are stated by the ShownArticlesPass / ShownShopsPass and ClearedKeepsAll rows |
| Catalog.QueryHitInField | ai_news_agent/generate_web.py:491-502 | A query found, case-insensitively, in any one truthy search field passes the query test whatever the other fields hold |
| Catalog.MatchSpansJoin | ai_news_agent/generate_web.py:492-500 | Because the fields are joined by a space before the test, `p l` matches `deep`/`learning` though it is in neither field |
| Catalog.Present | ai_news_agent/generate_web.py:498 | `.filter(Boolean)` keeps exactly the truthy fields, in field order. Element by element, the result is the generic `Seqs.Filter` with truthiness as the test. Every value kept is non-empty, and every truthy field is kept |
| NewsCatalog.FilterArticles | ai_news_agent/generate_web.py:489-521 | The filtered articles are an order-preserving subsequence holding exactly the articles that pass (query, category, source, importance), each as often as in the input |
| NewsCatalog.FilterAndSort | ai_news_agent/generate_web.py:482-539 | The result is a permutation of the filtered articles, sorted by the chosen order, with tied articles in input order |
| NewsCatalog.OrderIsTotalPreorder | ai_news_agent/generate_web.py:524-539 | Every sort key (date, importance, source, category, default) compares any two articles and is transitive |
| NewsCatalog.SortOrderByKey | ai_news_agent/generate_web.py:479-537 | In the result, `importance` ranks high, medium, low, then anything else, with equal ranks latest date first. `source`/`category` are ascending. `date` and unknown keys are latest first. Missing values count as `''` |
| NewsCatalog.ShownArticlesPass | ai_news_agent/generate_web.py:491-518 | Every shown article is in the dataset and passes the query. Under an active select its field equals the selection, so a missing field never matches |
| NewsCatalog.Refresh | ai_news_agent/generate_web.py:541-552 | The count is the number of articles that pass. The no-results view shows, with an empty grid, exactly when none pass. Otherwise the cards are the sorted result |
| NewsCatalog.ClearedKeepsAll | ai_news_agent/generate_web.py:593-600 | After `clearFilters`, every article passes: the filter returns the dataset and the page shows all of it |
| NewsCatalog.FilterAndSortIdempotent | ai_news_agent/generate_web.py:482-542 | Running `filterAndSort` on its own output with the same controls changes nothing |
| NewsCatalog.DateOrderExample | ai_news_agent/generate_web.py:535-537 | Articles dated 2026-01-01 (A) and 2026-01-03 (B) show as B, A under the date order |
| NewsCatalog.QueryExample | ai_news_agent/generate_web.py:483-502 | The query `a` keeps title `A` and drops title `B` |
| NewsCatalog.Categories | ai_news_agent/generate_web.py:24 | The category facet is sorted, duplicate-free, and exactly the truthy categories present |
| NewsCatalog.Sources | ai_news_agent/generate_web.py:25 | The source facet is sorted, duplicate-free, and exactly the truthy sources present |
| RamenCatalog.FilterShops | shibuya_ramen_agent/generate_web.py:409-437 | The filtered shops are an order-preserving subsequence holding exactly the shops that pass (query over name, address, area, genre, description and specialties; area; genre) |
| RamenCatalog.FilterAndSort | shibuya_ramen_agent/generate_web.py:403-450 | The result is a permutation of the filtered shops, sorted by the chosen order, with tied shops in input order |
| RamenCatalog.OrderIsTotalPreorder | shibuya_ramen_agent/generate_web.py:440-450 | Every sort key (rating, area, name, default) is total and transitive |
| RamenCatalog.SortOrderByKey | shibuya_ramen_agent/generate_web.py:442-448 | `rating` is highest first, with a missing or zero rating as 0. `area` is ascending. `name` and unknown keys are ascending by name. Missing strings count as `''` |
| RamenCatalog.ShownShopsPass | shibuya_ramen_agent/generate_web.py:411-434 | Every shown shop is in the dataset and passes the query. Under an active area or genre select, its field equals the selection |
| RamenCatalog.Refresh | shibuya_ramen_agent/generate_web.py:452-463 | The count is the number of shops that pass. The no-results view shows, with an empty grid, exactly when none pass. Otherwise the cards are the sorted result |
| RamenCatalog.ClearedKeepsAll | shibuya_ramen_agent/generate_web.py:508-514 | After `clearFilters`, every shop passes |
| RamenCatalog.FilterAndSortIdempotent | shibuya_ramen_agent/generate_web.py:403-453 | Running `filterAndSort` on its own output with the same controls changes nothing |
| RamenCatalog.Areas | shibuya_ramen_agent/generate_web.py:24 | The area facet is sorted, duplicate-free, and exactly the truthy areas present |
| RamenCatalog.Genres | shibuya_ramen_agent/generate_web.py:25 | The genre facet is sorted, duplicate-free, and exactly the truthy genres present |
| Escape.EscapeText | ai_news_agent/generate_web.py:587-589 | The serialized text has no `<`, `>` or raw U+00A0, and every `&` in it opens `&amp;`, `&nbsp;`, `&lt;` or `&gt;`. Every other character except `&` survives |
| Escape.EscapeUnique | ai_news_agent/generate_web.py:585-590 | The escaping is the only text without `<`, `>` or raw U+00A0, with every `&` opening one of the four references, that decodes back to the input, so those properties fix the serialization exactly |
| Escape.UnescapeEscape | shibuya_ramen_agent/generate_web.py:502-504 | Decoding `&amp;`, `&nbsp;`, `&lt;`, `&gt;` in the escaped text gives the text back, so escaping loses nothing |
| Escape.EscapeHtml | ai_news_agent/generate_web.py:585-590 | A falsy value renders as `''`. The output never holds `<`, `>` or a raw no-break space, and every `&` in it opens a character reference. Any truthy value renders as text that decodes back to it |
| Options.GenerateOptions | ai_news_agent/generate_web.py:618-622 | Definition of `generate_options`: one unescaped `<option value="v">v</option>` per value, joined by newlines. Its properties are stated by Options.ReadGenerated and Options.QuoteBreaksValue |
| Options.ReadGenerated | ai_news_agent/generate_web.py:618-622 | For values without `"`, `&`, `<`, carriage return or NUL, the `<option>` lines read back as the same values in the same order, and each line's value attribute equals its label |
| Options.QuoteBreaksValue | shibuya_ramen_agent/generate_web.py:531-535 | The values go in unescaped, so a value containing `"` (`a"b`) does not read back as itself |

## Left out

- The agent runs (`collect_news_data`, `collect_ramen_data`) are left out. They are asynchronous streaming over an SDK with network access.
- `save_data`, the collectors' `main()` summaries and both `main.py` files are left out. They are file I/O, argument parsing and console output.
- The JSON grammar is left out. `json.loads` is the `parse` parameter, and `json.dumps` and the inline embedding of the data are not modelled.
- Only a decode error is modelled as a parse failure. The code catches only `JSONDecodeError`, and other exceptions from `json.loads` are not modelled.
- Logging (`print`) on a parse failure is left out.
- The clock is the `now` parameter. Its `%Y-%m-%d %H:%M:%S` formatting is not modelled.
- The card markup of `renderNews` / `renderShops` is left out: the HTML template text, CSS and DOM wiring. A render is reduced to its count, its cards and the no-results flag.
- The ramen count text's ` 店舗` suffix is part of that markup.
- Values inserted without `escapeHtml` are not claimed to be escaped. These are the importance badge, the rating, and the facet option values.
- `toLowerCase` is modelled on ASCII letters only. Unicode case mapping (which can change length) is not modelled.
- `localeCompare` is modelled as code-point order. Locale collation is not modelled. Any total preorder would do for the sort results proved here.
- JSON numbers are `JInt` (Python `int`) or `JFloat` (Python `float`, as a `real`). `NaN`, `Infinity` and float rounding are not modelled.
- IEEE arithmetic on `rating` is not modelled: ratings are `real`, so NaN and non-number values are excluded.
- Record fields are `Option<string>`. A field holding a number, an array or an object is not modelled, and so neither is its JS coercion.
- Property lookups such as `importancePriority['constructor']` that reach `Object.prototype` are not modelled. Every importance outside high/medium/low ranks 3.
- Options.ReadGenerated: holds only for values without `"`, `&`, `<`, carriage return or NUL (the HTML parser turns CR and CRLF into LF and replaces NUL). `generate_options` does not escape, and `Options.QuoteBreaksValue` shows a value that breaks.
- Extractor.Template: states the lookups only when the collection key is not one of `collected_at`, `total_count`, `error`. With such a key, the dict literal in the source would overwrite a field.
