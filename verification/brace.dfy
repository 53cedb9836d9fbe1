/** Stage two of the extractor: Python's
    `re.findall(r'\{[\s\S]*"KEY"[\s\S]*\}', text)`. The pattern is greedy on
    both sides, so the scanner needs no backtracking: it takes the first
    `{`, the last `}`, and checks that the quoted key occurs between them.
    `BraceSpan` proves that this is the leftmost match, the longest one
    from there, and that it covers every other match, so `findall` returns
    at most one candidate. */
module Brace {
  import opened Wrappers
  import opened Text

  /** A `{` at `open` and a `}` at `close`: the text `t[open..close + 1]`,
      with the same closed convention as `BraceMatch`. */
  datatype Span = Span(open: nat, close: nat)

  /** The quoted collection key, as it appears in the pattern. */
  function Quoted(key: string): string {
    "\"" + key + "\""
  }

  /** The pattern matches exactly `t[p..q + 1]`: a `{` at `p`, a `}` at `q`,
      and an occurrence of `needle` strictly between them. */
  ghost predicate BraceMatch(t: string, needle: string, p: int, q: int) {
    && 0 <= p < q < |t|
    && t[p] == '{'
    && t[q] == '}'
    && exists k :: p + 1 <= k && k + |needle| <= q && OccursAt(t, needle, k)
  }

  /** The single candidate of the brace stage, if any. */
  function BraceSpan(t: string, needle: string): (r: Option<Span>)
    ensures r.Some? ==> BraceMatch(t, needle, r.value.open, r.value.close)
    ensures r.Some? ==> forall p, q :: BraceMatch(t, needle, p, q) ==> r.value.open <= p && q <= r.value.close
    ensures r.None? ==> forall p, q :: !BraceMatch(t, needle, p, q)
  {
    match FirstIndexOf(t, '{', 0)
    case None => None
    case Some(p) =>
      match LastIndexOf(t, '}', |t|)
      case None => None
      case Some(q) =>
        match FindFrom(t, needle, p + 1)
        case None => None
        case Some(k) => if k + |needle| <= q then Some(Span(p, q)) else None
  }

  /** The text of a match starts with `{`, ends with `}` and holds the
      needle strictly inside. */
  lemma MatchText(t: string, needle: string, p: int, q: int)
    requires BraceMatch(t, needle, p, q)
    ensures var c := t[p..q + 1];
      2 <= |c| && c[0] == '{' && c[|c| - 1] == '}' && Contains(c[1..|c| - 1], needle)
  {
    var c := t[p..q + 1];
    var k :| p + 1 <= k && k + |needle| <= q && OccursAt(t, needle, k);
    var inner, mid := c[1..|c| - 1], t[p + 1..q];
    assert forall i :: 0 <= i < |inner| ==> inner[i] == mid[i];
    assert inner == mid;
    SliceOccurs(t, p + 1, q, needle, k - p - 1);
    assert OccursAt(c[1..|c| - 1], needle, k - p - 1);
  }

  /** `t[p..q + 1]` is a match that covers every other match. */
  ghost predicate Covering(t: string, needle: string, p: int, q: int) {
    && BraceMatch(t, needle, p, q)
    && forall p', q' :: BraceMatch(t, needle, p', q') ==> p <= p' && q' <= q
  }

  /** There is a span exactly when the pattern matches somewhere. */
  lemma SpanExists(t: string, needle: string)
    ensures BraceSpan(t, needle).Some? <==> exists p, q :: BraceMatch(t, needle, p, q)
  {
    var r := BraceSpan(t, needle);
    if r.Some? {
      assert BraceMatch(t, needle, r.value.open, r.value.close);
    }
  }

  /** The text of the span found is the text of a covering match, and has
      the shape of a match. */
  lemma SpanText(t: string, needle: string, c: string)
    requires BraceSpan(t, needle).Some?
    requires c == t[BraceSpan(t, needle).value.open..BraceSpan(t, needle).value.close + 1]
    ensures exists p, q :: Covering(t, needle, p, q) && c == t[p..q + 1]
    ensures 2 <= |c| && c[0] == '{' && c[|c| - 1] == '}' && Contains(c[1..|c| - 1], needle)
  {
    var p, q := BraceSpan(t, needle).value.open, BraceSpan(t, needle).value.close;
    MatchText(t, needle, p, q);
    assert Covering(t, needle, p, q);
    assert c == t[p..q + 1];
  }

  /** What `re.findall` returns for the brace pattern: the text of the one
      match, or nothing. There is a candidate exactly when the pattern
      matches somewhere, and then it is the text of the match that covers
      every other one. Each candidate starts with `{`, ends with `}` and
      holds `needle` between the two. */
  function Candidates(t: string, needle: string): (cs: seq<string>)
    ensures |cs| <= 1
    ensures |cs| == 1 <==> exists p, q :: BraceMatch(t, needle, p, q)
    ensures |cs| == 1 ==> exists p, q :: Covering(t, needle, p, q) && cs[0] == t[p..q + 1]
    ensures forall c :: c in cs ==> 2 <= |c| && c[0] == '{' && c[|c| - 1] == '}' && Contains(c[1..|c| - 1], needle)
  {
    SpanExists(t, needle);
    var r := BraceSpan(t, needle);
    if r.None? then []
    else
      var c := t[r.value.open..r.value.close + 1];
      SpanText(t, needle, c);
      [c]
  }
}
