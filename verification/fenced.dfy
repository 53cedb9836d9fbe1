/** Stage one of the extractor: Python's
    `re.findall(r'```json\s*([\s\S]*?)\s*```', text)`, written as an explicit
    scanner (`Scan`) together with the regular expression's meaning
    (`FindAll`: leftmost, non-overlapping, exhaustive) and a proof that the
    meaning has exactly one solution, which the scanner computes. */
module Fenced {
  import opened Wrappers
  import opened Text

  /** The opening fence; the `json` tag is part of it. */
  const Open: string := "```json"
  /** The closing fence. */
  const Close: string := "```"

  /** One match of the fenced pattern: the opening fence at `open`, the
      captured group `t[start..stop]`, the closing fence at `close`. */
  datatype Fence = Fence(open: nat, start: nat, stop: nat, close: nat)

  predicate AllSpace(t: string, lo: nat, hi: nat) {
    hi <= |t| && forall k :: lo <= k < hi ==> IsSpace(t[k])
  }

  /** The end of the whitespace run starting at `i` (greedy `\s*`). */
  function SkipSpace(t: string, i: nat): (r: nat)
    requires i <= |t|
    ensures i <= r <= |t| && AllSpace(t, i, r)
    ensures r < |t| ==> !IsSpace(t[r])
    decreases |t| - i
  {
    if i < |t| && IsSpace(t[i]) then SkipSpace(t, i + 1) else i
  }

  /** The start of the whitespace run that ends at `hi`, not going below
      `lo` (where the lazy group stops before `\s*```). */
  function TrimBack(t: string, lo: nat, hi: nat): (r: nat)
    requires lo <= hi <= |t|
    ensures lo <= r <= hi && AllSpace(t, r, hi)
    ensures lo < r ==> !IsSpace(t[r - 1])
    decreases hi
  {
    if lo < hi && IsSpace(t[hi - 1]) then TrimBack(t, lo, hi - 1) else hi
  }

  /** What it means for `f` to be the match of the pattern that begins at
      the opening fence `f.open`: the whitespace after the tag is skipped
      greedily, the group ends before the whitespace that precedes the
      first closing fence after the tag, and no closing fence lies between
      the tag and `f.close`. */
  ghost predicate ValidFence(t: string, f: Fence) {
    && f.open + |Open| <= f.start <= f.stop <= f.close
    && OccursAt(t, Open, f.open)
    && OccursAt(t, Close, f.close)
    && AllSpace(t, f.open + |Open|, f.start)
    && (f.start < f.close ==> !IsSpace(t[f.start]))
    && AllSpace(t, f.stop, f.close)
    && (f.start < f.stop ==> !IsSpace(t[f.stop - 1]))
    && (forall k :: f.open + |Open| <= k < f.close ==> !OccursAt(t, Close, k))
  }

  ghost predicate NoOpenIn(t: string, lo: int, hi: int) {
    forall k :: lo <= k < hi ==> !OccursAt(t, Open, k)
  }

  /** From `lo` on, no opening fence is followed by a closing fence, so the
      pattern cannot match any more. */
  ghost predicate Exhausted(t: string, lo: int) {
    forall k, j :: lo <= k && k + |Open| <= j && OccursAt(t, Open, k) ==> !OccursAt(t, Close, j)
  }

  /** The meaning of `findall` from position `from`: the first match begins
      at the first opening fence at or after `from`, is a valid fence, and
      the search resumes after its closing fence; when no match is left the
      pattern no longer matches anywhere from `from` on. */
  ghost predicate FindAll(t: string, from: nat, fs: seq<Fence>)
    decreases |fs|
  {
    if |fs| == 0 then Exhausted(t, from)
    else
      && from <= fs[0].open
      && NoOpenIn(t, from, fs[0].open)
      && ValidFence(t, fs[0])
      && FindAll(t, fs[0].close + |Close|, fs[1..])
  }

  /** A closing fence never begins inside a whitespace run. */
  lemma NoCloseInSpace(t: string, lo: nat, hi: nat, k: int)
    requires AllSpace(t, lo, hi) && lo <= k < hi
    ensures !OccursAt(t, Close, k)
  {
    assert k + |Close| <= |t| ==> t[k..k + |Close|][0] == t[k] != Close[0];
  }

  /** An opening fence with no closing fence after its whitespace ends the
      search: no later opening fence has a closing fence after it either. */
  lemma NoCloseEnds(t: string, from: nat, o: nat, g: nat)
    requires from <= o && o + |Open| <= g <= |t|
    requires NoOpenIn(t, from, o) && AllSpace(t, o + |Open|, g)
    requires forall k :: g <= k ==> !OccursAt(t, Close, k)
    ensures Exhausted(t, from)
  {
    forall k, j | from <= k && k + |Open| <= j && OccursAt(t, Open, k)
      ensures !OccursAt(t, Close, j)
    {
      if j < g {
        NoCloseInSpace(t, o + |Open|, g, j);
      }
    }
  }

  /** The fence the scanner builds from the opening fence `o`, the end `g`
      of the whitespace after it and the first closing fence `c` from `g`
      is the match of the pattern at `o`. */
  lemma ScannedFenceValid(t: string, o: nat, g: nat, c: nat)
    requires OccursAt(t, Open, o) && o + |Open| <= g <= c
    requires AllSpace(t, o + |Open|, g) && (g < |t| ==> !IsSpace(t[g]))
    requires OccursAt(t, Close, c) && forall k :: g <= k < c ==> !OccursAt(t, Close, k)
    ensures ValidFence(t, Fence(o, g, TrimBack(t, g, c), c))
  {
    forall k | o + |Open| <= k < c
      ensures !OccursAt(t, Close, k)
    {
      if k < g {
        NoCloseInSpace(t, o + |Open|, g, k);
      }
    }
  }

  /** The scanner: find the next opening fence, skip the whitespace, find
      the next closing fence, trim, and continue after the closing fence. */
  function Scan(t: string, from: nat): (fs: seq<Fence>)
    requires from <= |t|
    ensures FindAll(t, from, fs)
    decreases |t| - from
  {
    match FindFrom(t, Open, from)
    case None => []
    case Some(o) =>
      var g := SkipSpace(t, o + |Open|);
      match FindFrom(t, Close, g)
      case None =>
        NoCloseEnds(t, from, o, g);
        []
      case Some(c) =>
        var f := Fence(o, g, TrimBack(t, g, c), c);
        ScannedFenceValid(t, o, g, c);
        var rest := Scan(t, c + |Close|);
        assert ([f] + rest)[1..] == rest;
        [f] + rest
  }

  /** Given its opening fence, a match is fully determined. */
  lemma FenceDeterminedByOpen(t: string, f1: Fence, f2: Fence)
    requires ValidFence(t, f1) && ValidFence(t, f2) && f1.open == f2.open
    ensures f1 == f2
  {
    var lo := f1.open + |Open|;
    // each closing fence is the first one after the tag
    assert !(lo <= f1.close < f2.close);
    assert !(lo <= f2.close < f1.close);
  }

  /** `findall` has one answer: any two sequences of matches that satisfy
      its meaning are equal. */
  lemma {:induction false} FindAllUnique(t: string, from: nat, fs1: seq<Fence>, fs2: seq<Fence>)
    requires FindAll(t, from, fs1) && FindAll(t, from, fs2)
    ensures fs1 == fs2
    decreases |fs1|
  {
    if |fs1| > 0 && |fs2| > 0 {
      assert !(fs1[0].open < fs2[0].open);
      assert !(fs2[0].open < fs1[0].open);
      FenceDeterminedByOpen(t, fs1[0], fs2[0]);
      FindAllUnique(t, fs1[0].close + |Close|, fs1[1..], fs2[1..]);
      assert fs1 == [fs1[0]] + fs1[1..];
      assert fs2 == [fs2[0]] + fs2[1..];
    }
  }

  /** Every element of a `findall` answer is a valid match, matches appear
      left to right, and they do not overlap. */
  lemma {:induction false} FindAllOrdered(t: string, from: nat, fs: seq<Fence>, i: nat)
    requires FindAll(t, from, fs) && i < |fs|
    ensures ValidFence(t, fs[i]) && from <= fs[i].open
    ensures i + 1 < |fs| ==> fs[i].close + |Close| <= fs[i + 1].open
    decreases i
  {
    if i > 0 {
      FindAllOrdered(t, fs[0].close + |Close|, fs[1..], i - 1);
    } else if |fs| > 1 {
      assert FindAll(t, fs[0].close + |Close|, fs[1..]);
    }
  }

  /** Python's `str.strip()`: leading and trailing whitespace removed. */
  function StripLeft(s: string): string {
    if |s| > 0 && IsSpace(s[0]) then StripLeft(s[1..]) else s
  }

  function StripRight(s: string): string {
    if |s| > 0 && IsSpace(s[|s| - 1]) then StripRight(s[..|s| - 1]) else s
  }

  function Strip(s: string): string {
    StripRight(StripLeft(s))
  }

  lemma {:induction false} StripLeftAt(s: string, a: nat)
    requires a <= |s|
    requires forall k :: 0 <= k < a ==> IsSpace(s[k])
    requires a < |s| ==> !IsSpace(s[a])
    ensures StripLeft(s) == s[a..]
    decreases a
  {
    if a > 0 {
      StripLeftAt(s[1..], a - 1);
      assert s[1..][a - 1..] == s[a..];
    }
  }

  lemma {:induction false} StripRightAt(s: string, b: nat)
    requires b <= |s|
    requires forall k :: b <= k < |s| ==> IsSpace(s[k])
    requires b > 0 ==> !IsSpace(s[b - 1])
    ensures StripRight(s) == s[..b]
    decreases |s| - b
  {
    if b < |s| {
      StripRightAt(s[..|s| - 1], b);
      assert s[..|s| - 1][..b] == s[..b];
    }
  }

  /** Stripping the left of the text after the tag drops the whitespace
      the pattern's first `\s*` consumed. */
  lemma StripLeftOfBody(t: string, f: Fence)
    requires ValidFence(t, f)
    ensures StripLeft(t[f.open + |Open|..f.close]) == t[f.start..f.close]
  {
    var lo := f.open + |Open|;
    var body := t[lo..f.close];
    assert forall k :: 0 <= k < |body| ==> body[k] == t[lo + k];
    StripLeftAt(body, f.start - lo);
    assert body[f.start - lo..] == t[f.start..f.close];
  }

  /** Stripping the right of what remains drops the whitespace the
      pattern's second `\s*` consumed. */
  lemma StripRightOfTail(t: string, f: Fence)
    requires ValidFence(t, f)
    ensures StripRight(t[f.start..f.close]) == t[f.start..f.stop]
  {
    var tail := t[f.start..f.close];
    assert forall k :: 0 <= k < |tail| ==> tail[k] == t[f.start + k];
    StripRightAt(tail, f.stop - f.start);
    assert tail[..f.stop - f.start] == t[f.start..f.stop];
  }

  /** The group of a match is the text between the tag and the closing
      fence with its surrounding whitespace stripped. */
  lemma CaptureIsStripped(t: string, f: Fence)
    requires ValidFence(t, f)
    ensures t[f.start..f.stop] == Strip(t[f.open + |Open|..f.close])
  {
    StripLeftOfBody(t, f);
    StripRightOfTail(t, f);
  }

  /** A group never contains a closing fence. */
  lemma CaptureHasNoClose(t: string, f: Fence)
    requires ValidFence(t, f)
    ensures !Contains(t[f.start..f.stop], Close)
  {
    forall k | 0 <= k <= f.stop - f.start
      ensures !OccursAt(t[f.start..f.stop], Close, k)
    {
      if k + |Close| <= f.stop - f.start {
        SliceOccurs(t, f.start, f.stop, Close, k);
        assert !OccursAt(t, Close, f.start + k);
      }
    }
  }

  /** `c` is the group of the valid match `f`: the text between the tag and
      the closing fence, stripped, and free of closing fences. */
  ghost predicate GroupOf(t: string, f: Fence, c: string) {
    && ValidFence(t, f)
    && c == Strip(t[f.open + |Open|..f.close])
    && !Contains(c, Close)
  }

  lemma GroupOfMatch(t: string, f: Fence)
    requires ValidFence(t, f)
    ensures GroupOf(t, f, t[f.start..f.stop])
  {
    CaptureIsStripped(t, f);
    CaptureHasNoClose(t, f);
  }

  /** The groups of the matches `fs`, in order. */
  function Groups(t: string, from: nat, fs: seq<Fence>): (caps: seq<string>)
    requires FindAll(t, from, fs)
    ensures |caps| == |fs|
    ensures forall i :: 0 <= i < |caps| ==> GroupOf(t, fs[i], caps[i])
    decreases |fs|
  {
    if |fs| == 0 then []
    else
      GroupOfMatch(t, fs[0]);
      var rest := Groups(t, fs[0].close + |Close|, fs[1..]);
      [t[fs[0].start..fs[0].stop]] + rest
  }

  /** The list `re.findall` returns: the group of every match, in order.
      Each group is the text between a `json` tag and the next closing
      fence, stripped, and never contains a fence itself. */
  function Captures(t: string): (caps: seq<string>)
    ensures |caps| == |Scan(t, 0)|
    ensures forall i :: 0 <= i < |caps| ==> GroupOf(t, Scan(t, 0)[i], caps[i])
  {
    var fs := Scan(t, 0);
    Groups(t, 0, fs)
  }
}
