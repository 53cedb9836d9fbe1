/** String helpers shared by the extractor and the catalog engine:
    whitespace, substring search, lower-casing, joining and the
    code-point order on strings. */
module Text {
  import opened Wrappers

  /** Truthiness of an optional string field, in Python and in JavaScript
      alike: a missing value and the empty string are both false. */
  predicate Truthy(v: Option<string>) {
    v.Some? && v.value != ""
  }

  /** JavaScript's `x || ''` on an optional string. */
  function OrEmpty(v: Option<string>): string {
    if Truthy(v) then v.value else ""
  }

  /** `p` is a prefix of `s`. */
  predicate StartsWith(s: string, p: string) {
    |p| <= |s| && s[..|p|] == p
  }

  /** Python's `\s` on `str` patterns, which is the set of characters for
      which `str.isspace()` holds. */
  predicate IsSpace(c: char) {
    || c == ' '
    || ('\t' <= c <= '\r')
    || ('\U{1C}' <= c <= '\U{1F}')
    || c == '\U{85}'
    || c == '\U{A0}'
    || c == '\U{1680}'
    || ('\U{2000}' <= c <= '\U{200A}')
    || c == '\U{2028}'
    || c == '\U{2029}'
    || c == '\U{202F}'
    || c == '\U{205F}'
    || c == '\U{3000}'
  }

  /** `pat` occurs in `t` starting at index `k`. */
  predicate OccursAt(t: string, pat: string, k: int) {
    0 <= k && k + |pat| <= |t| && t[k..k + |pat|] == pat
  }

  /** Substring test: JavaScript's `String.prototype.includes`. */
  predicate Contains(hay: string, needle: string) {
    exists k | 0 <= k <= |hay| :: OccursAt(hay, needle, k)
  }

  /** The first occurrence of `pat` at or after index `i`. */
  function FindFrom(t: string, pat: string, i: nat): (r: Option<nat>)
    ensures r.Some? ==> i <= r.value && OccursAt(t, pat, r.value)
    ensures r.Some? ==> forall k :: i <= k < r.value ==> !OccursAt(t, pat, k)
    ensures r.None? ==> forall k :: i <= k ==> !OccursAt(t, pat, k)
    decreases |t| - i
  {
    if i + |pat| > |t| then None
    else if OccursAt(t, pat, i) then Some(i)
    else FindFrom(t, pat, i + 1)
  }

  /** The first index of `c` in `t[i..]`. */
  function FirstIndexOf(t: string, c: char, i: nat): (r: Option<nat>)
    ensures r.Some? ==> i <= r.value < |t| && t[r.value] == c
    ensures r.Some? ==> forall k :: i <= k < r.value ==> t[k] != c
    ensures r.None? ==> forall k :: i <= k < |t| ==> t[k] != c
    decreases |t| - i
  {
    if i >= |t| then None
    else if t[i] == c then Some(i)
    else FirstIndexOf(t, c, i + 1)
  }

  /** The last index of `c` in `t[..hi]`. */
  function LastIndexOf(t: string, c: char, hi: nat): (r: Option<nat>)
    requires hi <= |t|
    ensures r.Some? ==> r.value < hi && t[r.value] == c
    ensures r.Some? ==> forall k :: r.value < k < hi ==> t[k] != c
    ensures r.None? ==> forall k :: 0 <= k < hi ==> t[k] != c
  {
    if hi == 0 then None
    else if t[hi - 1] == c then Some(hi - 1)
    else LastIndexOf(t, c, hi - 1)
  }

  /** A needle found in a part of the text is found in the whole text. */
  lemma OccursInSlice(t: string, lo: nat, hi: nat, pat: string, k: int)
    requires lo <= hi <= |t|
    requires OccursAt(t[lo..hi], pat, k)
    ensures OccursAt(t, pat, lo + k)
  {
    forall i | 0 <= i < |pat|
      ensures t[lo + k + i] == pat[i]
    {
      assert t[lo..hi][k..k + |pat|][i] == pat[i];
    }
    assert t[lo + k..lo + k + |pat|] == pat;
  }

  /** An occurrence inside `t[lo..hi]` is an occurrence in `t`, shifted by
      `lo`, and the other way round. */
  lemma SliceOccurs(t: string, lo: nat, hi: nat, pat: string, k: nat)
    requires lo <= hi <= |t| && k + |pat| <= hi - lo
    ensures OccursAt(t[lo..hi], pat, k) <==> OccursAt(t, pat, lo + k)
  {
    var a, b := t[lo..hi][k..k + |pat|], t[lo + k..lo + k + |pat|];
    assert forall i :: 0 <= i < |a| ==> a[i] == b[i];
    assert a == b;
  }

  /** Substring containment is transitive. */
  lemma ContainsTrans(a: string, b: string, c: string)
    requires Contains(a, b) && Contains(b, c)
    ensures Contains(a, c)
  {
    var i :| 0 <= i <= |a| && OccursAt(a, b, i);
    var j :| 0 <= j <= |b| && OccursAt(b, c, j);
    OccursInSlice(a, i, i + |b|, c, j);
  }

  /** JavaScript's `toLowerCase`, abstracted to a per-character map that
      folds the ASCII capitals. */
  function LowerChar(c: char): char {
    if 'A' <= c <= 'Z' then (c as int + 32) as char else c
  }

  function Lower(s: string): (r: string)
    ensures |r| == |s|
    ensures forall i :: 0 <= i < |s| ==> r[i] == LowerChar(s[i])
  {
    seq(|s|, i requires 0 <= i < |s| => LowerChar(s[i]))
  }

  lemma LowerSlice(s: string, lo: nat, hi: nat)
    requires lo <= hi <= |s|
    ensures Lower(s[lo..hi]) == Lower(s)[lo..hi]
  {
  }

  /** Lower-casing keeps every substring a substring. */
  lemma LowerContains(hay: string, needle: string)
    requires Contains(hay, needle)
    ensures Contains(Lower(hay), Lower(needle))
  {
    var k :| 0 <= k <= |hay| && OccursAt(hay, needle, k);
    LowerSlice(hay, k, k + |needle|);
    assert OccursAt(Lower(hay), Lower(needle), k);
  }

  /** `Array.prototype.join(sep)` on strings. */
  function Join(xs: seq<string>, sep: string): string {
    if |xs| == 0 then ""
    else if |xs| == 1 then xs[0]
    else xs[0] + sep + Join(xs[1..], sep)
  }

  /** Every joined element is a substring of the joined text. */
  lemma {:induction false} JoinContains(xs: seq<string>, sep: string, i: nat)
    requires i < |xs|
    ensures Contains(Join(xs, sep), xs[i])
  {
    var j := Join(xs, sep);
    if |xs| == 1 {
      assert OccursAt(j, xs[0], 0);
    } else if i == 0 {
      assert j == xs[0] + (sep + Join(xs[1..], sep));
      assert OccursAt(j, xs[0], 0);
    } else {
      var rest := Join(xs[1..], sep);
      JoinContains(xs[1..], sep, i - 1);
      var k :| 0 <= k <= |rest| && OccursAt(rest, xs[i], k);
      var off := |xs[0]| + |sep|;
      assert j[off..|j|] == rest;
      OccursInSlice(j, off, |j|, xs[i], k);
    }
  }

  /** Code-point lexicographic order on strings (`a <= b`). This is Python's
      string order, and the model's stand-in for `localeCompare`. */
  predicate Below(a: string, b: string)
    decreases |a|
  {
    if |a| == 0 then true
    else if |b| == 0 then false
    else if a[0] != b[0] then a[0] < b[0]
    else Below(a[1..], b[1..])
  }

  /** The strict version of `Below`. */
  predicate Before(a: string, b: string) {
    Below(a, b) && a != b
  }

  lemma {:induction false} BelowTotal(a: string, b: string)
    ensures Below(a, b) || Below(b, a)
    decreases |a|
  {
    if |a| > 0 && |b| > 0 && a[0] == b[0] {
      BelowTotal(a[1..], b[1..]);
    }
  }

  lemma {:induction false} BelowTrans(a: string, b: string, c: string)
    requires Below(a, b) && Below(b, c)
    ensures Below(a, c)
    decreases |a|
  {
    if |a| > 0 && a[0] == b[0] && b[0] == c[0] {
      BelowTrans(a[1..], b[1..], c[1..]);
    }
  }

  lemma {:induction false} BelowAntisym(a: string, b: string)
    requires Below(a, b) && Below(b, a)
    ensures a == b
    decreases |a|
  {
    if |a| > 0 {
      BelowAntisym(a[1..], b[1..]);
      assert a == [a[0]] + a[1..] && b == [b[0]] + b[1..];
    }
  }

  /** Two strings that agree on a prefix and then differ are ordered by the
      first differing character. */
  lemma {:induction false} BelowAtDifference(a: string, b: string, k: nat)
    requires k < |a| && k < |b| && a[..k] == b[..k] && a[k] < b[k]
    ensures Below(a, b) && !Below(b, a)
    decreases k
  {
    if k > 0 {
      assert a[0] == a[..k][0] == b[..k][0] == b[0];
      assert a[1..][..k - 1] == a[..k][1..] == b[..k][1..] == b[1..][..k - 1];
      BelowAtDifference(a[1..], b[1..], k - 1);
    }
  }
}
