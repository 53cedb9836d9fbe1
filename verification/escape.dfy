/** `escapeHtml` of both pages: assigning `textContent` and reading back
    `innerHTML` serializes a single text node, which follows the "escaping a
    string" algorithm of the HTML Living Standard (section 13.3,
    Serializing HTML fragments) in non-attribute mode. `Unescape` decodes
    the four character references that algorithm produces. */
module Escape {
  import opened Wrappers
  import opened Text

  const Nbsp: char := '\U{A0}'

  function EscapeChar(c: char): string {
    if c == '&' then "&amp;"
    else if c == Nbsp then "&nbsp;"
    else if c == '<' then "&lt;"
    else if c == '>' then "&gt;"
    else [c]
  }

  /** `s` starts with one of the four character references the
      serializer writes. */
  predicate Reference(s: string) {
    StartsWith(s, "&amp;") || StartsWith(s, "&nbsp;") || StartsWith(s, "&lt;") || StartsWith(s, "&gt;")
  }

  /** Every `&` of `s` opens a character reference. */
  ghost predicate AmpersandsEscaped(s: string) {
    forall i :: 0 <= i < |s| && s[i] == '&' ==> Reference(s[i..])
  }

  /** The escaped text contains no markup delimiter and no raw no-break
      space, every `&` in it opens a character reference, and quotes are
      left as they are. */
  function EscapeText(s: string): (r: string)
    ensures forall i :: 0 <= i < |r| ==> r[i] != '<' && r[i] != '>' && r[i] != Nbsp
    ensures forall i :: 0 <= i < |r| && r[i] == '&' ==> Reference(r[i..])
    ensures forall i :: 0 <= i < |s| && s[i] != '&' && s[i] != '<' && s[i] != '>' && s[i] != Nbsp ==> s[i] in r
  {
    if |s| == 0 then ""
    else
      var rest := EscapeText(s[1..]);
      assert forall i :: 1 <= i < |s| ==> s[i] == s[1..][i - 1];
      EscapedCons(s[0], rest);
      EscapeChar(s[0]) + rest
  }

  /** Putting the escape of one character in front of escaped text keeps
      every `&` the start of a character reference. */
  lemma EscapedCons(c: char, rest: string)
    requires AmpersandsEscaped(rest)
    ensures AmpersandsEscaped(EscapeChar(c) + rest)
  {
    var e := EscapeChar(c);
    var r := e + rest;
    forall i | 0 <= i < |r| && r[i] == '&'
      ensures Reference(r[i..])
    {
      if i < |e| {
        assert i == 0 && r[..|e|] == e;
        assert Reference(e);
      } else {
        assert r[i..] == rest[i - |e|..];
      }
    }
  }

  /** Decodes `&amp;`, `&nbsp;`, `&lt;` and `&gt;`. */
  function Unescape(s: string): string
    decreases |s|
  {
    if |s| == 0 then ""
    else if StartsWith(s, "&amp;") then "&" + Unescape(s[5..])
    else if StartsWith(s, "&nbsp;") then [Nbsp] + Unescape(s[6..])
    else if StartsWith(s, "&lt;") then "<" + Unescape(s[4..])
    else if StartsWith(s, "&gt;") then ">" + Unescape(s[4..])
    else [s[0]] + Unescape(s[1..])
  }

  /** Escaping loses nothing: decoding the escaped text gives the text back. */
  lemma {:induction false} UnescapeEscape(s: string)
    ensures Unescape(EscapeText(s)) == s
  {
    if |s| > 0 {
      UnescapeEscape(s[1..]);
      UnescapeOne(s[0], EscapeText(s[1..]));
      assert s == [s[0]] + s[1..];
    }
  }

  /** Decoding the escape of one character consumes exactly that escape. */
  lemma UnescapeOne(c: char, rest: string)
    ensures Unescape(EscapeChar(c) + rest) == [c] + Unescape(rest)
  {
    if c == '&' {
      UnescapeAmp(rest);
    } else if c == Nbsp {
      UnescapeNbsp(rest);
    } else if c == '<' {
      UnescapeLt(rest);
    } else if c == '>' {
      UnescapeGt(rest);
    } else {
      UnescapePlain(c, rest);
    }
  }

  lemma UnescapeAmp(rest: string)
    ensures Unescape("&amp;" + rest) == "&" + Unescape(rest)
  {
    var s := "&amp;" + rest;
    assert s[5..] == rest && s[..5] == "&amp;";
  }

  /** A character other than `&` starts no reference and is kept. */
  lemma UnescapePlain(c: char, rest: string)
    requires c != '&'
    ensures Unescape([c] + rest) == [c] + Unescape(rest)
  {
    var s := [c] + rest;
    assert s[1..] == rest && s[0] == c;
  }

  lemma UnescapeNbsp(rest: string)
    ensures Unescape("&nbsp;" + rest) == [Nbsp] + Unescape(rest)
  {
    var s := "&nbsp;" + rest;
    assert s[6..] == rest && s[..6] == "&nbsp;";
    assert !StartsWith(s, "&amp;") by { assert s[1] == 'n'; }
  }

  lemma UnescapeLt(rest: string)
    ensures Unescape("&lt;" + rest) == "<" + Unescape(rest)
  {
    var s := "&lt;" + rest;
    assert s[4..] == rest && s[..4] == "&lt;";
    assert !StartsWith(s, "&amp;") && !StartsWith(s, "&nbsp;") by { assert s[1] == 'l'; }
  }

  lemma UnescapeGt(rest: string)
    ensures Unescape("&gt;" + rest) == ">" + Unescape(rest)
  {
    var s := "&gt;" + rest;
    assert s[4..] == rest && s[..4] == "&gt;";
    assert !StartsWith(s, "&amp;") && !StartsWith(s, "&nbsp;") && !StartsWith(s, "&lt;") by { assert s[1] == 'g'; }
  }

  /** The escaping is the only text without `<`, `>` or a raw no-break
      space, whose every `&` opens a character reference, that decodes to
      `s`. */
  lemma {:induction false} EscapeUnique(s: string, r: string)
    requires forall i :: 0 <= i < |r| ==> r[i] != '<' && r[i] != '>' && r[i] != Nbsp
    requires AmpersandsEscaped(r)
    requires Unescape(r) == s
    ensures r == EscapeText(s)
    decreases |r|
  {
    if |r| > 0 {
      var n, c := HeadEscape(r);
      var tail := r[n..];
      assert r == r[..n] + tail;
      forall i | 0 <= i < |tail| && tail[i] == '&'
        ensures Reference(tail[i..])
      {
        assert tail[i..] == r[n + i..];
      }
      EscapeUnique(s[1..], tail);
      assert s == [s[0]] + s[1..];
    }
  }

  /** The first character reference or plain character of escaped text,
      with its length. */
  lemma HeadEscape(r: string) returns (n: nat, c: char)
    requires |r| > 0 && r[0] != '<' && r[0] != '>' && r[0] != Nbsp
    requires r[0] == '&' ==> Reference(r)
    ensures n <= |r| && r[..n] == EscapeChar(c)
    ensures Unescape(r) == [c] + Unescape(r[n..])
  {
    if StartsWith(r, "&amp;") {
      n, c := 5, '&';
    } else if StartsWith(r, "&nbsp;") {
      n, c := 6, Nbsp;
    } else if StartsWith(r, "&lt;") {
      n, c := 4, '<';
    } else if StartsWith(r, "&gt;") {
      n, c := 4, '>';
    } else {
      n, c := 1, r[0];
      assert r[..1] == [r[0]];
    }
  }

  /** `escapeHtml(text)`: a falsy value renders as nothing; any other is
      written with no `<`, `>` or raw no-break space and with every `&`
      opening a character reference, and decodes back to itself. */
  function EscapeHtml(text: Option<string>): (r: string)
    ensures !Truthy(text) ==> r == ""
    ensures forall i :: 0 <= i < |r| ==> r[i] != '<' && r[i] != '>' && r[i] != Nbsp
    ensures forall i :: 0 <= i < |r| && r[i] == '&' ==> Reference(r[i..])
    ensures Truthy(text) ==> Unescape(r) == text.value
  {
    if !Truthy(text) then ""
    else
      UnescapeEscape(text.value);
      EscapeText(text.value)
  }
}
