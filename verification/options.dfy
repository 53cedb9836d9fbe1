/** `generate_options` of both pages: one `<option>` line per facet value,
    with the value inserted unescaped both as the `value` attribute and as
    the option's text. `ReadOptions` reads such markup back the way a
    browser reports `select.value`, for values the markup carries intact. */
module Options {
  import opened Wrappers
  import opened Text

  const Prefix: string := "<option value=\""
  const Middle: string := "\">"
  const Suffix: string := "</option>"

  function OptionTag(item: string): string {
    Prefix + item + Middle + item + Suffix
  }

  function Tags(items: seq<string>): (r: seq<string>)
    ensures |r| == |items|
    ensures forall i :: 0 <= i < |items| ==> r[i] == OptionTag(items[i])
  {
    seq(|items|, i requires 0 <= i < |items| => OptionTag(items[i]))
  }

  /** `'\n'.join(f'<option value="{item}">{item}</option>' for item in items)`. */
  function GenerateOptions(items: seq<string>): string {
    Join(Tags(items), "\n")
  }

  /** A value that the unescaped markup carries intact: no quote to end the
      attribute early, no `&` that the browser would decode, no `<` that
      would open a tag in the option's text, and no carriage return or NUL,
      which the HTML parser's input preprocessing rewrites. */
  predicate Plain(v: string) {
    forall i :: 0 <= i < |v| ==> v[i] != '"' && v[i] != '&' && v[i] != '<' && v[i] != '\r' && v[i] != '\0'
  }

  /** Reads one option element at the start of `s`: the attribute value up
      to the first quote, then the same value as text. Answers the value and
      the rest of `s`. */
  function ReadOption(s: string): (r: Option<(string, string)>)
    ensures r.Some? ==> |r.value.1| < |s|
  {
    if !StartsWith(s, Prefix) then None
    else
      match FirstIndexOf(s, '"', |Prefix|)
      case None => None
      case Some(j) =>
        var v := s[|Prefix|..j];
        var tail := s[j..];
        var close := Middle + v + Suffix;
        if StartsWith(tail, close) && Plain(v) then Some((v, tail[|close|..])) else None
  }

  /** Reads newline-separated option elements. */
  function ReadOptions(s: string): Option<seq<string>>
    decreases |s|
  {
    if |s| == 0 then Some([])
    else
      match ReadOption(s)
      case None => None
      case Some((v, rest)) =>
        if |rest| == 0 then Some([v])
        else if rest[0] == '\n' && |rest| > 1 then
          match ReadOptions(rest[1..])
          case None => None
          case Some(vs) => Some([v] + vs)
        else None
  }

  lemma ReadOptionTag(item: string, more: string)
    requires Plain(item)
    ensures ReadOption(OptionTag(item) + more) == Some((item, more))
  {
    var s := OptionTag(item) + more;
    var j := |Prefix| + |item|;
    assert s[..|Prefix|] == Prefix;
    assert s[|Prefix|..j] == item;
    assert s[j] == '"';
    assert forall k :: |Prefix| <= k < j ==> s[k] == item[k - |Prefix|];
    assert FirstIndexOf(s, '"', |Prefix|) == Some(j);
    var close := Middle + item + Suffix;
    assert s[j..] == close + more;
    assert (close + more)[..|close|] == close;
    assert (close + more)[|close|..] == more;
  }

  /** The generated markup of two or more values: the first tag, a
      newline, and the markup of the others, which is not empty. */
  lemma GenerateCons(items: seq<string>)
    requires |items| > 1
    ensures GenerateOptions(items) == OptionTag(items[0]) + ("\n" + GenerateOptions(items[1..]))
    ensures |GenerateOptions(items[1..])| > 0
  {
    var tags := Tags(items);
    assert Tags(items[1..]) == tags[1..];
    var rest := Tags(items[1..]);
    assert |rest| > 1 ==> |Join(rest, "\n")| >= |rest[0]|;
  }

  /** Reading stops after the last option, and goes on after a newline. */
  lemma ReadOptionsStep(s: string, v: string, rest: string)
    requires |s| > 0 && ReadOption(s) == Some((v, rest))
    ensures |rest| == 0 ==> ReadOptions(s) == Some([v])
    ensures |rest| > 1 && rest[0] == '\n' && ReadOptions(rest[1..]).Some? ==>
      ReadOptions(s) == Some([v] + ReadOptions(rest[1..]).value)
  {
  }

  /** The values a browser reads from the generated markup are the facet
      values, in order, when each of them is plain. */
  lemma {:induction false} ReadGenerated(items: seq<string>)
    requires forall i :: 0 <= i < |items| ==> Plain(items[i])
    ensures ReadOptions(GenerateOptions(items)) == Some(items)
  {
    if |items| == 1 {
      var s := OptionTag(items[0]);
      ReadOptionTag(items[0], "");
      assert s + "" == s;
      ReadOptionsStep(s, items[0], "");
      assert GenerateOptions(items) == s;
      assert [items[0]] == items;
    } else if |items| > 1 {
      var rest := GenerateOptions(items[1..]);
      var s := OptionTag(items[0]) + ("\n" + rest);
      GenerateCons(items);
      ReadOptionTag(items[0], "\n" + rest);
      assert ("\n" + rest)[1..] == rest;
      ReadGenerated(items[1..]);
      ReadOptionsStep(s, items[0], "\n" + rest);
      assert items == [items[0]] + items[1..];
    }
  }

  /** An unescaped quote breaks the value: the option a browser reads
      from `a"b` is not `a"b`. */
  lemma QuoteBreaksValue()
    ensures ReadOptions(GenerateOptions(["a\"b"])) != Some(["a\"b"])
  {
    var s := GenerateOptions(["a\"b"]);
    assert s == OptionTag("a\"b");
    assert s[..|Prefix|] == Prefix;
    assert s[|Prefix|] == 'a' && s[|Prefix| + 1] == '"';
    assert FirstIndexOf(s, '"', |Prefix|) == Some(|Prefix| + 1);
    assert s[|Prefix| + 1..][..|Middle|] != Middle by {
      assert s[|Prefix| + 2] == 'b';
    }
  }
}
