/** `extract_json_from_text` of both collectors: a fixed fallback chain over
    one blob of agent output. `json.loads` is the parameter `parse`, which
    answers `None` where Python raises `JSONDecodeError`; the clock reading
    is the parameter `now`. */
module Extractor {
  import opened Wrappers
  import opened Text
  import Fenced
  import Brace

  /** A decoded JSON document. */
  datatype Json =
    | JNull
    | JBool(b: bool)
    | JInt(i: int)
    | JFloat(x: real)
    | JString(s: string)
    | JArray(items: seq<Json>)
    | JObject(members: seq<(string, Json)>)

  /** `json.loads`: `None` stands for a `JSONDecodeError`. */
  type Parser = string -> Option<Json>

  /** The diagnostic both collectors put in the failure template. */
  const ExtractionError: string := "JSON データの抽出に失敗しました"

  /** Python dict lookup on an object literal: a later duplicate key
      overrides an earlier one. */
  function Get(j: Json, name: string): (r: Option<Json>)
    ensures r.Some? ==> j.JObject? && exists i :: 0 <= i < |j.members| && j.members[i] == (name, r.value) &&
                                        forall k :: i < k < |j.members| ==> j.members[k].0 != name
    ensures r.None? && j.JObject? ==> forall i :: 0 <= i < |j.members| ==> j.members[i].0 != name
  {
    match j
    case JObject(ms) => LookupLast(ms, name)
    case _ => None
  }

  function LookupLast(ms: seq<(string, Json)>, name: string): (r: Option<Json>)
    ensures r.Some? ==> exists i :: 0 <= i < |ms| && ms[i] == (name, r.value) &&
                                    forall k :: i < k < |ms| ==> ms[k].0 != name
    ensures r.None? ==> forall i :: 0 <= i < |ms| ==> ms[i].0 != name
  {
    if |ms| == 0 then None
    else if ms[|ms| - 1].0 == name then Some(ms[|ms| - 1].1)
    else
      var r := LookupLast(ms[..|ms| - 1], name);
      assert forall i :: 0 <= i < |ms| - 1 ==> ms[..|ms| - 1][i] == ms[i];
      r
  }

  /** A key that occurs once in an object literal is found at its place. */
  lemma {:induction false} LookupSingle(ms: seq<(string, Json)>, name: string, i: nat)
    requires i < |ms| && ms[i].0 == name
    requires forall j :: 0 <= j < |ms| && j != i ==> ms[j].0 != name
    ensures LookupLast(ms, name) == Some(ms[i].1)
    decreases |ms|
  {
    if i < |ms| - 1 {
      LookupSingle(ms[..|ms| - 1], name, i);
    }
  }

  /** The document returned when nothing parses. For a collection key other
      than the three fixed names, it holds "now" as `collected_at`, a zero
      `total_count`, an empty collection and a non-empty `error`. */
  function Template(key: string, now: string): (r: Json)
    ensures r.JObject? && |r.members| == 4
    ensures key !in {"collected_at", "total_count", "error"} ==>
      && Get(r, "collected_at") == Some(JString(now))
      && Get(r, "total_count") == Some(JInt(0))
      && Get(r, key) == Some(JArray([]))
      && Get(r, "error").Some? && Get(r, "error").value.JString?
      && |Get(r, "error").value.s| > 0
  {
    var ms := [
      ("collected_at", JString(now)),
      ("total_count", JInt(0)),
      (key, JArray([])),
      ("error", JString(ExtractionError))
    ];
    assert key !in {"collected_at", "total_count", "error"} ==>
      && LookupLast(ms, "collected_at") == Some(JString(now))
      && LookupLast(ms, "total_count") == Some(JInt(0))
      && LookupLast(ms, key) == Some(JArray([]))
      && LookupLast(ms, "error") == Some(JString(ExtractionError))
    by {
      if key !in {"collected_at", "total_count", "error"} {
        LookupSingle(ms, "collected_at", 0);
        LookupSingle(ms, "total_count", 1);
        LookupSingle(ms, key, 2);
        LookupSingle(ms, "error", 3);
      }
    }
    JObject(ms)
  }

  /** The `for match in reversed(...)` loop: the first candidate, counting
      from the end, that parses; parse failures are skipped. */
  function LastParsed(cands: seq<string>, parse: Parser): (r: Option<Json>)
    ensures r.None? <==> forall i :: 0 <= i < |cands| ==> parse(cands[i]).None?
    ensures r.Some? ==> exists i :: 0 <= i < |cands| && parse(cands[i]) == r &&
                                    (forall j :: i < j < |cands| ==> parse(cands[j]).None?)
  {
    if |cands| == 0 then None
    else
      var last := |cands| - 1;
      match parse(cands[last])
      case Some(d) => Some(d)
      case None =>
        var r := LastParsed(cands[..last], parse);
        assert forall i :: 0 <= i < last ==> cands[..last][i] == cands[i];
        r
  }

  /** With at most one candidate, the loop is a single parse attempt. */
  lemma LastParsedOfOne(cands: seq<string>, parse: Parser)
    requires |cands| <= 1
    ensures LastParsed(cands, parse) == if |cands| == 1 then parse(cands[0]) else None
  {
    if |cands| == 1 {
      assert cands[..0] == [];
    }
  }

  /** Stage one: only the last fenced block is parsed; an earlier block is
      never retried. */
  function FencedStage(text: string, parse: Parser): Option<Json> {
    var caps := Fenced.Captures(text);
    if |caps| == 0 then None else parse(caps[|caps| - 1])
  }

  /** Stage two: the brace candidates, last to first. */
  function BraceStage(text: string, key: string, parse: Parser): Option<Json> {
    LastParsed(Brace.Candidates(text, Brace.Quoted(key)), parse)
  }

  /** The whole chain. It never fails: a parse error anywhere moves on to
      the next stage, and the template is the last resort. */
  function Extract(text: string, key: string, now: string, parse: Parser): (r: Json)
    ensures var caps := Fenced.Captures(text);
      |caps| > 0 && parse(caps[|caps| - 1]).Some? ==> r == parse(caps[|caps| - 1]).value
    ensures var caps := Fenced.Captures(text);
      var cands := Brace.Candidates(text, Brace.Quoted(key));
      (|caps| == 0 || parse(caps[|caps| - 1]).None?) ==>
        if |cands| == 1 && parse(cands[0]).Some? then r == parse(cands[0]).value
        else r == Template(key, now)
  {
    LastParsedOfOne(Brace.Candidates(text, Brace.Quoted(key)), parse);
    match FencedStage(text, parse)
    case Some(d) => d
    case None =>
      match BraceStage(text, key, parse)
      case Some(d) => d
      case None => Template(key, now)
  }

  /** When no candidate parses at all, the chain ends at the template. */
  lemma NothingParses(text: string, key: string, now: string, parse: Parser)
    requires forall s :: parse(s).None?
    ensures Extract(text, key, now, parse) == Template(key, now)
  {
    assert FencedStage(text, parse).None?;
    var cands := Brace.Candidates(text, Brace.Quoted(key));
    assert forall i :: 0 <= i < |cands| ==> parse(cands[i]).None?;
    assert BraceStage(text, key, parse).None?;
  }

  /** The extractor of the news collector: the last fenced block if it
      parses, else the brace candidate if it parses, else the template
      with an empty "articles" list and a zero "total_count". */
  function ExtractNews(text: string, now: string, parse: Parser): (r: Json)
    ensures var caps := Fenced.Captures(text);
      |caps| > 0 && parse(caps[|caps| - 1]).Some? ==> r == parse(caps[|caps| - 1]).value
    ensures var caps := Fenced.Captures(text);
      var cands := Brace.Candidates(text, Brace.Quoted("articles"));
      (|caps| == 0 || parse(caps[|caps| - 1]).None?) && |cands| == 1 && parse(cands[0]).Some? ==>
        r == parse(cands[0]).value
    ensures var caps := Fenced.Captures(text);
      var cands := Brace.Candidates(text, Brace.Quoted("articles"));
      (|caps| == 0 || parse(caps[|caps| - 1]).None?) && (|cands| == 0 || parse(cands[0]).None?) ==>
        && r == Template("articles", now)
        && Get(r, "articles") == Some(JArray([]))
        && Get(r, "total_count") == Some(JInt(0))
    ensures (forall s :: parse(s).None?) ==> r == Template("articles", now)
  {
    assert "articles" !in {"collected_at", "total_count", "error"};
    assert (forall s :: parse(s).None?) ==> Extract(text, "articles", now, parse) == Template("articles", now) by {
      if forall s :: parse(s).None? {
        NothingParses(text, "articles", now, parse);
      }
    }
    Extract(text, "articles", now, parse)
  }

  /** The extractor of the ramen collector: the last fenced block if it
      parses, else the brace candidate if it parses, else the template
      with an empty "shops" list and a zero "total_count". */
  function ExtractRamen(text: string, now: string, parse: Parser): (r: Json)
    ensures var caps := Fenced.Captures(text);
      |caps| > 0 && parse(caps[|caps| - 1]).Some? ==> r == parse(caps[|caps| - 1]).value
    ensures var caps := Fenced.Captures(text);
      var cands := Brace.Candidates(text, Brace.Quoted("shops"));
      (|caps| == 0 || parse(caps[|caps| - 1]).None?) && |cands| == 1 && parse(cands[0]).Some? ==>
        r == parse(cands[0]).value
    ensures var caps := Fenced.Captures(text);
      var cands := Brace.Candidates(text, Brace.Quoted("shops"));
      (|caps| == 0 || parse(caps[|caps| - 1]).None?) && (|cands| == 0 || parse(cands[0]).None?) ==>
        && r == Template("shops", now)
        && Get(r, "shops") == Some(JArray([]))
        && Get(r, "total_count") == Some(JInt(0))
    ensures (forall s :: parse(s).None?) ==> r == Template("shops", now)
  {
    assert "shops" !in {"collected_at", "total_count", "error"};
    assert (forall s :: parse(s).None?) ==> Extract(text, "shops", now, parse) == Template("shops", now) by {
      if forall s :: parse(s).None? {
        NothingParses(text, "shops", now, parse);
      }
    }
    Extract(text, "shops", now, parse)
  }

  /** Earlier fenced blocks are never consulted: two parsers that agree on
      the last fenced block and on the brace candidates give the same
      result, whatever they do with the other blocks. */
  lemma OnlyLastBlockMatters(text: string, key: string, now: string, p1: Parser, p2: Parser)
    requires var caps := Fenced.Captures(text);
      |caps| > 0 ==> p1(caps[|caps| - 1]) == p2(caps[|caps| - 1])
    requires forall c :: c in Brace.Candidates(text, Brace.Quoted(key)) ==> p1(c) == p2(c)
    ensures Extract(text, key, now, p1) == Extract(text, key, now, p2)
  {
    assert FencedStage(text, p1) == FencedStage(text, p2);
    CandidatesAgree(Brace.Candidates(text, Brace.Quoted(key)), p1, p2);
  }

  /** Parsers that agree on at most one candidate agree on the loop. */
  lemma CandidatesAgree(cands: seq<string>, p1: Parser, p2: Parser)
    requires |cands| <= 1
    requires forall c :: c in cands ==> p1(c) == p2(c)
    ensures LastParsed(cands, p1) == LastParsed(cands, p2)
  {
    LastParsedOfOne(cands, p1);
    LastParsedOfOne(cands, p2);
    if |cands| == 1 {
      assert cands[0] in cands;
    }
  }
}
