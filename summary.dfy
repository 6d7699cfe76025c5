/** The string and JSON post-processing of the professor summary scripts:
    `extract_clean_summary` (the same function in all four scripts), the
    output cleanup and fallbacks of `create_final_holistic_summary` (the log
    and multi-threaded scripts share it), and the key check of
    `create_final_summary_and_tags` in the newest script. The language model
    and the JSON decoder are parameters. */
module Summary {
  import opened Text

  const ThinkEnd := "</think>"
  const Rule := "---"
  const JsonFence := "```json"
  const Fence := "```"

  const UnavailableSummary := "AI summary could not be generated at this time."
  const ErrorSummary := "AI summary could not be generated due to an error."

  /** A decoded JSON value as Python holds it. Numbers keep only their integer
      value; an object is a dictionary from keys to values. */
  datatype Json =
    | JNull
    | JBool(b: bool)
    | JNumber(n: int)
    | JString(s: string)
    | JArray(items: seq<Json>)
    | JObject(fields: map<string, Json>)

  // ---------------------------------------------------------------------------
  // extract_clean_summary

  /** What remains after the last `</think>`, or the text itself without one. */
  function AfterThinking(raw: string): (r: string)
    ensures !Contains(r, ThinkEnd)
    ensures !Contains(raw, ThinkEnd) ==> r == raw
  {
    if Contains(raw, ThinkEnd) then
      LastPartAfterSeparator(raw, ThinkEnd);
      LastPart(raw, ThinkEnd)
    else raw
  }

  /** What comes before the first `---`, or the text itself without one. */
  function BeforeRule(text: string): (r: string)
    ensures |r| <= |text| && r == text[..|r|]
    ensures !Contains(r, Rule)
    ensures !Contains(text, Rule) ==> r == text
  {
    if Contains(text, Rule) then
      SplitPartsFree(text, Rule);
      SplitFirstPrefix(text, Rule);
      Split(text, Rule)[0]
    else text
  }

  /** The text after the last `</think>`, cut at the first `---`, stripped. */
  function ExtractCleanSummary(raw: string): (r: string)
    ensures IsStripped(PySpace, r)
    ensures !Contains(r, ThinkEnd)
    ensures !Contains(r, Rule)
    ensures !Contains(raw, ThinkEnd) && !Contains(raw, Rule) ==> r == Strip(PySpace, raw)
  {
    var processed := AfterThinking(raw);
    var beforeRule := BeforeRule(processed);
    assert !Contains(beforeRule, ThinkEnd) by {
      NotContainsSlice(processed, ThinkEnd, 0, |beforeRule|);
      assert processed[0..|beforeRule|] == beforeRule;
    }
    StripKeepsAbsence(PySpace, beforeRule, ThinkEnd);
    StripKeepsAbsence(PySpace, beforeRule, Rule);
    Strip(PySpace, beforeRule)
  }

  /** Cleaning a cleaned summary changes nothing. */
  lemma CleanSummaryIdempotent(raw: string)
    ensures ExtractCleanSummary(ExtractCleanSummary(raw)) == ExtractCleanSummary(raw)
  {
    StripStripped(PySpace, ExtractCleanSummary(raw));
  }

  /** Everything up to and including the last `</think>` is ignored. */
  lemma ThinkingIgnored(thinking: string, answer: string)
    requires !Contains(answer, ThinkEnd)
    ensures ExtractCleanSummary(thinking + ThinkEnd + answer) == ExtractCleanSummary(answer)
  {
    var s := thinking + ThinkEnd + answer;
    assert OccursAt(s, ThinkEnd, |thinking|) by {
      assert s[|thinking|..|thinking| + |ThinkEnd|] == ThinkEnd;
    }
    assert forall j :: 0 < j < |ThinkEnd| ==> ThinkEnd[j] != ThinkEnd[0];
    LastPartSuffix(thinking, ThinkEnd, answer);
    assert AfterThinking(s) == AfterThinking(answer);
  }

  /** Everything from the first `---` on is ignored, in a reply without
      thinking. */
  lemma ExplanationIgnored(summary: string, explanation: string)
    requires !Contains(summary + Rule + explanation, ThinkEnd)
    requires !Contains(summary, Rule) && (summary == [] || summary[|summary| - 1] != '-')
    ensures ExtractCleanSummary(summary + Rule + explanation) == Strip(PySpace, summary)
  {
    var s := summary + Rule + explanation;
    FirstRuleAfter(summary, explanation);
    assert AfterThinking(s) == s;
    assert BeforeRule(s) == summary;
  }

  /** The first `---` of `summary + Rule + explanation` is the one after
      `summary` when `summary` neither holds one nor ends in '-'. */
  lemma FirstRuleAfter(summary: string, explanation: string)
    requires !Contains(summary, Rule) && (summary == [] || summary[|summary| - 1] != '-')
    ensures Contains(summary + Rule + explanation, Rule)
    ensures Split(summary + Rule + explanation, Rule)[0] == summary
  {
    var s := summary + Rule + explanation;
    forall j | 0 <= j < |summary| ensures !OccursAt(s, Rule, j) {
      if j + 3 <= |summary| {
        assert s[j..j + 3] == summary[j..j + 3];
        assert !OccursAt(summary, Rule, j);
      } else {
        assert s[j..j + 3][|summary| - 1 - j] == summary[|summary| - 1];
      }
    }
    SplitAt(summary, Rule, explanation);
    assert OccursAt(s, Rule, |summary|) by {
      assert s[|summary|..|summary| + 3] == Rule;
    }
  }

  // ---------------------------------------------------------------------------
  // create_final_holistic_summary: cleanup and fallbacks

  /** The fallback result `{"summary": summary, "tags": []}`. */
  function Fallback(summary: string): Json
  {
    JObject(map["summary" := JString(summary), "tags" := JArray([])])
  }

  predicate HasSummaryAndTags(data: Json)
  {
    data.JObject? && "summary" in data.fields && "tags" in data.fields
  }

  /** The reply after the last `</think>`, stripped, with every "```json" and
      then every "```" deleted, stripped again. */
  function CleanJsonString(raw: string): (r: string)
    ensures IsStripped(PySpace, r)
    ensures !Contains(r, Fence)
  {
    var withoutJsonFences := RemoveAll(Strip(PySpace, AfterThinking(raw)), JsonFence);
    var unfenced := RemoveAll(withoutJsonFences, Fence);
    RemoveAllRunFree(withoutJsonFences, Fence);
    StripKeepsAbsence(PySpace, unfenced, Fence);
    Strip(PySpace, unfenced)
  }

  /** A reply of exactly one fenced JSON block yields the block's content. */
  lemma FencedReplyUnwrapped(content: string)
    requires !Contains(content, Fence)
    requires !Contains(JsonFence + "\n" + content + "\n" + Fence, ThinkEnd)
    ensures CleanJsonString(JsonFence + "\n" + content + "\n" + Fence) == Strip(PySpace, content)
  {
    var raw := JsonFence + "\n" + content + "\n" + Fence;
    var body := "\n" + content + "\n";
    assert AfterThinking(raw) == raw;
    assert Strip(PySpace, raw) == raw by {
      StripStripped(PySpace, raw);
    }
    OpeningFenceRemoved(content);
    ClosingFenceRemoved(content);
    assert body == ['\n'] + content + ['\n'];
    StripPadded(PySpace, '\n', content, '\n');
  }

  lemma OpeningFenceRemoved(content: string)
    requires !Contains(content, Fence)
    ensures RemoveAll(JsonFence + "\n" + content + "\n" + Fence, JsonFence) == "\n" + content + "\n" + Fence
  {
    var rest := "\n" + content + "\n" + Fence;
    BodyHasNoJsonFence(content);
    assert JsonFence + "\n" + content + "\n" + Fence == "" + JsonFence + rest;
    SplitAt("", JsonFence, rest);
    SplitNoSep(rest, JsonFence);
    assert Concat(["", rest]) == "" + Concat([rest]);
    assert Concat([rest]) == rest + Concat([]);
  }

  lemma ClosingFenceRemoved(content: string)
    requires !Contains(content, Fence)
    ensures RemoveAll("\n" + content + "\n" + Fence, Fence) == "\n" + content + "\n"
  {
    var body := "\n" + content + "\n";
    var t := body + Fence + "";
    forall j | 0 <= j < |body| ensures !OccursAt(t, Fence, j) {
      if j == 0 {
        assert t[0..3][0] == '\n';
      } else if j + 3 <= |content| + 1 {
        assert t[j..j + 3] == content[j - 1..j + 2];
        assert !OccursAt(content, Fence, j - 1);
      } else {
        assert t[j..j + 3][|content| + 1 - j] == '\n';
      }
    }
    assert "\n" + content + "\n" + Fence == t;
    SplitAt(body, Fence, "");
    assert Split("", Fence) == [""];
    assert Concat([body, ""]) == body + Concat([""]);
    assert Concat([""]) == "" + Concat([]);
  }

  /** The text after an opening "```json" fence holds no second one. */
  lemma BodyHasNoJsonFence(content: string)
    requires !Contains(content, Fence)
    ensures !Contains("\n" + content + "\n" + Fence, JsonFence)
  {
    var t := "\n" + content + "\n" + Fence;
    forall j | 0 <= j <= |t| - |JsonFence| ensures !OccursAt(t, JsonFence, j) {
      if j == 0 {
        assert t[0..7][0] == '\n';
      } else {
        assert t[j..j + 7][..3] == content[j - 1..j + 2];
        assert !OccursAt(content, Fence, j - 1);
      }
    }
  }

  /** The result for the model's reply (`None` when the chat call raises),
      with `decode` standing for `json.loads` (`None` when it raises). */
  function HolisticSummary(reply: Option<string>, decode: string -> Option<Json>): (r: Json)
    ensures HasSummaryAndTags(r)
  {
    if reply.None? then Fallback(ErrorSummary)
    else if reply.value == "" then Fallback(UnavailableSummary)
    else
      var cleanJson := CleanJsonString(reply.value);
      var data := decode(cleanJson);
      if data.Some? && HasSummaryAndTags(data.value) then data.value
      else Fallback(cleanJson)
  }

  /** An empty reply gives the fixed fallback, whatever the decoder does. */
  lemma HolisticEmptyReply(decode: string -> Option<Json>)
    ensures HolisticSummary(Some(""), decode) == Fallback(UnavailableSummary)
    ensures HolisticSummary(Some(""), decode).fields["summary"] == JString(UnavailableSummary)
    ensures HolisticSummary(Some(""), decode).fields["tags"] == JArray([])
  {
  }

  /** For a non-empty reply the decoded value is returned exactly when it is
      a dictionary with both keys; otherwise the cleaned string becomes the
      summary with no tags. */
  lemma HolisticDecoded(raw: string, decode: string -> Option<Json>)
    requires raw != ""
    ensures var data := decode(CleanJsonString(raw));
      && (data.Some? && HasSummaryAndTags(data.value) <==>
            data.Some? && HolisticSummary(Some(raw), decode) == data.value)
      && (!(data.Some? && HasSummaryAndTags(data.value)) ==>
            HolisticSummary(Some(raw), decode) == Fallback(CleanJsonString(raw)))
  {
  }

  // ---------------------------------------------------------------------------
  // create_final_summary_and_tags (newest script)

  /** Python's `key in data`: membership among the keys of a dictionary, among
      the elements of a list, or as a substring of a string; `None` when `in`
      raises a `TypeError` (numbers, booleans, `null`). */
  function PyIn(key: string, data: Json): (r: Option<bool>)
    ensures r.Some? <==> data.JObject? || data.JArray? || data.JString?
    ensures data.JObject? ==> r == Some(key in data.fields)
  {
    match data
    case JObject(fields) => Some(key in fields)
    case JArray(items) => Some(JString(key) in items)
    case JString(s) => Some(Contains(s, key))
    case _ => None
  }

  /** The function as written: `reply` is the model's reply (`None` when the
      chat call raises), `decode` is `json.loads`, `show` is Python's `str`.
      Any exception gives the fixed fallback. */
  function SummaryAndTagsAsWritten(reply: Option<string>, decode: string -> Option<Json>, show: Json -> string): (r: Json)
    ensures HasSummaryAndTags(r) || r.JArray? || r.JString?
  {
    if reply.None? || decode(reply.value).None? then Fallback(UnavailableSummary)
    else
      var data := decode(reply.value).value;
      match PyIn("summary", data)
      case None => Fallback(UnavailableSummary)
      case Some(hasSummary) =>
        if hasSummary && PyIn("tags", data) == Some(true) then data
        else Fallback(show(data))
  }

  /** A decoded list holding the two key names passes the key check and is
      returned as it is, although the caller reads it as a dictionary. */
  lemma KeyNamesListPassesCheck(reply: string, decode: string -> Option<Json>, show: Json -> string)
    requires decode(reply) == Some(JArray([JString("summary"), JString("tags")]))
    ensures SummaryAndTagsAsWritten(Some(reply), decode, show) == JArray([JString("summary"), JString("tags")])
    ensures !HasSummaryAndTags(SummaryAndTagsAsWritten(Some(reply), decode, show))
  {
    assert JString("summary") in [JString("summary"), JString("tags")];
    assert JString("tags") in [JString("summary"), JString("tags")];
  }

  /** Every outcome of the function as written, for a reply that decodes to
      `d`: `d` itself exactly when both `in` tests hold; the `str(d)` fallback
      when a test fails without raising; the fixed fallback when `in` raises. */
  lemma SummaryAndTagsAsWrittenDecoded(reply: string, decode: string -> Option<Json>, show: Json -> string, d: Json)
    requires decode(reply) == Some(d)
    ensures PyIn("summary", d) == Some(true) && PyIn("tags", d) == Some(true) <==>
              SummaryAndTagsAsWritten(Some(reply), decode, show) == d
    ensures PyIn("summary", d).Some? && !(PyIn("summary", d) == Some(true) && PyIn("tags", d) == Some(true)) ==>
              SummaryAndTagsAsWritten(Some(reply), decode, show) == Fallback(show(d))
    ensures PyIn("summary", d).None? ==>
              SummaryAndTagsAsWritten(Some(reply), decode, show) == Fallback(UnavailableSummary)
  {
    if PyIn("summary", d).Some? && !(PyIn("summary", d) == Some(true) && PyIn("tags", d) == Some(true)) {
      // the fallback has both keys, so it is not the value that failed a test
      assert d.JObject? ==> !HasSummaryAndTags(d);
    }
  }

  /** The function with the dictionary check the other two scripts make:
      `data if isinstance(data, dict) and "summary" in data and "tags" in data
      else {"summary": str(data), "tags": []}`. The `isinstance` test comes
      first, so `in` is only applied to a dictionary and never raises. */
  function SummaryAndTags(reply: Option<string>, decode: string -> Option<Json>, show: Json -> string): (r: Json)
    ensures HasSummaryAndTags(r)
  {
    if reply.None? || decode(reply.value).None? then Fallback(UnavailableSummary)
    else
      var data := decode(reply.value).value;
      if HasSummaryAndTags(data) then data
      else Fallback(show(data))
  }

  /** Every outcome of the corrected function for a reply that decodes to `d`:
      `d` itself exactly when it is a dictionary with both keys, and the
      `str(d)` fallback otherwise. */
  lemma SummaryAndTagsDecoded(reply: string, decode: string -> Option<Json>, show: Json -> string, d: Json)
    requires decode(reply) == Some(d)
    ensures HasSummaryAndTags(d) <==> SummaryAndTags(Some(reply), decode, show) == d
    ensures !HasSummaryAndTags(d) ==> SummaryAndTags(Some(reply), decode, show) == Fallback(show(d))
  {
  }

  /** The two versions agree whenever the call or the decode fails, and
      whenever the reply decodes to a dictionary. They differ only on other
      decoded values: a list or string holding both key names is returned as
      it is by the original, and a number, boolean or `null` makes the
      original's `in` raise where the corrected check falls back to `str`. */
  lemma SummaryAndTagsCorrection(reply: Option<string>, decode: string -> Option<Json>, show: Json -> string)
    ensures reply.None? || decode(reply.value).None? || decode(reply.value).value.JObject? ==>
              SummaryAndTags(reply, decode, show) == SummaryAndTagsAsWritten(reply, decode, show)
    ensures reply.Some? && decode(reply.value).Some? && !decode(reply.value).value.JObject? ==>
              SummaryAndTags(reply, decode, show) == Fallback(show(decode(reply.value).value))
  {
  }

  /** A failed call or decode gives the fixed fallback. */
  lemma SummaryAndTagsFailure(reply: Option<string>, decode: string -> Option<Json>, show: Json -> string)
    requires reply.None? || decode(reply.value).None?
    ensures SummaryAndTags(reply, decode, show) == Fallback(UnavailableSummary)
    ensures SummaryAndTagsAsWritten(reply, decode, show) == Fallback(UnavailableSummary)
  {
  }
}
