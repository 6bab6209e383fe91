/** Reviewer-output parsing in three stages - exact, tolerant, repair - and the evidence that the
    resulting response must carry (arena/reviewers/response_parser.py:35-284,
    arena/core/models.py:394-482).  JSON decoding, path admission and schema validation are
    foreign functions, and every result holds for all of them. */
module Salvage {
  import opened CommaScanner
  import opened StrictJson
  import opened Common

  type Fields = map<string, Json>

  datatype ReviewResult = ReviewResult(findings: seq<Json>)

  /** Code that is not part of the parser: json.loads, admit_reviewer_path and the two schema
      validators, with the messages of their exceptions. */
  datatype Foreign =
    Foreign(decode: string -> Option<Json>, admit: Json -> Option<Json>,
            finding: Json -> bool, review: Fields -> Option<ReviewResult>,
            decodeError: string -> string, findingError: (int, Json) -> string, reviewError: Fields -> string)

  const FINDINGS_PER_RESPONSE := 200
  const SUMMARY_LEN := 512
  const ACTIONS_MAX := 16

  /** The schema requires a findings list of bounded length and keeps every element of it. */
  ghost predicate SchemaKeepsFindings(w: Foreign) {
    forall d: Fields :: w.review(d).Some? ==>
      && "findings" in d && d["findings"].Array?
      && |w.review(d).value.findings| == |d["findings"].items| <= FINDINGS_PER_RESPONSE
  }

  datatype Action =
    | StripMarkdownFence | ExtractJsonObject | RemoveTrailingCommas
    | WrapFindingsList | DefaultOverallRisk | DefaultReviewSummary | DropInvalidFindings

  datatype Status = Exact | Tolerant | Repaired | Invalid

  datatype Outcome =
    Outcome(result: Option<ReviewResult>, status: Status, attempts: nat, actions: seq<Action>,
            input: Option<nat>, retained: Option<nat>, dropped: nat, reason: Option<string>)

  // ---------------------------------------------------------------- text transforms

  /** Unicode white space, as str.strip and the regex class \s see it. */
  predicate IsSpace(c: char) {
    var n := c as int;
    0x9 <= n <= 0xD || 0x1C <= n <= 0x20 || n == 0x85 || n == 0xA0 || n == 0x1680 || 0x2000 <= n <= 0x200A
    || n == 0x2028 || n == 0x2029 || n == 0x202F || n == 0x205F || n == 0x3000
  }

  /** The same characters, listed. */
  lemma {:induction false} SpacesAre(c: char)
    ensures IsSpace(c) <==>
              || c in "\t\n\r " || '\U{0B}' <= c <= '\U{0C}' || '\U{1C}' <= c <= '\U{1F}'
              || c in ['\U{85}', '\U{A0}', '\U{1680}', '\U{2028}', '\U{2029}', '\U{202F}', '\U{205F}', '\U{3000}']
              || '\U{2000}' <= c <= '\U{200A}'
  {
  }

  function StripLeft(s: string, space: char -> bool): (r: string)
    ensures |r| <= |s|
  {
    if s != "" && space(s[0]) then StripLeft(s[1..], space) else s
  }

  function StripRight(s: string, space: char -> bool): (r: string)
    ensures |r| <= |s|
  {
    if s != "" && space(s[|s| - 1]) then StripRight(s[..|s| - 1], space) else s
  }

  /** str.strip. */
  function Strip(s: string): string { StripRight(StripLeft(s, IsSpace), IsSpace) }

  /** Without the white space around it that JSON allows (section 2 of RFC 8259). */
  function Trim(s: string): string { StripRight(StripLeft(s, JsonSpace), JsonSpace) }

  predicate StartsWith(s: string, prefix: string) { prefix <= s }

  predicate EndsWith(s: string, suffix: string) { |suffix| <= |s| && s[|s| - |suffix|..] == suffix }

  const FENCE := "```"

  /** Without the opening fence, its optional language tag and the space after it, and without a
      closing fence and the space before it. */
  function Unfence(text: string): (inner: string)
    requires StartsWith(text, FENCE)
    ensures |inner| < |text|
  {
    var body := text[3..];
    var inner := StripLeft(if StartsWith(body, "json") then body[4..] else body, IsSpace);
    if EndsWith(inner, FENCE) then StripRight(inner[..|inner| - 3], IsSpace) else inner
  }

  function FirstIndex(s: string, c: char, from: nat): (i: int)
    requires from <= |s|
    ensures i == -1 || (from <= i < |s| && s[i] == c)
    decreases |s| - from
  {
    if from == |s| then -1 else if s[from] == c then from else FirstIndex(s, c, from + 1)
  }

  function LastIndex(s: string, c: char, end: nat): (i: int)
    requires end <= |s|
    ensures i == -1 || (0 <= i < end && s[i] == c)
  {
    if end == 0 then -1 else if s[end - 1] == c then end - 1 else LastIndex(s, c, end - 1)
  }

  /** The text from the first brace to the last, when that is less than all of it. */
  function Extract(text: string): (r: Option<string>)
    ensures r.Some? ==> |r.value| < |text|
  {
    var first, last := FirstIndex(text, '{', 0), LastIndex(text, '}', |text|);
    if first >= 0 && last > first && (first > 0 || last < |text| - 1) then Some(text[first..last + 1]) else None
  }

  function Transform(raw: string): (string, seq<Action>) {
    var text := Strip(raw);
    var fenced := StartsWith(text, FENCE) && Unfence(text) != text;
    var text1 := if fenced then Unfence(text) else text;
    var extracted := Extract(text1);
    var text2 := if extracted.Some? then extracted.value else text1;
    var cleaned := Clean(text2, Outside);
    (cleaned,
     (if fenced then [StripMarkdownFence] else []) + (if extracted.Some? then [ExtractJsonObject] else [])
     + if cleaned != text2 then [RemoveTrailingCommas] else [])
  }

  // ---------------------------------------------------------------- what the transforms take off

  ghost predicate AllSpace(s: string) { forall i :: 0 <= i < |s| ==> IsSpace(s[i]) }

  ghost predicate NoSpaceAround(t: string) { t != "" ==> !IsSpace(t[0]) && !IsSpace(t[|t| - 1]) }

  lemma {:induction false} StripLeftTakesOff(before: string, t: string)
    requires AllSpace(before) && (t != "" ==> !IsSpace(t[0]))
    ensures StripLeft(before + t, IsSpace) == t
  {
    if before == "" {
      assert before + t == t;
    } else {
      assert (before + t)[1..] == before[1..] + t;
      StripLeftTakesOff(before[1..], t);
    }
  }

  lemma {:induction false} StripRightTakesOff(t: string, after: string)
    requires AllSpace(after) && (t != "" ==> !IsSpace(t[|t| - 1]))
    ensures StripRight(t + after, IsSpace) == t
  {
    if after == "" {
      assert t + after == t;
    } else {
      assert (t + after)[..|t + after| - 1] == t + after[..|after| - 1];
      StripRightTakesOff(t, after[..|after| - 1]);
    }
  }

  lemma {:induction false} StripLeftSplits(s: string) returns (before: string)
    ensures AllSpace(before) && s == before + StripLeft(s, IsSpace)
    ensures StripLeft(s, IsSpace) != "" ==> !IsSpace(StripLeft(s, IsSpace)[0])
  {
    hide IsSpace;
    before := "";
    if s != "" && IsSpace(s[0]) {
      before := StripLeftSplits(s[1..]);
      before := [s[0]] + before;
    }
  }

  lemma {:induction false} StripRightSplits(s: string) returns (after: string)
    ensures AllSpace(after) && s == StripRight(s, IsSpace) + after
    ensures StripRight(s, IsSpace) != "" ==> !IsSpace(StripRight(s, IsSpace)[|StripRight(s, IsSpace)| - 1])
  {
    hide IsSpace;
    after := "";
    if s != "" && IsSpace(s[|s| - 1]) {
      after := StripRightSplits(s[..|s| - 1]);
      after := after + [s[|s| - 1]];
    }
  }

  /** s is t with white space around it. */
  ghost predicate Wrapped(s: string, before: string, t: string, after: string) {
    AllSpace(before) && AllSpace(after) && s == before + t + after && NoSpaceAround(t)
  }

  /** Stripping takes off all white space at both ends and nothing else. */
  lemma {:induction false} StripExactly(s: string, t: string)
    ensures Strip(s) == t <==> exists before, after :: Wrapped(s, before, t, after)
  {
    hide IsSpace;
    if Strip(s) == t {
      var before := StripLeftSplits(s);
      var after := StripRightSplits(StripLeft(s, IsSpace));
      if t != "" { assert StripLeft(s, IsSpace)[0] == t[0]; }
      assert s == before + t + after;
      assert Wrapped(s, before, t, after);
    }
    if exists before, after :: Wrapped(s, before, t, after) {
      var before, after :| Wrapped(s, before, t, after);
      if t == "" {
        assert s == (before + after) + "";
        StripLeftTakesOff(before + after, "");
      } else {
        assert s == before + (t + after);
        StripLeftTakesOff(before, t + after);
        StripRightTakesOff(t, after);
      }
    }
  }

  ghost predicate InProse(text: string, before: string, body: string, after: string) {
    && text == before + body + after && '{' !in before && '}' !in after
    && body != "" && body[0] == '{' && body[|body| - 1] == '}'
  }

  lemma {:induction false} FirstIs(s: string, c: char, from: nat, i: nat)
    requires from <= i < |s| && s[i] == c && forall k :: from <= k < i ==> s[k] != c
    ensures FirstIndex(s, c, from) == i
    decreases i - from
  {
    if from < i { FirstIs(s, c, from + 1, i); }
  }

  lemma {:induction false} LastIs(s: string, c: char, end: nat, i: nat)
    requires i < end <= |s| && s[i] == c && forall k :: i < k < end ==> s[k] != c
    ensures LastIndex(s, c, end) == i
  {
    if i < end - 1 { LastIs(s, c, end - 1, i); }
  }

  lemma {:induction false} FirstHasNoneBefore(s: string, c: char, from: nat)
    requires from <= |s|
    ensures forall k :: from <= k < (if FirstIndex(s, c, from) == -1 then |s| else FirstIndex(s, c, from)) ==> s[k] != c
    decreases |s| - from
  {
    if from < |s| { FirstHasNoneBefore(s, c, from + 1); }
  }

  lemma {:induction false} LastHasNoneAfter(s: string, c: char, end: nat)
    requires end <= |s|
    ensures forall k :: LastIndex(s, c, end) < k < end ==> s[k] != c
  {
    if end > 0 { LastHasNoneAfter(s, c, end - 1); }
  }

  /** What is extracted reaches from the first opening brace to the last closing one, with both, and
      leaves something out. */
  lemma {:induction false} ExtractExactly(text: string, body: string)
    ensures Extract(text) == Some(body) <==> body != text && exists before, after :: InProse(text, before, body, after)
  {
    var first, last := FirstIndex(text, '{', 0), LastIndex(text, '}', |text|);
    FirstHasNoneBefore(text, '{', 0);
    LastHasNoneAfter(text, '}', |text|);
    hide FirstIndex, LastIndex;
    if Extract(text) == Some(body) {
      assert text == text[..first] + body + text[last + 1..];
      assert InProse(text, text[..first], body, text[last + 1..]);
    }
    if body != text && exists before, after :: InProse(text, before, body, after) {
      var before, after :| InProse(text, before, body, after);
      ProseEnds(text, before, body, after);
    }
  }

  lemma {:induction false} ProseEnds(text: string, before: string, body: string, after: string)
    requires InProse(text, before, body, after) && body != text
    ensures Extract(text) == Some(body)
  {
    var i, j := |before|, |before| + |body| - 1;
    forall k | 0 <= k < i ensures text[k] != '{' { assert text[k] == before[k]; }
    forall k | j < k < |text| ensures text[k] != '}' { assert text[k] == after[k - j - 1]; }
    FirstIs(text, '{', 0, i);
    LastIs(text, '}', |text|, j);
    assert text[i..j + 1] == body;
    assert text == "" + body + "" ==> text == body;
  }

  /** A fence is taken off with its language tag, its closing and the white space next to both. */
  lemma {:induction false} FenceIsTakenOff(tag: string, left: string, inner: string, right: string)
    requires tag == "json" || (tag == "" && (left != "" || !StartsWith(inner, "json")))
    requires AllSpace(left) && AllSpace(right) && inner != "" && NoSpaceAround(inner)
    ensures Unfence(FENCE + tag + left + inner + right + FENCE) == inner
  {
    var text := FENCE + tag + left + inner + right + FENCE;
    var rest := inner + right + FENCE;
    hide IsSpace;
    assert text[3..] == tag + (left + rest);
    UntagBody(tag, left, inner, right + FENCE);
    assert rest == inner + (right + FENCE);
    StripLeftTakesOff(left, rest);
    assert rest[|rest| - 3..] == FENCE && rest[..|rest| - 3] == inner + right;
    StripRightTakesOff(inner, right);
  }

  lemma {:induction false} UntagBody(tag: string, left: string, inner: string, rest: string)
    requires tag == "json" || (tag == "" && (left != "" || !StartsWith(inner, "json")))
    requires AllSpace(left) && inner != "" && !IsSpace(inner[|inner| - 1]) && rest != "" && (IsSpace(rest[0]) || rest[0] == '`')
    ensures
      var body := tag + (left + (inner + rest));
      (if StartsWith(body, "json") then body[4..] else body) == left + (inner + rest)
  {
    var later := left + (inner + rest);
    if tag == "json" {
      assert (tag + later)[4..] == later;
    } else {
      assert tag + later == later;
      NotTagged(left, inner, rest);
    }
  }

  lemma {:induction false} TagLetters(s: string)
    ensures StartsWith(s, "json") <==> |s| >= 4 && s[0] == 'j' && s[1] == 's' && s[2] == 'o' && s[3] == 'n'
  {
  }

  lemma {:induction false} NotTagged(left: string, inner: string, rest: string)
    requires AllSpace(left) && inner != "" && (left != "" || !StartsWith(inner, "json"))
    requires !IsSpace(inner[|inner| - 1]) && '`' !in "json" && (rest != "" ==> IsSpace(rest[0]) || rest[0] == '`')
    ensures !StartsWith(left + (inner + rest), "json")
  {
    var all := left + (inner + rest);
    TagLetters(all);
    TagLetters(inner);
    assert left == "" ==> forall i :: 0 <= i < |inner| ==> all[i] == inner[i];
    assert rest != "" ==> all[|left| + |inner|] == rest[0];
    assert left != "" ==> all[0] == left[0];
  }

  /** Trimmed prose around an object, and no fence: the object is cleaned, and that is recorded. */
  lemma {:induction false} ProseIsCutOff(raw: string, before: string, body: string, after: string)
    requires Strip(raw) == raw && !StartsWith(raw, FENCE) && InProse(raw, before, body, after) && body != raw
    ensures Transform(raw).0 == Clean(body, Outside)
    ensures Transform(raw).1 == [ExtractJsonObject] + if Clean(body, Outside) == body then [] else [RemoveTrailingCommas]
  {
    ExtractExactly(raw, body);
    assert [] + [ExtractJsonObject] == [ExtractJsonObject];
    hide Extract, Strip, Clean;
  }

  /** A fenced object: the fence is taken off, the object is cleaned, and both are recorded. */
  lemma {:induction false} FencedIsCleaned(tag: string, left: string, body: string, right: string)
    requires (tag == "json" || tag == "") && AllSpace(left) && AllSpace(right)
    requires body != "" && body[0] == '{' && body[|body| - 1] == '}'
    ensures
      var (text, actions) := Transform(FENCE + tag + left + body + right + FENCE);
      && text == Clean(body, Outside)
      && actions == [StripMarkdownFence] + if Clean(body, Outside) == body then [] else [RemoveTrailingCommas]
  {
    var raw := FENCE + tag + left + body + right + FENCE;
    assert !IsSpace('`') && !IsSpace('{') && !IsSpace('}');
    assert raw[0] == '`' && raw[|raw| - 1] == '`' && raw[..3] == FENCE;
    assert StripLeft(raw, IsSpace) == raw && StripRight(raw, IsSpace) == raw;
    FenceIsTakenOff(tag, left, body, right);
    assert Extract(body) == None by { WholeObject(body); }
    hide Extract, Clean, IsSpace, Unfence;
  }

  lemma {:induction false} WholeObject(body: string)
    requires body != "" && body[0] == '{' && body[|body| - 1] == '}'
    ensures Extract(body) == None
  {
    FirstIs(body, '{', 0, 0);
    LastIs(body, '}', |body|, |body| - 1);
  }

  // ---------------------------------------------------------------- documents

  /** Strict decoding: decodable, and acceptable in structure. */
  ghost function Loads(w: Foreign, text: string): Option<Json> {
    var decoded := w.decode(text);
    if decoded.Some? && Acceptable(decoded.value) then decoded else None
  }

  function FieldsFrom(keys: seq<string>, values: seq<Json>): Fields {
    if keys == [] || values == [] then map[]
    else FieldsFrom(keys[..|keys| - 1], values)[keys[|keys| - 1] := ValueAt(values, |keys| - 1)]
  }

  function ValueAt(values: seq<Json>, i: nat): Json { if i < |values| then values[i] else Null }

  function FieldsOf(j: Json): Fields
    requires j.Object?
  {
    FieldsFrom(j.keys, j.values)
  }

  function KeyIndex(keys: seq<string>, key: string): (i: nat)
    ensures i <= |keys| && (i < |keys| ==> keys[i] == key)
  {
    if keys == [] || keys[0] == key then 0 else 1 + KeyIndex(keys[1..], key)
  }

  /** A finding with its path admitted; None when the path is inadmissible. */
  function Admitted(w: Foreign, item: Json): Option<Json> {
    if !item.Object? then Some(item)
    else
      var i := KeyIndex(item.keys, "file");
      if i >= |item.keys| || i >= |item.values| then Some(item)
      else
        var path := w.admit(item.values[i]);
        if path.None? then None else Some(Object(item.keys, item.values[i := path.value]))
  }

  function AdmitAll(w: Foreign, items: seq<Json>): Option<seq<Json>> {
    if items == [] then Some([])
    else
      var head, tail := Admitted(w, items[0]), AdmitAll(w, items[1..]);
      if head.None? || tail.None? then None else Some([head.value] + tail.value)
  }

  function AdmitPathsStrict(w: Foreign, data: Fields): Option<Fields> {
    if "findings" !in data || !data["findings"].Array? then Some(data)
    else
      var items := AdmitAll(w, data["findings"].items);
      if items.None? then None else Some(data["findings" := Array(items.value)])
  }

  // ---------------------------------------------------------------- the three stages

  function Clip(s: string): (c: string)
    ensures c <= s && |c| <= SUMMARY_LEN && (c == s || |c| == SUMMARY_LEN)
  {
    if |s| <= SUMMARY_LEN then s else s[..SUMMARY_LEN]
  }

  function InvalidOutcome(attempt: nat, reason: string): Outcome {
    Outcome(None, Invalid, attempt, [], None, None, 0, Some(Clip(reason)))
  }

  const NOT_AN_OBJECT := "top-level JSON value is not an object"
  const NOT_A_LIST := "findings must be a JSON array"

  /** The review validator on strictly admitted data. */
  function StrictReview(w: Foreign, data: Fields): Option<ReviewResult> {
    var admitted := AdmitPathsStrict(w, data);
    if admitted.None? then None else w.review(admitted.value)
  }

  ghost function TryExact(w: Foreign, raw: string): Outcome {
    var data := Loads(w, raw);
    if data.None? then InvalidOutcome(1, w.decodeError(raw))
    else if !data.value.Object? then InvalidOutcome(1, NOT_AN_OBJECT)
    else
      var result := StrictReview(w, FieldsOf(data.value));
      if result.None? then InvalidOutcome(1, w.reviewError(FieldsOf(data.value)))
      else
        var count := |result.value.findings|;
        Outcome(result, Exact, 1, [], Some(count), Some(count), 0, None)
  }

  ghost function TryTolerant(w: Foreign, raw: string): Option<Outcome> {
    var (text, actions) := Transform(raw);
    var data := Loads(w, text);
    if actions == [] || data.None? || !data.value.Object? then None
    else
      var result := StrictReview(w, FieldsOf(data.value));
      if result.None? then None
      else
        var count := |result.value.findings|;
        Some(Outcome(result, Tolerant, 2, actions, Some(count), Some(count), 0, None))
  }

  /** A finding that survives on its own, with its path admitted. */
  function Survivor(w: Foreign, item: Json): Option<Json> {
    var admitted := Admitted(w, item);
    if admitted.Some? && w.finding(admitted.value) then admitted else None
  }

  /** The survivors among the first n findings. */
  function Kept(w: Foreign, items: seq<Json>, n: nat): (kept: seq<Json>)
    requires n <= |items|
    ensures |kept| <= n
  {
    if n == 0 then []
    else
      var rest, last := Kept(w, items, n - 1), Survivor(w, items[n - 1]);
      if last.Some? then rest + [last.value] else rest
  }

  /** What is noted about the dropped ones. */
  function DroppedNotes(w: Foreign, items: seq<Json>, n: nat): (notes: seq<string>)
    requires n <= |items|
    ensures |notes| == n - |Kept(w, items, n)|
  {
    if n == 0 then []
    else
      var rest := DroppedNotes(w, items, n - 1);
      if Survivor(w, items[n - 1]).Some? then rest else rest + [w.findingError(n - 1, items[n - 1])]
  }

  method RepairFindings(w: Foreign, items: seq<Json>) returns (kept: seq<Json>, notes: seq<string>)
    ensures kept == Kept(w, items, |items|) && notes == DroppedNotes(w, items, |items|)
    ensures |items| == |kept| + |notes|
  {
    kept, notes := [], [];
    for index := 0 to |items|
      invariant kept == Kept(w, items, index) && notes == DroppedNotes(w, items, index)
    {
      var item := Survivor(w, items[index]);
      if item.Some? {
        kept := kept + [item.value];
      } else {
        notes := notes + [w.findingError(index, items[index])];
      }
    }
  }

  function Join(notes: seq<string>): string {
    if notes == [] then "" else if |notes| == 1 then notes[0] else Join(notes[..|notes| - 1]) + "; " + notes[|notes| - 1]
  }

  /** Repair of a decoded object: defaults for two fields, survivors for the findings. */
  ghost function RepairFields(w: Foreign, data: Fields, actions: seq<Action>): Outcome {
    if "findings" !in data || !data["findings"].Array? then InvalidOutcome(3, NOT_A_LIST)
    else
      var risky := "overall_risk" !in data;
      var data1 := if risky then data["overall_risk" := Text("medium")] else data;
      var silent := "review_summary" !in data1;
      var data2 := if silent then data1["review_summary" := Text("")] else data1;
      var items := data["findings"].items;
      var kept, notes := Kept(w, items, |items|), DroppedNotes(w, items, |items|);
      var data3 := data2["findings" := Array(kept)];
      var result := w.review(data3);
      if result.None? then InvalidOutcome(3, w.reviewError(data3))
      else
        Outcome(result, Repaired, 3,
                actions + (if risky then [DefaultOverallRisk] else []) + (if silent then [DefaultReviewSummary] else [])
                + (if notes != [] then [DropInvalidFindings] else []),
                Some(|items|), Some(|result.value.findings|), |items| - |kept|,
                if Clip(Join(notes)) == "" then None else Some(Clip(Join(notes))))
  }

  ghost function TryRepair(w: Foreign, raw: string): Outcome {
    var whole := Loads(w, raw);
    var (text, transforms) := Transform(raw);
    var data := if whole.Some? then whole else Loads(w, text);
    var actions := if whole.Some? then [] else transforms;
    if data.None? then InvalidOutcome(3, w.decodeError(text))
    else if data.value.Array? then RepairFields(w, map["findings" := data.value], actions + [WrapFindingsList])
    else if !data.value.Object? then InvalidOutcome(3, NOT_AN_OBJECT)
    else RepairFields(w, FieldsOf(data.value), actions)
  }

  ghost function Parse(w: Foreign, raw: string, enableRepair: bool): Outcome {
    var exact := TryExact(w, raw);
    if exact.status.Exact? || !enableRepair then exact
    else
      var tolerant := TryTolerant(w, raw);
      if tolerant.Some? then tolerant.value else TryRepair(w, raw)
  }

  // ---------------------------------------------------------------- what repair keeps

  /** With distinct keys, a document's fields are its keys, each with the value at its place. */
  lemma {:induction false} FieldsInPlace(keys: seq<string>, values: seq<Json>)
    requires Distinct(keys) && |keys| == |values|
    ensures FieldsFrom(keys, values).Keys == set key | key in keys
    ensures forall i :: 0 <= i < |keys| ==> keys[i] in FieldsFrom(keys, values) && FieldsFrom(keys, values)[keys[i]] == values[i]
  {
    hide *;
    if keys == [] {
      NoFields(keys, values);
    } else {
      FieldsOfMore(keys, values);
      FieldsFromFront(keys[..|keys| - 1], values, values[..|values| - 1]);
      DistinctFront(keys);
      FieldsInPlace(keys[..|keys| - 1], values[..|values| - 1]);
    }
  }

  lemma {:induction false} NoFields(keys: seq<string>, values: seq<Json>)
    requires keys == []
    ensures FieldsFrom(keys, values) == map[]
  {
  }

  lemma {:induction false} FieldsOfMore(keys: seq<string>, values: seq<Json>)
    requires keys != [] && |keys| == |values|
    ensures FieldsFrom(keys, values) == FieldsFrom(keys[..|keys| - 1], values)[keys[|keys| - 1] := values[|keys| - 1]]
    ensures keys == keys[..|keys| - 1] + [keys[|keys| - 1]]
  {
  }

  lemma {:induction false} FieldsFromFront(keys: seq<string>, values: seq<Json>, front: seq<Json>)
    requires front <= values && |keys| <= |front|
    ensures FieldsFrom(keys, values) == FieldsFrom(keys, front)
  {
    if keys != [] { FieldsFromFront(keys[..|keys| - 1], values, front); }
  }

  lemma {:induction false} DistinctFront(keys: seq<string>)
    requires Distinct(keys) && keys != []
    ensures Distinct(keys[..|keys| - 1]) && keys[|keys| - 1] !in keys[..|keys| - 1]
  {
  }
  /** Strict admission succeeds exactly when every path is admissible, and then admits each in place. */
  lemma {:induction false} AdmitAllExactly(w: Foreign, items: seq<Json>, out: seq<Json>)
    ensures AdmitAll(w, items) == Some(out) <==>
              |out| == |items| && forall i :: 0 <= i < |items| ==> Admitted(w, items[i]) == Some(out[i])
  {
    hide Admitted;
    if items != [] && out != [] {
      AdmitAllExactly(w, items[1..], out[1..]);
      assert out == [out[0]] + out[1..];
    }
  }

  lemma {:induction false} KeyIndexFinds(keys: seq<string>, key: string)
    ensures KeyIndex(keys, key) < |keys| <==> key in keys
  {
    if keys != [] && keys[0] != key {
      KeyIndexFinds(keys[1..], key);
      assert keys == [keys[0]] + keys[1..];
    }
  }

  /** Admission replaces the file of a finding by its admitted path, refuses the finding when there
      is none, and leaves everything else as it is. */
  lemma {:induction false} PathIsAdmitted(w: Foreign, item: Json)
    requires item.Object? && Distinct(item.keys) && |item.keys| == |item.values|
    ensures
      var data, admitted := FieldsOf(item), Admitted(w, item);
      if "file" !in data then admitted == Some(item)
      else
        var path := w.admit(data["file"]);
        && (admitted.None? <==> path.None?)
        && (path.Some? ==> admitted.value.Object? && FieldsOf(admitted.value) == data["file" := path.value])
  {
    var keys, values := item.keys, item.values;
    FieldsInPlace(keys, values);
    KeyIndexFinds(keys, "file");
    var i := KeyIndex(keys, "file");
    if i < |keys| && w.admit(values[i]).Some? {
      var path := w.admit(values[i]).value;
      FieldsInPlace(keys, values[i := path]);
      hide FieldsFrom, Distinct, KeyIndex;
      ReplacedInPlace(keys, values, i, path, FieldsFrom(keys, values), FieldsFrom(keys, values[i := path]));
    }
  }

  ghost predicate InPlace(keys: seq<string>, values: seq<Json>, data: Fields)
    requires |keys| == |values|
  {
    && data.Keys == (set key | key in keys)
    && forall i :: 0 <= i < |keys| ==> keys[i] in data && data[keys[i]] == values[i]
  }

  lemma {:induction false} ReplacedInPlace(keys: seq<string>, values: seq<Json>, i: nat, value: Json, data: Fields, data': Fields)
    requires |keys| == |values| && i < |keys| && Distinct(keys)
    requires InPlace(keys, values, data) && InPlace(keys, values[i := value], data')
    ensures data' == data[keys[i] := value]
  {
    forall key | key in data' ensures data'[key] == data[keys[i] := value][key] {
      var k :| 0 <= k < |keys| && keys[k] == key;
      assert k != i ==> keys[k] != keys[i];
    }
  }

  /** The positions of the surviving findings, in order. */
  ghost function KeptAt(w: Foreign, items: seq<Json>, n: nat): (at: seq<nat>)
    requires n <= |items|
    ensures forall i :: 0 <= i < |at| ==> at[i] < n
    ensures forall i, k :: 0 <= i < k < |at| ==> at[i] < at[k]
    ensures forall k :: 0 <= k < n ==> (k in at <==> Admitted(w, items[k]).Some? && w.finding(Admitted(w, items[k]).value))
  {
    if n == 0 then []
    else
      KeptAt(w, items, n - 1)
      + if Admitted(w, items[n - 1]).Some? && w.finding(Admitted(w, items[n - 1]).value) then [n - 1] else []
  }

  /** These findings are the admitted ones at these positions. */
  ghost predicate AdmittedAt(w: Foreign, items: seq<Json>, kept: seq<Json>, at: seq<nat>) {
    |kept| == |at| && forall i :: 0 <= i < |at| ==> at[i] < |items| && Admitted(w, items[at[i]]) == Some(kept[i])
  }

  /** Repair keeps, in order and with their paths admitted, exactly the findings whose path is
      admissible and which are then valid on their own. */
  lemma {:induction false} KeptExactly(w: Foreign, items: seq<Json>, n: nat)
    requires n <= |items|
    ensures AdmittedAt(w, items, Kept(w, items, n), KeptAt(w, items, n))
  {
    hide *;
    if n > 0 {
      KeptExactly(w, items, n - 1);
      AdmitAnother(w, items, Kept(w, items, n - 1), KeptAt(w, items, n - 1), n - 1);
      KeptStep(w, items, n);
    } else {
      NoneKept(w, items);
    }
  }

  lemma {:induction false} NoneKept(w: Foreign, items: seq<Json>)
    ensures AdmittedAt(w, items, Kept(w, items, 0), KeptAt(w, items, 0))
  {
  }

  lemma {:induction false} KeptStep(w: Foreign, items: seq<Json>, n: nat)
    requires 0 < n <= |items|
    ensures
      var item := items[n - 1];
      if Admitted(w, item).Some? && w.finding(Admitted(w, item).value)
      then && Kept(w, items, n) == Kept(w, items, n - 1) + [Admitted(w, item).value]
           && KeptAt(w, items, n) == KeptAt(w, items, n - 1) + [n - 1]
      else && Kept(w, items, n) == Kept(w, items, n - 1) + []
           && KeptAt(w, items, n) == KeptAt(w, items, n - 1) + []
  {
    hide Admitted;
  }

  lemma {:induction false} AdmitAnother(w: Foreign, items: seq<Json>, kept: seq<Json>, at: seq<nat>, k: nat)
    requires AdmittedAt(w, items, kept, at) && k < |items|
    ensures AdmittedAt(w, items, kept + [], at + [])
    ensures Admitted(w, items[k]).Some? ==> AdmittedAt(w, items, kept + [Admitted(w, items[k]).value], at + [k])
  {
    hide Admitted;
  }

  /** A repaired outcome is the review of the data with the surviving findings, with risk "medium"
      and an empty summary where there was none, and nothing else changed; the actions say which. */
  ghost predicate RepairedFrom(w: Foreign, data: Fields, done: Fields, o: Outcome) {
    && o.result == w.review(done) && done.Keys == data.Keys + {"findings", "overall_risk", "review_summary"}
    && (forall key :: key in data && key != "findings" ==> key in done && done[key] == data[key])
    && (DefaultOverallRisk in o.actions <==> "overall_risk" !in data)
    && ("overall_risk" !in data ==> done["overall_risk"] == Text("medium"))
    && (DefaultReviewSummary in o.actions <==> "review_summary" !in data)
    && ("review_summary" !in data ==> done["review_summary"] == Text(""))
    && "findings" in data && data["findings"].Array?
    && done["findings"] == Array(Kept(w, data["findings"].items, |data["findings"].items|))
    && (DropInvalidFindings in o.actions <==> o.dropped > 0)
    && o.dropped == |data["findings"].items| - |done["findings"].items|
  }

  lemma {:induction false} RepairReviewsSurvivors(w: Foreign, data: Fields, actions: seq<Action>) returns (done: Fields)
    requires RepairFields(w, data, actions).status.Repaired?
    requires DefaultOverallRisk !in actions && DefaultReviewSummary !in actions && DropInvalidFindings !in actions
    ensures RepairedFrom(w, data, done, RepairFields(w, data, actions))
  {
    hide Kept, DroppedNotes, Join, Clip;
    var data1 := if "overall_risk" !in data then data["overall_risk" := Text("medium")] else data;
    var data2 := if "review_summary" !in data then data1["review_summary" := Text("")] else data1;
    done := data2["findings" := Array(Kept(w, data["findings"].items, |data["findings"].items|))];
  }

  // ---------------------------------------------------------------- the response

  datatype Response =
    Response(raw: string, parsed: Option<ReviewResult>, invalidOutput: bool, attempts: nat, status: Status,
             actions: seq<Action>, input: Option<nat>, retained: Option<nat>, dropped: nat, summary: Option<string>)

  function ResponseFrom(o: Outcome, raw: string): Response {
    Response(raw, o.result, o.status.Invalid?, o.attempts, o.status, o.actions, o.input, o.retained, o.dropped, o.reason)
  }

  ghost predicate AtMost(n: Option<nat>, bound: nat) { n.Some? ==> n.value <= bound }

  /** The field bounds and evidence invariants of a newly produced response. */
  ghost predicate ValidResponse(r: Response) {
    && |r.actions| <= ACTIONS_MAX
    && AtMost(r.input, MAX_NODES) && AtMost(r.retained, MAX_NODES) && r.dropped <= MAX_NODES
    && (r.summary.Some? ==> |r.summary.value| <= SUMMARY_LEN)
    && if r.status.Invalid? then r.invalidOutput && r.parsed.None? && (r.retained.Some? ==> r.retained.value == 0)
       else
         && !r.invalidOutput && r.parsed.Some?
         && (r.status.Exact? ==> r.attempts == 1 && r.actions == [] && r.dropped == 0)
         && (r.status.Tolerant? ==> r.actions != [] && r.dropped == 0)
         && (r.status.Repaired? ==> r.actions != [])
         && (r.retained.Some? ==> r.retained.value == |r.parsed.value.findings|)
         && (r.input.Some? && r.retained.Some? ==> r.input.value == r.retained.value + r.dropped)
  }

  // ---------------------------------------------------------------- the evidence holds

  lemma {:induction false} FewActions(raw: string)
    ensures |Transform(raw).1| <= 3
    ensures Transform(raw).1 == [] ==> Transform(raw).0 == Strip(raw)
  {
  }

  /** The recorded actions are complete: one is recorded exactly when the stripped text changed,
      and then the text became shorter. */
  lemma {:induction false} ActionsRecordChange(raw: string)
    ensures Transform(raw).1 == [] <==> Transform(raw).0 == Strip(raw)
    ensures Transform(raw).1 != [] ==> |Transform(raw).0| < |Strip(raw)|
  {
    var text := Strip(raw);
    var fenced := StartsWith(text, FENCE) && Unfence(text) != text;
    var text1 := if fenced then Unfence(text) else text;
    var extracted := Extract(text1);
    var text2 := if extracted.Some? then extracted.value else text1;
    assert extracted.Some? ==> |text2| < |text1|;
    CleanIsNotLonger(text2, Outside);
    CleanChangesOnlyTrailingCommas(text2, Outside);
  }

  lemma {:induction false} FieldIsValue(keys: seq<string>, values: seq<Json>, key: string)
    requires key in FieldsFrom(keys, values)
    ensures FieldsFrom(keys, values)[key] in values || FieldsFrom(keys, values)[key] == Null
  {
    if keys[|keys| - 1] != key { FieldIsValue(keys[..|keys| - 1], values, key); }
  }

  lemma {:induction false} ListNodes(js: seq<Json>, j: Json)
    requires j in js
    ensures Nodes(j) <= NodesOfAll(js)
  {
    if js[0] != j { ListNodes(js[1..], j); }
  }

  /** The findings of an acceptable document are no more than its nodes. */
  lemma {:induction false} FindingsFitNodes(j: Json)
    requires Acceptable(j)
    ensures j.Array? ==> |j.items| <= MAX_NODES
    ensures j.Object? && "findings" in FieldsOf(j) && FieldsOf(j)["findings"].Array? ==>
              |FieldsOf(j)["findings"].items| <= MAX_NODES
  {
    if j.Array? { ListFitsNodes(j.items); }
    if j.Object? && "findings" in FieldsOf(j) && FieldsOf(j)["findings"].Array? {
      var list := FieldsOf(j)["findings"];
      FieldIsValue(j.keys, j.values, "findings");
      ListNodes(j.values, list);
      ListFitsNodes(list.items);
    }
  }

  /** When nothing is dropped, repairing admits the same findings that strict admission does. */
  lemma {:induction false} NothingDropped(w: Foreign, items: seq<Json>, n: nat)
    requires n <= |items| && DroppedNotes(w, items, n) == []
    ensures AdmitAll(w, items[..n]) == Some(Kept(w, items, n))
  {
    if n > 0 {
      NothingDropped(w, items, n - 1);
      AdmitOneMore(w, items[..n - 1], items[n - 1]);
      assert items[..n] == items[..n - 1] + [items[n - 1]];
    }
  }

  lemma {:induction false} AdmitOneMore(w: Foreign, items: seq<Json>, item: Json)
    requires AdmitAll(w, items).Some? && Admitted(w, item).Some?
    ensures AdmitAll(w, items + [item]) == Some(AdmitAll(w, items).value + [Admitted(w, item).value])
  {
    if items == [] {
      assert items + [item] == [item] && [item][1..] == [];
      var last := Admitted(w, item).value;
      assert AdmitAll(w, []) == Some([]) && [] + [last] == [last] + [];
    } else {
      AdmitOneMore(w, items[1..], item);
      assert (items + [item])[0] == items[0] && (items + [item])[1..] == items[1..] + [item];
      var head, tail, last := Admitted(w, items[0]).value, AdmitAll(w, items[1..]).value, Admitted(w, item).value;
      assert [head] + (tail + [last]) == ([head] + tail) + [last];
    }
  }

  /** A repair that changed nothing would have succeeded exactly. */
  lemma {:induction false} UnchangedRepairWasExact(w: Foreign, data: Fields)
    requires RepairFields(w, data, []).status.Repaired? && RepairFields(w, data, []).actions == []
    ensures StrictReview(w, data).Some?
  {
    var items := data["findings"].items;
    NothingDropped(w, items, |items|);
    assert items[..|items|] == items;
    assert AdmitPathsStrict(w, data) == Some(data["findings" := Array(Kept(w, items, |items|))]);
  }

  lemma {:induction false} RepairKeepsEvidence(w: Foreign, data: Fields, actions: seq<Action>, raw: string)
    requires SchemaKeepsFindings(w) && |actions| <= 4
    requires "findings" in data && data["findings"].Array? ==> |data["findings"].items| <= MAX_NODES
    requires RepairFields(w, data, actions).status.Repaired? ==> RepairFields(w, data, actions).actions != []
    ensures ValidResponse(ResponseFrom(RepairFields(w, data, actions), raw))
  {
  }

  /** An object that repair has nothing to do for: the two defaulted fields are there, every finding
      survives on its own, and the whole is a valid review. */
  ghost predicate CompleteFields(w: Foreign, data: Fields) {
    && "overall_risk" in data && "review_summary" in data
    && "findings" in data && data["findings"].Array?
    && DroppedNotes(w, data["findings"].items, |data["findings"].items|) == []
    && StrictReview(w, data).Some?
  }

  /** The text decodes to such an object. */
  ghost predicate CompleteReview(w: Foreign, text: string) {
    Loads(w, text).Some? && Loads(w, text).value.Object? && CompleteFields(w, FieldsOf(Loads(w, text).value))
  }

  lemma {:induction false} SilentFieldsExactly(w: Foreign, data: Fields)
    ensures RepairFields(w, data, []).status.Repaired? && RepairFields(w, data, []).actions == [] <==> CompleteFields(w, data)
  {
    if RepairFields(w, data, []).status.Repaired? && RepairFields(w, data, []).actions == [] {
      UnchangedRepairWasExact(w, data);
    }
    if CompleteFields(w, data) {
      var items := data["findings"].items;
      NothingDropped(w, items, |items|);
      assert items[..|items|] == items;
    }
  }

  /** After the exact stage failed, a repair records no action exactly when no transform changed the
      text, it did not decode, and the stripped text decodes to a complete review. */
  lemma {:induction false} SilentExactly(w: Foreign, raw: string)
    requires !TryExact(w, raw).status.Exact?
    ensures TryRepair(w, raw).status.Repaired? && TryRepair(w, raw).actions == []
       <==> Transform(raw).1 == [] && Loads(w, raw).None? && CompleteReview(w, Strip(raw))
  {
    FewActions(raw);
    var whole := Loads(w, raw);
    var data := if whole.Some? then whole else Loads(w, Transform(raw).0);
    if data.Some? && data.value.Object? { SilentFieldsExactly(w, FieldsOf(data.value)); }
    hide RepairFields, Transform, FieldsOf;
  }

  /** Stripping the text does not change what it decodes to. */
  ghost predicate DecodesAlike(w: Foreign, raw: string) { w.decode(Strip(raw)) == w.decode(raw) }

  /** The text a stage works on decodes to what the exact stage saw, or actions were recorded. */
  lemma {:induction false} RepairedHasActions(w: Foreign, raw: string)
    requires DecodesAlike(w, raw) || Transform(raw).1 != []
    requires !TryExact(w, raw).status.Exact? && TryRepair(w, raw).status.Repaired?
    ensures TryRepair(w, raw).actions != []
  {
    SilentExactly(w, raw);
    hide TryExact, TryRepair, Transform, Strip;
  }

  lemma {:induction false} RepairStageIsValid(w: Foreign, raw: string)
    requires SchemaKeepsFindings(w)
    requires TryRepair(w, raw).status.Repaired? ==> TryRepair(w, raw).actions != []
    ensures ValidResponse(ResponseFrom(TryRepair(w, raw), raw))
  {
    FewActions(raw);
    var whole := Loads(w, raw);
    var (text, transforms) := Transform(raw);
    var data := if whole.Some? then whole else Loads(w, text);
    var actions := if whole.Some? then [] else transforms;
    if data.Some? && (data.value.Array? || data.value.Object?) {
      FindingsFitNodes(data.value);
      if data.value.Array? {
        RepairKeepsEvidence(w, map["findings" := data.value], actions + [WrapFindingsList], raw);
      } else {
        RepairKeepsEvidence(w, FieldsOf(data.value), actions, raw);
      }
    }
  }

  lemma {:induction false} EarlierStagesAreValid(w: Foreign, raw: string)
    requires SchemaKeepsFindings(w)
    ensures ValidResponse(ResponseFrom(TryExact(w, raw), raw))
    ensures TryTolerant(w, raw).Some? ==> ValidResponse(ResponseFrom(TryTolerant(w, raw).value, raw))
  {
    FewActions(raw);
  }

  /** For every single decoder and validator: the evidence fails exactly when no transform changes the
      text, it does not decode, and stripped it decodes to a complete review. */
  lemma {:induction false} EvidenceFailsExactly(w: Foreign, raw: string)
    requires SchemaKeepsFindings(w)
    ensures !ValidResponse(ResponseFrom(Parse(w, raw, true), raw))
       <==> Transform(raw).1 == [] && Loads(w, raw).None? && CompleteReview(w, Strip(raw))
  {
    EarlierStagesAreValid(w, raw);
    if TryExact(w, raw).status.Exact? {
      assert Loads(w, raw).Some?;
    } else {
      SilentExactly(w, raw);
      if !(TryRepair(w, raw).status.Repaired? && TryRepair(w, raw).actions == []) {
        RepairStageIsValid(w, raw);
      }
      assert Transform(raw).1 == [] ==> TryTolerant(w, raw).None?;
      hide TryExact, TryTolerant, TryRepair, Transform, Loads, CompleteReview, Strip;
    }
  }

  /** For every decoder and every validator: a response to text that is trimmed, or decodes alike
      when stripped, or is changed by a transform, carries consistent evidence in either mode. */
  lemma {:induction false} ParsedResponseIsValid(w: Foreign, raw: string, enableRepair: bool)
    requires SchemaKeepsFindings(w)
    requires Strip(raw) == raw || DecodesAlike(w, raw) || Transform(raw).1 != [] || !enableRepair
    ensures ValidResponse(ResponseFrom(Parse(w, raw, enableRepair), raw))
  {
    EarlierStagesAreValid(w, raw);
    if enableRepair {
      EvidenceFailsExactly(w, raw);
      hide Parse, ValidResponse, Transform, Strip, CompleteFields;
    }
  }

  /** How far parsing went: one attempt for an exact review or without repair, two for a tolerant one,
      and three otherwise. */
  lemma {:induction false} AttemptsTell(w: Foreign, raw: string, enableRepair: bool)
    ensures
      var o := Parse(w, raw, enableRepair);
      o.attempts == if o.status.Exact? || !enableRepair then 1 else if o.status.Tolerant? then 2 else 3
  {
    hide Transform, Loads;
  }

  /** A bare list that is repaired is wrapped as the findings of a review with both defaults. */
  lemma {:induction false} BareListIsWrapped(w: Foreign, raw: string) returns (done: Fields)
    requires Loads(w, raw).Some? && Loads(w, raw).value.Array? && Parse(w, raw, true).status.Repaired?
    ensures
      var o := Parse(w, raw, true);
      && RepairedFrom(w, map["findings" := Loads(w, raw).value], done, o)
      && WrapFindingsList in o.actions && DefaultOverallRisk in o.actions && DefaultReviewSummary in o.actions
  {
    hide Transform, Loads;
    var data := map["findings" := Loads(w, raw).value];
    assert Parse(w, raw, true) == RepairFields(w, data, [] + [WrapFindingsList]);
    done := RepairReviewsSurvivors(w, data, [] + [WrapFindingsList]);
  }

  /** Where the whole text does not decode but the transformed text is an exact review, the outcome is
      that review, marked as tolerant and with the transforms on record. */
  lemma {:induction false} TransformedIsReadAlike(w: Foreign, raw: string)
    requires Loads(w, raw).None? && Transform(raw).1 != [] && TryExact(w, Transform(raw).0).status.Exact?
    ensures
      var o := Parse(w, raw, true);
      o.result == TryExact(w, Transform(raw).0).result && o.status.Tolerant? && o.actions == Transform(raw).1
  {
    hide Transform, Loads;
  }

  // ---------------------------------------------------------------- untrimmed text

  const EMPTY_REVIEW := Object(["findings", "overall_risk", "review_summary"], [Array([]), Text("low"), Text("")])

  function ReviewAnyList(d: Fields): Option<ReviewResult> {
    if "findings" in d && d["findings"].Array? && |d["findings"].items| <= FINDINGS_PER_RESPONSE
    then Some(ReviewResult(d["findings"].items)) else None
  }

  /** A JSON decoder ignores the white space around a document. */
  ghost predicate IgnoresJsonSpace(w: Foreign) {
    forall t :: w.decode(t) == w.decode(Trim(t))
  }

  /** A decoder that knows one document only, with any JSON white space around it. */
  function OneText(text: string): Foreign {
    Foreign(t => if Trim(t) == Trim(text) then Some(EMPTY_REVIEW) else None, path => Some(path), item => true,
            d => ReviewAnyList(d), t => "", (i, item) => "", d => "")
  }

  lemma {:induction false} EmptyReviewFields()
    ensures
      FieldsOf(EMPTY_REVIEW)
      == map["findings" := Array([]), "overall_risk" := Text("low"), "review_summary" := Text("")]
    ensures Acceptable(EMPTY_REVIEW)
  {
    var keys, values := EMPTY_REVIEW.keys, EMPTY_REVIEW.values;
    assert keys[..2] == ["findings", "overall_risk"] && keys[..2][..1] == ["findings"] && keys[..2][..1][..0] == [];
    assert FieldsFrom([], values) == map[];
    assert FieldsFrom(["findings"], values) == map["findings" := Array([])] by { assert ["findings"][..0] == []; }
    assert FieldsFrom(keys[..2], values) == map["findings" := Array([]), "overall_risk" := Text("low")];
    assert values[1..] == [Text("low"), Text("")] && values[1..][1..] == [Text("")] && values[1..][1..][1..] == [];
  }

  lemma {:induction false} StripRightTwice(s: string, space: char -> bool)
    ensures StripRight(StripRight(s, space), space) == StripRight(s, space)
    ensures StripRight(s, space) == "" || !space(StripRight(s, space)[|StripRight(s, space)| - 1])
    ensures StripRight(s, space) <= s
  {
    if s != "" && space(s[|s| - 1]) { StripRightTwice(s[..|s| - 1], space); }
  }

  lemma {:induction false} StripLeftStarts(s: string, space: char -> bool)
    ensures StripLeft(s, space) == "" || !space(StripLeft(s, space)[0])
  {
    if s != "" && space(s[0]) { StripLeftStarts(s[1..], space); }
  }

  lemma {:induction false} SpaceOrder(c: char)
    ensures JsonSpace(c) ==> IsSpace(c)
  {
  }

  /** Text without the wider white space around it has no JSON white space around it either. */
  lemma {:induction false} StrippedIsTrimmed(raw: string)
    ensures Trim(Strip(raw)) == Strip(raw)
  {
    var left := StripLeft(raw, IsSpace);
    var text := Strip(raw);
    StripLeftStarts(raw, IsSpace);
    StripRightTwice(left, IsSpace);
    if text != "" {
      SpaceOrder(text[0]);
      SpaceOrder(text[|text| - 1]);
    }
    hide IsSpace, JsonSpace;
  }

  lemma {:induction false} TrimmedTwice(t: string)
    ensures Trim(Trim(t)) == Trim(t)
  {
    var left := StripLeft(t, JsonSpace);
    StripLeftStarts(t, JsonSpace);
    StripRightTwice(left, JsonSpace);
    hide JsonSpace;
  }

  lemma {:induction false} OneTextIsForeign(text: string)
    ensures SchemaKeepsFindings(OneText(text)) && IgnoresJsonSpace(OneText(text))
    ensures CompleteFields(OneText(text), FieldsOf(EMPTY_REVIEW))
  {
    hide Trim, FieldsOf;
    forall t ensures OneText(text).decode(t) == OneText(text).decode(Trim(t)) { TrimmedTwice(t); }
    EmptyReviewFields();
    var data := FieldsOf(EMPTY_REVIEW);
    assert data["findings" := Array([])] == data;
  }

  /** Text with white space around it that is none to JSON, and that no transform changes: under the
      decoder that knows the stripped text only, the evidence fails. */
  lemma {:induction false} UntrimmedTextLosesEvidence(raw: string)
    requires Strip(raw) != Trim(raw) && Transform(raw).1 == []
    ensures
      var w := OneText(Strip(raw));
      SchemaKeepsFindings(w) && IgnoresJsonSpace(w) && !ValidResponse(ResponseFrom(Parse(w, raw, true), raw))
  {
    hide Transform, Strip, Trim, FieldsOf, Parse, ValidResponse;
    var w := OneText(Strip(raw));
    EmptyReviewFields();
    StrippedIsTrimmed(raw);
    assert Loads(w, raw) == None && Loads(w, Strip(raw)) == Some(EMPTY_REVIEW);
    OneTextIsForeign(Strip(raw));
    EvidenceFailsExactly(w, raw);
  }

  /** The evidence is consistent under all JSON decoders and all validators exactly for the texts
      around which there is only white space that JSON ignores, or that a transform changes. */
  lemma {:induction false} EvidenceHoldsExactly(raw: string)
    ensures (forall w :: SchemaKeepsFindings(w) && IgnoresJsonSpace(w) ==> ValidResponse(ResponseFrom(Parse(w, raw, true), raw)))
       <==> Strip(raw) == Trim(raw) || Transform(raw).1 != []
  {
    if Strip(raw) == Trim(raw) || Transform(raw).1 != [] {
      forall w | SchemaKeepsFindings(w) && IgnoresJsonSpace(w) ensures ValidResponse(ResponseFrom(Parse(w, raw, true), raw)) {
        ParsedResponseIsValid(w, raw, true);
      }
    } else {
      UntrimmedTextLosesEvidence(raw);
    }
  }

  const NO_BREAK_SPACE := '\U{00A0}'

  lemma {:induction false} NoBreakSpaceIsStripped(body: string)
    requires |body| >= 2 && body[0] == '{' && body[|body| - 1] == '}' && !HasTrailingComma(body, Outside)
    ensures Strip([NO_BREAK_SPACE] + body) == body && Transform([NO_BREAK_SPACE] + body).1 == []
  {
    var raw := [NO_BREAK_SPACE] + body;
    assert raw[1..] == body;
    assert IsSpace(raw[0]) && !IsSpace('{') && !IsSpace('}');
    assert StripLeft(raw, IsSpace) == StripLeft(body, IsSpace) == body;
    assert Strip(raw) == body;
    CleanChangesOnlyTrailingCommas(body, Outside);
    hide IsSpace;
    assert Extract(body) == None by { WholeObject(body); }
  }

  /** A JSON object without a trailing comma behind a no-break space, which str.strip removes: the
      evidence fails under exactly those decoders and validators that reject the whole text, as JSON
      demands, and read the object as a complete review. */
  lemma {:induction false} NoBreakSpaceLosesEvidence(w: Foreign, body: string)
    requires SchemaKeepsFindings(w)
    requires |body| >= 2 && body[0] == '{' && body[|body| - 1] == '}' && !HasTrailingComma(body, Outside)
    ensures !ValidResponse(ResponseFrom(Parse(w, [NO_BREAK_SPACE] + body, true), [NO_BREAK_SPACE] + body))
       <==> Loads(w, [NO_BREAK_SPACE] + body).None? && CompleteReview(w, body)
  {
    hide *;
    NoBreakSpaceIsStripped(body);
    EvidenceFailsExactly(w, [NO_BREAK_SPACE] + body);
  }
}
