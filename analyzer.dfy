/** `RequestAnalyzer`: status-code parsing and the per-event anomaly rules of
    `_find_anomalies`, given the cosine-similarity matrix of the batch. */
module Analyzer {
  import opened Text
  import opened JsonValue
  import opened Wrappers
  import opened RowOps

  // ---------------------------------------------------------------------
  // `_parse_status_code`

  /** A recorded status: an `int`, or any other value given by its `str()`
      (a `None` status is `StatusText("None")`). */
  datatype Status = StatusCode(code: int) | StatusText(text: string)

  /** `str(status)` */
  function StatusStr(s: Status): string {
    match s
    case StatusCode(n) => IntToString(n)
    case StatusText(t) => t
  }

  /** An underscore that Python's `int()` accepts: between two digits. */
  predicate UnderscoreAt(s: string, i: int) {
    0 < i < |s| - 1 && s[i] == '_' && IsDigit(s[i - 1]) && IsDigit(s[i + 1])
  }

  /** Decimal digits, optionally grouped by single underscores. */
  predicate GroupedDigits(s: string) {
    |s| > 0 && forall i :: 0 <= i < |s| ==> IsDigit(s[i]) || UnderscoreAt(s, i)
  }

  function DropUnderscores(s: string): (d: string)
    ensures (forall i :: 0 <= i < |s| ==> IsDigit(s[i]) || s[i] == '_') ==>
      forall k :: 0 <= k < |d| ==> IsDigit(d[k])
    ensures (forall i :: 0 <= i < |s| ==> IsDigit(s[i])) ==> d == s
  {
    if |s| == 0 then ""
    else (if s[0] == '_' then "" else [s[0]]) + DropUnderscores(s[1..])
  }

  function ParseDigits(s: string): Option<nat> {
    if GroupedDigits(s) then Some(DigitsValue(DropUnderscores(s))) else None
  }

  /** Python's `int(token)` on a token without whitespace: an optional sign,
      then grouped decimal digits; `None` where `int()` raises `ValueError`. */
  function ParseInt(w: string): Option<int> {
    if |w| > 0 && (w[0] == '+' || w[0] == '-') then
      match ParseDigits(w[1..])
      case None => None
      case Some(v) => var x: int := v; Some(if w[0] == '-' then -x else x)
    else ParseDigits(w)
  }

  /** `_parse_status_code`: an `int` as it is; otherwise the integer that
      the first whitespace-separated word of `str(status)` spells. No word
      (`IndexError`) or a word that is not an integer (`ValueError`) gives 0. */
  function ParseStatusCode(s: Status): (code: int)
    ensures s.StatusCode? ==> code == s.code
    ensures s.StatusText? && ParseInt(FirstWord(s.text)).Some? ==>
      code == ParseInt(FirstWord(s.text)).value
    ensures s.StatusText? && ParseInt(FirstWord(s.text)).None? ==> code == 0
    ensures s.StatusText? && AllSpace(s.text) ==> code == 0
    ensures s.StatusText? && code != 0 ==>
      FirstWord(s.text) != "" && ParseInt(FirstWord(s.text)) == Some(code)
  {
    match s
    case StatusCode(n) => n
    case StatusText(t) =>
      var w := FirstWord(t);
      if w == "" then 0 else ParseInt(w).GetOr(0)
  }

  lemma {:induction false} ParseIntOfNat(n: nat)
    ensures ParseInt(NatToString(n)) == Some(n)
  {
    var s := NatToString(n);
    assert IsDigit(s[0]);
    assert GroupedDigits(s);
    DigitsValueOfNatToString(n);
  }

  /** A status text whose first word is the decimal rendering of `n`, after
      any leading whitespace and before any trailing text, parses to `n`:
      `"200 OK"` gives 200, `" 404"` gives 404. */
  lemma {:induction false} ParseStatusCodeOfText(ws: string, n: int, rest: string)
    requires AllSpace(ws)
    requires |rest| == 0 || IsSpace(rest[0])
    ensures ParseStatusCode(StatusText(ws + IntToString(n) + rest)) == n
  {
    ParseIntOfInt(n);
    FirstWordOf(ws, IntToString(n), rest);
  }

  lemma ParseIntOfInt(n: int)
    ensures |IntToString(n)| > 0
    ensures forall i :: 0 <= i < |IntToString(n)| ==> !IsSpace(IntToString(n)[i])
    ensures ParseInt(IntToString(n)) == Some(n)
  {
    if n < 0 {
      ParseIntOfNegative(-n);
    } else {
      NatToStringNoSpace(n);
      ParseIntOfNat(n);
    }
  }

  lemma ParseIntOfNegative(m: nat)
    requires m > 0
    ensures forall i :: 0 <= i < |"-" + NatToString(m)| ==> !IsSpace(("-" + NatToString(m))[i])
    ensures ParseInt("-" + NatToString(m)) == Some(-(m as int))
  {
    var d := NatToString(m);
    var w := "-" + d;
    assert w[1..] == d;
    ParseIntOfNat(m);
    NatToStringNoSpace(m);
    forall i | 0 < i < |w| ensures !IsSpace(w[i]) {
      assert w[i] == d[i - 1];
    }
  }

  /** A first word that holds a letter is not an integer, so the status
      parses to 0: `"OK 200"` gives 0. */
  lemma ParseStatusCodeOfWord(t: string, k: nat)
    requires k < |FirstWord(t)|
    requires 'A' <= FirstWord(t)[k] <= 'Z' || 'a' <= FirstWord(t)[k] <= 'z'
    ensures ParseStatusCode(StatusText(t)) == 0
  {
    var w := FirstWord(t);
    if |w| > 0 && (w[0] == '+' || w[0] == '-') {
      assert k > 0 && w[1..][k - 1] == w[k];
      assert !GroupedDigits(w[1..]);
    } else {
      assert !GroupedDigits(w);
    }
  }

  /** `"200 OK"`, the form the parser is written for, gives 200. */
  lemma StatusWithReasonPhrase()
    ensures ParseStatusCode(StatusText("200 OK")) == 200
  {
    assert IntToString(200) == "200";
    ParseStatusCodeOfText("", 200, " OK");
    assert "" + "200" + " OK" == "200 OK";
  }

  /** A no-break space ends the first word as a plain space does:
      `"200\u00A0OK"` gives 200. */
  lemma StatusWithNoBreakSpace()
    ensures ParseStatusCode(StatusText("200\U{A0}OK")) == 200
  {
    assert IntToString(200) == "200";
    ParseStatusCodeOfText("", 200, "\U{A0}OK");
    assert "" + "200" + "\U{A0}OK" == "200\U{A0}OK";
  }

  /** A `None` status (`str()` gives `"None"`) parses to 0. */
  lemma NoneStatus()
    ensures ParseStatusCode(StatusText("None")) == 0
  {
    FirstWordOf("", "None", "");
    assert "" + "None" + "" == "None";
    ParseStatusCodeOfWord("None", 0);
  }

  // ---------------------------------------------------------------------
  // `_find_anomalies`

  /** A stored traffic event as `_find_anomalies` reads it. A `None` or empty
      `headers`/`query_params` dict is the empty sequence. */
  datatype Event = Event(
    /** `None` when the record has no `id` attribute */
    id: Option<int>,
    /** `timestamp.isoformat()` */
    timestamp: string,
    path: string,
    httpMethod: string,
    headers: seq<(string, Json)>,
    queryParams: seq<(string, Json)>,
    requestBody: Json,
    status: Status,
    /** `float(duration_ms)`; `None` when there is no such attribute or
        `float()` raises */
    durationMs: Option<real>)

  /** One entry of `reference_events`. */
  datatype Reference = Reference(
    id: int, timestamp: string, path: string, httpMethod: string,
    requestBody: Json, status: string, similarity: real)

  datatype AnomalyResult = AnomalyResult(
    eventId: int,
    similarityScore: real,
    anomalyType: string,
    description: string,
    referenceEvents: seq<Reference>)

  const SimilarityThreshold: real := 0.7
  const AnomalyType := "request_pattern_anomaly"
  const SqlPatterns: seq<string> := ["OR 1=1", "DROP TABLE", ";"]
  const HeaderPatterns: seq<string> := ["sqlmap", "scanner", "attack"]
  const UnusualMethods: seq<string> := ["TRACE", "CONNECT", "OPTIONS"]
  const SqlLabel := "Suspicious SQL pattern found: "
  const HeaderLabel := "Suspicious header found: "

  /** `int(event.id) if hasattr(event, 'id') else i` */
  function EventId(e: Event, i: nat): int {
    e.id.GetOr(i)
  }

  /** `any(pattern.lower() in str(v).lower() for v in d.values())` */
  predicate ValueMatches(entries: seq<(string, Json)>, pattern: string) {
    exists k :: 0 <= k < |entries| && Contains(Lower(Str(entries[k].1)), Lower(pattern))
  }

  /** One reason per matching pattern, in pattern order. */
  function PatternReasons(entries: seq<(string, Json)>, patterns: seq<string>, tag: string): seq<string> {
    if |patterns| == 0 then []
    else
      var p := patterns[|patterns| - 1];
      PatternReasons(entries, patterns[..|patterns| - 1], tag)
        + (if ValueMatches(entries, p) then [tag + p] else [])
  }

  function QueryReasons(e: Event): seq<string> {
    if |e.queryParams| > 0 then PatternReasons(e.queryParams, SqlPatterns, SqlLabel) else []
  }

  function HeaderReasons(e: Event): seq<string> {
    if |e.headers| > 0 then PatternReasons(e.headers, HeaderPatterns, HeaderLabel) else []
  }

  function MethodReasons(e: Event): seq<string> {
    if e.httpMethod in UnusualMethods then ["Unusual HTTP method: " + e.httpMethod] else []
  }

  /** `floatStr` renders a float as `f"{duration}"` does. */
  function DurationReasons(e: Event, floatStr: real -> string): seq<string> {
    match e.durationMs
    case Some(d) => if d > 1000.0 then ["Abnormal response time: " + floatStr(d) + "ms"] else []
    case None => []
  }

  function StatusReasons(e: Event): seq<string> {
    if ParseStatusCode(e.status) >= 400 then ["Error status code: " + StatusStr(e.status)] else []
  }

  /** `fixed2` renders a float as `f"{x:.2f}"` does. */
  function SimilarityReasons(row: seq<real>, fixed2: real -> string): seq<string>
    requires |row| > 0
  {
    if Max(row) < SimilarityThreshold
    then ["Unusual request pattern (similarity: " + fixed2(Max(row)) + ")"]
    else []
  }

  /** The reasons for one event, in the order the checks run; `row` is the
      event's self-zeroed similarity row. */
  function Reasons(e: Event, row: seq<real>, floatStr: real -> string, fixed2: real -> string): seq<string>
    requires |row| > 0
  {
    QueryReasons(e) + HeaderReasons(e) + MethodReasons(e)
      + DurationReasons(e, floatStr) + StatusReasons(e) + SimilarityReasons(row, fixed2)
  }

  function RefOf(events: seq<Event>, row: seq<real>, idx: nat): Reference
    requires idx < |events| && idx < |row|
  {
    var r := events[idx];
    Reference(EventId(r, idx), r.timestamp, r.path, r.httpMethod, r.requestBody,
              StatusStr(r.status), row[idx])
  }

  function RefsOf(events: seq<Event>, row: seq<real>, idxs: seq<nat>): (refs: seq<Reference>)
    requires forall k :: 0 <= k < |idxs| ==> idxs[k] < |events| && idxs[k] < |row|
    ensures |refs| == |idxs|
    ensures forall k :: 0 <= k < |idxs| ==> refs[k] == RefOf(events, row, idxs[k])
  {
    if |idxs| == 0 then []
    else RefsOf(events, row, idxs[..|idxs| - 1]) + [RefOf(events, row, idxs[|idxs| - 1])]
  }

  /** The reference events: `argsort(row)[-3:]`, least similar first. */
  function References(events: seq<Event>, row: seq<real>): seq<Reference>
    requires |row| == |events|
  {
    RefsOf(events, row, TopThree(row))
  }

  /** What `_find_anomalies` produces for event `i`: a result iff some check
      added a reason. */
  function Check(events: seq<Event>, sims: seq<seq<real>>, i: nat,
                 floatStr: real -> string, fixed2: real -> string): Option<AnomalyResult>
    requires Square(sims, |events|) && i < |events|
  {
    var row := SelfZeroed(sims[i], i);
    var reasons := Reasons(events[i], row, floatStr, fixed2);
    if |reasons| == 0 then None
    else Some(AnomalyResult(EventId(events[i], i), Max(row), AnomalyType,
                            Join(reasons, "; "), References(events, row)))
  }

  /** The per-event results of a batch. */
  function Results(events: seq<Event>, sims: seq<seq<real>>,
                   floatStr: real -> string, fixed2: real -> string): (rs: seq<Option<AnomalyResult>>)
    requires Square(sims, |events|)
    ensures |rs| == |events|
    ensures forall j :: 0 <= j < |events| ==> rs[j] == Check(events, sims, j, floatStr, fixed2)
  {
    seq(|events|, j requires 0 <= j < |events| => Check(events, sims, j, floatStr, fixed2))
  }

  /** What `_find_anomalies` returns. */
  function Anomalies(events: seq<Event>, sims: seq<seq<real>>,
                     floatStr: real -> string, fixed2: real -> string): seq<AnomalyResult>
    requires Square(sims, |events|)
  {
    Somes(Results(events, sims, floatStr, fixed2))
  }

  /** One pattern loop of `_find_anomalies`. */
  method MatchPatterns(entries: seq<(string, Json)>, patterns: seq<string>, tag: string)
    returns (reasons: seq<string>)
    ensures reasons == PatternReasons(entries, patterns, tag)
  {
    reasons := [];
    for k := 0 to |patterns|
      invariant reasons == PatternReasons(entries, patterns[..k], tag)
    {
      assert patterns[..k + 1][..k] == patterns[..k];
      if ValueMatches(entries, patterns[k]) {
        reasons := reasons + [tag + patterns[k]];
      }
    }
    assert patterns[..|patterns|] == patterns;
  }

  /** The five rule checks of `_find_anomalies` for one event, in order. */
  method RuleReasons(event: Event, floatStr: real -> string) returns (isAnomaly: bool, reasons: seq<string>)
    ensures reasons == QueryReasons(event) + HeaderReasons(event) + MethodReasons(event)
                       + DurationReasons(event, floatStr) + StatusReasons(event)
    ensures isAnomaly <==> |reasons| > 0
  {
    isAnomaly := false;
    reasons := [];
    if |event.queryParams| > 0 {
      var found := MatchPatterns(event.queryParams, SqlPatterns, SqlLabel);
      isAnomaly := isAnomaly || |found| > 0;
      reasons := reasons + found;
    }
    assert reasons == QueryReasons(event);
    if |event.headers| > 0 {
      var found := MatchPatterns(event.headers, HeaderPatterns, HeaderLabel);
      isAnomaly := isAnomaly || |found| > 0;
      reasons := reasons + found;
    }
    ghost var upToHeaders := QueryReasons(event) + HeaderReasons(event);
    assert reasons == upToHeaders;
    if event.httpMethod in UnusualMethods {
      isAnomaly := true;
      reasons := reasons + ["Unusual HTTP method: " + event.httpMethod];
    }
    ghost var upToMethod := upToHeaders + MethodReasons(event);
    assert reasons == upToMethod;
    if event.durationMs.Some? && event.durationMs.value > 1000.0 {
      isAnomaly := true;
      reasons := reasons + ["Abnormal response time: " + floatStr(event.durationMs.value) + "ms"];
    }
    ghost var upToDuration := upToMethod + DurationReasons(event, floatStr);
    assert reasons == upToDuration;
    if ParseStatusCode(event.status) >= 400 {
      isAnomaly := true;
      reasons := reasons + ["Error status code: " + StatusStr(event.status)];
    }
  }

  /** The `reference_events` loop. */
  method BuildReferences(events: seq<Event>, row: seq<real>) returns (refs: seq<Reference>)
    requires |row| == |events|
    ensures refs == References(events, row)
  {
    var similar := TopThree(row);
    refs := [];
    for k := 0 to |similar|
      invariant refs == RefsOf(events, row, similar[..k])
    {
      assert similar[..k + 1][..k] == similar[..k];
      var idx := similar[k];
      var ref := events[idx];
      var refId := if ref.id.Some? then ref.id.value else idx;
      refs := refs + [Reference(refId, ref.timestamp, ref.path, ref.httpMethod,
                                ref.requestBody, StatusStr(ref.status), row[idx])];
    }
    assert similar[..|similar|] == similar;
  }

  /** The body of the `_find_anomalies` loop for event `i`. */
  method AnalyzeEvent(events: seq<Event>, sims: seq<seq<real>>, i: nat,
                      floatStr: real -> string, fixed2: real -> string)
    returns (result: Option<AnomalyResult>)
    requires Square(sims, |events|) && i < |events|
    ensures result == Check(events, sims, i, floatStr, fixed2)
  {
    var event := events[i];
    var eventId := if event.id.Some? then event.id.value else i;
    var isAnomaly, reasons := RuleReasons(event, floatStr);

    var row := CopyZeroed(sims[i], i);
    var maxSimilarity := Max(row);
    if maxSimilarity < SimilarityThreshold {
      isAnomaly := true;
      reasons := reasons + ["Unusual request pattern (similarity: " + fixed2(maxSimilarity) + ")"];
    }
    assert reasons == Reasons(event, row, floatStr, fixed2);

    if isAnomaly {
      var refs := BuildReferences(events, row);
      result := Some(AnomalyResult(eventId, maxSimilarity, AnomalyType, Join(reasons, "; "), refs));
    } else {
      result := None;
    }
  }

  /** `_find_anomalies`, with `cosine_similarity(vectors)` given as `sims`. */
  method FindAnomalies(events: seq<Event>, sims: seq<seq<real>>,
                       floatStr: real -> string, fixed2: real -> string)
    returns (anomalies: seq<AnomalyResult>)
    requires Square(sims, |events|)
    ensures anomalies == Anomalies(events, sims, floatStr, fixed2)
  {
    ghost var rs := Results(events, sims, floatStr, fixed2);
    anomalies := [];
    var i := 0;
    while i < |events|
      invariant i <= |events|
      invariant anomalies == Somes(rs[..i])
    {
      var result := AnalyzeEvent(events, sims, i, floatStr, fixed2);
      SomesStep(rs, i);
      if result.Some? {
        anomalies := anomalies + [result.value];
      }
      i := i + 1;
    }
    assert rs[..|events|] == rs;
  }

  // ---------------------------------------------------------------------
  // Properties of the rules

  /** A pattern some value contains gets its reason. */
  lemma {:induction false} PatternReasonsHas(entries: seq<(string, Json)>, patterns: seq<string>, tag: string, k: nat)
    requires k < |patterns| && ValueMatches(entries, patterns[k])
    ensures tag + patterns[k] in PatternReasons(entries, patterns, tag)
  {
    var init := patterns[..|patterns| - 1];
    if k < |init| {
      assert init[k] == patterns[k];
      PatternReasonsHas(entries, init, tag, k);
    }
  }

  /** Some value contains one of the patterns, case-insensitively. */
  predicate AnyMatch(entries: seq<(string, Json)>, patterns: seq<string>) {
    exists k :: 0 <= k < |patterns| && ValueMatches(entries, patterns[k])
  }

  /** A pattern loop adds at most one reason per pattern, and only for
      patterns some value contains. */
  lemma {:induction false} PatternReasonsSound(entries: seq<(string, Json)>, patterns: seq<string>, tag: string)
    ensures |PatternReasons(entries, patterns, tag)| <= |patterns|
    ensures forall x :: x in PatternReasons(entries, patterns, tag) ==>
      exists k :: 0 <= k < |patterns| && ValueMatches(entries, patterns[k]) && x == tag + patterns[k]
  {
    if |patterns| > 0 {
      var init := patterns[..|patterns| - 1];
      PatternReasonsSound(entries, init, tag);
      forall x | x in PatternReasons(entries, patterns, tag)
        ensures exists k :: 0 <= k < |patterns| && ValueMatches(entries, patterns[k]) && x == tag + patterns[k]
      {
        if x in PatternReasons(entries, init, tag) {
          var k :| 0 <= k < |init| && ValueMatches(entries, init[k]) && x == tag + init[k];
          assert init[k] == patterns[k];
        }
      }
    }
  }

  /** A pattern loop adds some reason exactly when some pattern matches. */
  lemma {:induction false} PatternReasonsNonEmpty(entries: seq<(string, Json)>, patterns: seq<string>, tag: string)
    ensures |PatternReasons(entries, patterns, tag)| > 0 <==> AnyMatch(entries, patterns)
  {
    if |patterns| > 0 {
      var init := patterns[..|patterns| - 1];
      PatternReasonsNonEmpty(entries, init, tag);
      if AnyMatch(entries, init) {
        var k :| 0 <= k < |init| && ValueMatches(entries, init[k]);
        assert patterns[k] == init[k];
      }
      if AnyMatch(entries, patterns) && !ValueMatches(entries, patterns[|patterns| - 1]) {
        var k :| 0 <= k < |patterns| && ValueMatches(entries, patterns[k]);
        assert init[k] == patterns[k];
      }
    }
  }

  /** The self-zeroed maximum is below the threshold exactly when every
      other event is less similar than the threshold. */
  lemma {:induction false} MaxBelowThreshold(row: seq<real>, i: nat)
    requires i < |row|
    ensures Max(SelfZeroed(row, i)) < SimilarityThreshold <==>
      forall j :: 0 <= j < |row| && j != i ==> row[j] < SimilarityThreshold
  {
    var z := SelfZeroed(row, i);
    if forall j :: 0 <= j < |row| && j != i ==> row[j] < SimilarityThreshold {
      var k :| 0 <= k < |z| && z[k] == Max(z);
      assert k != i ==> z[k] == row[k];
    } else {
      var j :| 0 <= j < |row| && j != i && row[j] >= SimilarityThreshold;
      assert z[j] == row[j];
    }
  }

  /** An event yields a result iff one of the six checks fires: a SQL
      pattern in a non-empty query, a scanner-like header value, an unusual
      method, a duration over 1000 ms, a parsed status of at least 400, or
      no other event at least 0.7-similar to it. */
  lemma FlaggedIff(events: seq<Event>, sims: seq<seq<real>>, i: nat,
                   floatStr: real -> string, fixed2: real -> string)
    requires Square(sims, |events|) && i < |events|
    ensures var e := events[i];
      Check(events, sims, i, floatStr, fixed2).Some? <==>
        || (|e.queryParams| > 0 && AnyMatch(e.queryParams, SqlPatterns))
        || (|e.headers| > 0 && AnyMatch(e.headers, HeaderPatterns))
        || e.httpMethod in UnusualMethods
        || (e.durationMs.Some? && e.durationMs.value > 1000.0)
        || ParseStatusCode(e.status) >= 400
        || (forall j :: 0 <= j < |events| && j != i ==> sims[i][j] < SimilarityThreshold)
  {
    PatternReasonsNonEmpty(events[i].queryParams, SqlPatterns, SqlLabel);
    PatternReasonsNonEmpty(events[i].headers, HeaderPatterns, HeaderLabel);
    MaxBelowThreshold(sims[i], i);
  }

  /** The references: min(3, n) of them, in ascending similarity, the last
      one the most similar event. */
  lemma ReferencesShape(events: seq<Event>, row: seq<real>)
    requires |row| == |events| > 0
    ensures var refs := References(events, row);
      && |refs| == Min(3, |events|)
      && (forall k, l :: 0 <= k < l < |refs| ==> refs[k].similarity <= refs[l].similarity)
      && refs[|refs| - 1].similarity == Max(row)
  {
    var t := TopThree(row);
    TopThreeLargest(row);
    var last := t[|t| - 1];
    forall j | 0 <= j < |row| ensures row[j] <= row[last] {
      if j in t {
        var k :| 0 <= k < |t| && t[k] == j;
        if k < |t| - 1 { assert row[t[k]] <= row[t[|t| - 1]]; }
      }
    }
    var m :| 0 <= m < |row| && row[m] == Max(row);
    assert row[m] <= row[last];
  }

  /** A result carries the event's id, the fixed type, and as score the
      largest similarity to any other event (0 at least, the zeroed self);
      its min(3, n) references come in ascending similarity, the last one
      holding that score. */
  lemma ResultFields(events: seq<Event>, sims: seq<seq<real>>, i: nat,
                     floatStr: real -> string, fixed2: real -> string)
    requires Square(sims, |events|) && i < |events|
    requires Check(events, sims, i, floatStr, fixed2).Some?
    ensures var r := Check(events, sims, i, floatStr, fixed2).value;
      var refs := r.referenceEvents;
      && r.eventId == EventId(events[i], i)
      && r.anomalyType == AnomalyType
      && 0.0 <= r.similarityScore
      && (forall j :: 0 <= j < |events| && j != i ==> sims[i][j] <= r.similarityScore)
      && (r.similarityScore == 0.0 || exists j :: 0 <= j < |events| && j != i && sims[i][j] == r.similarityScore)
      && |refs| == Min(3, |events|)
      && (forall k, l :: 0 <= k < l < |refs| ==> refs[k].similarity <= refs[l].similarity)
      && refs[|refs| - 1].similarity == r.similarityScore
  {
    SelfZeroedMax(sims[i], i);
    ReferencesShape(events, SelfZeroed(sims[i], i));
  }

  /** Every reason of a flagged event appears in its description. */
  lemma ReasonDescribed(events: seq<Event>, sims: seq<seq<real>>, i: nat, x: string,
                        floatStr: real -> string, fixed2: real -> string)
    requires Square(sims, |events|) && i < |events|
    requires x in Reasons(events[i], SelfZeroed(sims[i], i), floatStr, fixed2)
    ensures Check(events, sims, i, floatStr, fixed2).Some?
    ensures Contains(Check(events, sims, i, floatStr, fixed2).value.description, x)
  {
    var reasons := Reasons(events[i], SelfZeroed(sims[i], i), floatStr, fixed2);
    var n :| 0 <= n < |reasons| && reasons[n] == x;
    JoinContains(reasons, "; ", n);
  }

  lemma DropTableMatches(e: Event, k: nat)
    requires k < |e.queryParams|
    requires Contains(Lower(Str(e.queryParams[k].1)), "drop table")
    ensures "Suspicious SQL pattern found: DROP TABLE" in QueryReasons(e)
  {
    assert Lower(SqlPatterns[1]) == "drop table" by {
      var s := SqlPatterns[1];
      assert s == "DROP TABLE";
      forall i | 0 <= i < |s| ensures Lower(s)[i] == "drop table"[i] {
      }
    }
    assert ValueMatches(e.queryParams, SqlPatterns[1]);
    PatternReasonsHas(e.queryParams, SqlPatterns, SqlLabel, 1);
    assert SqlLabel + SqlPatterns[1] == "Suspicious SQL pattern found: DROP TABLE";
  }

  /** A query value holding "drop table" in any case flags the event, and
      its description names the pattern. */
  lemma DropTableReported(events: seq<Event>, sims: seq<seq<real>>, i: nat, k: nat,
                          floatStr: real -> string, fixed2: real -> string)
    requires Square(sims, |events|) && i < |events|
    requires k < |events[i].queryParams|
    requires Contains(Lower(Str(events[i].queryParams[k].1)), "drop table")
    ensures Check(events, sims, i, floatStr, fixed2).Some?
    ensures Contains(Check(events, sims, i, floatStr, fixed2).value.description,
                     "Suspicious SQL pattern found: DROP TABLE")
  {
    DropTableMatches(events[i], k);
    ReasonDescribed(events, sims, i, "Suspicious SQL pattern found: DROP TABLE", floatStr, fixed2);
  }

  /** In a batch of at most three events every event, the flagged one
      included, is among the references: the self-entry is zeroed, not
      removed. */
  lemma ShortBatchReferencesAll(events: seq<Event>, sims: seq<seq<real>>, i: nat, j: nat,
                                floatStr: real -> string, fixed2: real -> string)
    requires Square(sims, |events|) && i < |events| && j < |events| && |events| <= 3
    requires Check(events, sims, i, floatStr, fixed2).Some?
    ensures var refs := Check(events, sims, i, floatStr, fixed2).value.referenceEvents;
      exists k :: 0 <= k < |refs| && refs[k].id == EventId(events[j], j)
  {
    var row := SelfZeroed(sims[i], i);
    var t := TopThree(row);
    TopThreeOfShortRow(row, j);
    var k :| 0 <= k < |t| && t[k] == j;
    assert References(events, row)[k] == RefOf(events, row, j);
  }

  /** A lone event has no neighbour: its score is 0, it is always flagged,
      and its only reference is itself. */
  lemma LoneEventFlagged(event: Event, sims: seq<seq<real>>, floatStr: real -> string, fixed2: real -> string)
    requires Square(sims, 1)
    ensures Check([event], sims, 0, floatStr, fixed2).Some?
    ensures var r := Check([event], sims, 0, floatStr, fixed2).value;
      && r.similarityScore == 0.0
      && |r.referenceEvents| == 1
      && r.referenceEvents[0].id == EventId(event, 0)
      && r.referenceEvents[0].similarity == 0.0
  {
    FlaggedIff([event], sims, 0, floatStr, fixed2);
    ResultFields([event], sims, 0, floatStr, fixed2);
    ShortBatchReferencesAll([event], sims, 0, 0, floatStr, fixed2);
  }

  /** `_find_anomalies` reports, in event order, exactly the events some
      check flags: the results for the first `m` events come first, every
      flagged event's result is there, and every result is some event's. */
  lemma AnomaliesAreResults(events: seq<Event>, sims: seq<seq<real>>, m: nat,
                            floatStr: real -> string, fixed2: real -> string)
    requires Square(sims, |events|) && m <= |events|
    ensures var rs := Results(events, sims, floatStr, fixed2);
      var out := Anomalies(events, sims, floatStr, fixed2);
      && Somes(rs[..m]) <= out
      && |out| <= |events|
      && (forall j :: 0 <= j < |events| && Check(events, sims, j, floatStr, fixed2).Some? ==>
            Check(events, sims, j, floatStr, fixed2).value in out)
      && (forall x :: x in out ==> exists j :: 0 <= j < |events| && Check(events, sims, j, floatStr, fixed2) == Some(x))
  {
    var rs := Results(events, sims, floatStr, fixed2);
    SomesPrefix(rs, m);
    SomesMembers(rs);
  }
}
