/** The analysis record the AI service produces, and the steps that turn
    the model's raw reply into one: cleaning the reply, locating the JSON
    object in it, the fallback record used when the reply does not decode,
    and the validation pass that fills defaults, clamps scores into [0, 100]
    and derives missing metric statuses (backend/internal/services/ai_service.go). */
module Normalizer {
  import opened Wrappers
  import Strings

  /** A metric's `value`, which the model may send as a number or a string. */
  datatype MetricValue = NullValue | NumberValue(n: real) | TextValue(s: string) | OtherValue

  /** One health parameter; `score` is on a 0–100 scale once validated. */
  datatype HealthMetric = HealthMetric(
    name: string,
    value: MetricValue,
    unit: string,
    score: real,
    status: string,
    rangeMin: real,
    rangeMax: real,
    description: string)

  datatype AnalysisResult = AnalysisResult(
    summary: string,
    simpleSummary: string,
    healthMetrics: seq<HealthMetric>,
    keyFindings: seq<string>,
    recommendations: seq<string>,
    riskLevel: string)

  const DefaultSummary := "Medical analysis completed."
  const DefaultSimpleSummary := "Your report has been analyzed. Please discuss with your healthcare provider."
  const DefaultRiskLevel := "medium"
  const DefaultRecommendations: seq<string> := [
    "Regular health check-ups with your healthcare provider",
    "Maintain a balanced diet and regular exercise",
    "Follow any prescribed treatments consistently"
  ]

  const FallbackSummary := "AI analysis completed. Raw response formatting required improvement."
  const FallbackSimplePrefix := "Analysis: "
  const FallbackKeyFindings: seq<string> := ["Report analysis completed", "Response parsing needed enhancement"]
  const FallbackRecommendations: seq<string> := ["Consult with your healthcare provider for personalized advice"]
  const NoMeaningfulLine := "Your medical report has been analyzed." + " Please consult your healthcare provider."

  // ---------------------------------------------------------------------------
  // Validation and enhancement
  // ---------------------------------------------------------------------------

  /** The score forced into [0, 100]. */
  function ClampScore(s: real): (r: real)
    ensures 0.0 <= r <= 100.0
    ensures 0.0 <= s <= 100.0 ==> r == s
    ensures s < 0.0 ==> r == 0.0
    ensures s > 100.0 ==> r == 100.0
  {
    if s < 0.0 then 0.0 else if s > 100.0 then 100.0 else s
  }

  /** The clamped score is the point of [0, 100] nearest to the raw one. */
  lemma ClampScoreNearest(s: real, y: real)
    requires 0.0 <= y <= 100.0
    ensures var d := ClampScore(s) - s; var e := y - s;
      (if d < 0.0 then -d else d) <= (if e < 0.0 then -e else e)
  {}

  /** The status a metric with no status gets from its (clamped) score. */
  function DerivedStatus(score: real): (r: string)
    ensures r == "normal" || r == "warning" || r == "critical"
    ensures r == "normal" <==> score >= 80.0
    ensures r == "critical" <==> score < 50.0
  {
    if score >= 80.0 then "normal" else if score >= 50.0 then "warning" else "critical"
  }

  /** Orders the three statuses from worst to best. */
  function StatusRank(status: string): int {
    if status == "critical" then 0 else if status == "warning" then 1 else 2
  }

  /** A higher score never yields a worse derived status. */
  lemma DerivedStatusMonotone(a: real, b: real)
    requires a <= b
    ensures StatusRank(DerivedStatus(a)) <= StatusRank(DerivedStatus(b))
  {}

  /** One metric after validation: score clamped, status derived from the
      clamped score only when it was empty, every other field kept. */
  function NormalizeMetric(m: HealthMetric): (r: HealthMetric)
    ensures 0.0 <= r.score <= 100.0 && r.status != ""
    ensures 0.0 <= m.score <= 100.0 ==> r.score == m.score
    ensures m.status != "" ==> r.status == m.status
    ensures m.status == "" ==> r.status == DerivedStatus(r.score)
    ensures r.name == m.name && r.value == m.value && r.unit == m.unit
    ensures r.rangeMin == m.rangeMin && r.rangeMax == m.rangeMax && r.description == m.description
  {
    var score := ClampScore(m.score);
    m.(score := score, status := if m.status == "" then DerivedStatus(score) else m.status)
  }

  /** The default when a field is empty. */
  function OrDefault(s: string, default: string): string {
    if s == "" then default else s
  }

  /** `validateAndEnhanceAnalysis`. */
  function ValidateAndEnhance(a: AnalysisResult): (r: AnalysisResult)
    ensures r.summary == OrDefault(a.summary, DefaultSummary)
    ensures r.simpleSummary == OrDefault(a.simpleSummary, DefaultSimpleSummary)
    ensures r.riskLevel == OrDefault(a.riskLevel, DefaultRiskLevel)
    ensures |r.healthMetrics| == |a.healthMetrics|
    ensures forall i :: 0 <= i < |a.healthMetrics| ==> r.healthMetrics[i] == NormalizeMetric(a.healthMetrics[i])
    ensures r.keyFindings == a.keyFindings
    ensures r.recommendations == (if |a.recommendations| == 0 then DefaultRecommendations else a.recommendations)
    ensures Enhanced(r)
  {
    var metrics := seq(|a.healthMetrics|, i requires 0 <= i < |a.healthMetrics| => NormalizeMetric(a.healthMetrics[i]));
    AnalysisResult(
      OrDefault(a.summary, DefaultSummary),
      OrDefault(a.simpleSummary, DefaultSimpleSummary),
      metrics,
      a.keyFindings,
      if |a.recommendations| == 0 then DefaultRecommendations else a.recommendations,
      OrDefault(a.riskLevel, DefaultRiskLevel))
  }

  /** What the validation pass guarantees, stated without reference to it:
      the three text fields are filled, every score lies in [0, 100], every
      metric has a status, and there is at least one recommendation. */
  predicate Enhanced(a: AnalysisResult) {
    a.summary != "" && a.simpleSummary != "" && a.riskLevel != ""
    && |a.recommendations| > 0
    && forall i :: 0 <= i < |a.healthMetrics| ==>
         0.0 <= a.healthMetrics[i].score <= 100.0 && a.healthMetrics[i].status != ""
  }

  /** The pass changes a record exactly when the record is not yet enhanced. */
  lemma ValidateAndEnhanceFixpoint(a: AnalysisResult)
    ensures ValidateAndEnhance(a) == a <==> Enhanced(a)
  {
    var r := ValidateAndEnhance(a);
    if Enhanced(a) {
      assert r.healthMetrics == a.healthMetrics;
    }
  }

  /** Running the pass twice is running it once. */
  lemma ValidateAndEnhanceIdempotent(a: AnalysisResult)
    ensures ValidateAndEnhance(ValidateAndEnhance(a)) == ValidateAndEnhance(a)
  {
    ValidateAndEnhanceFixpoint(ValidateAndEnhance(a));
  }

  // ---------------------------------------------------------------------------
  // Cleaning the reply and locating the JSON object
  // ---------------------------------------------------------------------------

  /** Drops a leading "```json" and a trailing "```", then trims white space. */
  function CleanResponse(response: string): (r: string)
    ensures r == [] || (!Strings.IsSpace(r[0]) && !Strings.IsSpace(r[|r| - 1]))
  {
    Strings.TrimSpace(Strings.TrimSuffix(Strings.TrimPrefix(response, "```json"), "```"))
  }

  /** Wrapping a reply in a ```json fence does not change what is cleaned out
      of it, as long as the reply does not already start or end with one. */
  lemma CleanResponseFenced(x: string)
    requires !Strings.HasPrefix(x, "```json") && !Strings.HasSuffix(x, "```")
    ensures CleanResponse("```json" + x + "```") == CleanResponse(x)
  {
    var f := "```json" + x + "```";
    assert f[..7] == "```json";
    var p := Strings.TrimPrefix(f, "```json");
    assert p == x + "```";
    assert p[|p| - 3..] == "```";
  }

  /** White space around the reply is trimmed away, with or without a
      ```json fence around it, as long as the reply's own ends are not white
      space and it carries no fence of its own. */
  lemma CleanResponsePadded(w1: string, x: string, w2: string)
    requires Strings.AllSpace(w1) && Strings.AllSpace(w2)
    requires x == [] || (!Strings.IsSpace(x[0]) && !Strings.IsSpace(x[|x| - 1]))
    requires !Strings.HasPrefix(x, "```json") && !Strings.HasSuffix(x, "```")
    ensures CleanResponse(w1 + x + w2) == x
    ensures CleanResponse("```json" + w1 + x + w2 + "```") == x
  {
    var s := w1 + x + w2;
    PaddedUnfenced(w1, x, w2);
    CleanPadded(s, w1, x, w2);
    var f := "```json" + w1 + x + w2 + "```";
    assert f == "```json" + s + "```";
    CleanResponseFenced(s);
  }

  lemma CleanPadded(s: string, w1: string, x: string, w2: string)
    requires s == w1 + x + w2
    requires Strings.AllSpace(w1) && Strings.AllSpace(w2)
    requires x == [] || (!Strings.IsSpace(x[0]) && !Strings.IsSpace(x[|x| - 1]))
    requires !Strings.HasPrefix(s, "```json") && !Strings.HasSuffix(s, "```")
    ensures CleanResponse(s) == x
  {
    assert Strings.TrimPrefix(s, "```json") == s;
    assert Strings.TrimSuffix(s, "```") == s;
    Strings.TrimSpacePadded(w1, x, w2);
  }

  /** Padding with white space cannot create a fence at either end. */
  lemma PaddedUnfenced(w1: string, x: string, w2: string)
    requires Strings.AllSpace(w1) && Strings.AllSpace(w2)
    requires !Strings.HasPrefix(x, "```json") && !Strings.HasSuffix(x, "```")
    ensures var s := w1 + x + w2; !Strings.HasPrefix(s, "```json") && !Strings.HasSuffix(s, "```")
  {
    var s := w1 + x + w2;
    if w1 != [] {
      assert s[0] == w1[0];
    } else if |x| < 7 {
      if |s| >= 7 {
        assert s[6] == w2[6 - |x|];
      }
    } else {
      assert s[..7] == x[..7];
    }
    if w2 != [] {
      assert s[|s| - 1] == w2[|w2| - 1];
    } else if |x| < 3 {
      if |s| >= 3 {
        assert s[|s| - 3] == w1[|s| - 3];
      }
    } else {
      assert s[|s| - 3..] == x[|x| - 3..];
    }
  }

  /** Some `{` comes before some `}`. */
  predicate HasBracePair(s: string) {
    exists i, j :: 0 <= i < j < |s| && s[i] == '{' && s[j] == '}'
  }

  /** `c` is at index `i` and nowhere before it. */
  predicate IsFirst(s: string, c: char, i: int) {
    0 <= i < |s| && s[i] == c && forall k :: 0 <= k < i ==> s[k] != c
  }

  /** `c` is at index `j` and nowhere after it. */
  predicate IsLast(s: string, c: char, j: int) {
    0 <= j < |s| && s[j] == c && forall k :: j < k < |s| ==> s[k] != c
  }

  /** The text handed to the decoder: from the first `{` to the last `}`
      inclusive when a `{` precedes the last `}`, otherwise all of it. */
  function LocateJson(s: string): (r: string)
    ensures HasBracePair(s) ==>
      exists i, j :: IsFirst(s, '{', i) && IsLast(s, '}', j) && i < j && r == s[i..j + 1]
    ensures !HasBracePair(s) ==> r == s
  {
    var start := Strings.IndexByte(s, '{');
    var end := Strings.LastIndexByte(s, '}');
    if start >= 0 && end > start then
      assert IsFirst(s, '{', start) && IsLast(s, '}', end);
      s[start..end + 1]
    else
      NoBracePair(s);
      s
  }

  /** When the first `{` is not before the last `}`, no `{` is before any `}`. */
  lemma NoBracePair(s: string)
    requires var start := Strings.IndexByte(s, '{');
      !(start >= 0 && Strings.LastIndexByte(s, '}') > start)
    ensures !HasBracePair(s)
  {
    var start := Strings.IndexByte(s, '{');
    var end := Strings.LastIndexByte(s, '}');
    forall i, j | 0 <= i < j < |s| && s[i] == '{' ensures s[j] != '}' {
      assert start >= 0 && start <= i;
      assert end <= start;
    }
  }

  /** A JSON object surrounded by chatter without braces is cut out exactly. */
  lemma LocateJsonEmbedded(before: string, obj: string, after: string)
    requires |obj| >= 2 && obj[0] == '{' && obj[|obj| - 1] == '}'
    requires '{' !in before && '}' !in after
    ensures LocateJson(before + obj + after) == obj
  {
    var s := before + obj + after;
    var b := |before|;
    var e := b + |obj| - 1;
    assert s[b] == '{' && s[e] == '}';
    assert forall k :: 0 <= k < b ==> s[k] == before[k];
    assert forall k :: e < k < |s| ==> s[k] == after[k - e - 1];
    assert Strings.IndexByte(s, '{') == b;
    assert Strings.LastIndexByte(s, '}') == e;
    assert s[b..e + 1] == obj;
  }

  // ---------------------------------------------------------------------------
  // Fallback record
  // ---------------------------------------------------------------------------

  /** A trimmed line good enough to stand as a summary. */
  predicate Meaningful(line: string) {
    |line| > 20 && !Strings.HasPrefix(line, "{") && !Strings.HasPrefix(line, "}")
  }

  /** A raw line that is meaningful once trimmed. */
  predicate MeaningfulLine(line: string) {
    Meaningful(Strings.TrimSpace(line))
  }

  /** The index of the first line that is meaningful once trimmed, or
      `|lines|` when there is none. */
  function FirstMeaningfulIndex(lines: seq<string>): (k: nat)
    ensures k <= |lines|
    ensures k < |lines| ==> MeaningfulLine(lines[k])
    ensures forall m :: 0 <= m < k ==> !MeaningfulLine(lines[m])
  {
    FirstWhere(lines, MeaningfulLine)
  }

  /** The index of the first line satisfying `p`, or `|lines|` when there
      is none. */
  function FirstWhere(lines: seq<string>, p: string -> bool): (k: nat)
    ensures k <= |lines|
    ensures k < |lines| ==> p(lines[k])
    ensures forall m :: 0 <= m < k ==> !p(lines[m])
  {
    if |lines| == 0 then 0
    else if p(lines[0]) then 0
    else
      var k := FirstWhere(lines[1..], p);
      assert forall m :: 1 <= m < k + 1 ==> lines[m] == lines[1..][m - 1];
      k + 1
  }

  /** `extractSimpleSummary`: the first line of the reply (split at "\n")
      that is meaningful once trimmed, trimmed; or the fixed sentence when
      there is none.  Either way the result is one line of more than 20
      characters. */
  function ExtractSimpleSummary(response: string): (r: string)
    ensures Meaningful(r)
    ensures '\n' !in r
    ensures var lines := Strings.SplitOn(response, "\n");
      var k := FirstMeaningfulIndex(lines);
      r == if k < |lines| then Strings.TrimSpace(lines[k]) else NoMeaningfulLine
  {
    var lines := Strings.SplitOn(response, "\n");
    var k := FirstMeaningfulIndex(lines);
    if k < |lines| then
      LineHasNoNewline(lines, k);
      Strings.TrimSpace(lines[k])
    else
      NoMeaningfulLineIsMeaningful();
      NoMeaningfulLine
  }

  lemma NoMeaningfulLineIsMeaningful()
    ensures Meaningful(NoMeaningfulLine) && '\n' !in NoMeaningfulLine
  {
    assert NoMeaningfulLine[0] == 'Y';
  }

  lemma LineHasNoNewline(lines: seq<string>, k: nat)
    requires k < |lines| && !Strings.Contains(lines[k], "\n")
    ensures '\n' !in Strings.TrimSpace(lines[k])
  {
    Strings.ContainsChar(lines[k], '\n');
    Strings.TrimSpaceChars(lines[k]);
  }

  /** `extractHealthMetrics`: no metrics are recovered from a reply that did
      not decode. */
  function ExtractHealthMetrics(response: string): (r: seq<HealthMetric>)
    ensures |r| == 0
  {
    []
  }

  /** The degraded record returned when the located text does not decode. */
  function FallbackAnalysis(located: string): (r: AnalysisResult)
    ensures r.summary == FallbackSummary && r.riskLevel == DefaultRiskLevel
    ensures Strings.HasPrefix(r.simpleSummary, FallbackSimplePrefix)
    ensures r.simpleSummary == FallbackSimplePrefix + ExtractSimpleSummary(located)
    ensures r.healthMetrics == ExtractHealthMetrics(located)
    ensures r.healthMetrics == [] && r.keyFindings == FallbackKeyFindings
    ensures r.recommendations == FallbackRecommendations
    ensures Enhanced(r)
  {
    var simple := ExtractSimpleSummary(located);
    assert (FallbackSimplePrefix + simple)[..|FallbackSimplePrefix|] == FallbackSimplePrefix;
    AnalysisResult(
      FallbackSummary,
      FallbackSimplePrefix + simple,
      ExtractHealthMetrics(located),
      FallbackKeyFindings,
      FallbackRecommendations,
      DefaultRiskLevel)
  }

  /** `parseAnalysisResponse` with `decode` standing for `json.Unmarshal`.
      It never fails: a reply that decodes is validated, and one that does
      not yields the fallback record. */
  function ParseAnalysisResponse(decode: string -> Option<AnalysisResult>, response: string): (r: AnalysisResult)
    ensures Enhanced(r)
    ensures var located := LocateJson(CleanResponse(response));
      match decode(located)
      case Some(a) => r == ValidateAndEnhance(a)
      case None => r == FallbackAnalysis(located)
  {
    var located := LocateJson(CleanResponse(response));
    match decode(located)
    case Some(a) => ValidateAndEnhance(a)
    case None => FallbackAnalysis(located)
  }

  /** A reply that already starts and ends with non-space characters and
      carries no fence of its own comes out of a ```json fence unchanged. */
  lemma CleanFencedTrimmed(x: string)
    requires |x| > 0 && !Strings.IsSpace(x[0]) && !Strings.IsSpace(x[|x| - 1])
    requires !Strings.HasPrefix(x, "```json") && !Strings.HasSuffix(x, "```")
    ensures CleanResponse("```json" + x + "```") == x
  {
    CleanResponseFenced(x);
    Strings.TrimSpaceStops(x);
  }

  /** A fenced reply holding one JSON object between brace-free chatter is
      decoded from exactly that object. */
  lemma ParseFencedObject(decode: string -> Option<AnalysisResult>, before: string, obj: string, after: string)
    requires |obj| >= 2 && obj[0] == '{' && obj[|obj| - 1] == '}'
    requires '{' !in before && '}' !in after
    requires before == [] || !Strings.IsSpace(before[0])
    requires after == [] || !Strings.IsSpace(after[|after| - 1])
    requires !Strings.HasPrefix(before + obj + after, "```json") && !Strings.HasSuffix(before + obj + after, "```")
    ensures ParseAnalysisResponse(decode, "```json" + (before + obj + after) + "```")
         == (match decode(obj)
             case Some(a) => ValidateAndEnhance(a)
             case None => FallbackAnalysis(obj))
  {
    var x := before + obj + after;
    assert x[0] == (if before == [] then obj[0] else before[0]);
    assert x[|x| - 1] == (if after == [] then obj[|obj| - 1] else after[|after| - 1]);
    CleanFencedTrimmed(x);
    LocateJsonEmbedded(before, obj, after);
  }

  /** `GetHealthMetrics`: the metrics of a stored analysis, or an error when
      the stored text does not decode. */
  function GetHealthMetrics(decode: string -> Option<AnalysisResult>, analysisJson: string): (r: Result<seq<HealthMetric>, string>)
    ensures r.Success? <==> decode(analysisJson).Some?
    ensures r.Success? ==> r.value == decode(analysisJson).value.healthMetrics
    ensures r.Failure? ==> Strings.HasPrefix(r.error, "failed to parse analysis")
  {
    match decode(analysisJson)
    case Some(a) => Success(a.healthMetrics)
    case None => Failure("failed to parse analysis")
  }
}
