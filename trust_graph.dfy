/** The trust pipeline: a linear sequence of stages over one analysis state, driven by three
    AI oracles and two bibliographic registries that are given as parameters, with the
    progress labels it reports, the risk and trust arithmetic, and the trust level. */
module TrustGraph {
  import opened Wrappers
  import opened Strings
  import opened Seqs
  import opened Constants
  import opened Types
  import HallucinationRules
  import CitationService

  // ---------------------------------------------------------------------------------------
  // Oracles
  // ---------------------------------------------------------------------------------------

  /** One grounding chunk of a web search: `web.title` and `maps.title`, either may be absent. */
  datatype GroundingSource = GroundingSource(webTitle: Option<string>, mapsTitle: Option<string>)

  /** The web-search oracle's answer: its free text (possibly absent) and its grounding chunks. */
  datatype SearchResult = SearchResult(text: Option<string>, sources: seq<GroundingSource>)

  /** The deep-review oracle's answer. */
  datatype DeepReview = DeepReview(explanation: string, scoreAdjustment: real)

  /** The external collaborators of a run, each reduced to its answer for a given input; a
      `Failure` stands for a rejected promise. */
  datatype Oracles = Oracles(
    extractClaims: string -> Result<seq<Claim>, string>,
    crossref: string -> CitationService.HttpResponse<CitationService.CrossrefBody>,
    scholar: string -> CitationService.HttpResponse<CitationService.SearchBody>,
    webSearch: string -> Result<SearchResult, string>,
    deepReview: TrustState -> Result<DeepReview, string>)

  // ---------------------------------------------------------------------------------------
  // Progress labels
  // ---------------------------------------------------------------------------------------

  /** The stages that report progress, in the order in which they run. */
  datatype Stage = Initializing | Extracting | Scanning | Verifying | ConsultingWeb | Calculating | DeepThinking | Complete

  /** The label passed to `onUpdate` when a stage starts. */
  function Label(stage: Stage): string {
    match stage
    case Initializing => "Initializing Analysis State..."
    case Extracting => "Extracting Claims (Gemini Flash)..."
    case Scanning => "Scanning Linguistic Red Flags..."
    case Verifying => "Verifying Citations (CrossRef/Semantic)..."
    case ConsultingWeb => "Consulting Web Grounding (Google Search)..."
    case Calculating => "Calculating Base Trust Metrics..."
    case DeepThinking => "Running Deep Thinking Review (Gemini Pro)..."
    case Complete => "Complete"
  }

  /** Different stages report different labels, so the labels reported determine the stages. */
  lemma LabelInjective(s: Stage, t: Stage)
    requires Label(s) == Label(t)
    ensures s == t
  {
    assert |Label(s)| == |Label(t)|;
  }

  function Labels(stages: seq<Stage>): (r: seq<string>)
    ensures |r| == |stages| && forall i :: 0 <= i < |stages| ==> r[i] == Label(stages[i])
  {
    seq(|stages|, i requires 0 <= i < |stages| => Label(stages[i]))
  }

  /** The strings reported through `onUpdate` determine the stages a run went through. */
  lemma LabelsInjective(s: seq<Stage>, t: seq<Stage>)
    requires Labels(s) == Labels(t)
    ensures s == t
  {
    forall i | 0 <= i < |s| ensures s[i] == t[i] {
      LabelInjective(s[i], t[i]);
    }
  }

  function StageRank(stage: Stage): nat {
    match stage
    case Initializing => 0
    case Extracting => 1
    case Scanning => 2
    case Verifying => 3
    case ConsultingWeb => 4
    case Calculating => 5
    case DeepThinking => 6
    case Complete => 7
  }

  /** The stages of a run that completes; the web and deep-review stages run only when enabled
      (the web stage also needs a claim). */
  function Stages(webStage: bool, deepStage: bool): seq<Stage> {
    [Initializing, Extracting, Scanning, Verifying] + LaterStages(webStage, deepStage) + [Complete]
  }

  /** The stages from web grounding up to, not including, completion. */
  function LaterStages(webStage: bool, deepStage: bool): seq<Stage> {
    (if webStage then [ConsultingWeb] else []) + [Calculating] + (if deepStage then [DeepThinking] else [])
  }

  /** The stages of a completed run are in stage order (so none repeats), start with
      initialization, end with completion, and include the optional stages exactly when they
      run. */
  lemma StagesOrder(webStage: bool, deepStage: bool)
    ensures forall i, j :: 0 <= i < j < |Stages(webStage, deepStage)| ==>
      StageRank(Stages(webStage, deepStage)[i]) < StageRank(Stages(webStage, deepStage)[j])
    ensures Stages(webStage, deepStage)[0] == Initializing
    ensures Stages(webStage, deepStage)[|Stages(webStage, deepStage)| - 1] == Complete
    ensures ConsultingWeb in Stages(webStage, deepStage) <==> webStage
    ensures DeepThinking in Stages(webStage, deepStage) <==> deepStage
    ensures |Stages(webStage, deepStage)| == 6 + (if webStage then 1 else 0) + (if deepStage then 1 else 0)
  {
    var s := Stages(webStage, deepStage);
    assert forall i :: 0 <= i < |s| - 1 ==> StageRank(s[i]) < StageRank(s[i + 1]);
    StrictlyAscending(s);
  }

  lemma {:induction false} StrictlyAscending(s: seq<Stage>)
    requires forall i :: 0 <= i < |s| - 1 ==> StageRank(s[i]) < StageRank(s[i + 1])
    ensures forall i, j :: 0 <= i < j < |s| ==> StageRank(s[i]) < StageRank(s[j])
  {
    if |s| > 1 {
      var t := s[1..];
      StrictlyAscending(t);
      forall i, j | 0 <= i < j < |s| ensures StageRank(s[i]) < StageRank(s[j]) {
        if i == 0 {
          if j > 1 {
            assert StageRank(t[0]) < StageRank(t[j - 1]);
          }
        } else {
          assert StageRank(t[i - 1]) < StageRank(t[j - 1]);
        }
      }
    }
  }

  // ---------------------------------------------------------------------------------------
  // Web grounding
  // ---------------------------------------------------------------------------------------

  /** The index of the claim a stable ascending sort by confidence puts first: the earliest
      claim of minimum confidence. */
  function WeakestClaim(claims: seq<Claim>): (i: nat)
    requires |claims| > 0
    ensures i < |claims|
    ensures forall j :: 0 <= j < |claims| ==> claims[i].confidenceScore <= claims[j].confidenceScore
    ensures forall j :: 0 <= j < i ==> claims[j].confidenceScore > claims[i].confidenceScore
  {
    if |claims| == 1 then 0
    else
      var k := WeakestClaim(claims[..|claims| - 1]);
      if claims[|claims| - 1].confidenceScore < claims[k].confidenceScore then |claims| - 1 else k
  }

  const SEARCH_RESULT: string := "Search Result"
  const NO_SUMMARY: string := "No summary available."

  /** `s.web?.title || s.maps?.title || "Search Result"`. */
  function SourceLabel(src: GroundingSource): (r: string)
    ensures r != ""
    ensures src.webTitle.Some? && src.webTitle.value != "" ==> r == src.webTitle.value
    ensures (src.webTitle.None? || src.webTitle.value == "") && src.mapsTitle.Some? && src.mapsTitle.value != "" ==> r == src.mapsTitle.value
    ensures (src.webTitle.None? || src.webTitle.value == "") && (src.mapsTitle.None? || src.mapsTitle.value == "") ==> r == SEARCH_RESULT
  {
    OrElse(src.webTitle, OrElse(src.mapsTitle, SEARCH_RESULT))
  }

  /** The web result recorded for a claim and the search oracle's answer about it. */
  function WebEvidence(query: string, answer: SearchResult): (w: WebResult)
    ensures w.query == query
    ensures w.evidenceFound <==> |answer.sources| > 0
    ensures |w.credibleSources| == |answer.sources|
    ensures forall i :: 0 <= i < |answer.sources| ==> w.credibleSources[i] == SourceLabel(answer.sources[i])
    ensures w.summary != "" && (answer.text.Some? && answer.text.value != "" ==> w.summary == answer.text.value)
    ensures (answer.text.None? || answer.text.value == "") ==> w.summary == NO_SUMMARY
  {
    var labels := seq(|answer.sources|, i requires 0 <= i < |answer.sources| => SourceLabel(answer.sources[i]));
    WebResult(query, |answer.sources| > 0, labels, OrElse(answer.text, NO_SUMMARY))
  }

  /** The web results of a run: one for the weakest claim when the stage runs and the search
      succeeds, none otherwise. */
  function WebStage(claims: seq<Claim>, enableWeb: bool, webSearch: string -> Result<SearchResult, string>): (r: seq<WebResult>)
    ensures |r| <= 1
    ensures r != [] <==> enableWeb && |claims| > 0 && webSearch(claims[WeakestClaim(claims)].text).Success?
    ensures r != [] ==> r[0] == WebEvidence(claims[WeakestClaim(claims)].text, webSearch(claims[WeakestClaim(claims)].text).value)
  {
    if enableWeb && |claims| > 0 then
      var query := claims[WeakestClaim(claims)].text;
      match webSearch(query)
      case Failure(_) => []
      case Success(answer) => [WebEvidence(query, answer)]
    else []
  }

  // ---------------------------------------------------------------------------------------
  // Risk
  // ---------------------------------------------------------------------------------------

  /** The penalties written inline in the pipeline: an unverified citation and a claim the web
      search could not ground. */
  const UNVERIFIED_CITATION_PENALTY: int := 15
  const UNGROUNDED_CLAIM_PENALTY: int := 5

  function FlagImpacts(flags: seq<HallucinationFlag>): int {
    if flags == [] then 0 else FlagImpacts(flags[..|flags| - 1]) + flags[|flags| - 1].impact
  }

  function CitationDelta(c: CitationResult): int {
    if c.verified then -CITATION_VERIFIED else UNVERIFIED_CITATION_PENALTY
  }

  function CitationRisk(cs: seq<CitationResult>): int {
    if cs == [] then 0 else CitationRisk(cs[..|cs| - 1]) + CitationDelta(cs[|cs| - 1])
  }

  function WebDelta(w: WebResult): int {
    if w.evidenceFound then -WEB_EVIDENCE else UNGROUNDED_CLAIM_PENALTY
  }

  function WebRisk(ws: seq<WebResult>): int {
    if ws == [] then 0 else WebRisk(ws[..|ws| - 1]) + WebDelta(ws[|ws| - 1])
  }

  /** The risk before clamping. */
  function RawRisk(flags: seq<HallucinationFlag>, cs: seq<CitationResult>, ws: seq<WebResult>): int {
    BASE_RISK + FlagImpacts(flags) + CitationRisk(cs) + WebRisk(ws)
  }

  /** `citation_results.filter(c => c.verified).length`. */
  function CountVerified(cs: seq<CitationResult>): (n: nat)
    ensures n <= |cs|
    ensures n == |cs| <==> forall i :: 0 <= i < |cs| ==> cs[i].verified
  {
    if cs == [] then 0 else CountVerified(cs[..|cs| - 1]) + (if cs[|cs| - 1].verified then 1 else 0)
  }

  /** The number of web results whose search found evidence. */
  function CountEvidence(ws: seq<WebResult>): (n: nat)
    ensures n <= |ws|
  {
    if ws == [] then 0 else CountEvidence(ws[..|ws| - 1]) + (if ws[|ws| - 1].evidenceFound then 1 else 0)
  }

  lemma {:induction false} CitationRiskCounts(cs: seq<CitationResult>)
    ensures CitationRisk(cs) == UNVERIFIED_CITATION_PENALTY * (|cs| - CountVerified(cs)) - CITATION_VERIFIED * CountVerified(cs)
  {
    if cs != [] {
      CitationRiskCounts(cs[..|cs| - 1]);
    }
  }

  lemma {:induction false} WebRiskCounts(ws: seq<WebResult>)
    ensures WebRisk(ws) == UNGROUNDED_CLAIM_PENALTY * (|ws| - CountEvidence(ws)) - WEB_EVIDENCE * CountEvidence(ws)
  {
    if ws != [] {
      WebRiskCounts(ws[..|ws| - 1]);
    }
  }

  /** The raw risk in closed form: the base, plus every flag's impact, plus 15 per unverified
      citation less 5 per verified one, less 10 per grounded claim plus 5 per ungrounded one. */
  lemma RawRiskFormula(flags: seq<HallucinationFlag>, cs: seq<CitationResult>, ws: seq<WebResult>)
    ensures RawRisk(flags, cs, ws) == 50 + FlagImpacts(flags)
      + 15 * (|cs| - CountVerified(cs)) - 5 * CountVerified(cs)
      - 10 * CountEvidence(ws) + 5 * (|ws| - CountEvidence(ws))
  {
    CitationRiskCounts(cs);
    WebRiskCounts(ws);
  }

  /** Flags add their impacts: a further flag changes the raw risk by exactly its impact. */
  lemma FlagAddsImpact(flags: seq<HallucinationFlag>, f: HallucinationFlag, cs: seq<CitationResult>, ws: seq<WebResult>)
    ensures RawRisk(flags + [f], cs, ws) == RawRisk(flags, cs, ws) + f.impact
  {
    assert (flags + [f])[..|flags|] == flags;
  }

  /** An unverified citation costs more than a verified one earns. */
  lemma UnverifiedOutweighsVerified()
    ensures UNVERIFIED_CITATION_PENALTY > CITATION_VERIFIED > 0
  {
  }

  predicate ImpactsPositive(flags: seq<HallucinationFlag>) {
    forall i :: 0 <= i < |flags| ==> flags[i].impact > 0
  }

  lemma ImpactsPositiveAppend(xs: seq<HallucinationFlag>, ys: seq<HallucinationFlag>)
    requires ImpactsPositive(xs) && ImpactsPositive(ys)
    ensures ImpactsPositive(xs + ys)
  {
    AppendIndex(xs, ys);
  }

  /** Every flag the rule engine raises has a positive impact, so each one strictly raises the
      raw risk (FlagAddsImpact). */
  lemma RuleFlagImpactsPositive(text: string)
    ensures ImpactsPositive(HallucinationRules.RuleFlags(text))
  {
    var a, b := HallucinationRules.AbsoluteFlags(text), HallucinationRules.AuthorityFlags(text);
    var u, c := HallucinationRules.UniversalFlag(text), HallucinationRules.CertaintyFlag(text);
    assert ImpactsPositive(a) && ImpactsPositive(b) && ImpactsPositive(u) && ImpactsPositive(c);
    ImpactsPositiveAppend(a, b);
    ImpactsPositiveAppend(a + b, u);
    ImpactsPositiveAppend(a + b + u, c);
  }

  /** `Math.max(0, Math.min(100, x))`. */
  function Clamp(x: int): (r: int)
    ensures 0 <= r <= 100
    ensures 0 <= x <= 100 ==> r == x
    ensures x < 0 ==> r == 0
    ensures x > 100 ==> r == 100
  {
    if x < 0 then 0 else if x > 100 then 100 else x
  }

  function ClampReal(x: real): (r: real)
    ensures 0.0 <= r <= 100.0
    ensures 0.0 <= x <= 100.0 ==> r == x
    ensures x < 0.0 ==> r == 0.0
    ensures x > 100.0 ==> r == 100.0
  {
    if x < 0.0 then 0.0 else if x > 100.0 then 100.0 else x
  }

  /** The three `forEach` accumulations of the base scoring stage. */
  method AccumulateRisk(flags: seq<HallucinationFlag>, cs: seq<CitationResult>, ws: seq<WebResult>) returns (riskScore: int)
    ensures riskScore == RawRisk(flags, cs, ws)
  {
    riskScore := BASE_RISK;
    for i := 0 to |flags|
      invariant riskScore == BASE_RISK + FlagImpacts(flags[..i])
    {
      assert flags[..i + 1][..i] == flags[..i];
      riskScore := riskScore + flags[i].impact;
    }
    assert flags[..|flags|] == flags;
    for i := 0 to |cs|
      invariant riskScore == BASE_RISK + FlagImpacts(flags) + CitationRisk(cs[..i])
    {
      assert cs[..i + 1][..i] == cs[..i];
      if cs[i].verified {
        riskScore := riskScore - CITATION_VERIFIED;
      } else {
        riskScore := riskScore + UNVERIFIED_CITATION_PENALTY;
      }
    }
    assert cs[..|cs|] == cs;
    for i := 0 to |ws|
      invariant riskScore == BASE_RISK + FlagImpacts(flags) + CitationRisk(cs) + WebRisk(ws[..i])
    {
      assert ws[..i + 1][..i] == ws[..i];
      if ws[i].evidenceFound {
        riskScore := riskScore - WEB_EVIDENCE;
      } else {
        riskScore := riskScore + UNGROUNDED_CLAIM_PENALTY;
      }
    }
    assert ws[..|ws|] == ws;
  }

  // ---------------------------------------------------------------------------------------
  // Trust
  // ---------------------------------------------------------------------------------------

  /** `claims.reduce((sum, c) => sum + c.confidence_score, 0)`. */
  function SumConfidence(claims: seq<Claim>): real {
    if claims == [] then 0.0 else SumConfidence(claims[..|claims| - 1]) + claims[|claims| - 1].confidenceScore
  }

  /** The mean confidence of the claims, 50 when there are none. */
  function MeanConfidence(claims: seq<Claim>): (m: real)
    ensures |claims| == 0 ==> m == 50.0
    ensures |claims| > 0 ==> m * |claims| as real == SumConfidence(claims)
  {
    if |claims| > 0 then SumConfidence(claims) / |claims| as real else 50.0
  }

  predicate ConfidencesInRange(claims: seq<Claim>) {
    forall i :: 0 <= i < |claims| ==> 0.0 <= claims[i].confidenceScore <= 100.0
  }

  lemma {:induction false} SumConfidenceBounds(claims: seq<Claim>)
    requires ConfidencesInRange(claims)
    ensures 0.0 <= SumConfidence(claims) <= 100.0 * |claims| as real
  {
    if claims != [] {
      SumConfidenceBounds(claims[..|claims| - 1]);
    }
  }

  /** The mean of confidences in [0, 100] is in [0, 100]. */
  lemma MeanConfidenceBounds(claims: seq<Claim>)
    requires ConfidencesInRange(claims)
    ensures 0.0 <= MeanConfidence(claims) <= 100.0
  {
    if |claims| > 0 {
      SumConfidenceBounds(claims);
      var m, n := MeanConfidence(claims), |claims| as real;
      assert m * n <= 100.0 * n;
    }
  }

  /** `Math.round`: the nearest integer, halves rounded up. */
  function Round(x: real): (r: int)
    ensures r as real <= x + 0.5 < r as real + 1.0
  {
    (x + 0.5).Floor
  }

  /** The base trust score: the rounded convex combination of mean confidence and inverse risk. */
  function BaseTrust(mean: real, risk: int): (t: int)
    ensures t as real <= LLM_CONFIDENCE * mean + RISK_FACTOR * (100 - risk) as real + 0.5 < t as real + 1.0
  {
    Round(mean * LLM_CONFIDENCE + (100 - risk) as real * RISK_FACTOR)
  }

  /** With mean confidence and risk in [0, 100], the base trust score is in [0, 100]. */
  lemma BaseTrustBounds(mean: real, risk: int)
    requires 0.0 <= mean <= 100.0 && 0 <= risk <= 100
    ensures 0 <= BaseTrust(mean, risk) <= 100
  {
  }

  /** More confidence and less risk never lower the base trust score. */
  lemma BaseTrustMonotone(mean1: real, risk1: int, mean2: real, risk2: int)
    requires mean1 <= mean2 && risk2 <= risk1
    ensures BaseTrust(mean1, risk1) <= BaseTrust(mean2, risk2)
  {
    var x1 := mean1 * LLM_CONFIDENCE + (100 - risk1) as real * RISK_FACTOR;
    var x2 := mean2 * LLM_CONFIDENCE + (100 - risk2) as real * RISK_FACTOR;
    assert x1 <= x2;
  }

  /** The trust level of a final score. */
  function LevelOf(score: real): (l: TrustLevel)
    ensures l == TrustHigh <==> score >= 75.0
    ensures l == TrustMedium <==> 50.0 <= score < 75.0
    ensures l == TrustLow <==> score < 50.0
  {
    if score >= 75.0 then TrustHigh else if score >= 50.0 then TrustMedium else TrustLow
  }

  function LevelRank(l: TrustLevel): nat {
    match l
    case TrustLow => 0
    case TrustMedium => 1
    case TrustHigh => 2
  }

  /** A higher score never has a lower level. */
  lemma LevelMonotone(s: real, t: real)
    requires s <= t
    ensures LevelRank(LevelOf(s)) <= LevelRank(LevelOf(t))
  {
  }

  // ---------------------------------------------------------------------------------------
  // Explanation
  // ---------------------------------------------------------------------------------------

  const EXPLANATION_START: string := "Standard analysis completed. "
  const AFTER_CLAIMS: string := " claims processed. "
  const AFTER_VERIFIED: string := "/"
  const AFTER_CITATIONS: string := " citations verified. Linguistic risk: "
  const AFTER_FLAGS: string := " flags found."

  /** The explanation written when no deep review runs. */
  function StandardExplanation(claimCount: nat, verifiedCount: nat, citationCount: nat, flagCount: nat): string {
    EXPLANATION_START + (NatToDecimal(claimCount) + (AFTER_CLAIMS + (NatToDecimal(verifiedCount)
      + (AFTER_VERIFIED + (NatToDecimal(citationCount) + (AFTER_CITATIONS + (NatToDecimal(flagCount) + AFTER_FLAGS)))))))
  }

  /** A run of digits followed by a non-digit is determined by the whole string. */
  lemma DigitsThenText(a: string, x: string, b: string, y: string)
    requires AllDigits(a) && AllDigits(b)
    requires x != [] && !IsDigit(x[0]) && y != [] && !IsDigit(y[0])
    requires a + x == b + y
    ensures a == b && x == y
  {
    assert a == (a + x)[..|a|] && b == (b + y)[..|b|];
    assert x == (a + x)[|a|..] && y == (b + y)[|b|..];
  }

  /** Cancels a common prefix. */
  lemma StripPrefix(p: string, x: string, y: string)
    requires p + x == p + y
    ensures x == y
  {
    assert x == (p + x)[|p|..];
    assert y == (p + y)[|p|..];
  }

  /** One count of the template: its digits, then text that starts with a non-digit. */
  lemma StripCount(m: nat, n: nat, x: string, y: string)
    requires x != [] && !IsDigit(x[0]) && y != [] && !IsDigit(y[0])
    requires NatToDecimal(m) + x == NatToDecimal(n) + y
    ensures m == n && x == y
  {
    DigitsThenText(NatToDecimal(m), x, NatToDecimal(n), y);
    NatToDecimalInjective(m, n);
  }

  /** The standard explanation determines the four counts it reports. */
  lemma StandardExplanationInjective(c1: nat, v1: nat, t1: nat, f1: nat, c2: nat, v2: nat, t2: nat, f2: nat)
    requires StandardExplanation(c1, v1, t1, f1) == StandardExplanation(c2, v2, t2, f2)
    ensures c1 == c2 && v1 == v2 && t1 == t2 && f1 == f2
  {
    var d1, d2 := NatToDecimal(f1) + AFTER_FLAGS, NatToDecimal(f2) + AFTER_FLAGS;
    var r1, r2 := NatToDecimal(t1) + (AFTER_CITATIONS + d1), NatToDecimal(t2) + (AFTER_CITATIONS + d2);
    var q1, q2 := NatToDecimal(v1) + (AFTER_VERIFIED + r1), NatToDecimal(v2) + (AFTER_VERIFIED + r2);
    var p1, p2 := NatToDecimal(c1) + (AFTER_CLAIMS + q1), NatToDecimal(c2) + (AFTER_CLAIMS + q2);
    assert AFTER_CLAIMS[0] == ' ' && AFTER_VERIFIED[0] == '/' && AFTER_CITATIONS[0] == ' ' && AFTER_FLAGS[0] == ' ';
    StripPrefix(EXPLANATION_START, p1, p2);
    StripCount(c1, c2, AFTER_CLAIMS + q1, AFTER_CLAIMS + q2);
    StripPrefix(AFTER_CLAIMS, q1, q2);
    StripCount(v1, v2, AFTER_VERIFIED + r1, AFTER_VERIFIED + r2);
    StripPrefix(AFTER_VERIFIED, r1, r2);
    StripCount(t1, t2, AFTER_CITATIONS + d1, AFTER_CITATIONS + d2);
    StripPrefix(AFTER_CITATIONS, d1, d2);
    StripCount(f1, f2, AFTER_FLAGS, AFTER_FLAGS);
  }

  // ---------------------------------------------------------------------------------------
  // The pipeline
  // ---------------------------------------------------------------------------------------

  /** The state as the input parsing stage creates it. */
  function InitialState(text: string): TrustState {
    TrustState(text, [], [], [], [], 50, 0.0, TrustLow, "", "Parsing")
  }

  /** The state after the base scoring stage, from the results of the stages before it. */
  function ScoredState(text: string, claims: seq<Claim>, flags: seq<HallucinationFlag>,
                       citations: seq<CitationResult>, web: seq<WebResult>): TrustState {
    var risk := Clamp(RawRisk(flags, citations, web));
    InitialState(text).(claims := claims, hallucinationFlags := flags, citationResults := citations,
      webResults := web, riskScore := risk, trustScore := BaseTrust(MeanConfidence(claims), risk) as real)
  }

  /** The final stages: the deep review or the standard explanation, then the trust level. */
  function Concluded(scored: TrustState, enableDeepThinking: bool, deepReview: TrustState -> Result<DeepReview, string>)
    : Result<TrustState, string>
  {
    if enableDeepThinking then
      match deepReview(scored)
      case Failure(e) => Failure(e)
      case Success(review) =>
        var trust := ClampReal(scored.trustScore + review.scoreAdjustment);
        Success(scored.(explanation := review.explanation, trustScore := trust, trustLevel := LevelOf(trust)))
    else
      var explanation := StandardExplanation(|scored.claims|, CountVerified(scored.citationResults),
        |scored.citationResults|, |scored.hallucinationFlags|);
      Success(scored.(explanation := explanation, trustLevel := LevelOf(scored.trustScore)))
  }

  /** What a run returns, or the error it fails with, and the stages whose labels it reports,
      in order. */
  datatype Run = Run(outcome: Result<TrustState, string>, progress: seq<Stage>)

  /** The stages from web grounding on, once claims, flags and citations are known. */
  function Finish(text: string, claims: seq<Claim>, flags: seq<HallucinationFlag>, citations: seq<CitationResult>,
                  enableWeb: bool, enableDeepThinking: bool, oracles: Oracles): Run
  {
    var later := LaterStages(enableWeb && |claims| > 0, enableDeepThinking);
    var scored := ScoredState(text, claims, flags, citations, WebStage(claims, enableWeb, oracles.webSearch));
    match Concluded(scored, enableDeepThinking, oracles.deepReview)
    case Failure(e) => Run(Failure(e), later)
    case Success(state) => Run(Success(state), later + [Complete])
  }

  /** The run, stage by stage, as a function of the text, the switches and the oracles, given
      the flags the rule engine raises for the text and the citation records of the text (the
      run computes them as HallucinationRules.RuleFlags and CitationService.ScanResults, see
      RunTrustPipeline). */
  function Pipeline(text: string, flags: seq<HallucinationFlag>, citations: seq<CitationResult>,
                    enableWeb: bool, enableDeepThinking: bool, oracles: Oracles): Run
  {
    match oracles.extractClaims(text)
    case Failure(e) => Run(Failure(e), [Initializing] + [Extracting])
    case Success(claims) =>
      var finished := Finish(text, claims, flags, citations, enableWeb, enableDeepThinking, oracles);
      Run(finished.outcome, [Initializing] + [Extracting] + [Scanning] + [Verifying] + finished.progress)
  }


  /** The stages reported before a run ends, split the way the run reports them. */
  lemma StagesSplit(webStage: bool, deepStage: bool)
    ensures Stages(webStage, deepStage) == [Initializing] + [Extracting] + [Scanning] + [Verifying] + (LaterStages(webStage, deepStage) + [Complete])
    ensures Stages(webStage, deepStage)[..|Stages(webStage, deepStage)| - 1] == [Initializing] + [Extracting] + [Scanning] + [Verifying] + LaterStages(webStage, deepStage)
  {
  }

  /** A run fails exactly when the claim extraction fails, or when the deep review runs and
      fails; it then fails with that oracle's error. A failed web search never fails a run. */
  lemma PipelineFailure(text: string, flags: seq<HallucinationFlag>, citations: seq<CitationResult>,
                          enableWeb: bool, enableDeepThinking: bool, oracles: Oracles)
    ensures Pipeline(text, flags, citations, enableWeb, enableDeepThinking, oracles).outcome.Failure? <==>
      (oracles.extractClaims(text).Failure? || (enableDeepThinking
        && oracles.deepReview(ScoredState(text, oracles.extractClaims(text).value, flags, citations, WebStage(oracles.extractClaims(text).value, enableWeb, oracles.webSearch))).Failure?))
    ensures oracles.extractClaims(text).Failure? ==>
      Pipeline(text, flags, citations, enableWeb, enableDeepThinking, oracles).outcome.error == oracles.extractClaims(text).error
    ensures oracles.extractClaims(text).Success? && Pipeline(text, flags, citations, enableWeb, enableDeepThinking, oracles).outcome.Failure? ==>
      Pipeline(text, flags, citations, enableWeb, enableDeepThinking, oracles).outcome.error
        == oracles.deepReview(ScoredState(text, oracles.extractClaims(text).value, flags, citations, WebStage(oracles.extractClaims(text).value, enableWeb, oracles.webSearch))).error
  {
  }

  /** The stages a run reports: all of them, in order, when it completes; the first two when the
      claim extraction fails; all but completion when the deep review fails. */
  lemma PipelineProgress(text: string, flags: seq<HallucinationFlag>, citations: seq<CitationResult>,
                          enableWeb: bool, enableDeepThinking: bool, oracles: Oracles)
    ensures oracles.extractClaims(text).Failure? ==>
      Pipeline(text, flags, citations, enableWeb, enableDeepThinking, oracles).progress == [Initializing, Extracting]
    ensures oracles.extractClaims(text).Success? ==>
      var stages := Stages(enableWeb && |oracles.extractClaims(text).value| > 0, enableDeepThinking);
      Pipeline(text, flags, citations, enableWeb, enableDeepThinking, oracles).progress
        == if Pipeline(text, flags, citations, enableWeb, enableDeepThinking, oracles).outcome.Success? then stages else stages[..|stages| - 1]
  {
    if oracles.extractClaims(text).Success? {
      StagesSplit(enableWeb && |oracles.extractClaims(text).value| > 0, enableDeepThinking);
    }
  }

  /** The state a completed run returns: the text, the extracted claims, the rule engine's
      flags, the citation records and the web results, in that order of stages; the clamped
      risk; the base trust score adjusted by the deep review or the standard explanation; and
      the level of the final score. The stage field keeps its initial value. */
  lemma PipelineResult(text: string, flags: seq<HallucinationFlag>, citations: seq<CitationResult>,
                          enableWeb: bool, enableDeepThinking: bool, oracles: Oracles)
    requires Pipeline(text, flags, citations, enableWeb, enableDeepThinking, oracles).outcome.Success?
    ensures oracles.extractClaims(text).Success?
    ensures var state, claims := Pipeline(text, flags, citations, enableWeb, enableDeepThinking, oracles).outcome.value, oracles.extractClaims(text).value;
      state.rawText == text && state.claims == claims
      && state.hallucinationFlags == flags && state.citationResults == citations
      && state.webResults == WebStage(claims, enableWeb, oracles.webSearch)
      && state.riskScore == Clamp(RawRisk(state.hallucinationFlags, state.citationResults, state.webResults))
      && state.trustLevel == LevelOf(state.trustScore)
      && state.processingStep == "Parsing"
    ensures var state, claims := Pipeline(text, flags, citations, enableWeb, enableDeepThinking, oracles).outcome.value, oracles.extractClaims(text).value;
      var base := BaseTrust(MeanConfidence(claims), state.riskScore) as real;
      if enableDeepThinking then
        var review := oracles.deepReview(ScoredState(text, claims, flags, citations, WebStage(claims, enableWeb, oracles.webSearch)));
        review.Success? && state.explanation == review.value.explanation
        && state.trustScore == ClampReal(base + review.value.scoreAdjustment)
      else
        state.explanation == StandardExplanation(|claims|, CountVerified(state.citationResults),
          |state.citationResults|, |state.hallucinationFlags|)
        && state.trustScore == base
  {
  }

  /** The risk score of a completed run is in [0, 100], and so is its trust score when the deep
      review ran or every claim's confidence is in [0, 100]. */
  lemma PipelineScoreBounds(text: string, flags: seq<HallucinationFlag>, citations: seq<CitationResult>,
                          enableWeb: bool, enableDeepThinking: bool, oracles: Oracles)
    requires Pipeline(text, flags, citations, enableWeb, enableDeepThinking, oracles).outcome.Success?
    ensures 0 <= Pipeline(text, flags, citations, enableWeb, enableDeepThinking, oracles).outcome.value.riskScore <= 100
    ensures enableDeepThinking || ConfidencesInRange(oracles.extractClaims(text).value) ==>
      0.0 <= Pipeline(text, flags, citations, enableWeb, enableDeepThinking, oracles).outcome.value.trustScore <= 100.0
  {
    PipelineResult(text, flags, citations, enableWeb, enableDeepThinking, oracles);
    var state := Pipeline(text, flags, citations, enableWeb, enableDeepThinking, oracles).outcome.value;
    var claims := oracles.extractClaims(text).value;
    if !enableDeepThinking && ConfidencesInRange(claims) {
      MeanConfidenceBounds(claims);
      BaseTrustBounds(MeanConfidence(claims), state.riskScore);
    }
  }

  /** `runTrustPipeline`: the stages in order over one state record, reporting a label before
      each; a rejected claim extraction ends the run with its error. */
  method RunTrustPipeline(text: string, enableWeb: bool, enableDeepThinking: bool, oracles: Oracles)
    returns (outcome: Result<TrustState, string>, progress: seq<Stage>)
    ensures Run(outcome, progress) == Pipeline(text, HallucinationRules.RuleFlags(text),
      CitationService.ScanResults(text, oracles.crossref, oracles.scholar), enableWeb, enableDeepThinking, oracles)
  {
    progress := [Initializing];
    var state := InitialState(text);

    progress := progress + [Extracting];
    var extracted := oracles.extractClaims(text);
    if extracted.Failure? {
      outcome := Failure(extracted.error);
      return;
    }
    state := state.(claims := extracted.value);

    progress := progress + [Scanning];
    var flags := HallucinationRules.AnalyzeHallucinationRules(text);
    state := state.(hallucinationFlags := flags);

    progress := progress + [Verifying];
    var citations := CitationService.ScanAndVerifyCitations(text, oracles.crossref, oracles.scholar);
    state := state.(citationResults := citations);

    assert state.rawText == text && state.claims == extracted.value;
    assert state.hallucinationFlags == HallucinationRules.RuleFlags(text);
    assert state.citationResults == CitationService.ScanResults(text, oracles.crossref, oracles.scholar);
    var laterProgress;
    outcome, laterProgress := FinishRun(state, enableWeb, enableDeepThinking, oracles);
    progress := progress + laterProgress;
  }

  /** The stages of `runTrustPipeline` from web grounding on. */
  method FinishRun(state0: TrustState, enableWeb: bool, enableDeepThinking: bool, oracles: Oracles)
    returns (outcome: Result<TrustState, string>, progress: seq<Stage>)
    requires state0 == InitialState(state0.rawText).(claims := state0.claims,
      hallucinationFlags := state0.hallucinationFlags, citationResults := state0.citationResults)
    ensures Run(outcome, progress) == Finish(state0.rawText, state0.claims, state0.hallucinationFlags,
      state0.citationResults, enableWeb, enableDeepThinking, oracles)
  {
    var state;
    state, progress := GroundOnWeb(state0, enableWeb, oracles.webSearch);
    progress := progress + [Calculating];
    state := ScoreBase(state);
    assert state == ScoredState(state0.rawText, state0.claims, state0.hallucinationFlags, state0.citationResults,
      WebStage(state0.claims, enableWeb, oracles.webSearch));
    var concluding;
    outcome, concluding := Conclude(state, enableDeepThinking, oracles.deepReview);
    progress := progress + concluding;
  }

  /** The web grounding stage: when enabled and there is a claim, searches for the weakest claim
      and pushes a web result if the search succeeds; a failed search leaves no trace. */
  method GroundOnWeb(state0: TrustState, enableWeb: bool, webSearch: string -> Result<SearchResult, string>)
    returns (state: TrustState, progress: seq<Stage>)
    requires state0.webResults == []
    ensures state == state0.(webResults := WebStage(state0.claims, enableWeb, webSearch))
    ensures progress == if enableWeb && |state0.claims| > 0 then [ConsultingWeb] else []
  {
    state := state0;
    progress := [];
    if enableWeb && |state.claims| > 0 {
      progress := progress + [ConsultingWeb];
      var suspiciousClaim := state.claims[WeakestClaim(state.claims)];
      var searchResult := webSearch(suspiciousClaim.text);
      if searchResult.Success? {
        state := state.(webResults := state.webResults + [WebEvidence(suspiciousClaim.text, searchResult.value)]);
      }
    }
  }

  /** The base scoring stage: the clamped risk, then the rounded base trust score. */
  method ScoreBase(state0: TrustState) returns (state: TrustState)
    ensures state == state0.(riskScore := Clamp(RawRisk(state0.hallucinationFlags, state0.citationResults, state0.webResults)),
      trustScore := BaseTrust(MeanConfidence(state0.claims),
        Clamp(RawRisk(state0.hallucinationFlags, state0.citationResults, state0.webResults))) as real)
  {
    state := state0;
    var riskScore := AccumulateRisk(state.hallucinationFlags, state.citationResults, state.webResults);
    state := state.(riskScore := Clamp(riskScore));
    var avgLlmConfidence := MeanConfidence(state.claims);
    state := state.(trustScore := BaseTrust(avgLlmConfidence, state.riskScore) as real);
  }

  /** The deep review, or the standard explanation, then the trust level and completion; a
      rejected deep review ends the run with its error. */
  method Conclude(state0: TrustState, enableDeepThinking: bool, deepReview: TrustState -> Result<DeepReview, string>)
    returns (outcome: Result<TrustState, string>, progress: seq<Stage>)
    ensures outcome == Concluded(state0, enableDeepThinking, deepReview)
    ensures progress == (if enableDeepThinking then [DeepThinking] else []) + (if outcome.Success? then [Complete] else [])
  {
    var state := state0;
    progress := [];
    if enableDeepThinking {
      progress := progress + [DeepThinking];
      var review := deepReview(state);
      if review.Failure? {
        outcome := Failure(review.error);
        return;
      }
      state := state.(explanation := review.value.explanation,
        trustScore := ClampReal(state.trustScore + review.value.scoreAdjustment));
    } else {
      var citationCount := CountVerified(state.citationResults);
      state := state.(explanation := StandardExplanation(|state.claims|, citationCount,
        |state.citationResults|, |state.hallucinationFlags|));
    }

    if state.trustScore >= 75.0 {
      state := state.(trustLevel := TrustHigh);
    } else if state.trustScore >= 50.0 {
      state := state.(trustLevel := TrustMedium);
    } else {
      state := state.(trustLevel := TrustLow);
    }

    progress := progress + [Complete];
    outcome := Success(state);
  }
}
