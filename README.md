# Trust scoring pipeline, modelled in Dafny

This project models the trust-scoring core of an application that rates how trustworthy a
piece of text is. It covers four parts:

- **Rule engine** (`services/hallucinationRules.ts`). It looks for hallucination markers in
  the text: absolute language, appeals to fake authority, universal claims, and bare
  percentages that state no uncertainty.
- **Citation extractor and verifier** (`services/citationService.ts`).
  - It finds DOIs and removes duplicates.
  - It also finds "Surname (Year)" / "Surname et al. (Year)" references and keeps the
    first three.
  - It turns CrossRef and Semantic Scholar answers into citation records.
- **Pipeline orchestrator** (`services/trustGraph.ts`). It runs the stages in order, reports
  progress labels, and optionally grounds the weakest claim on the web. It then computes the
  risk and trust scores, optionally applies a deep review, and assigns the trust level.
- **Scoring constants and lexicons** (`constants.ts`), plus the record types of `types.ts`.

Modules, one file each:

| module | file | contents |
|---|---|---|
| `Wrappers` | `wrappers.dfy` | `Option`, `Result`, and JavaScript's `a \|\| b` on strings |
| `Strings` | `strings.dfy` | The JavaScript regex character classes `\w`, `\s` and `\b`; `toLowerCase`; `includes`; decimal rendering |
| `Seqs` | `seqs.dfy` | First index; `Array.from(new Set(xs))` |
| `Scanning` | `scanning.dfy` | A generic model of a global regular expression scanned left to right (`match` with `g`, or `exec` in a loop) |
| `Constants` | `constants.dfy` | Weights, penalties, bonuses and lexicons |
| `Types` | `types.dfy` | Claim, CitationResult, WebResult, HallucinationFlag, TrustState |
| `HallucinationRules` | `hallucination_rules.dfy` | The rule engine |
| `CitationService` | `citation_service.dfy` | Citation extraction and verification |
| `CitationSamples` | `citation_samples.dfy` | The author-year pattern on concrete inputs, including the application's 'Load Trust' sample text |
| `RuleSamples` | `rule_samples.dfy` | The rule engine on the application's 'Load Risk' sample text |
| `TrustGraph` | `trust_graph.dfy` | The orchestrator and the scoring model |

Each regular expression is modelled in three layers:

- A matcher at one position, written as executable code.
- A reference predicate that states, in the pattern's own terms, what a match is.
- Soundness and completeness lemmas connecting the two.

How the code's side effects appear in the model:

- **External services** are function parameters:
  - the claim extractor, the web search and the deep review: the `Oracles` datatype;
  - the CrossRef and Semantic Scholar answers: functions from the lookup key to an
    `HttpResponse`.
- **`onUpdate` progress callback**: becomes the sequence of stages the run returns. `Label`
  maps each stage to the exact string the code reports.
- **Pipeline state**: a `TrustState` value that the methods update field by field.

## Model

| member | source | states |
|---|---|---|
| Constants.WeightsConvex | constants.ts:2-6 | The confidence weight 0.6 and the risk weight 0.4 are positive and sum to 1 |
| Constants.PenaltiesAndBonusesPositive | constants.ts:8-18 | Every rule penalty and both bonuses are positive |
| Constants.AbsoluteTermsLowerCase | constants.ts:20-24 | Every absolute-language term is non-empty and has no upper-case letter, so lower-cased text can contain it |
| Constants.AuthorityTermsLowerCase | constants.ts:26-29 | The same for every authority phrase |
| Constants.LexiconsDistinct | constants.ts:20-29 | Neither lexicon lists a term twice |
| Strings.Includes | services/hallucinationRules.ts:13 | `includes` is true exactly when the term occurs at some index of the text |
| Strings.ToLower | services/hallucinationRules.ts:10 | Lower-casing keeps the length and maps every character independently |
| Strings.DecimalRoundTrip | services/citationService.ts:25 | Reading back the decimal rendering of a number gives the number |
| Seqs.Dedup | services/citationService.ts:62 | Same elements as the input, no repeats, ordered by first occurrence |
| Scanning.SpansCover | services/citationService.ts:61-69 | Every position where the pattern matches lies inside a reported match, so no match is missed except inside an earlier one |
| Scanning.SpansLeftmost | services/citationService.ts:61-69 | No match starts in the gap before a reported match: each reported match is the leftmost one after the previous match |
| Scanning.CollectSpans | services/citationService.ts:66-69 | The collected groups are exactly the groups of the reported matches, in the same order |
| HallucinationRules.TermFlags | services/hallucinationRules.ts:12-30 | Every flag has the rule's kind and impact and names a lexicon term that the lower-cased text contains |
| HallucinationRules.TermFlagsComplete | services/hallucinationRules.ts:12-30 | Every lexicon term that the lower-cased text contains is flagged |
| HallucinationRules.TermFlagsOrdered | services/hallucinationRules.ts:12-30 | The flags follow the lexicon's order |
| HallucinationRules.TermFlagsEmpty | services/hallucinationRules.ts:12-30 | No term flags exactly when the text contains no lexicon term |
| HallucinationRules.PushTermFlags | services/hallucinationRules.ts:12-30 | The loop appends exactly the flags of one lexicon to the flags so far |
| HallucinationRules.AlternativeFrom | services/hallucinationRules.ts:32 | The alternatives are tried in order; the first one that matches as a whole word, ignoring ASCII case, wins |
| HallucinationRules.UniversalAt | services/hallucinationRules.ts:32 | A match at a position exactly when the reference meaning of the universal-claim pattern holds there; the match is non-empty |
| HallucinationRules.FirstUniversal | services/hallucinationRules.ts:32-36 | Finds the leftmost position where the universal-claim pattern matches, or shows that there is none |
| HallucinationRules.UniversalFlag | services/hallucinationRules.ts:32-39 | At most one flag. There is one exactly when the pattern matches somewhere. It carries the leftmost match's text as written in the input, with the fixed impact |
| HallucinationRules.PushUniversalFlag | services/hallucinationRules.ts:32-39 | Appends the universal-claim flag, if any |
| HallucinationRules.PercentMatchDetermined | services/hallucinationRules.ts:41 | A percentage match is pinned down by the digit runs, so the greedy matcher cannot miss one |
| HallucinationRules.PercentAt | services/hallucinationRules.ts:41 | Every reported percentage match meets the reference meaning of the pattern, boundaries included |
| HallucinationRules.PercentAtComplete | services/hallucinationRules.ts:41 | Every percentage match in the reference meaning is reported, with its end |
| HallucinationRules.FirstPercent | services/hallucinationRules.ts:41-45 | Finds the leftmost percentage match, or shows that there is none |
| HallucinationRules.CertaintyFlag | services/hallucinationRules.ts:41-48 | At most one flag. There is one exactly when a percentage matches and the original text names neither a confidence interval nor a margin of error. It carries the leftmost match's text |
| HallucinationRules.PushCertaintyFlag | services/hallucinationRules.ts:41-48 | Appends the certainty flag, if any |
| HallucinationRules.PercentNeedsWordAfter | services/hallucinationRules.ts:41 | The closing `\b` means a percentage counts only when a word character follows the `%` |
| HallucinationRules.NoCertaintyWithoutWordAfterPercent | services/hallucinationRules.ts:41-48 | Text where no `%` is followed by a word character raises no certainty flag |
| HallucinationRules.PercentBeforeSpaceNotFlagged | services/hallucinationRules.ts:41-48 | "a 100% cure" raises no certainty flag |
| HallucinationRules.PercentBeforeLetterFlagged | services/hallucinationRules.ts:41-48 | "a 100%cure" raises exactly one certainty flag, for "100%" |
| HallucinationRules.AnalyzeHallucinationRules | services/hallucinationRules.ts:8-51 | The flags are those of the four rules, in rule order |
| HallucinationRules.RuleFlagsShape | services/hallucinationRules.ts:8-51 | The flags are grouped by rule in rule order, with at most one universal-claim and one certainty flag |
| HallucinationRules.RuleFlagsCount | services/hallucinationRules.ts:8-51 | At most 11 + 6 + 2 flags |
| HallucinationRules.AbsoluteFlagsExact | services/hallucinationRules.ts:12-20 | Among all the flags, the absolute-language ones are exactly the contained absolute terms, in lexicon order, each with impact 10 |
| HallucinationRules.AuthorityFlagsExact | services/hallucinationRules.ts:22-30 | The same for the fake-authority flags, with impact 15 |
| HallucinationRules.NoFlagsIff | services/hallucinationRules.ts:8-51 | No flags exactly when no term occurs, no universal claim matches, and either no percentage matches or uncertainty is stated |
| HallucinationRules.ContainedAbsoluteTermFlagged | services/hallucinationRules.ts:12-20 | A contained absolute term appears among the final flags |
| HallucinationRules.ContainedAuthorityTermFlagged | services/hallucinationRules.ts:22-30 | A contained authority phrase appears among the final flags, with impact 15 |
| HallucinationRules.EveryoneKnowsAbsolute | services/hallucinationRules.ts:12-20 | "everyone knows" as a whole word, in any case, yields the absolute-language flag |
| HallucinationRules.EveryoneKnowsUniversal | services/hallucinationRules.ts:32-39 | As the leftmost universal claim, it yields the universal-claim flag with the text as written |
| HallucinationRules.EveryoneKnowsFlaggedTwice | services/hallucinationRules.ts:12-39 | Both flags together: the phrase is penalised twice |
| CitationService.VerifyDoi | services/citationService.ts:7-29 | The record names the DOI. It is verified exactly when the response is OK. The metadata is the work's title and author (never empty), an "API Error" with the status, or the thrown error's message, "Network Error" when it has none |
| CitationService.DoiMetadataFromWork | services/citationService.ts:16-22 | Title, first author's family name and journal come from the work, each falling back to its default exactly when missing or empty |
| CitationService.DoiMetadataWithoutMessage | services/citationService.ts:16-22 | A body without a message gives "Untitled Work" and "Unknown" |
| CitationService.DoiErrorNamesStatus | services/citationService.ts:25 | The error text is "API Error: " followed by the decimal status, from which the status can be read back |
| CitationService.VerifyAuthorYear | services/citationService.ts:34-58 | The record names "Author (Year)". It is verified exactly when the search succeeds with a first hit whose year renders as the cited year. Metadata is copied from that hit, absent, or the error |
| CitationService.VerifiedYearAgrees | services/citationService.ts:43-50 | A verified author-year record has a search hit whose positive year equals the cited year, and it reports that year |
| CitationService.CitationNamesPair | services/citationService.ts:47 | The citation text starts with the author and ends with the year in parentheses |
| CitationService.DoiAtSound | services/citationService.ts:61 | Every DOI the matcher reports satisfies the pattern |
| CitationService.DoiAtComplete | services/citationService.ts:61 | Every DOI match is found with that slash, and the greedy matcher ends no earlier |
| CitationService.DoiSpansCover | services/citationService.ts:61-62 | Every position where a DOI matches lies inside a reported DOI |
| CitationService.DoiMatches | services/citationService.ts:61-62 | The matched DOIs are the texts of the reported spans, each a real match starting "10." and containing "/" |
| CitationService.DistinctDois | services/citationService.ts:62 | The same DOIs with no repeats, in order of first occurrence |
| CitationService.EtAlEndSound | services/citationService.ts:64 | A reported "et al." group satisfies its part of the pattern |
| CitationService.EtAlEndComplete | services/citationService.ts:64 | An "et al." group that is there is found, with its end |
| CitationService.YearTailSound | services/citationService.ts:64 | A reported year part is optional spaces, "(", four digits and ")" |
| CitationService.YearTailComplete | services/citationService.ts:64 | A year part that is there is found |
| CitationService.AuthorYearAtSound | services/citationService.ts:64 | Every reported author-year match satisfies the pattern, with the author group and the parenthesis where it says |
| CitationService.AuthorYearAtComplete | services/citationService.ts:64 | Every author-year match is reported with the groups that backtracking gives |
| CitationService.ExecMatchWellFormed | services/citationService.ts:64-68 | A reported match has a capitalised author group of two letters or more and a four-digit year |
| CitationService.MatchRef | services/citationService.ts:68 | The extracted author starts with a capital and has two or more characters; the year is four digits |
| CitationService.NextAuthorYearAt | services/citationService.ts:66-67 | One `exec` call returns the leftmost match at or after the last index |
| CitationService.NextAuthorYearSound | services/citationService.ts:66-67 | A match returned by `exec` is the leftmost from the last index |
| CitationService.NextAuthorYearNone | services/citationService.ts:66-67 | When `exec` returns null, no match starts at or after the last index |
| CitationService.AuthorYearRefsStep | services/citationService.ts:66-69 | The loop pushes the match's groups and resumes after the match |
| CitationService.AuthorYearRefsDone | services/citationService.ts:66-69 | The loop stops when `exec` returns null |
| CitationService.AuthorYearRefsSpans | services/citationService.ts:66-69 | Each collected pair comes from the match at its reported span |
| CitationService.AuthorYearSpansCover | services/citationService.ts:64-69 | No author-year match is missed except inside an earlier one |
| CitationService.DoiResults | services/citationService.ts:71 | One record per distinct DOI, in order: the verification of that DOI against CrossRef's answer for it |
| CitationService.AuthorYearResults | services/citationService.ts:72 | One record for each of the first three author-year pairs, in order: the verification of that pair against Semantic Scholar's answer to its query |
| CitationService.ScanResultsShape | services/citationService.ts:60-75 | The DOI records come first and the author-year records follow. Their number is the number of distinct DOIs plus at most three. Each record is the verification of its DOI or of its author-year pair, against the registry's answer for it |
| CitationService.ScanAndVerifyCitations | services/citationService.ts:60-75 | The method computes exactly the records described by the scan functions |
| CitationSamples.NoYearNoAuthorYear | services/citationService.ts:64-69 | A text without "(dddd)" yields no author-year pair |
| CitationSamples.DemoTrustNoAuthorYear | App.tsx:154 | The 'Load Trust' sample text yields no author-year pair: in "(Jones, 2022)" the year does not follow the name |
| CitationSamples.SurnameThenYear | services/citationService.ts:64-69 | "Jones (2022)" yields exactly the pair Jones / 2022 |
| CitationSamples.RepeatedCitationKept | services/citationService.ts:64-69 | A repeated author-year citation is extracted twice: unlike DOIs, these pairs are not de-duplicated |
| RuleSamples.DemoRiskFlags | App.tsx:153 | The 'Load Risk' sample text draws an absolute-language flag for "100%" and a fake-authority flag for "experts say", but no unsupported-certainty flag |
| TrustGraph.LabelsInjective | services/trustGraph.ts:19-111 | The sequence of reported strings determines the sequence of stages the run went through |
| TrustGraph.LabelInjective | services/trustGraph.ts:19-111 | Distinct stages report distinct labels |
| TrustGraph.StagesOrder | services/trustGraph.ts:19-111 | A completed run visits the stages in stage order without repeats. It starts with initialisation and ends with "Complete". It includes the web and deep-review stages exactly when they run |
| TrustGraph.PipelineProgress | services/trustGraph.ts:19-111 | Failed extraction reports two labels. Otherwise the run reports all its stages, and a failed deep review reports all but "Complete" |
| TrustGraph.PipelineFailure | services/trustGraph.ts:33-113 | The run fails exactly when claim extraction fails or the enabled deep review fails, with that error |
| TrustGraph.WeakestClaim | services/trustGraph.ts:48-49 | The first claim to sort first: its confidence is the least, and every earlier claim's is higher, as in a stable sort |
| TrustGraph.SourceLabel | services/trustGraph.ts:56 | The web title, otherwise the maps title, otherwise "Search Result"; never empty |
| TrustGraph.WebEvidence | services/trustGraph.ts:53-58 | The query is the claim. Evidence is found exactly when sources exist. There is one label per source. The summary is never empty, and is the fallback text exactly when the answer has no text or an empty one |
| TrustGraph.WebStage | services/trustGraph.ts:45-62 | At most one web result. There is one exactly when web grounding is on, there is a claim and the search for the weakest claim succeeds |
| TrustGraph.GroundOnWeb | services/trustGraph.ts:45-62 | Sets the web results to the web stage's outcome and reports the web stage exactly when it runs |
| TrustGraph.CountVerified | services/trustGraph.ts:103 | At most the number of citations; equal exactly when every citation is verified |
| TrustGraph.CitationRiskCounts | services/trustGraph.ts:71-78 | The citation part of the risk is +15 per unverified and -5 per verified citation |
| TrustGraph.WebRiskCounts | services/trustGraph.ts:80-83 | The web part is -10 per result with evidence and +5 per result without |
| TrustGraph.RawRiskFormula | services/trustGraph.ts:66-83 | Closed form of the unclamped risk |
| TrustGraph.FlagAddsImpact | services/trustGraph.ts:68 | One more flag raises the risk by its impact |
| TrustGraph.UnverifiedOutweighsVerified | services/trustGraph.ts:70-78 | An unverified citation costs more than a verified one earns |
| TrustGraph.RuleFlagImpactsPositive | services/trustGraph.ts:68 | Every flag of the rule engine raises the risk |
| TrustGraph.AccumulateRisk | services/trustGraph.ts:66-83 | The three loops compute the unclamped risk |
| TrustGraph.Clamp | services/trustGraph.ts:85 | The result is in [0,100]; values inside are kept and values outside go to the nearer bound |
| TrustGraph.MeanConfidence | services/trustGraph.ts:87-89 | 50 without claims; otherwise the mean times the count is the sum of the confidences |
| TrustGraph.MeanConfidenceBounds | services/trustGraph.ts:87-89 | With confidences in [0,100], so is the mean |
| TrustGraph.Round | services/trustGraph.ts:91 | `Math.round`: the integer nearest to x, with halves rounded up |
| TrustGraph.BaseTrust | services/trustGraph.ts:91-94 | The rounded weighted sum of mean confidence and inverted risk |
| TrustGraph.BaseTrustBounds | services/trustGraph.ts:91-94 | With the mean and the risk in [0,100], the base trust is in [0,100] |
| TrustGraph.BaseTrustMonotone | services/trustGraph.ts:91-94 | Higher confidence and lower risk never lower the base trust |
| TrustGraph.ScoreBase | services/trustGraph.ts:64-94 | Sets the clamped risk and the base trust and nothing else |
| TrustGraph.ClampReal | services/trustGraph.ts:101 | The adjusted trust score is in [0,100]; values inside are kept and values outside go to the nearer bound |
| TrustGraph.StandardExplanationInjective | services/trustGraph.ts:104 | The standard explanation determines the four counts it reports |
| TrustGraph.LevelOf | services/trustGraph.ts:107-109 | High exactly at 75 or more, Medium exactly in [50,75), Low exactly below 50 |
| TrustGraph.LevelMonotone | services/trustGraph.ts:107-109 | A higher score never gets a lower level |
| TrustGraph.Conclude | services/trustGraph.ts:96-111 | Applies the deep review or the standard explanation, then the level; a failed review fails the run |
| TrustGraph.PipelineResult | services/trustGraph.ts:11-113 | A successful run returns the text, the claims, the flags, the citations and the web results. It also returns the clamped risk and the level of its trust score. The trust score and explanation come from the deep review or from the standard formula |
| TrustGraph.PipelineScoreBounds | services/trustGraph.ts:85-101 | The risk is in [0,100]. The trust score is in [0,100] after a deep review, or when every confidence is in [0,100] |
| TrustGraph.FinishRun | services/trustGraph.ts:45-113 | The stages after citation verification produce the outcome and progress of the pipeline |
| TrustGraph.RunTrustPipeline | services/trustGraph.ts:11-113 | The method's outcome and progress are those of the pipeline, run on the rule engine's flags and the citation records |

## Left out

- Network I/O is not modelled.
  - Not modelled: `fetch`, the five-second timeouts, JSON decoding, and `encodeURIComponent` of the query.
  - A registry answer is an `HttpResponse` supplied per lookup key: OK with a decoded body, not OK with a status, or thrown with an optional message.
  - A body that fails to decode counts as the thrown case.
- Concurrency is not modelled. `Promise.all` is modelled as the ordered sequence of results it resolves to. The lookups are independent functions of their keys, so their order of completion cannot matter.
- External services: the claim extractor, the web search and the deep review are not part of this model. Each is a parameter that returns a result or a failure. A deep review can answer without the expected fields; the model assumes it always returns an explanation and a number.
- `console.warn` on a failed web search is left out; the failure only leaves the web results empty.
- Floating point is not modelled: confidences, trust scores and weights are exact reals. The risk score is an integer, because every term added to it is one.
- Text is a sequence of characters, not of UTF-16 code units.
  - Lower-casing is modelled only for A–Z and the Kelvin sign. Only these characters have a lower-case form that can occur in a lexicon term.
  - Regex case folding is ASCII only, as without the `u` flag.
- Out of scope:
  - `TRUSTED_DOMAINS`, which the core does not use;
  - the user interface (`App.tsx` and `components/`), except for its two sample texts, stated in `CitationSamples.DemoTrustNoAuthorYear` and `RuleSamples.DemoRiskFlags`;
  - `services/geminiService.ts`, which is not part of this model.
- The optional `media_type` and `media_url` fields of the trust state are not used by the core and are left out.
- Two behaviours of the code that a reader may not expect:
  - The certainty pattern ends with `\b`, so a percentage followed by a space or by the end of the text is not flagged (see `HallucinationRules.PercentBeforeSpaceNotFlagged` and `RuleSamples.DemoRiskFlags`).
  - Only the risk and the trust score after a deep review are clamped to [0,100]; the base trust score is not. `TrustGraph.PipelineScoreBounds` therefore bounds the trust score without a deep review only when every claim confidence lies in [0,100].
- TrustGraph.PipelineScoreBounds: the trust-score bound requires confidences in [0,100] when there is no deep review, because the code does not clamp the base trust.
