/** The records exchanged by the pipeline's stages. Field names follow the source's records
    in Dafny's camelCase. */
module Types {
  import opened Wrappers

  datatype Plausibility = High | Medium | Low

  /** One factual assertion, as returned by the claim-extraction oracle. */
  datatype Claim = Claim(
    id: string,
    text: string,
    plausibility: Plausibility,
    confidenceScore: real,
    reasoning: string,
    redFlags: seq<string>)

  datatype SourceType = Doi | Url | AuthorYear | Unknown

  /** The optional `metadata` object of a citation result; every field may be absent. */
  datatype Metadata = Metadata(
    title: Option<string>,
    author: Option<string>,
    year: Option<string>,
    journal: Option<string>,
    error: Option<string>)

  datatype CitationResult = CitationResult(
    citation: string,
    verified: bool,
    sourceType: SourceType,
    metadata: Option<Metadata>)

  datatype WebResult = WebResult(
    query: string,
    evidenceFound: bool,
    credibleSources: seq<string>,
    summary: string)

  /** 'Absolute Language' | 'Fake Authority' | 'Universal Claim' | 'Unsupported Certainty'. */
  datatype FlagKind = AbsoluteLanguage | FakeAuthority | UniversalClaim | UnsupportedCertainty

  datatype HallucinationFlag = HallucinationFlag(kind: FlagKind, matchText: string, impact: int)

  datatype TrustLevel = TrustHigh | TrustMedium | TrustLow

  /** The run's aggregate result. */
  datatype TrustState = TrustState(
    rawText: string,
    claims: seq<Claim>,
    hallucinationFlags: seq<HallucinationFlag>,
    citationResults: seq<CitationResult>,
    webResults: seq<WebResult>,
    riskScore: int,
    trustScore: real,
    trustLevel: TrustLevel,
    explanation: string,
    processingStep: string)
}
