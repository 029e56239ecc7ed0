/** The scoring weights, penalties, bonuses and lexicons of the trust pipeline. */
module Constants {
  import opened Strings
  import opened Seqs

  // SCORING_WEIGHTS
  const LLM_CONFIDENCE: real := 0.6
  const RISK_FACTOR: real := 0.4
  const BASE_RISK: int := 50

  // RISK_PENALTIES
  const ABSOLUTE_LANGUAGE: int := 10
  const FAKE_AUTHORITY: int := 15
  const UNIVERSAL_CLAIM: int := 10
  const UNSUPPORTED_CERTAINTY: int := 15

  // BONUSES
  const CITATION_VERIFIED: int := 5
  const WEB_EVIDENCE: int := 10

  const ABSOLUTE_TERMS: seq<string> := [
    "always", "never", "100%", "absolutely", "undeniably",
    "guaranteed", "completely", "totally", "perfectly",
    "everyone knows", "factually impossible"
  ]

  const AUTHORITY_TERMS: seq<string> := [
    "experts say", "studies show", "according to scientists",
    "research suggests", "it is widely reported", "official sources"
  ]

  /** The two trust weights form a convex combination. */
  lemma WeightsConvex()
    ensures 0.0 < LLM_CONFIDENCE && 0.0 < RISK_FACTOR && LLM_CONFIDENCE + RISK_FACTOR == 1.0
  {
  }

  /** Every rule penalty and every bonus is positive. */
  lemma PenaltiesAndBonusesPositive()
    ensures ABSOLUTE_LANGUAGE > 0 && FAKE_AUTHORITY > 0 && UNIVERSAL_CLAIM > 0 && UNSUPPORTED_CERTAINTY > 0
    ensures CITATION_VERIFIED > 0 && WEB_EVIDENCE > 0
  {
  }

  /** Lexicon entries are lower-case, so they can be found in lower-cased text, and non-empty. */
  lemma AbsoluteTermsLowerCase()
    ensures forall t :: t in ABSOLUTE_TERMS ==> IsLowerCase(t) && t != ""
  {
    AbsoluteHeadLowerCase();
    AbsoluteTailLowerCase();
  }

  lemma AbsoluteHeadLowerCase()
    ensures forall i :: 0 <= i < 6 ==> IsLowerCase(ABSOLUTE_TERMS[i]) && ABSOLUTE_TERMS[i] != ""
  {
    var a := ABSOLUTE_TERMS;
    assert IsLowerCase(a[0]) && IsLowerCase(a[1]) && IsLowerCase(a[2]);
    assert IsLowerCase(a[3]) && IsLowerCase(a[4]) && IsLowerCase(a[5]);
  }

  lemma AbsoluteTailLowerCase()
    ensures forall i :: 6 <= i < |ABSOLUTE_TERMS| ==> IsLowerCase(ABSOLUTE_TERMS[i]) && ABSOLUTE_TERMS[i] != ""
  {
    var a := ABSOLUTE_TERMS;
    assert IsLowerCase(a[6]) && IsLowerCase(a[7]);
    assert IsLowerCase(a[8]) && IsLowerCase(a[9]) && IsLowerCase(a[10]);
  }

  lemma AuthorityTermsLowerCase()
    ensures forall t :: t in AUTHORITY_TERMS ==> IsLowerCase(t) && t != ""
  {
    AuthorityHeadLowerCase();
    AuthorityTailLowerCase();
  }

  lemma AuthorityHeadLowerCase()
    ensures forall i :: 0 <= i < 3 ==> IsLowerCase(AUTHORITY_TERMS[i]) && AUTHORITY_TERMS[i] != ""
  {
    var b := AUTHORITY_TERMS;
    assert IsLowerCase(b[0]) && IsLowerCase(b[1]) && IsLowerCase(b[2]);
  }

  lemma AuthorityTailLowerCase()
    ensures forall i :: 3 <= i < |AUTHORITY_TERMS| ==> IsLowerCase(AUTHORITY_TERMS[i]) && AUTHORITY_TERMS[i] != ""
  {
    var b := AUTHORITY_TERMS;
    assert IsLowerCase(b[3]) && IsLowerCase(b[4]) && IsLowerCase(b[5]);
  }

  /** No lexicon lists a term twice. */
  lemma LexiconsDistinct()
    ensures Distinct(ABSOLUTE_TERMS) && Distinct(AUTHORITY_TERMS)
  {
  }
}
