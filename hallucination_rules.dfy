/** The deterministic linguistic red-flag scanner. */
module HallucinationRules {
  import opened Wrappers
  import opened Strings
  import opened Seqs
  import opened Constants
  import opened Types

  // ---------------------------------------------------------------------------------------
  // Universal-claim pattern: /\b(every single|all|no one|universal|everyone knows)\b/gi
  // ---------------------------------------------------------------------------------------

  const UNIVERSAL_ALTERNATIVES: seq<string> :=
    ["every single", "all", "no one", "universal", "everyone knows"]

  /** s[p..p+|w|] equals w up to ASCII case. */
  predicate FoldsTo(s: string, p: nat, w: string) {
    p + |w| <= |s| && forall k :: 0 <= k < |w| ==> FoldChar(s[p + k]) == FoldChar(w[k])
  }

  /** `\b` w `\b` matches at p. */
  predicate WholeWordAt(s: string, p: nat, w: string) {
    p + |w| <= |s| && Boundary(s, p) && FoldsTo(s, p, w) && Boundary(s, p + |w|)
  }

  /** Reference meaning of a universal-claim match at p ending at e: some alternative, the
      first one in the alternation's order, matches as a whole word there. */
  ghost predicate UniversalMatch(s: string, p: nat, e: nat) {
    exists j :: (0 <= j < |UNIVERSAL_ALTERNATIVES| && WholeWordAt(s, p, UNIVERSAL_ALTERNATIVES[j])
      && e == p + |UNIVERSAL_ALTERNATIVES[j]|
      && forall i :: 0 <= i < j ==> !WholeWordAt(s, p, UNIVERSAL_ALTERNATIVES[i]))
  }

  /** Tries the alternatives from the k-th on, in order. */
  function AlternativeFrom(s: string, p: nat, k: nat): (r: Option<nat>)
    requires k <= |UNIVERSAL_ALTERNATIVES|
    ensures r.Some? ==> exists j :: (k <= j < |UNIVERSAL_ALTERNATIVES|
      && WholeWordAt(s, p, UNIVERSAL_ALTERNATIVES[j]) && r.value == p + |UNIVERSAL_ALTERNATIVES[j]|
      && forall i :: k <= i < j ==> !WholeWordAt(s, p, UNIVERSAL_ALTERNATIVES[i]))
    ensures r.None? ==> forall j :: k <= j < |UNIVERSAL_ALTERNATIVES| ==> !WholeWordAt(s, p, UNIVERSAL_ALTERNATIVES[j])
    decreases |UNIVERSAL_ALTERNATIVES| - k
  {
    if k == |UNIVERSAL_ALTERNATIVES| then None
    else if WholeWordAt(s, p, UNIVERSAL_ALTERNATIVES[k]) then Some(p + |UNIVERSAL_ALTERNATIVES[k]|)
    else AlternativeFrom(s, p, k + 1)
  }

  /** The end of the universal-claim match that starts at p, if any. */
  function UniversalAt(s: string, p: nat): (r: Option<nat>)
    ensures r.Some? ==> UniversalMatch(s, p, r.value) && p < r.value <= |s|
    ensures r.None? ==> forall e :: !UniversalMatch(s, p, e)
  {
    AlternativeFrom(s, p, 0)
  }

  /** The leftmost universal-claim match starting at or after `from`, as (start, end). */
  function FirstUniversal(s: string, from: nat): (r: Option<(nat, nat)>)
    ensures r.Some? ==> from <= r.value.0 < r.value.1 <= |s| && UniversalAt(s, r.value.0) == Some(r.value.1)
    ensures r.Some? ==> forall p :: from <= p < r.value.0 ==> UniversalAt(s, p).None?
    ensures r.None? ==> forall p :: from <= p < |s| ==> UniversalAt(s, p).None?
    decreases |s| - from
  {
    if from >= |s| then None
    else match UniversalAt(s, from)
      case Some(e) => Some((from, e))
      case None => FirstUniversal(s, from + 1)
  }

  // ---------------------------------------------------------------------------------------
  // Percentage pattern: /\b\d{1,3}(\.\d+)?%\b/g
  // ---------------------------------------------------------------------------------------

  /** s[p..e] is a percentage token: one to three digits (ending at d), an optional fraction
      `.` followed by digits, then '%'. */
  ghost predicate PercentToken(s: string, p: nat, e: nat) {
    p < e <= |s| && s[e - 1] == '%' &&
    exists d: nat :: p < d <= p + 3 && d < e && AllBetween(s, p, d, IsDigit) &&
      (d + 1 == e || (s[d] == '.' && d + 2 < e && AllBetween(s, d + 1, e - 1, IsDigit)))
  }

  /** Reference meaning of a match of the percentage pattern at p ending at e. */
  ghost predicate PercentMatch(s: string, p: nat, e: nat) {
    PercentToken(s, p, e) && Boundary(s, p) && Boundary(s, e)
  }

  /** A percentage match is pinned down by the digit runs at its start and after its '.'. */
  lemma PercentMatchDetermined(s: string, p: nat, e: nat)
    requires PercentMatch(s, p, e)
    ensures p + Run(s, p, IsDigit) < e
    ensures var q := p + Run(s, p, IsDigit);
      1 <= q - p <= 3 &&
      ((s[q] == '%' && e == q + 1) ||
       (s[q] == '.' && q + 1 < |s| && 1 <= Run(s, q + 1, IsDigit) && e == q + 2 + Run(s, q + 1, IsDigit)))
  {
    var d: nat :| p < d <= p + 3 && d < e && AllBetween(s, p, d, IsDigit) &&
      (d + 1 == e || (s[d] == '.' && d + 2 < e && AllBetween(s, d + 1, e - 1, IsDigit)));
    RunExact(s, p, d, IsDigit);
    if d + 1 != e {
      RunExact(s, d + 1, e - 1, IsDigit);
    }
  }

  /** The end of the percentage match that starts at p, if any. Greedy `\d{1,3}` can only
      succeed by taking the whole digit run, and the optional fraction likewise. */
  function PercentAt(s: string, p: nat): (r: Option<nat>)
    ensures r.Some? ==> PercentMatch(s, p, r.value)
  {
    if p >= |s| || !Boundary(s, p) then None
    else
      var n := Run(s, p, IsDigit);
      var q := p + n;
      if n < 1 || 3 < n || q >= |s| then None
      else if s[q] == '%' then
        assert AllBetween(s, p, q, IsDigit);
        if Boundary(s, q + 1) then Some(q + 1) else None
      else if s[q] == '.' then
        var f := Run(s, q + 1, IsDigit);
        var t := q + 1 + f;
        assert AllBetween(s, p, q, IsDigit) && AllBetween(s, q + 1, t, IsDigit);
        if 1 <= f && t < |s| && s[t] == '%' && Boundary(s, t + 1) then Some(t + 1) else None
      else None
  }

  /** The matcher finds every match: a percentage match at p is the one PercentAt returns. */
  lemma PercentAtComplete(s: string, p: nat, e: nat)
    requires PercentMatch(s, p, e)
    ensures PercentAt(s, p) == Some(e)
  {
    PercentMatchDetermined(s, p, e);
  }

  /** The leftmost percentage match starting at or after `from`, as (start, end). */
  function FirstPercent(s: string, from: nat): (r: Option<(nat, nat)>)
    ensures r.Some? ==> from <= r.value.0 < r.value.1 <= |s| && PercentAt(s, r.value.0) == Some(r.value.1)
    ensures r.Some? ==> forall p :: from <= p < r.value.0 ==> PercentAt(s, p).None?
    ensures r.None? ==> forall p :: from <= p < |s| ==> PercentAt(s, p).None?
    decreases |s| - from
  {
    if from >= |s| then None
    else match PercentAt(s, from)
      case Some(e) => Some((from, e))
      case None => FirstPercent(s, from + 1)
  }

  // ---------------------------------------------------------------------------------------
  // Flags
  // ---------------------------------------------------------------------------------------

  /** One flag of the given kind for each lexicon term contained in `lower`, in lexicon order. */
  function TermFlags(lower: string, terms: seq<string>, kind: FlagKind, impact: int): (r: seq<HallucinationFlag>)
    ensures |r| <= |terms|
    ensures forall i :: 0 <= i < |r| ==>
      r[i].kind == kind && r[i].impact == impact && r[i].matchText in terms && Includes(lower, r[i].matchText)
  {
    if terms == [] then []
    else
      var t := terms[|terms| - 1];
      TermFlags(lower, terms[..|terms| - 1], kind, impact)
        + (if Includes(lower, t) then [HallucinationFlag(kind, t, impact)] else [])
  }

  /** The single 'Universal Claim' flag, for the leftmost match, in the text's own casing. */
  function UniversalFlag(text: string): (r: seq<HallucinationFlag>)
    ensures |r| <= 1
    ensures r != [] <==> exists p :: 0 <= p < |text| && UniversalAt(text, p).Some?
    ensures r != [] ==> r[0].kind == UniversalClaim && r[0].impact == UNIVERSAL_CLAIM
    ensures r != [] ==> exists p, e :: (0 <= p < e <= |text| && UniversalMatch(text, p, e)
      && r[0].matchText == text[p..e] && forall q :: 0 <= q < p ==> UniversalAt(text, q).None?)
  {
    match FirstUniversal(text, 0)
    case None => []
    case Some((p, e)) => [HallucinationFlag(UniversalClaim, text[p..e], UNIVERSAL_CLAIM)]
  }

  /** Whether the case-sensitive phrases that excuse a percentage occur in the text. */
  predicate StatesUncertainty(text: string) {
    Includes(text, "confidence interval") || Includes(text, "margin of error")
  }

  /** The single 'Unsupported Certainty' flag, for the leftmost percentage token, unless the
      original (not lower-cased) text mentions a confidence interval or margin of error. */
  function CertaintyFlag(text: string): (r: seq<HallucinationFlag>)
    ensures |r| <= 1
    ensures r != [] <==> (exists p :: 0 <= p < |text| && PercentAt(text, p).Some?) && !StatesUncertainty(text)
    ensures r != [] ==> r[0].kind == UnsupportedCertainty && r[0].impact == UNSUPPORTED_CERTAINTY
    ensures r != [] ==> exists p, e :: (0 <= p < e <= |text| && PercentMatch(text, p, e)
      && r[0].matchText == text[p..e] && forall q :: 0 <= q < p ==> PercentAt(text, q).None?)
  {
    match FirstPercent(text, 0)
    case None => []
    case Some((p, e)) =>
      if !StatesUncertainty(text) then [HallucinationFlag(UnsupportedCertainty, text[p..e], UNSUPPORTED_CERTAINTY)] else []
  }

  function AbsoluteFlags(text: string): seq<HallucinationFlag> {
    TermFlags(ToLower(text), ABSOLUTE_TERMS, AbsoluteLanguage, ABSOLUTE_LANGUAGE)
  }

  function AuthorityFlags(text: string): seq<HallucinationFlag> {
    TermFlags(ToLower(text), AUTHORITY_TERMS, FakeAuthority, FAKE_AUTHORITY)
  }

  /** The flags of the four rules, in the order the rules run. */
  function RuleFlags(text: string): seq<HallucinationFlag> {
    AbsoluteFlags(text) + AuthorityFlags(text) + UniversalFlag(text) + CertaintyFlag(text)
  }

  /** The position of a category in the fixed order in which the rules run. */
  function KindRank(k: FlagKind): nat {
    match k
    case AbsoluteLanguage => 0
    case FakeAuthority => 1
    case UniversalClaim => 2
    case UnsupportedCertainty => 3
  }

  /** One `forEach` over a lexicon: pushes a flag for every term the lower-cased text contains. */
  method PushTermFlags(flags: seq<HallucinationFlag>, lowerText: string, terms: seq<string>, kind: FlagKind, impact: int)
    returns (pushed: seq<HallucinationFlag>)
    ensures pushed == flags + TermFlags(lowerText, terms, kind, impact)
  {
    pushed := flags;
    for i := 0 to |terms|
      invariant pushed == flags + TermFlags(lowerText, terms[..i], kind, impact)
    {
      var term := terms[i];
      assert terms[..i + 1][..i] == terms[..i];
      if Includes(lowerText, term) {
        pushed := pushed + [HallucinationFlag(kind, term, impact)];
      }
    }
    assert terms[..|terms|] == terms;
  }

  /** The universal-claim rule: pushes a flag for the leftmost match, if any. */
  method PushUniversalFlag(flags: seq<HallucinationFlag>, text: string) returns (pushed: seq<HallucinationFlag>)
    ensures pushed == flags + UniversalFlag(text)
  {
    pushed := flags;
    var universalMatch := FirstUniversal(text, 0);
    if universalMatch.Some? {
      var (p, e) := universalMatch.value;
      pushed := pushed + [HallucinationFlag(UniversalClaim, text[p..e], UNIVERSAL_CLAIM)];
    }
  }

  /** The certainty rule: pushes a flag for the leftmost percentage token, unless the text
      states its uncertainty. */
  method PushCertaintyFlag(flags: seq<HallucinationFlag>, text: string) returns (pushed: seq<HallucinationFlag>)
    ensures pushed == flags + CertaintyFlag(text)
  {
    pushed := flags;
    var certaintyMatch := FirstPercent(text, 0);
    if certaintyMatch.Some? && !Includes(text, "confidence interval") && !Includes(text, "margin of error") {
      var (p, e) := certaintyMatch.value;
      pushed := pushed + [HallucinationFlag(UnsupportedCertainty, text[p..e], UNSUPPORTED_CERTAINTY)];
    }
  }

  /** Scans `text` for red flags: lexicon terms in the lower-cased text, then at most one
      universal claim and at most one unsupported percentage. */
  method AnalyzeHallucinationRules(text: string) returns (flags: seq<HallucinationFlag>)
    ensures flags == RuleFlags(text)
  {
    var lowerText := ToLower(text);
    flags := PushTermFlags([], lowerText, ABSOLUTE_TERMS, AbsoluteLanguage, ABSOLUTE_LANGUAGE);
    assert flags == AbsoluteFlags(text);
    flags := PushTermFlags(flags, lowerText, AUTHORITY_TERMS, FakeAuthority, FAKE_AUTHORITY);
    assert flags == AbsoluteFlags(text) + AuthorityFlags(text);
    flags := PushUniversalFlag(flags, text);
    assert flags == AbsoluteFlags(text) + AuthorityFlags(text) + UniversalFlag(text);
    flags := PushCertaintyFlag(flags, text);
  }

  // ---------------------------------------------------------------------------------------
  // Properties
  // ---------------------------------------------------------------------------------------

  /** Every lexicon term that the lower-cased text contains is flagged. */
  lemma {:induction false} TermFlagsComplete(lower: string, terms: seq<string>, kind: FlagKind, impact: int)
    ensures forall t :: t in terms && Includes(lower, t) ==>
      exists i :: 0 <= i < |TermFlags(lower, terms, kind, impact)| && TermFlags(lower, terms, kind, impact)[i].matchText == t
  {
    if terms != [] {
      var init, t := terms[..|terms| - 1], terms[|terms| - 1];
      assert terms == init + [t];
      TermFlagsComplete(lower, init, kind, impact);
      var r0 := TermFlags(lower, init, kind, impact);
      var r := TermFlags(lower, terms, kind, impact);
      assert r == r0 + (if Includes(lower, t) then [HallucinationFlag(kind, t, impact)] else []);
      forall u | u in terms && Includes(lower, u)
        ensures exists i :: 0 <= i < |r| && r[i].matchText == u
      {
        if u in init {
          var i :| 0 <= i < |r0| && r0[i].matchText == u;
          assert r[i] == r0[i];
        } else {
          assert r[|r| - 1].matchText == u;
        }
      }
      assert forall u :: u in terms && Includes(lower, u) ==> exists i :: 0 <= i < |r| && r[i].matchText == u;
      assert r == TermFlags(lower, terms, kind, impact);
    }
  }

  /** Lexicon flags follow lexicon order, so no term of a duplicate-free lexicon is flagged twice. */
  lemma {:induction false} TermFlagsOrdered(lower: string, terms: seq<string>, kind: FlagKind, impact: int)
    requires Distinct(terms)
    ensures forall i, j :: 0 <= i < j < |TermFlags(lower, terms, kind, impact)| ==>
      IndexOf(terms, TermFlags(lower, terms, kind, impact)[i].matchText) < IndexOf(terms, TermFlags(lower, terms, kind, impact)[j].matchText)
  {
    if terms != [] {
      var init, t := terms[..|terms| - 1], terms[|terms| - 1];
      assert terms == init + [t];
      assert Distinct(init);
      TermFlagsOrdered(lower, init, kind, impact);
      assert t !in init;
      forall x | x in init ensures IndexOf(terms, x) == IndexOf(init, x) < |init| {
        IndexOfAppend(init, [t], x);
      }
      assert IndexOf(terms, t) == |init| by {
        assert terms[..|init|] == init;
      }
      var r0 := TermFlags(lower, init, kind, impact);
      var r := TermFlags(lower, terms, kind, impact);
      assert r == r0 + (if Includes(lower, t) then [HallucinationFlag(kind, t, impact)] else []);
      forall i, j | 0 <= i < j < |r|
        ensures IndexOf(terms, r[i].matchText) < IndexOf(terms, r[j].matchText)
      {
        assert r[i] == r0[i];
        if j < |r0| { assert r[j] == r0[j]; }
      }
    }
  }

  predicate AllOfKind(flags: seq<HallucinationFlag>, kind: FlagKind) {
    forall i :: 0 <= i < |flags| ==> flags[i].kind == kind
  }

  predicate NoneOfKind(flags: seq<HallucinationFlag>, kind: FlagKind) {
    forall i :: 0 <= i < |flags| ==> flags[i].kind != kind
  }

  lemma NoneOfKindConcat(xs: seq<HallucinationFlag>, ys: seq<HallucinationFlag>, kind: FlagKind)
    requires NoneOfKind(xs, kind) && NoneOfKind(ys, kind)
    ensures NoneOfKind(xs + ys, kind)
  {
    forall i | 0 <= i < |xs + ys| ensures (xs + ys)[i].kind != kind {
      if i >= |xs| { assert (xs + ys)[i] == ys[i - |xs|]; }
    }
  }

  /** Four blocks of one category each, concatenated in rule order. */
  lemma BlocksInRuleOrder(a: seq<HallucinationFlag>, b: seq<HallucinationFlag>, u: seq<HallucinationFlag>, c: seq<HallucinationFlag>)
    requires AllOfKind(a, AbsoluteLanguage) && AllOfKind(b, FakeAuthority)
    requires AllOfKind(u, UniversalClaim) && AllOfKind(c, UnsupportedCertainty)
    requires |u| <= 1 && |c| <= 1
    ensures var flags := a + b + u + c;
      (forall i, j :: 0 <= i < j < |flags| ==> KindRank(flags[i].kind) <= KindRank(flags[j].kind)) &&
      (forall i, j :: 0 <= i < j < |flags| ==> flags[i].kind != UniversalClaim || flags[j].kind != UniversalClaim) &&
      (forall i, j :: 0 <= i < j < |flags| ==> flags[i].kind != UnsupportedCertainty || flags[j].kind != UnsupportedCertainty)
  {
    var flags := a + b + u + c;
    forall i | 0 <= i < |flags|
      ensures KindRank(flags[i].kind) == if i < |a| then 0 else if i < |a| + |b| then 1
        else if i < |a| + |b| + |u| then 2 else 3
    {
      if i < |a| { assert flags[i] == a[i]; }
      else if i < |a| + |b| { assert flags[i] == b[i - |a|]; }
      else if i < |a| + |b| + |u| { assert flags[i] == u[i - |a| - |b|]; }
      else { assert flags[i] == c[i - |a| - |b| - |u|]; }
    }
  }

  /** The flags of category `kind` in `flags` are exactly the terms of the lexicon `terms`
      that `lower` contains, each once, in lexicon order, with the category's impact. */
  predicate ExactlyFlagged(flags: seq<HallucinationFlag>, lower: string, terms: seq<string>, kind: FlagKind, impact: int) {
    (forall i :: 0 <= i < |flags| && flags[i].kind == kind ==>
      flags[i].impact == impact && flags[i].matchText in terms && Includes(lower, flags[i].matchText)) &&
    (forall t :: t in terms && Includes(lower, t) ==>
      exists i :: 0 <= i < |flags| && flags[i].kind == kind && flags[i].matchText == t) &&
    (forall i, j :: 0 <= i < j < |flags| && flags[i].kind == kind && flags[j].kind == kind ==>
      IndexOf(terms, flags[i].matchText) < IndexOf(terms, flags[j].matchText))
  }

  /** A lexicon scan on its own flags exactly the contained terms. */
  lemma TermFlagsExactly(lower: string, terms: seq<string>, kind: FlagKind, impact: int)
    requires Distinct(terms)
    ensures ExactlyFlagged(TermFlags(lower, terms, kind, impact), lower, terms, kind, impact)
  {
    TermFlagsComplete(lower, terms, kind, impact);
    TermFlagsOrdered(lower, terms, kind, impact);
  }

  /** Flags of other categories appended after a block leave it exactly flagged. */
  lemma ExactlyFlaggedAppend(xs: seq<HallucinationFlag>, ys: seq<HallucinationFlag>, lower: string, terms: seq<string>, kind: FlagKind, impact: int)
    requires ExactlyFlagged(xs, lower, terms, kind, impact) && NoneOfKind(ys, kind)
    ensures ExactlyFlagged(xs + ys, lower, terms, kind, impact)
  {
    var flags := xs + ys;
    forall i | 0 <= i < |flags| ensures i < |xs| ==> flags[i] == xs[i]
      ensures |xs| <= i ==> flags[i] == ys[i - |xs|] { }
    forall t | t in terms && Includes(lower, t)
      ensures exists i :: 0 <= i < |flags| && flags[i].kind == kind && flags[i].matchText == t
    {
      var i :| 0 <= i < |xs| && xs[i].kind == kind && xs[i].matchText == t;
      assert flags[i] == xs[i];
    }
  }

  /** Flags of other categories placed before a block leave it exactly flagged. */
  lemma ExactlyFlaggedPrepend(xs: seq<HallucinationFlag>, ys: seq<HallucinationFlag>, lower: string, terms: seq<string>, kind: FlagKind, impact: int)
    requires NoneOfKind(xs, kind) && ExactlyFlagged(ys, lower, terms, kind, impact)
    ensures ExactlyFlagged(xs + ys, lower, terms, kind, impact)
  {
    var flags := xs + ys;
    forall i | 0 <= i < |flags| ensures i < |xs| ==> flags[i] == xs[i]
      ensures |xs| <= i ==> flags[i] == ys[i - |xs|] { }
    forall t | t in terms && Includes(lower, t)
      ensures exists i :: 0 <= i < |flags| && flags[i].kind == kind && flags[i].matchText == t
    {
      var i :| 0 <= i < |ys| && ys[i].kind == kind && ys[i].matchText == t;
      assert flags[|xs| + i] == ys[i];
    }
  }

  /** At most one flag per lexicon term, plus one universal claim and one percentage. */
  lemma RuleFlagsCount(text: string)
    ensures |RuleFlags(text)| <= |ABSOLUTE_TERMS| + |AUTHORITY_TERMS| + 2
  {
  }

  /** Flags come in the order the rules run, and the last two rules flag at most once each. */
  lemma RuleFlagsShape(text: string)
    ensures var flags := RuleFlags(text);
      (forall i, j :: 0 <= i < j < |flags| ==> KindRank(flags[i].kind) <= KindRank(flags[j].kind)) &&
      (forall i, j :: 0 <= i < j < |flags| ==> flags[i].kind != UniversalClaim || flags[j].kind != UniversalClaim) &&
      (forall i, j :: 0 <= i < j < |flags| ==> flags[i].kind != UnsupportedCertainty || flags[j].kind != UnsupportedCertainty)
  {
    var a, b, u, c := AbsoluteFlags(text), AuthorityFlags(text), UniversalFlag(text), CertaintyFlag(text);
    assert AllOfKind(u, UniversalClaim);
    assert AllOfKind(c, UnsupportedCertainty);
    BlocksInRuleOrder(a, b, u, c);
    assert RuleFlags(text) == a + b + u + c;
  }

  /** For each absolute-language term, a flag is present exactly when the lower-cased text
      contains the term, and these flags follow lexicon order (so no term is flagged twice). */
  lemma AbsoluteFlagsExact(text: string)
    ensures ExactlyFlagged(RuleFlags(text), ToLower(text), ABSOLUTE_TERMS, AbsoluteLanguage, ABSOLUTE_LANGUAGE)
  {
    LexiconsDistinct();
    var lower := ToLower(text);
    var a, b, u, c := AbsoluteFlags(text), AuthorityFlags(text), UniversalFlag(text), CertaintyFlag(text);
    TermFlagsExactly(lower, ABSOLUTE_TERMS, AbsoluteLanguage, ABSOLUTE_LANGUAGE);
    assert NoneOfKind(b, AbsoluteLanguage) && NoneOfKind(u, AbsoluteLanguage) && NoneOfKind(c, AbsoluteLanguage);
    ExactlyFlaggedAppend(a, b, lower, ABSOLUTE_TERMS, AbsoluteLanguage, ABSOLUTE_LANGUAGE);
    ExactlyFlaggedAppend(a + b, u, lower, ABSOLUTE_TERMS, AbsoluteLanguage, ABSOLUTE_LANGUAGE);
    ExactlyFlaggedAppend(a + b + u, c, lower, ABSOLUTE_TERMS, AbsoluteLanguage, ABSOLUTE_LANGUAGE);
  }

  /** The same for the fake-authority lexicon. */
  lemma AuthorityFlagsExact(text: string)
    ensures ExactlyFlagged(RuleFlags(text), ToLower(text), AUTHORITY_TERMS, FakeAuthority, FAKE_AUTHORITY)
  {
    LexiconsDistinct();
    var lower := ToLower(text);
    var a, b, u, c := AbsoluteFlags(text), AuthorityFlags(text), UniversalFlag(text), CertaintyFlag(text);
    TermFlagsExactly(lower, AUTHORITY_TERMS, FakeAuthority, FAKE_AUTHORITY);
    assert NoneOfKind(a, FakeAuthority) && NoneOfKind(u, FakeAuthority) && NoneOfKind(c, FakeAuthority);
    ExactlyFlaggedPrepend(a, b, lower, AUTHORITY_TERMS, FakeAuthority, FAKE_AUTHORITY);
    ExactlyFlaggedAppend(a + b, u, lower, AUTHORITY_TERMS, FakeAuthority, FAKE_AUTHORITY);
    ExactlyFlaggedAppend(a + b + u, c, lower, AUTHORITY_TERMS, FakeAuthority, FAKE_AUTHORITY);
  }

  /** A lexicon scan is empty exactly when the text contains none of the lexicon's terms. */
  lemma TermFlagsEmpty(lower: string, terms: seq<string>, kind: FlagKind, impact: int)
    ensures TermFlags(lower, terms, kind, impact) == [] <==> forall t :: t in terms ==> !Includes(lower, t)
  {
    TermFlagsComplete(lower, terms, kind, impact);
  }

  /** The scanner reports nothing exactly when no rule fires: no lexicon term in the lower-cased
      text, no universal-claim match, and no percentage match unless its flag is excused. */
  lemma NoFlagsIff(text: string)
    ensures RuleFlags(text) == [] <==>
      (forall t :: t in ABSOLUTE_TERMS ==> !Includes(ToLower(text), t)) &&
      (forall t :: t in AUTHORITY_TERMS ==> !Includes(ToLower(text), t)) &&
      (forall p :: 0 <= p < |text| ==> UniversalAt(text, p).None?) &&
      ((forall p :: 0 <= p < |text| ==> PercentAt(text, p).None?) || StatesUncertainty(text))
  {
    TermFlagsEmpty(ToLower(text), ABSOLUTE_TERMS, AbsoluteLanguage, ABSOLUTE_LANGUAGE);
    TermFlagsEmpty(ToLower(text), AUTHORITY_TERMS, FakeAuthority, FAKE_AUTHORITY);
  }

  /** A percentage match always ends right after a '%' that a word character follows: the
      trailing `\b` of the pattern needs one, since '%' is not a word character. */
  lemma PercentNeedsWordAfter(s: string, p: nat)
    ensures PercentAt(s, p).Some? ==>
      var e := PercentAt(s, p).value;
      0 < e < |s| && s[e - 1] == '%' && IsWordChar(s[e])
  {
  }

  /** No '%' of s is directly followed by a word character. */
  predicate NoWordAfterPercent(s: string) {
    forall i :: 0 <= i < |s| - 1 && s[i] == '%' ==> !IsWordChar(s[i + 1])
  }

  lemma NoWordAfterPercentConcat(x: string, y: string)
    requires NoWordAfterPercent(x) && NoWordAfterPercent(y)
    requires x == [] || y == [] || x[|x| - 1] != '%' || !IsWordChar(y[0])
    ensures NoWordAfterPercent(x + y)
  {
    var s := x + y;
    forall i | 0 <= i < |s| - 1 && s[i] == '%' ensures !IsWordChar(s[i + 1]) {
      if i + 1 < |x| { assert s[i] == x[i] && s[i + 1] == x[i + 1]; }
      else if i + 1 == |x| { assert s[i] == x[|x| - 1] && s[i + 1] == y[0]; }
      else { assert s[i] == y[i - |x|] && s[i + 1] == y[i + 1 - |x|]; }
    }
  }

  /** Hence a text in which no '%' is directly followed by a word character never draws an
      'Unsupported Certainty' flag, whatever percentages it states. */
  lemma NoCertaintyWithoutWordAfterPercent(text: string)
    requires NoWordAfterPercent(text)
    ensures CertaintyFlag(text) == []
  {
    forall p | 0 <= p < |text| ensures PercentAt(text, p).None? {
      PercentNeedsWordAfter(text, p);
    }
  }

  /** As in the 'Load Risk' sample text, a percentage followed by a space draws no flag ... */
  lemma PercentBeforeSpaceNotFlagged()
    ensures CertaintyFlag("a 100% cure") == []
  {
    var b, a := "a 100", " cure";
    assert "a 100% cure" == b + "%" + a;
    NoWordAfterPercentConcat(b, "%");
    NoWordAfterPercentConcat(b + "%", a);
    NoCertaintyWithoutWordAfterPercent("a 100% cure");
  }

  /** ... while one followed by a letter does. */
  lemma PercentBeforeLetterFlagged()
    ensures CertaintyFlag("a 100%cure") == [HallucinationFlag(UnsupportedCertainty, "100%", UNSUPPORTED_CERTAINTY)]
  {
    var s := "a 100%cure";
    RunExact(s, 0, 0, IsDigit);
    RunExact(s, 1, 1, IsDigit);
    RunExact(s, 2, 5, IsDigit);
    assert PercentAt(s, 0).None? && PercentAt(s, 1).None?;
    assert PercentAt(s, 2) == Some(6);
    assert FirstPercent(s, 0) == Some((2, 6));
    assert !StatesUncertainty(s);
    assert s[2..6] == "100%";
  }

  /** Where the `i`-flag fold agrees with a lower-case ASCII character, so does toLowerCase. */
  lemma FoldAgreesWithLower(c: char, d: char)
    requires FoldChar(c) == d && !IsUpper(d) && d as int < 128
    ensures LowerChar(c) == d
  {
  }

  /** A case-insensitive occurrence of a lower-case ASCII word is an occurrence in the
      lower-cased text. */
  lemma FoldedOccursInLower(text: string, p: nat, w: string)
    requires FoldsTo(text, p, w)
    requires forall k :: 0 <= k < |w| ==> !IsUpper(w[k]) && w[k] as int < 128
    ensures OccursAt(ToLower(text), w, p)
  {
    var lower := ToLower(text);
    forall k | 0 <= k < |w| ensures lower[p + k] == w[k] {
      FoldAgreesWithLower(text[p + k], w[k]);
    }
    assert lower[p..p + |w|] == w;
  }

  /** A contained absolute-language term is flagged with its impact. */
  lemma ContainedAbsoluteTermFlagged(text: string, t: string)
    requires t in ABSOLUTE_TERMS && Includes(ToLower(text), t)
    ensures var flags := RuleFlags(text);
      exists i :: 0 <= i < |flags| && flags[i] == HallucinationFlag(AbsoluteLanguage, t, ABSOLUTE_LANGUAGE)
  {
    AbsoluteFlagsExact(text);
  }

  /** A contained authority phrase is flagged with its impact. */
  lemma ContainedAuthorityTermFlagged(text: string, t: string)
    requires t in AUTHORITY_TERMS && Includes(ToLower(text), t)
    ensures var flags := RuleFlags(text);
      exists i :: 0 <= i < |flags| && flags[i] == HallucinationFlag(FakeAuthority, t, FAKE_AUTHORITY)
  {
    AuthorityFlagsExact(text);
  }

  /** A whole-word 'everyone knows' in any casing is an absolute-language hit ... */
  lemma EveryoneKnowsAbsolute(text: string, p: nat)
    requires WholeWordAt(text, p, "everyone knows")
    ensures var flags := RuleFlags(text);
      exists i :: 0 <= i < |flags| && flags[i] == HallucinationFlag(AbsoluteLanguage, "everyone knows", ABSOLUTE_LANGUAGE)
  {
    var w := "everyone knows";
    FoldedOccursInLower(text, p, w);
    assert w == ABSOLUTE_TERMS[9];
    ContainedAbsoluteTermFlagged(text, w);
  }

  /** ... and, when no universal claim starts earlier, the universal-claim hit. */
  lemma EveryoneKnowsUniversal(text: string, p: nat)
    requires WholeWordAt(text, p, "everyone knows")
    requires forall q :: 0 <= q < p ==> UniversalAt(text, q).None?
    ensures UniversalFlag(text) == [HallucinationFlag(UniversalClaim, text[p..p + 14], UNIVERSAL_CLAIM)]
  {
    var w := "everyone knows";
    assert FoldChar(text[p + 5]) == FoldChar(w[5]) == 'o';
    assert FoldChar(text[p]) == FoldChar(w[0]) == 'e';
    assert !FoldsTo(text, p, UNIVERSAL_ALTERNATIVES[0]) by {
      assert FoldChar(UNIVERSAL_ALTERNATIVES[0][5]) == ' ';
    }
    assert !FoldsTo(text, p, UNIVERSAL_ALTERNATIVES[1]) by {
      assert FoldChar(UNIVERSAL_ALTERNATIVES[1][0]) == 'a';
    }
    assert !FoldsTo(text, p, UNIVERSAL_ALTERNATIVES[2]) by {
      assert FoldChar(UNIVERSAL_ALTERNATIVES[2][0]) == 'n';
    }
    assert !FoldsTo(text, p, UNIVERSAL_ALTERNATIVES[3]) by {
      assert FoldChar(UNIVERSAL_ALTERNATIVES[3][0]) == 'u';
    }
    assert WholeWordAt(text, p, UNIVERSAL_ALTERNATIVES[4]);
    assert UniversalAt(text, p) == Some(p + 14);
    assert FirstUniversal(text, 0) == Some((p, p + 14));
  }

  /** So the first whole-word occurrence of 'everyone knows' draws two flags. */
  lemma EveryoneKnowsFlaggedTwice(text: string, p: nat)
    requires WholeWordAt(text, p, "everyone knows")
    requires forall q :: 0 <= q < p ==> UniversalAt(text, q).None?
    ensures var flags := RuleFlags(text);
      (exists i :: 0 <= i < |flags| && flags[i] == HallucinationFlag(AbsoluteLanguage, "everyone knows", ABSOLUTE_LANGUAGE)) &&
      (exists j :: 0 <= j < |flags| && flags[j] == HallucinationFlag(UniversalClaim, text[p..p + 14], UNIVERSAL_CLAIM))
  {
    EveryoneKnowsAbsolute(text, p);
    EveryoneKnowsUniversal(text, p);
    var a, b := AbsoluteFlags(text), AuthorityFlags(text);
    assert RuleFlags(text)[|a| + |b|] == UniversalFlag(text)[0];
  }
}
