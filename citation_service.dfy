/** Citation extraction from free text and the construction of one citation record per
    candidate from a bibliographic registry's answer. */
module CitationService {
  import opened Wrappers
  import opened Strings
  import opened Seqs
  import opened Types
  import opened Scanning

  // ---------------------------------------------------------------------------------------
  // Registry answers
  // ---------------------------------------------------------------------------------------

  /** The outcome of one `fetch`: a response with `ok` set and its decoded JSON body, a
      response with another status, or an exception (a network failure, the 5-second abort,
      a body that is not JSON) with its `message`, which may be absent. */
  datatype HttpResponse<B> = Ok(body: B) | NotOk(status: int) | Threw(message: Option<string>)

  /** The parts of a CrossRef `works` record that are read: `message.title`,
      `message.author[].family` and `message['container-title']`; a missing array is empty. */
  datatype CrossrefAuthor = CrossrefAuthor(family: Option<string>)
  datatype CrossrefWork = CrossrefWork(title: seq<string>, author: seq<CrossrefAuthor>, containerTitle: seq<string>)
  datatype CrossrefBody = CrossrefBody(message: Option<CrossrefWork>)

  /** The parts of a Semantic Scholar paper search answer that are read. */
  datatype PaperAuthor = PaperAuthor(name: Option<string>)
  datatype Paper = Paper(title: Option<string>, year: Option<int>, authors: seq<PaperAuthor>)
  datatype SearchBody = SearchBody(total: int, data: seq<Paper>)

  function First<T>(xs: seq<T>): (r: Option<T>)
    ensures r.Some? <==> xs != []
    ensures r.Some? ==> r.value == xs[0]
  {
    if xs == [] then None else Some(xs[0])
  }

  // ---------------------------------------------------------------------------------------
  // verifyDOI
  // ---------------------------------------------------------------------------------------

  /** `data.message?.title?.[0] || 'Untitled Work'`. */
  function WorkTitle(body: CrossrefBody): string {
    OrElse(if body.message.Some? then First(body.message.value.title) else None, "Untitled Work")
  }

  /** `data.message?.author?.[0]?.family || 'Unknown'`. */
  function WorkAuthor(body: CrossrefBody): string {
    var first := if body.message.Some? then First(body.message.value.author) else None;
    OrElse(if first.Some? then first.value.family else None, "Unknown")
  }

  /** `data.message?.['container-title']?.[0]`. */
  function WorkJournal(body: CrossrefBody): Option<string> {
    if body.message.Some? then First(body.message.value.containerTitle) else None
  }

  const API_ERROR_PREFIX: string := "API Error: "

  function ErrorOnly(error: Option<string>): Metadata {
    Metadata(None, None, None, None, error)
  }

  /** The record for a DOI, built from CrossRef's answer for it. */
  function VerifyDoi(doi: string, response: HttpResponse<CrossrefBody>): (r: CitationResult)
    ensures r.citation == doi && r.sourceType == Doi
    ensures r.verified <==> response.Ok?
    ensures r.metadata.Some?
    ensures response.Ok? ==> (r.metadata.value.error.None? && r.metadata.value.year.None?
      && r.metadata.value.title.Some? && r.metadata.value.title.value != ""
      && r.metadata.value.author.Some? && r.metadata.value.author.value != "")
    ensures response.NotOk? ==> r.metadata.value == ErrorOnly(Some(API_ERROR_PREFIX + IntToDecimal(response.status)))
    ensures response.Threw? ==> r.metadata.value == ErrorOnly(Some(OrElse(response.message, "Network Error")))
  {
    match response
    case Ok(body) =>
      CitationResult(doi, true, Doi, Some(Metadata(Some(WorkTitle(body)), Some(WorkAuthor(body)), None, WorkJournal(body), None)))
    case NotOk(status) =>
      CitationResult(doi, false, Doi, Some(ErrorOnly(Some(API_ERROR_PREFIX + IntToDecimal(status)))))
    case Threw(message) =>
      CitationResult(doi, false, Doi, Some(ErrorOnly(Some(OrElse(message, "Network Error")))))
  }

  /** A found work keeps its first title, first author's family name and first container
      title; a missing or empty title or name falls back to the fixed placeholders. */
  lemma DoiMetadataFromWork(doi: string, work: CrossrefWork)
    ensures var m := VerifyDoi(doi, Ok(CrossrefBody(Some(work)))).metadata.value;
      (work.title != [] && work.title[0] != "" ==> m.title == Some(work.title[0]))
      && (work.title == [] || work.title[0] == "" ==> m.title == Some("Untitled Work"))
      && (work.author != [] && work.author[0].family.Some? && work.author[0].family.value != "" ==>
            m.author == work.author[0].family)
      && (work.author == [] || work.author[0].family.None? || work.author[0].family.value == "" ==>
            m.author == Some("Unknown"))
      && (m.journal.Some? <==> work.containerTitle != [])
      && (work.containerTitle != [] ==> m.journal == Some(work.containerTitle[0]))
  {
  }

  /** A body without a `message` gives the placeholders and no journal. */
  lemma DoiMetadataWithoutMessage(doi: string)
    ensures VerifyDoi(doi, Ok(CrossrefBody(None))).metadata
      == Some(Metadata(Some("Untitled Work"), Some("Unknown"), None, None, None))
  {
  }

  /** The error text of a refused DOI lookup names the HTTP status, which can be read back. */
  lemma {:induction false} DoiErrorNamesStatus(doi: string, status: nat)
    ensures var e := VerifyDoi(doi, NotOk(status)).metadata.value.error.value;
      |e| > |API_ERROR_PREFIX| && e[..|API_ERROR_PREFIX|] == API_ERROR_PREFIX
      && AllDigits(e[|API_ERROR_PREFIX|..]) && DecimalValue(e[|API_ERROR_PREFIX|..]) == status
  {
    var e := VerifyDoi(doi, NotOk(status)).metadata.value.error.value;
    assert e[|API_ERROR_PREFIX|..] == NatToDecimal(status);
    DecimalRoundTrip(status);
  }

  // ---------------------------------------------------------------------------------------
  // verifyAuthorYear
  // ---------------------------------------------------------------------------------------

  /** `${author} (${year})`. */
  function AuthorYearCitation(author: string, year: string): string {
    author + " (" + year + ")"
  }

  /** `paper.year && paper.year.toString() === year`, read as a truth value: a missing year or
      the year 0 is falsy. */
  predicate YearMatches(paper: Paper, year: string) {
    paper.year.Some? && paper.year.value != 0 && IntToDecimal(paper.year.value) == year
  }

  /** The metadata copied from the first search hit. */
  function PaperMetadata(paper: Paper): Metadata {
    var first := First(paper.authors);
    Metadata(paper.title, if first.Some? then first.value.name else None,
      if paper.year.Some? then Some(IntToDecimal(paper.year.value)) else None, None, None)
  }

  /** The record for an author-year pair, built from Semantic Scholar's answer to the search
      for `${author} ${year}`. */
  function VerifyAuthorYear(author: string, year: string, response: HttpResponse<SearchBody>): (r: CitationResult)
    ensures r.citation == AuthorYearCitation(author, year) && r.sourceType == AuthorYear
    ensures r.verified <==> (response.Ok? && response.body.total > 0 && response.body.data != []
      && YearMatches(response.body.data[0], year))
    ensures response.Ok? && response.body.total > 0 && response.body.data != [] ==>
      r.metadata == Some(PaperMetadata(response.body.data[0]))
    ensures response.NotOk? || (response.Ok? && (response.body.total <= 0 || response.body.data == [])) ==>
      r.metadata.None?
    ensures response.Threw? ==> r.metadata == Some(ErrorOnly(response.message))
  {
    var citation := AuthorYearCitation(author, year);
    match response
    case Ok(body) =>
      if body.total > 0 && body.data != [] then
        CitationResult(citation, YearMatches(body.data[0], year), AuthorYear, Some(PaperMetadata(body.data[0])))
      else CitationResult(citation, false, AuthorYear, None)
    case NotOk(_) => CitationResult(citation, false, AuthorYear, None)
    case Threw(message) => CitationResult(citation, false, AuthorYear, Some(ErrorOnly(message)))
  }

  /** A verified author-year record agrees with the paper found: the requested year, a digit
      string as the scanner supplies it, is the rendering of the paper's positive year, and
      the metadata repeats it. */
  lemma VerifiedYearAgrees(author: string, year: string, response: HttpResponse<SearchBody>)
    requires AllDigits(year)
    requires VerifyAuthorYear(author, year, response).verified
    ensures response.Ok? && response.body.data != []
    ensures var y := response.body.data[0].year;
      y.Some? && y.value > 0 && DecimalValue(year) == y.value
      && VerifyAuthorYear(author, year, response).metadata.value.year == Some(year)
  {
    var y := response.body.data[0].year.value;
    assert IntToDecimal(y) == year;
    DecimalRoundTrip(y);
  }

  /** The citation text determines the pair it was built from, for a four-digit year. */
  lemma CitationNamesPair(author: string, year: string)
    requires |year| == 4
    ensures var c := AuthorYearCitation(author, year);
      |c| == |author| + 7 && c[..|author|] == author && c[|c| - 5..|c| - 1] == year
  {
    var c := AuthorYearCitation(author, year);
    assert c == author + (" (" + year + ")");
    assert c[|c| - 5..|c| - 1] == (" (" + year + ")")[2..6];
  }

  // ---------------------------------------------------------------------------------------
  // The DOI pattern /\b10\.\d{4,9}\/[-._;()/:A-Z0-9]+\b/gi
  // ---------------------------------------------------------------------------------------

  /** The suffix class `[-._;()/:A-Z0-9]` under the `i` flag (ASCII letters of either case). */
  predicate IsDoiSuffixChar(c: char) {
    c == '-' || c == '.' || c == '_' || c == ';' || c == '(' || c == ')' || c == '/' || c == ':'
    || IsDigit(c) || IsUpper(c) || IsLower(c)
  }

  /** A match of the DOI pattern over s[p..e], with its `/` at q: a boundary, "10.", four to
      nine digits, the slash, at least one suffix character, a boundary. */
  ghost predicate DoiMatch(s: string, p: nat, q: nat, e: nat) {
    p + 7 <= q <= p + 12 && q + 1 < e <= |s|
    && Boundary(s, p) && s[p] == '1' && s[p + 1] == '0' && s[p + 2] == '.' && AllBetween(s, p + 3, q, IsDigit) && s[q] == '/'
    && AllBetween(s, q + 1, e, IsDoiSuffixChar) && Boundary(s, e)
  }

  /** The position of the slash after "10." and the digits at p. The greedy `\d{4,9}` can only
      be followed by `/` if it took the whole digit run, so the slash is unique. */
  function DoiSlash(s: string, p: nat): (r: Option<nat>)
    ensures r.Some? ==> p + 7 <= r.value <= p + 12 && r.value < |s|
  {
    if p + 3 <= |s| && s[p] == '1' && s[p + 1] == '0' && s[p + 2] == '.' then
      var d := Run(s, p + 3, IsDigit);
      if 4 <= d <= 9 && p + 3 + d < |s| && s[p + 3 + d] == '/' then Some(p + 3 + d) else None
    else None
  }

  /** The greatest word boundary in (lo, hi]: where the greedy suffix stops after backtracking. */
  function LastBoundary(s: string, lo: nat, hi: nat): (r: Option<nat>)
    requires lo <= hi <= |s|
    ensures r.Some? ==> lo < r.value <= hi && Boundary(s, r.value)
    ensures r.Some? ==> forall e :: r.value < e <= hi ==> !Boundary(s, e)
    ensures r.None? ==> forall e :: lo < e <= hi ==> !Boundary(s, e)
    decreases hi - lo
  {
    if hi == lo then None
    else if Boundary(s, hi) then Some(hi)
    else LastBoundary(s, lo, hi - 1)
  }

  /** The end of the DOI match that starts at p, if one does. */
  function DoiAt(s: string, p: nat): (r: Option<nat>)
    requires p <= |s|
    ensures r.Some? ==> DoiSlash(s, p).Some? && DoiSlash(s, p).value + 1 < r.value <= |s|
  {
    if !Boundary(s, p) then None
    else match DoiSlash(s, p)
      case None => None
      case Some(q) =>
        var m := Run(s, q + 1, IsDoiSuffixChar);
        LastBoundary(s, q + 1, q + 1 + m)
  }

  /** What the matcher returns is a match. */
  lemma DoiAtSound(s: string, p: nat)
    requires p <= |s| && DoiAt(s, p).Some?
    ensures DoiMatch(s, p, DoiSlash(s, p).value, DoiAt(s, p).value)
  {
  }

  /** The matcher finds every match at p and returns the longest one, as the greedy suffix with
      backtracking to the last boundary does. */
  lemma DoiAtComplete(s: string, p: nat, q: nat, e: nat)
    requires DoiMatch(s, p, q, e)
    ensures DoiSlash(s, p) == Some(q)
    ensures DoiAt(s, p).Some? && e <= DoiAt(s, p).value
  {
    RunExact(s, p + 3, q, IsDigit);
    RunCovers(s, q + 1, e, IsDoiSuffixChar);
  }

  /** The DOI matches at positions from..|s| of s: entry i is DoiAt(s, from + i). */
  /** The DOI match at p, recorded by its text. */
  function DoiHit(s: string, p: nat): (r: Option<Hit<string>>)
    ensures r.Some? ==> p < r.value.end <= |s|
  {
    if p > |s| then None
    else match DoiAt(s, p)
      case None => None
      case Some(e) => Some(Hit(e, s[p..e]))
  }

  function DoiHits(s: string): nat -> Option<Hit<string>> {
    (p: nat) => DoiHit(s, p)
  }

  /** The DOI matches at every position of s. */
  function DoiTable(s: string): (t: seq<Option<Hit<string>>>)
    ensures |t| == |s| + 1 && ValidTable(t)
  {
    assert HitsValid(DoiHits(s), |s| + 1);
    Table(DoiHits(s), |s| + 1)
  }

  lemma DoiTableAt(s: string, p: nat)
    requires p <= |s|
    ensures DoiTable(s)[p] == DoiHit(s, p)
  {
    assert HitsValid(DoiHits(s), |s| + 1);
    TableAt(DoiHits(s), |s| + 1, p);
  }

  /** The spans `s.match(doiRegex)` reports. */
  function DoiSpans(s: string): seq<Span> {
    Spans(DoiTable(s), 0)
  }

  /** Every position where a DOI match starts lies inside a reported span: either it is
      reported, or the search skips it because it lies inside an earlier, reported DOI. */
  lemma DoiSpansCover(s: string, p: nat)
    requires p <= |s| && DoiAt(s, p).Some?
    ensures exists i :: 0 <= i < |DoiSpans(s)| && DoiSpans(s)[i].start <= p < DoiSpans(s)[i].end
  {
    var t := DoiTable(s);
    DoiTableAt(s, p);
    SpansCover(t, 0, p);
    var i :| 0 <= i < |Spans(t, 0)| && Spans(t, 0)[i].start <= p < Spans(t, 0)[i].end;
    assert DoiSpans(s)[i] == Spans(t, 0)[i];
  }

  /** The matched DOI texts, in text order: `text.match(doiRegex) || []`. */
  function DoiMatches(s: string): (r: seq<string>)
    ensures |r| == |DoiSpans(s)|
    ensures forall i :: 0 <= i < |r| ==> (r[i] == s[DoiSpans(s)[i].start..DoiSpans(s)[i].end]
      && DoiAt(s, DoiSpans(s)[i].start) == Some(DoiSpans(s)[i].end))
    ensures forall i :: 0 <= i < |r| ==> |r[i]| >= 9 && r[i][..3] == "10." && '/' in r[i]
  {
    var t := DoiTable(s);
    var spans := DoiSpans(s);
    CollectSpans(t, 0);
    var r := Collect(t, 0);
    assert forall i :: 0 <= i < |r| ==> (r[i] == s[spans[i].start..spans[i].end] && DoiAt(s, spans[i].start) == Some(spans[i].end)
      && |r[i]| >= 9 && r[i][..3] == "10." && '/' in r[i]) by {
      forall i | 0 <= i < |r| ensures r[i] == s[spans[i].start..spans[i].end] && DoiAt(s, spans[i].start) == Some(spans[i].end)
        && |r[i]| >= 9 && r[i][..3] == "10." && '/' in r[i] {
        DoiTableAt(s, spans[i].start);
        MatchedDoiText(s, spans[i].start, spans[i].end);
      }
    }
    r
  }

  lemma MatchedDoiText(s: string, p: nat, e: nat)
    requires p <= |s| && DoiAt(s, p) == Some(e)
    ensures |s[p..e]| >= 9 && s[p..e][..3] == "10." && '/' in s[p..e]
  {
    var q := DoiSlash(s, p).value;
    DoiAtSound(s, p);
    assert s[p..e][q - p] == '/';
    assert s[p..e][..3] == s[p..p + 3];
  }

  /** `Array.from(new Set(text.match(doiRegex) || []))`: every entry is the text of a reported
      match, every reported match text is an entry, no entry repeats, and entries keep the order
      of their first occurrence. */
  function DistinctDois(s: string): (r: seq<string>)
    ensures forall d :: d in r <==> d in DoiMatches(s)
    ensures Distinct(r)
    ensures forall i, j :: 0 <= i < j < |r| ==> IndexOf(DoiMatches(s), r[i]) < IndexOf(DoiMatches(s), r[j])
  {
    Dedup(DoiMatches(s))
  }

  // ---------------------------------------------------------------------------------------
  // The author-year pattern /([A-Z][a-z]+(?:\s+et\s+al\.)?)\s*\((\d{4})\)/g
  // ---------------------------------------------------------------------------------------

  /** s[p..a] is a capitalised surname: one upper-case letter then lower-case letters. */
  ghost predicate SurnameSpan(s: string, p: nat, a: nat) {
    p + 2 <= a <= |s| && IsUpper(s[p]) && AllBetween(s, p + 1, a, IsLower)
  }

  /** s[a..g] is the optional group `\s+et\s+al\.`. */
  ghost predicate EtAlSpan(s: string, a: nat, g: nat) {
    exists j: nat, k: nat :: EtAlAt(s, a, j, k, g)
  }

  /** The group with its "et" at j and its "al." at k. */
  ghost predicate EtAlAt(s: string, a: nat, j: nat, k: nat, g: nat) {
    a < j && j + 2 < k && k + 3 == g <= |s| && AllBetween(s, a, j, IsSpace)
    && s[j] == 'e' && s[j + 1] == 't' && AllBetween(s, j + 2, k, IsSpace)
    && s[k] == 'a' && s[k + 1] == 'l' && s[k + 2] == '.'
  }

  /** s[x..b + 6] is `\s*\((\d{4})\)` with its parenthesis at b. */
  ghost predicate YearSpan(s: string, x: nat, b: nat) {
    x <= b && b + 6 <= |s| && AllBetween(s, x, b, IsSpace) && s[b] == '('
    && AllBetween(s, b + 1, b + 5, IsDigit) && s[b + 5] == ')'
  }

  /** A match of the author-year pattern at p whose first group ends at g and whose year's
      parenthesis is at b. */
  ghost predicate AuthorYearMatch(s: string, p: nat, g: nat, b: nat) {
    exists a: nat :: SurnameSpan(s, p, a) && (g == a || EtAlSpan(s, a, g)) && YearSpan(s, g, b)
  }

  /** The end of the group `\s+et\s+al\.` at a, if it is there; both `\s+` are greedy and must be
      followed by a letter, so they take whole runs. */
  function EtAlEnd(s: string, a: nat): (r: Option<nat>)
    requires a <= |s|
    ensures r.Some? ==> a + 6 <= r.value <= |s|
  {
    var j := a + Run(s, a, IsSpace);
    if a < j && j + 2 <= |s| && s[j] == 'e' && s[j + 1] == 't' then
      var k := j + 2 + Run(s, j + 2, IsSpace);
      if j + 2 < k && k + 3 <= |s| && s[k] == 'a' && s[k + 1] == 'l' && s[k + 2] == '.' then
        Some(k + 3)
      else None
    else None
  }

  lemma EtAlEndSound(s: string, a: nat)
    requires a <= |s| && EtAlEnd(s, a).Some?
    ensures EtAlSpan(s, a, EtAlEnd(s, a).value)
  {
    var j := a + Run(s, a, IsSpace);
    var k := j + 2 + Run(s, j + 2, IsSpace);
    assert EtAlAt(s, a, j, k, k + 3);
  }

  lemma EtAlEndComplete(s: string, a: nat, g: nat)
    requires EtAlSpan(s, a, g)
    ensures EtAlEnd(s, a) == Some(g)
  {
    var j: nat, k: nat :| EtAlAt(s, a, j, k, g);
    EtAlAtEnd(s, a, j, k, g);
  }

  lemma EtAlAtEnd(s: string, a: nat, j: nat, k: nat, g: nat)
    requires EtAlAt(s, a, j, k, g)
    ensures EtAlEnd(s, a) == Some(g)
  {
    RunExact(s, a, j, IsSpace);
    RunExact(s, j + 2, k, IsSpace);
  }

  /** The parenthesis of `\s*\((\d{4})\)` at x, if the year follows there. */
  function YearTail(s: string, x: nat): (r: Option<nat>)
    requires x <= |s|
    ensures r.Some? ==> x <= r.value && r.value + 6 <= |s|
  {
    var b := x + Run(s, x, IsSpace);
    if b + 6 <= |s| && s[b] == '(' && AllBetween(s, b + 1, b + 5, IsDigit) && s[b + 5] == ')' then Some(b)
    else None
  }

  lemma YearTailSound(s: string, x: nat)
    requires x <= |s| && YearTail(s, x).Some?
    ensures YearSpan(s, x, YearTail(s, x).value)
  {
  }

  lemma YearTailComplete(s: string, x: nat, b: nat)
    requires YearSpan(s, x, b)
    ensures YearTail(s, x) == Some(b)
  {
    RunExact(s, x, b, IsSpace);
  }

  /** One result of `exec`: the match starts at `start`, the author group ends at `authorEnd`
      and the year's parenthesis is at `open`, so the match ends at open + 6. */
  datatype ExecMatch = ExecMatch(start: nat, authorEnd: nat, open: nat)

  /** The author-year match at p, if any. The optional group is tried first; the pattern without
      it is the fallback. */
  function AuthorYearAt(s: string, p: nat): (r: Option<ExecMatch>)
    requires p <= |s|
    ensures r.Some? ==> r.value.start == p && p + 2 <= r.value.authorEnd <= r.value.open && r.value.open + 6 <= |s|
  {
    if p < |s| && IsUpper(s[p]) then
      var a := p + 1 + Run(s, p + 1, IsLower);
      if a == p + 1 then None else AfterSurname(s, p, a)
    else None
  }

  /** The rest of the match at p once the surname s[p..a] is read: the optional group, then
      the year; without the year after the optional group, the pattern backtracks and tries the
      year right after the surname. */
  function AfterSurname(s: string, p: nat, a: nat): (r: Option<ExecMatch>)
    requires p + 2 <= a <= |s|
    ensures r.Some? ==> r.value.start == p && a <= r.value.authorEnd <= r.value.open && r.value.open + 6 <= |s|
  {
    var g := EtAlEnd(s, a);
    if g.Some? && YearTail(s, g.value).Some? then Some(ExecMatch(p, g.value, YearTail(s, g.value).value))
    else if YearTail(s, a).Some? then Some(ExecMatch(p, a, YearTail(s, a).value))
    else None
  }

  /** What the matcher returns is a match. */
  lemma AuthorYearAtSound(s: string, p: nat)
    requires p <= |s| && AuthorYearAt(s, p).Some?
    ensures AuthorYearMatch(s, p, AuthorYearAt(s, p).value.authorEnd, AuthorYearAt(s, p).value.open)
  {
    var a := p + 1 + Run(s, p + 1, IsLower);
    var m := AuthorYearAt(s, p).value;
    assert SurnameSpan(s, p, a);
    YearTailSound(s, m.authorEnd);
    if m.authorEnd != a {
      EtAlEndSound(s, a);
    }
  }

  /** Where the year follows directly, the optional group cannot match: its first `\s+` would
      have to be followed by "et", but the spaces are followed by the parenthesis. */
  lemma NoEtAlBeforeYear(s: string, a: nat, b: nat)
    requires YearSpan(s, a, b)
    ensures EtAlEnd(s, a).None?
  {
    RunExact(s, a, b, IsSpace);
    assert s[a + Run(s, a, IsSpace)] == '(';
  }

  /** The surname of a match is the whole run of lower-case letters after the capital. */
  lemma SurnameEnd(s: string, p: nat, a: nat, g: nat, b: nat)
    requires SurnameSpan(s, p, a) && (g == a || EtAlSpan(s, a, g)) && YearSpan(s, g, b)
    ensures p < |s| && IsUpper(s[p]) && p + 1 < a == p + 1 + Run(s, p + 1, IsLower)
  {
    assert s[a] == '(' || IsSpace(s[a]) by {
      if g != a {
        var j: nat, k: nat :| EtAlAt(s, a, j, k, g);
        assert IsSpace(s[a]);
      } else if a < b {
        assert IsSpace(s[a]);
      }
    }
    RunExact(s, p + 1, a, IsLower);
  }

  /** The match at p is unique, and the matcher finds it. */
  lemma AuthorYearAtComplete(s: string, p: nat, g: nat, b: nat)
    requires AuthorYearMatch(s, p, g, b)
    ensures AuthorYearAt(s, p) == Some(ExecMatch(p, g, b))
  {
    var a: nat :| SurnameSpan(s, p, a) && (g == a || EtAlSpan(s, a, g)) && YearSpan(s, g, b);
    SurnameEnd(s, p, a, g, b);
    YearTailComplete(s, g, b);
    if g == a {
      NoEtAlBeforeYear(s, a, b);
      PlainAuthorFound(s, p, a, b);
    } else {
      EtAlEndComplete(s, a, g);
      EtAlAuthorFound(s, p, a, g, b);
    }
  }

  lemma PlainAuthorFound(s: string, p: nat, a: nat, b: nat)
    requires p < |s| && IsUpper(s[p]) && p + 1 < a == p + 1 + Run(s, p + 1, IsLower)
    requires EtAlEnd(s, a).None? && YearTail(s, a) == Some(b)
    ensures AuthorYearAt(s, p) == Some(ExecMatch(p, a, b))
  {
    assert AfterSurname(s, p, a) == Some(ExecMatch(p, a, b));
  }

  lemma EtAlAuthorFound(s: string, p: nat, a: nat, g: nat, b: nat)
    requires p < |s| && IsUpper(s[p]) && p + 1 < a == p + 1 + Run(s, p + 1, IsLower)
    requires EtAlEnd(s, a) == Some(g) && YearTail(s, g) == Some(b)
    ensures AuthorYearAt(s, p) == Some(ExecMatch(p, g, b))
  {
    assert AfterSurname(s, p, a) == Some(ExecMatch(p, g, b));
  }

  /** The `{author: match[1], year: match[2]}` record of one match. */
  datatype AuthorYearRef = AuthorYearRef(author: string, year: string)

  /** The shape every match has: a capital, and a four-digit year inside the text. */
  predicate MatchRefOk(s: string, m: ExecMatch) {
    m.start + 2 <= m.authorEnd <= m.open && m.open + 6 <= |s|
    && IsUpper(s[m.start]) && AllBetween(s, m.open + 1, m.open + 5, IsDigit)
  }

  function MatchRef(s: string, m: ExecMatch): (r: AuthorYearRef)
    requires MatchRefOk(s, m)
    ensures |r.author| >= 2 && IsUpper(r.author[0]) && |r.year| == 4 && AllDigits(r.year)
  {
    AuthorYearRef(s[m.start..m.authorEnd], s[m.open + 1..m.open + 5])
  }

  lemma ExecMatchWellFormed(s: string, m: ExecMatch)
    requires m.start <= |s| && AuthorYearAt(s, m.start) == Some(m)
    ensures MatchRefOk(s, m)
  {
    AuthorYearAtSound(s, m.start);
    var a: nat :| SurnameSpan(s, m.start, a) && (m.authorEnd == a || EtAlSpan(s, a, m.authorEnd))
      && YearSpan(s, m.authorEnd, m.open);
  }

  /** The author-year match at p, recorded as its `{author, year}` pair; the match ends just
      after the closing parenthesis. */
  function AuthorYearHit(s: string, p: nat): (r: Option<Hit<AuthorYearRef>>)
    ensures r.Some? ==> p < r.value.end <= |s|
  {
    if p > |s| then None
    else match AuthorYearAt(s, p)
      case None => None
      case Some(m) =>
        ExecMatchWellFormed(s, m);
        Some(Hit(m.open + 6, MatchRef(s, m)))
  }

  function AuthorYearHits(s: string): nat -> Option<Hit<AuthorYearRef>> {
    (p: nat) => AuthorYearHit(s, p)
  }

  /** The author-year matches at every position of s. */
  function AuthorYearTable(s: string): (t: seq<Option<Hit<AuthorYearRef>>>)
    ensures |t| == |s| + 1 && ValidTable(t)
  {
    assert HitsValid(AuthorYearHits(s), |s| + 1);
    Table(AuthorYearHits(s), |s| + 1)
  }

  lemma AuthorYearTableAt(s: string, p: nat)
    requires p <= |s|
    ensures AuthorYearTable(s)[p] == AuthorYearHit(s, p)
  {
    assert HitsValid(AuthorYearHits(s), |s| + 1);
    TableAt(AuthorYearHits(s), |s| + 1, p);
  }

  /** `authorYearRegex.exec(text)` with `lastIndex` = from: the leftmost match at or after it,
      given by the new `lastIndex` (the end of the match) and its groups `match[1]`, `match[2]`;
      None is `null`. */
  function NextAuthorYear(s: string, from: nat): (r: Option<Hit<AuthorYearRef>>)
    requires from <= |s|
    ensures r.Some? ==> from < r.value.end <= |s|
  {
    var t := AuthorYearTable(s);
    match Leftmost(t, from)
    case None => None
    case Some(q) => t[q]
  }

  /** `exec` finds the leftmost match: when a match starts at q and none starts in from..q,
      `exec` returns the match at q. */
  lemma NextAuthorYearAt(s: string, from: nat, q: nat)
    requires from <= q <= |s| && AuthorYearAt(s, q).Some?
    requires forall p :: from <= p < q ==> AuthorYearAt(s, p).None?
    ensures NextAuthorYear(s, from) == AuthorYearHit(s, q)
  {
    var t := AuthorYearTable(s);
    forall p | from <= p < q ensures t[p].None? {
      AuthorYearTableAt(s, p);
    }
    AuthorYearTableAt(s, q);
    LeftmostAt(t, from, q);
  }

  /** `exec` returns `null` only when no match starts at or after `from`. */
  lemma NextAuthorYearNone(s: string, from: nat, p: nat)
    requires from <= p <= |s| && NextAuthorYear(s, from).None?
    ensures AuthorYearAt(s, p).None?
  {
    AuthorYearTableAt(s, p);
  }

  /** What `exec` returns is a match at some q >= from, and none starts in from..q. */
  lemma NextAuthorYearSound(s: string, from: nat)
    requires from <= |s| && NextAuthorYear(s, from).Some?
    ensures exists q :: (from <= q <= |s| && AuthorYearAt(s, q).Some? && NextAuthorYear(s, from) == AuthorYearHit(s, q)
      && forall p :: from <= p < q ==> AuthorYearAt(s, p).None?)
  {
    var t := AuthorYearTable(s);
    var q := Leftmost(t, from).value;
    AuthorYearTableAt(s, q);
    forall p | from <= p < q ensures AuthorYearAt(s, p).None? {
      AuthorYearTableAt(s, p);
    }
  }

  /** The spans the `exec` loop reports from `from` on. */
  function AuthorYearSpans(s: string, from: nat): seq<Span>
    requires from <= |s|
  {
    Spans(AuthorYearTable(s), from)
  }

  /** `authorYearMatches` after the loop started at `from`: one record per reported match,
      left to right, repeats kept. */
  function AuthorYearRefs(s: string, from: nat): seq<AuthorYearRef>
    requires from <= |s|
  {
    Collect(AuthorYearTable(s), from)
  }

  /** One loop iteration: the match `exec` returns contributes its record in front of the
      records found after it, and `lastIndex` moves to its end. */
  lemma AuthorYearRefsStep(s: string, from: nat, h: Hit<AuthorYearRef>)
    requires from <= |s| && NextAuthorYear(s, from) == Some(h)
    ensures from < h.end <= |s| && AuthorYearRefs(s, from) == [h.info] + AuthorYearRefs(s, h.end)
  {
    CollectStep(AuthorYearTable(s), from);
  }

  /** After the last match, `exec` returns `null` and no record is added. */
  lemma AuthorYearRefsDone(s: string, from: nat)
    requires from <= |s| && NextAuthorYear(s, from).None?
    ensures AuthorYearRefs(s, from) == []
  {
  }

  /** The records are those of the reported spans, one for one: record i is the groups of the
      match that starts where span i starts and ends where it ends. */
  lemma AuthorYearRefsSpans(s: string, from: nat)
    requires from <= |s|
    ensures |AuthorYearRefs(s, from)| == |AuthorYearSpans(s, from)|
    ensures forall i :: 0 <= i < |AuthorYearSpans(s, from)| ==> (AuthorYearSpans(s, from)[i].start <= |s|
      && AuthorYearHit(s, AuthorYearSpans(s, from)[i].start) == Some(Hit(AuthorYearSpans(s, from)[i].end, AuthorYearRefs(s, from)[i])))
  {
    var t := AuthorYearTable(s);
    CollectSpans(t, from);
    forall i | 0 <= i < |AuthorYearSpans(s, from)| ensures AuthorYearSpans(s, from)[i].start <= |s|
      && AuthorYearHit(s, AuthorYearSpans(s, from)[i].start) == Some(Hit(AuthorYearSpans(s, from)[i].end, AuthorYearRefs(s, from)[i])) {
      AuthorYearTableAt(s, AuthorYearSpans(s, from)[i].start);
    }
  }

  /** Every position where an author-year match starts lies inside a collected match: the loop
      misses only matches that overlap an earlier collected one. */
  lemma AuthorYearSpansCover(s: string, p: nat)
    requires p <= |s| && AuthorYearAt(s, p).Some?
    ensures exists i :: 0 <= i < |AuthorYearSpans(s, 0)| && AuthorYearSpans(s, 0)[i].start <= p < AuthorYearSpans(s, 0)[i].end
  {
    var t := AuthorYearTable(s);
    AuthorYearTableAt(s, p);
    SpansCover(t, 0, p);
    var i :| 0 <= i < |Spans(t, 0)| && Spans(t, 0)[i].start <= p < Spans(t, 0)[i].end;
    assert AuthorYearSpans(s, 0)[i] == Spans(t, 0)[i];
  }

  // ---------------------------------------------------------------------------------------
  // scanAndVerifyCitations
  // ---------------------------------------------------------------------------------------

  /** How many author-year candidates are verified. */
  const MAX_AUTHOR_YEAR: nat := 3

  /** The search query sent for an author-year candidate: `${author} ${year}`. */
  function AuthorYearQuery(author: string, year: string): string {
    author + " " + year
  }

  /** `doiMatches.map(doi => verifyDOI(doi))`, resolved with CrossRef's answer for each DOI. */
  function DoiResults(dois: seq<string>, crossref: string -> HttpResponse<CrossrefBody>): (r: seq<CitationResult>)
    ensures |r| == |dois|
    ensures forall i :: 0 <= i < |dois| ==> (r[i].citation == dois[i] && r[i].sourceType == Doi
      && (r[i].verified <==> crossref(dois[i]).Ok?))
    ensures forall i :: 0 <= i < |dois| ==> r[i] == VerifyDoi(dois[i], crossref(dois[i]))
  {
    seq(|dois|, i requires 0 <= i < |dois| => VerifyDoi(dois[i], crossref(dois[i])))
  }

  /** `authorYearMatches.slice(0, 3).map(m => verifyAuthorYear(m.author, m.year))`, resolved with
      Semantic Scholar's answer for each query. */
  function AuthorYearResults(refs: seq<AuthorYearRef>, scholar: string -> HttpResponse<SearchBody>): (r: seq<CitationResult>)
    ensures |r| == if |refs| < MAX_AUTHOR_YEAR then |refs| else MAX_AUTHOR_YEAR
    ensures forall j :: 0 <= j < |r| ==> (r[j].citation == AuthorYearCitation(refs[j].author, refs[j].year)
      && r[j].sourceType == AuthorYear)
    ensures forall j :: 0 <= j < |r| ==>
      r[j] == VerifyAuthorYear(refs[j].author, refs[j].year, scholar(AuthorYearQuery(refs[j].author, refs[j].year)))
  {
    var first := if |refs| < MAX_AUTHOR_YEAR then refs else refs[..MAX_AUTHOR_YEAR];
    var r := seq(|first|, j requires 0 <= j < |first| =>
      VerifyAuthorYear(first[j].author, first[j].year, scholar(AuthorYearQuery(first[j].author, first[j].year))));
    forall j | 0 <= j < |r| ensures r[j] == VerifyAuthorYear(refs[j].author, refs[j].year, scholar(AuthorYearQuery(refs[j].author, refs[j].year))) {
      assert first[j] == refs[j];
      var q := AuthorYearQuery(first[j].author, first[j].year);
      assert r[j] == VerifyAuthorYear(first[j].author, first[j].year, scholar(q));
    }
    r
  }

  /** The records `scanAndVerifyCitations` resolves to, given the registries' answers.
      `Promise.all` keeps the order of its input, so the distinct DOIs come first, then at most
      three author-year candidates, each group in text order (ScanResultsShape). */
  function ScanResults(text: string, crossref: string -> HttpResponse<CrossrefBody>,
                       scholar: string -> HttpResponse<SearchBody>): seq<CitationResult>
  {
    DoiResults(DistinctDois(text), crossref) + AuthorYearResults(AuthorYearRefs(text, 0), scholar)
  }

  /** The shape of the resolved records: length, grouping and order, and each record is the
      verification of its candidate. */
  lemma ScanResultsShape(text: string, crossref: string -> HttpResponse<CrossrefBody>,
                         scholar: string -> HttpResponse<SearchBody>)
    ensures var r, dois, refs := ScanResults(text, crossref, scholar), DistinctDois(text), AuthorYearRefs(text, 0);
      |r| == |dois| + (if |refs| < MAX_AUTHOR_YEAR then |refs| else MAX_AUTHOR_YEAR)
      && (forall i :: 0 <= i < |dois| ==> (r[i].citation == dois[i] && r[i].sourceType == Doi
        && (r[i].verified <==> crossref(dois[i]).Ok?) && r[i] == VerifyDoi(dois[i], crossref(dois[i]))))
      && (forall j :: 0 <= j < |r| - |dois| ==> (j < |refs|
        && r[|dois| + j].citation == AuthorYearCitation(refs[j].author, refs[j].year)
        && r[|dois| + j].sourceType == AuthorYear
        && r[|dois| + j] == VerifyAuthorYear(refs[j].author, refs[j].year, scholar(AuthorYearQuery(refs[j].author, refs[j].year)))))
  {
    CombinedResults(DistinctDois(text), AuthorYearRefs(text, 0), crossref, scholar);
  }

  /** The DOI records followed by the author-year records, for any candidates. */
  lemma CombinedResults(dois: seq<string>, refs: seq<AuthorYearRef>, crossref: string -> HttpResponse<CrossrefBody>,
                        scholar: string -> HttpResponse<SearchBody>)
    ensures var r := DoiResults(dois, crossref) + AuthorYearResults(refs, scholar);
      |r| == |dois| + (if |refs| < MAX_AUTHOR_YEAR then |refs| else MAX_AUTHOR_YEAR)
      && (forall i :: 0 <= i < |dois| ==> (r[i].citation == dois[i] && r[i].sourceType == Doi
        && (r[i].verified <==> crossref(dois[i]).Ok?) && r[i] == VerifyDoi(dois[i], crossref(dois[i]))))
      && (forall j :: 0 <= j < |r| - |dois| ==> (j < |refs|
        && r[|dois| + j].citation == AuthorYearCitation(refs[j].author, refs[j].year)
        && r[|dois| + j].sourceType == AuthorYear
        && r[|dois| + j] == VerifyAuthorYear(refs[j].author, refs[j].year, scholar(AuthorYearQuery(refs[j].author, refs[j].year)))))
  {
    AppendIndex(DoiResults(dois, crossref), AuthorYearResults(refs, scholar));
  }

  /** The extraction loop of `scanAndVerifyCitations`, then the verification of the candidates. */
  method ScanAndVerifyCitations(text: string, crossref: string -> HttpResponse<CrossrefBody>,
                                scholar: string -> HttpResponse<SearchBody>) returns (results: seq<CitationResult>)
    ensures results == ScanResults(text, crossref, scholar)
  {
    var doiMatches := DistinctDois(text);
    var authorYearMatches: seq<AuthorYearRef> := [];
    var lastIndex: nat := 0;
    var found := NextAuthorYear(text, lastIndex);
    while found.Some?
      invariant lastIndex <= |text| && found == NextAuthorYear(text, lastIndex)
      invariant authorYearMatches + AuthorYearRefs(text, lastIndex) == AuthorYearRefs(text, 0)
      decreases |text| - lastIndex
    {
      AuthorYearRefsStep(text, lastIndex, found.value);
      authorYearMatches := authorYearMatches + [found.value.info];
      lastIndex := found.value.end;
      found := NextAuthorYear(text, lastIndex);
    }
    AuthorYearRefsDone(text, lastIndex);
    assert authorYearMatches == AuthorYearRefs(text, 0);
    results := DoiResults(doiMatches, crossref) + AuthorYearResults(authorYearMatches, scholar);
  }
}
