/** What the citation scanner extracts from a few concrete texts. */
module CitationSamples {
  import opened Wrappers
  import opened Strings
  import opened Scanning
  import opened CitationService

  /** No `(` in s opens a parenthesised four-digit year. */
  ghost predicate NoYearParen(s: string) {
    forall b :: 0 <= b < |s| && s[b] == '(' ==> !(b + 6 <= |s| && AllBetween(s, b + 1, b + 5, IsDigit) && s[b + 5] == ')')
  }

  /** Every match has its year in parentheses at `open`. */
  lemma MatchHasYearParen(s: string, q: nat)
    requires q <= |s| && AuthorYearAt(s, q).Some?
    ensures var b := AuthorYearAt(s, q).value.open;
      b < |s| && s[b] == '(' && b + 6 <= |s| && AllBetween(s, b + 1, b + 5, IsDigit) && s[b + 5] == ')'
  {
    AuthorYearAtSound(s, q);
  }

  /** A text without a parenthesised four-digit year yields no author-year candidate. */
  lemma NoYearNoAuthorYear(s: string)
    requires NoYearParen(s)
    ensures AuthorYearRefs(s, 0) == []
  {
    if NextAuthorYear(s, 0).Some? {
      NextAuthorYearSound(s, 0);
      var q :| 0 <= q <= |s| && AuthorYearAt(s, q).Some? && NextAuthorYear(s, 0) == AuthorYearHit(s, q)
        && forall p :: 0 <= p < q ==> AuthorYearAt(s, p).None?;
      MatchHasYearParen(s, q);
      assert false;
    }
    AuthorYearRefsDone(s, 0);
  }

  /** Every `(` of s is directly followed by a character that is not a digit. */
  ghost predicate ParenBeforeNonDigit(s: string) {
    forall b :: 0 <= b < |s| && s[b] == '(' ==> b + 1 < |s| && !IsDigit(s[b + 1])
  }

  lemma ParenBeforeNonDigitAppend(x: string, y: string)
    requires ParenBeforeNonDigit(x) && ParenBeforeNonDigit(y)
    ensures ParenBeforeNonDigit(x + y)
  {
    var s := x + y;
    forall b | 0 <= b < |s| && s[b] == '(' ensures b + 1 < |s| && !IsDigit(s[b + 1]) {
      if b < |x| {
        assert s[b] == x[b] && s[b + 1] == x[b + 1];
      } else {
        assert s[b] == y[b - |x|] && s[b + 1] == y[b + 1 - |x|];
      }
    }
  }

  lemma ParenBeforeNonDigitNoYear(s: string)
    requires ParenBeforeNonDigit(s)
    ensures NoYearParen(s)
  {
    forall b | 0 <= b < |s| && s[b] == '('
      ensures !(b + 6 <= |s| && AllBetween(s, b + 1, b + 5, IsDigit) && s[b + 5] == ')')
    {
      assert b + 1 < |s| && !IsDigit(s[b + 1]);
    }
  }

  /** The application's 'Load Trust' sample text, in pieces. */
  const DEMO_TRUST: string := "Recent studies " + "(Jones, 2022)" + " suggest that climate trends"
    + " are evolving. However, uncertainty" + " remains in long-term projections."

  /** The 'Load Trust' sample yields no author-year pair: in "(Jones, 2022)" the year does not
      follow the name, and the only `(` is followed by a letter. */
  lemma DemoTrustNoAuthorYear()
    ensures AuthorYearRefs(DEMO_TRUST, 0) == []
  {
    var a, b, c := "Recent studies ", "(Jones, 2022)", " suggest that climate trends";
    var d, e := " are evolving. However, uncertainty", " remains in long-term projections.";
    TrustPieceHead();
    TrustPieceJones();
    TrustPieceClimate();
    TrustPieceMiddle();
    TrustPieceTail();
    ParenBeforeNonDigitAppend(a, b);
    ParenBeforeNonDigitAppend(a + b, c);
    ParenBeforeNonDigitAppend(a + b + c, d);
    ParenBeforeNonDigitAppend(a + b + c + d, e);
    ParenBeforeNonDigitNoYear(DEMO_TRUST);
    NoYearNoAuthorYear(DEMO_TRUST);
  }

  lemma TrustPieceHead()
    ensures ParenBeforeNonDigit("Recent studies ")
  {
  }

  lemma TrustPieceJones()
    ensures ParenBeforeNonDigit("(Jones, 2022)")
  {
  }

  lemma TrustPieceClimate()
    ensures ParenBeforeNonDigit(" suggest that climate trends")
  {
  }

  lemma TrustPieceMiddle()
    ensures ParenBeforeNonDigit(" are evolving. However, uncertainty")
  {
  }

  lemma TrustPieceTail()
    ensures ParenBeforeNonDigit(" remains in long-term projections.")
  {
  }

  const JONES: string := "Jones (2022)"

  /** Without the comma the same citation is collected, with the surname and the year as its
      two groups. */
  lemma SurnameThenYear()
    ensures AuthorYearRefs(JONES, 0) == [AuthorYearRef("Jones", "2022")]
  {
    JonesAt(JONES, 0);
    NextAuthorYearAt(JONES, 0, 0);
    JonesGroups(JONES, 0);
    AuthorYearRefsStep(JONES, 0, Hit(12, AuthorYearRef("Jones", "2022")));
    AuthorYearRefsDone(JONES, 12);
  }

  /** A repeated citation is collected twice: there is no de-duplication of author-year pairs. */
  lemma RepeatedCitationKept()
    ensures AuthorYearRefs(JONES + " " + JONES, 0) == [AuthorYearRef("Jones", "2022"), AuthorYearRef("Jones", "2022")]
  {
    var s := JONES + " " + JONES;
    TwiceMatches();
    AuthorYearRefsStep(s, 0, Hit(12, AuthorYearRef("Jones", "2022")));
    AuthorYearRefsStep(s, 12, Hit(25, AuthorYearRef("Jones", "2022")));
    AuthorYearRefsDone(s, 25);
  }

  /** The two matches `exec` finds in the repeated citation, and the end of the text. */
  lemma TwiceMatches()
    ensures |JONES + " " + JONES| == 25
    ensures NextAuthorYear(JONES + " " + JONES, 0) == Some(Hit(12, AuthorYearRef("Jones", "2022")))
    ensures NextAuthorYear(JONES + " " + JONES, 12) == Some(Hit(25, AuthorYearRef("Jones", "2022")))
    ensures NextAuthorYear(JONES + " " + JONES, 25).None?
  {
    var s := JONES + " " + JONES;
    TwiceParts();
    JonesAt(s, 0);
    NextAuthorYearAt(s, 0, 0);
    JonesGroups(s, 0);
    JonesAt(s, 13);
    NextAuthorYearAt(s, 12, 13);
    JonesGroups(s, 13);
  }

  lemma TwiceParts()
    ensures |JONES + " " + JONES| == 25 && (JONES + " " + JONES)[0..12] == JONES
    ensures (JONES + " " + JONES)[13..25] == JONES && !IsUpper((JONES + " " + JONES)[12])
  {
    var s := JONES + " " + JONES;
    assert s[0..12] == JONES;
    assert s[13..25] == JONES;
  }

  /** The record of the match of "Jones (2022)" at p. */
  lemma JonesGroups(s: string, p: nat)
    requires p + 12 <= |s| && s[p..p + 12] == JONES
    ensures AuthorYearHit(s, p) == Some(Hit(p + 12, AuthorYearRef("Jones", "2022")))
  {
    JonesAt(s, p);
    assert s[p..p + 5] == s[p..p + 12][..5] == "Jones";
    assert forall k :: 0 <= k < 12 ==> s[p + k] == JONES[k] by {
      forall k | 0 <= k < 12 ensures s[p + k] == JONES[k] {
        assert s[p + k] == s[p..p + 12][k];
      }
    }
    assert s[p + 7..p + 11] == "2022" by {
      assert s[p + 7] == JONES[7] && s[p + 8] == JONES[8] && s[p + 9] == JONES[9] && s[p + 10] == JONES[10];
    }
  }

  /** "Jones (2022)" at p matches, whatever surrounds it: surname up to p + 5, the year's
      parenthesis at p + 6. */
  lemma JonesAt(s: string, p: nat)
    requires p + 12 <= |s| && s[p..p + 12] == JONES
    ensures AuthorYearAt(s, p) == Some(ExecMatch(p, p + 5, p + 6))
  {
    assert forall k :: 0 <= k < 12 ==> s[p + k] == JONES[k];
    assert Run(s, p + 1, IsLower) == 4 by {
      RunExact(s, p + 1, p + 5, IsLower);
    }
    JonesYear(s, p);
    PlainAuthorFound(s, p, p + 5, p + 6);
  }

  /** After the surname of "Jones (2022)" at p: no et-al group, and the year in parentheses. */
  lemma JonesYear(s: string, p: nat)
    requires p + 12 <= |s| && forall k :: 0 <= k < 12 ==> s[p + k] == JONES[k]
    ensures EtAlEnd(s, p + 5).None? && YearTail(s, p + 5) == Some(p + 6)
  {
    assert s[p + 5] == JONES[5] && s[p + 6] == JONES[6] && s[p + 11] == JONES[11];
    assert AllBetween(s, p + 7, p + 11, IsDigit) by {
      assert s[p + 7] == JONES[7] && s[p + 8] == JONES[8] && s[p + 9] == JONES[9] && s[p + 10] == JONES[10];
    }
    assert Run(s, p + 5, IsSpace) == 1 by {
      RunExact(s, p + 5, p + 6, IsSpace);
    }
  }
}
