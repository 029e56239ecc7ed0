/** What the rule engine reports for the application's 'Load Risk' sample text. */
module RuleSamples {
  import opened Strings
  import opened Constants
  import opened Types
  import opened HallucinationRules

  /** The 'Load Risk' sample text, in pieces: the two lexicon hits stand alone. */
  const DEMO_RISK: string := "According to Dr. Smith, a " + "100%" + " cure for cancer has been found. "
    + "Experts say" + " it works instantly."

  lemma ToLowerAppend(x: string, y: string)
    ensures ToLower(x + y) == ToLower(x) + ToLower(y)
  {
    assert forall i :: 0 <= i < |x| ==> (x + y)[i] == x[i];
    assert forall j :: |x| <= j < |x| + |y| ==> (x + y)[j] == y[j - |x|];
  }

  lemma IncludesAtEnd(x: string, t: string)
    ensures Includes(x + t, t)
  {
    assert (x + t)[|x|..|x| + |t|] == t;
    assert OccursAt(x + t, t, |x|);
  }

  lemma IncludesExtend(x: string, y: string, t: string)
    requires Includes(x, t)
    ensures Includes(x + y, t)
  {
    var i: nat :| OccursAt(x, t, i);
    assert (x + y)[i..i + |t|] == x[i..i + |t|];
    assert OccursAt(x + y, t, i);
  }

  lemma LowerPieces()
    ensures ToLower("100%") == "100%"
    ensures ToLower("Experts say") == "experts say"
  {
  }

  lemma RiskPieceHead()
    ensures NoWordAfterPercent("According to Dr. Smith, a ")
  {
  }

  lemma RiskPieceFigure()
    ensures NoWordAfterPercent("100%")
  {
  }

  lemma RiskPieceMiddle()
    ensures NoWordAfterPercent(" cure for cancer has been found. ")
  {
    var x, y := " cure for cancer", " has been found. ";
    RiskPieceCure();
    RiskPieceFound();
    NoWordAfterPercentConcat(x, y);
    assert x + y == " cure for cancer has been found. ";
  }

  lemma RiskPieceCure()
    ensures NoWordAfterPercent(" cure for cancer")
  {
  }

  lemma RiskPieceFound()
    ensures NoWordAfterPercent(" has been found. ")
  {
  }

  lemma RiskPieceAuthority()
    ensures NoWordAfterPercent("Experts say")
  {
  }

  lemma RiskPieceTail()
    ensures NoWordAfterPercent(" it works instantly.")
  {
  }

  /** The lower-cased text contains the absolute term "100%" and the authority phrase
      "experts say". */
  lemma DemoRiskContains()
    ensures Includes(ToLower(DEMO_RISK), "100%")
    ensures Includes(ToLower(DEMO_RISK), "experts say")
  {
    var a, t1, b := "According to Dr. Smith, a ", "100%", " cure for cancer has been found. ";
    var t2, c := "Experts say", " it works instantly.";
    ToLowerAppend(a, t1);
    ToLowerAppend(a + t1, b);
    ToLowerAppend(a + t1 + b, t2);
    ToLowerAppend(a + t1 + b + t2, c);
    LowerPieces();
    var la, lb, lc := ToLower(a), ToLower(b), ToLower(c);
    assert ToLower(DEMO_RISK) == la + "100%" + lb + "experts say" + lc;
    IncludesAtEnd(la, "100%");
    IncludesExtend(la + "100%", lb, "100%");
    IncludesExtend(la + "100%" + lb, "experts say", "100%");
    IncludesExtend(la + "100%" + lb + "experts say", lc, "100%");
    IncludesAtEnd(la + "100%" + lb, "experts say");
    IncludesExtend(la + "100%" + lb + "experts say", lc, "experts say");
  }

  /** No '%' of the text is followed by a word character: "100%" is followed by a space. */
  lemma DemoRiskNoWordAfterPercent()
    ensures NoWordAfterPercent(DEMO_RISK)
  {
    var a, t1, b := "According to Dr. Smith, a ", "100%", " cure for cancer has been found. ";
    var t2, c := "Experts say", " it works instantly.";
    RiskPieceHead();
    RiskPieceFigure();
    RiskPieceMiddle();
    RiskPieceAuthority();
    RiskPieceTail();
    NoWordAfterPercentConcat(a, t1);
    assert b[0] == ' ';
    NoWordAfterPercentConcat(a + t1, b);
    assert (a + t1 + b)[|a + t1 + b| - 1] == b[|b| - 1] == ' ';
    NoWordAfterPercentConcat(a + t1 + b, t2);
    assert c[0] == ' ';
    NoWordAfterPercentConcat(a + t1 + b + t2, c);
  }

  /** The 'Load Risk' sample draws an absolute-language flag for "100%" and a fake-authority
      flag for "experts say", but no unsupported-certainty flag: its "100%" is followed by a
      space, so the percentage pattern's closing `\b` fails. */
  lemma DemoRiskFlags()
    ensures var flags := RuleFlags(DEMO_RISK);
      (exists i :: 0 <= i < |flags| && flags[i] == HallucinationFlag(AbsoluteLanguage, "100%", ABSOLUTE_LANGUAGE))
      && (exists j :: 0 <= j < |flags| && flags[j] == HallucinationFlag(FakeAuthority, "experts say", FAKE_AUTHORITY))
    ensures CertaintyFlag(DEMO_RISK) == []
  {
    DemoRiskContains();
    assert ABSOLUTE_TERMS[2] == "100%" && AUTHORITY_TERMS[0] == "experts say";
    ContainedAbsoluteTermFlagged(DEMO_RISK, "100%");
    ContainedAuthorityTermFlagged(DEMO_RISK, "experts say");
    DemoRiskNoWordAfterPercent();
    NoCertaintyWithoutWordAfterPercent(DEMO_RISK);
  }
}
