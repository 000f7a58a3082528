/** Two checks of the proposal generator (generation_engine.py) that read a
    text and report what looks wrong with it: `identify_gaps_and_risks`,
    which compares a vendor proposal with the requirements, and
    `validate_proposal_client_specificity`, which looks for sections that
    are not about the client. */
module ProposalChecks {
  import opened Wrappers
  import opened TextOps
  import opened Sanitizer
  import opened OrderedDict

  // ---------------------------------------------------------------------
  // Gaps and risks

  /** A gap: coverage below 0.7, or a mismatch below 0.5. */
  datatype Gap = LowCoverage(similarity: real) | Mismatch

  /** A risk: a risk keyword found in the proposal, or the overall risk of
      a similarity below 0.5. */
  datatype Risk = KeywordRisk(keyword: string) | HighRisk

  const CoverageThreshold: real := 0.7
  const MismatchThreshold: real := 0.5

  const RiskKeywords: seq<string> :=
    ["unable to", "cannot commit", "significant challenge", "out of scope", "additional cost", "dependency on client"]

  /** `\b` at position `i`: a word character on exactly one side. */
  predicate Boundary(low: string, i: nat) {
    (0 < i <= |low| && IsWordChar(low[i - 1])) != (i < |low| && IsWordChar(low[i]))
  }

  /** `\b<keyword>\b` matches at `p`. */
  predicate BoundedAt(low: string, keyword: string, p: int) {
    OccursAt(low, keyword, p) && Boundary(low, p) && Boundary(low, p + |keyword|)
  }

  /** The first bounded match at or after `from`, or -1. */
  function FirstBounded(low: string, keyword: string, from: nat): (r: int)
    ensures r == -1 || (from <= r && BoundedAt(low, keyword, r))
    ensures forall j :: from <= j && (r == -1 || j < r) ==> !BoundedAt(low, keyword, j)
    decreases |low| - from
  {
    if from + |keyword| > |low| then -1
    else if BoundedAt(low, keyword, from) then from
    else FirstBounded(low, keyword, from + 1)
  }

  /** `re.search(r'\b' + re.escape(keyword) + r'\b', low)` succeeds. */
  predicate WordFound(low: string, keyword: string) {
    FirstBounded(low, keyword, 0) >= 0
  }

  /** The risks of the first `n` keywords found in the text, in list order. */
  function KeywordRisks(low: string, n: nat): (r: seq<Risk>)
    requires n <= |RiskKeywords|
    ensures |r| <= n
  {
    if n == 0 then []
    else KeywordRisks(low, n - 1) + (if WordFound(low, RiskKeywords[n - 1]) then [KeywordRisk(RiskKeywords[n - 1])] else [])
  }

  /** `identify_gaps_and_risks`, with the TF-IDF cosine similarity of the
      cleaned requirements and proposal given; nothing stands for the
      vectoriser raising, which makes both lists empty. */
  function GapsAndRisks(proposal: string, similarity: Option<real>): (seq<Gap>, seq<Risk>) {
    match similarity
    case None => ([], [])
    case Some(s) =>
      var gaps := (if s < CoverageThreshold then [LowCoverage(s)] else [])
        + (if s < MismatchThreshold then [Mismatch] else []);
      var low := Lower(RemoveProblematicChars(proposal));
      var risks := KeywordRisks(low, |RiskKeywords|) + (if s < MismatchThreshold then [HighRisk] else []);
      (gaps, risks)
  }

  /** The text of a risk. */
  function RiskMessage(r: Risk): string {
    match r
    case KeywordRisk(k) => "Potential risk identified related to keyword: '" + k + "'"
    case HighRisk => "High risk of non-compliance due to low overall similarity"
  }

  /** The keyword search, keyword by keyword. */
  method FindKeywordRisks(low: string) returns (risks: seq<Risk>)
    ensures risks == KeywordRisks(low, |RiskKeywords|)
  {
    risks := [];
    for k := 0 to |RiskKeywords|
      invariant risks == KeywordRisks(low, k)
    {
      var keyword := RiskKeywords[k];
      if FirstBounded(low, keyword, 0) >= 0 {
        risks := risks + [KeywordRisk(keyword)];
      }
    }
  }

  method IdentifyGapsAndRisks(proposal: string, similarity: Option<real>) returns (gaps: seq<Gap>, risks: seq<Risk>)
    ensures gaps == GapsAndRisks(proposal, similarity).0
    ensures risks == GapsAndRisks(proposal, similarity).1
  {
    if similarity.None? {
      return [], [];
    }
    var s := similarity.value;
    gaps := [];
    if s < CoverageThreshold {
      gaps := gaps + [LowCoverage(s)];
    }
    if s < MismatchThreshold {
      gaps := gaps + [Mismatch];
    }
    var low := Lower(RemoveProblematicChars(proposal));
    risks := FindKeywordRisks(low);
    if s < MismatchThreshold {
      risks := risks + [HighRisk];
    }
  }

  // ---------------------------------------------------------------------
  // Client specificity

  const GenericPhrases: seq<string> := [
    "our clients", "many organizations", "typical companies",
    "best practices", "industry standards", "our approach",
    "our methodology", "our process", "our solution"
  ]

  /** An issue found in one section. */
  datatype Issue =
    | FewMentions(section: string, found: nat, expected: nat)
    | GenericPhrase(section: string, phrase: string)

  function IssueMessage(i: Issue): string {
    match i
    case FewMentions(s, f, e) =>
      "Section '" + s + "' has insufficient client references (" + NatToString(f) + " found, "
        + NatToString(e) + " expected)"
    case GenericPhrase(s, p) => "Section '" + s + "' contains generic phrase: '" + p + "'"
  }

  /** `max(3, len(content) // 500)`. */
  function ExpectedMentions(content: string): (r: nat)
    ensures r >= 3 && r >= |content| / 500
    ensures r == 3 || r == |content| / 500
  {
    if |content| / 500 > 3 then |content| / 500 else 3
  }

  /** The generic phrases among the first `n` that the text contains, as
      issues of `section`, in list order. */
  function PhraseIssues(section: string, low: string, n: nat): (r: seq<Issue>)
    requires n <= |GenericPhrases|
    ensures |r| <= n
  {
    if n == 0 then []
    else
      var p := GenericPhrases[n - 1];
      PhraseIssues(section, low, n - 1) + (if Contains(low, p) then [GenericPhrase(section, p)] else [])
  }

  /** The issues of one section, given the cleaned client name. */
  function SectionIssues(client: string, name: string, content: string): seq<Issue> {
    var section := RemoveProblematicChars(name);
    var body := RemoveProblematicChars(content);
    var low := Lower(body);
    var found := Count(low, Lower(client));
    var expected := ExpectedMentions(body);
    (if client != [] && found < expected then [FewMentions(section, found, expected)] else [])
      + PhraseIssues(section, low, |GenericPhrases|)
  }

  /** The issues of the first `n` sections, in order. */
  function IssuesUpTo(client: string, sections: Dict<string, string>, n: nat): seq<Issue>
    requires n <= |sections|
  {
    if n == 0 then []
    else IssuesUpTo(client, sections, n - 1) + SectionIssues(client, sections[n - 1].0, sections[n - 1].1)
  }

  /** `validate_proposal_client_specificity`: the issues of every section,
      in order; a missing client name is the empty one. */
  function ClientSpecificity(sections: Dict<string, string>, clientName: string): seq<Issue> {
    IssuesUpTo(RemoveProblematicChars(clientName), sections, |sections|)
  }

  method CheckPhrases(section: string, low: string) returns (issues: seq<Issue>)
    ensures issues == PhraseIssues(section, low, |GenericPhrases|)
  {
    issues := [];
    for k := 0 to |GenericPhrases|
      invariant issues == PhraseIssues(section, low, k)
    {
      var phrase := GenericPhrases[k];
      if Find(low, phrase, 0) >= 0 {
        issues := issues + [GenericPhrase(section, phrase)];
      }
    }
  }

  /** The checks of one section. */
  method CheckSection(client: string, name: string, content: string) returns (issues: seq<Issue>)
    ensures issues == SectionIssues(client, name, content)
  {
    var section := RemoveProblematicChars(name);
    var body := RemoveProblematicChars(content);
    var low := Lower(body);
    var found := Count(low, Lower(client));
    var expected := ExpectedMentions(body);
    issues := [];
    if client != [] && found < expected {
      issues := issues + [FewMentions(section, found, expected)];
    }
    var generic := CheckPhrases(section, low);
    issues := issues + generic;
  }

  method ValidateProposalClientSpecificity(sections: Dict<string, string>, clientName: string)
    returns (issues: seq<Issue>)
    ensures issues == ClientSpecificity(sections, clientName)
  {
    var client := RemoveProblematicChars(clientName);
    issues := [];
    for i := 0 to |sections|
      invariant issues == IssuesUpTo(client, sections, i)
    {
      var (name, content) := sections[i];
      var own := CheckSection(client, name, content);
      issues := issues + own;
    }
  }

  // ---------------------------------------------------------------------
  // Properties

  /** The word search is the regular-expression search: it succeeds exactly
      when the keyword occurs between two word boundaries. */
  lemma WordFoundIff(low: string, keyword: string)
    ensures WordFound(low, keyword) <==> exists p :: BoundedAt(low, keyword, p)
  {
    if exists p :: BoundedAt(low, keyword, p) {
      var p :| BoundedAt(low, keyword, p);
      assert !(FirstBounded(low, keyword, 0) == -1);
    }
  }

  /** A keyword risk is reported exactly for each risk keyword found as a
      whole phrase in the first `n`. */
  lemma {:induction false} KeywordRisksMembership(low: string, n: nat, k: string)
    requires n <= |RiskKeywords|
    ensures KeywordRisk(k) in KeywordRisks(low, n) <==> k in RiskKeywords[..n] && WordFound(low, k)
    ensures HighRisk !in KeywordRisks(low, n)
  {
    if n > 0 {
      KeywordRisksMembership(low, n - 1, k);
      assert RiskKeywords[..n] == RiskKeywords[..n - 1] + [RiskKeywords[n - 1]];
    }
  }

  /** Each keyword is reported at most once. */
  lemma {:induction false} KeywordRisksDistinct(low: string, n: nat)
    requires n <= |RiskKeywords|
    ensures forall i, j :: 0 <= i < j < |KeywordRisks(low, n)| ==> KeywordRisks(low, n)[i] != KeywordRisks(low, n)[j]
  {
    if n > 0 {
      KeywordRisksDistinct(low, n - 1);
      var prev := KeywordRisks(low, n - 1);
      var k := RiskKeywords[n - 1];
      KeywordRisksMembership(low, n - 1, k);
      assert forall i :: 0 <= i < n - 1 ==> |RiskKeywords[i]| != |k|;
      assert k !in RiskKeywords[..n - 1];
    }
  }

  /** The thresholds: a low-coverage gap exactly below 0.7, a mismatch gap
      and a high-risk entry exactly below 0.5, the high-risk entry last;
      a mismatch never comes without a low-coverage gap. */
  lemma Thresholds(proposal: string, s: real)
    ensures var (gaps, risks) := GapsAndRisks(proposal, Some(s));
      && (LowCoverage(s) in gaps <==> s < 0.7)
      && (Mismatch in gaps <==> s < 0.5)
      && (Mismatch in gaps ==> LowCoverage(s) in gaps)
      && (HighRisk in risks <==> s < 0.5)
      && (HighRisk in risks ==> risks[|risks| - 1] == HighRisk)
  {
    var low := Lower(RemoveProblematicChars(proposal));
    KeywordRisksMembership(low, |RiskKeywords|, []);
  }

  /** A failed vectorisation reports nothing. */
  lemma VectoriserFailureReportsNothing(proposal: string)
    ensures GapsAndRisks(proposal, None) == ([], [])
  {
  }

  /** "unable to" inside a sentence is a risk. */
  lemma WholePhraseFound()
    ensures WordFound("we are unable to commit", "unable to")
  {
    var a := "we are unable to commit";
    assert a[7..16] == "unable to";
    assert a[6] == ' ' && a[16] == ' ';
    assert BoundedAt(a, "unable to", 7);
    WordFoundIff(a, "unable to");
  }

  /** The same letters followed by more letters ("unable tomorrow") are not
      a whole-phrase match. */
  lemma PartWordNotFound()
    ensures !WordFound("unable tomorrow", "unable to")
  {
    var b := "unable tomorrow";
    forall p | BoundedAt(b, "unable to", p) ensures false {
    }
    WordFoundIff(b, "unable to");
  }

  /** `max(3, len // 500)`: at least three mentions are expected, and one
      per 500 characters of long sections. */
  lemma ExpectedMentionsGrowth(content: string)
    ensures |content| < 2000 ==> ExpectedMentions(content) == 3
    ensures |content| >= 2000 ==> ExpectedMentions(content) == |content| / 500
  {
  }

  /** The generic phrases reported are exactly those the lower-cased
      section contains. */
  lemma {:induction false} PhraseIssuesMembership(section: string, low: string, n: nat, i: Issue)
    requires n <= |GenericPhrases|
    ensures i in PhraseIssues(section, low, n) <==>
      i.GenericPhrase? && i.section == section && Contains(low, i.phrase)
      && exists k :: 0 <= k < n && GenericPhrases[k] == i.phrase
  {
    if n > 0 {
      PhraseIssuesMembership(section, low, n - 1, i);
    }
  }

  /** A section is reported for too few client references exactly when a
      client name is given and its case-insensitive count falls short. */
  lemma FewMentionsIff(client: string, name: string, content: string)
    ensures var body := RemoveProblematicChars(content);
      (exists i :: 0 <= i < |SectionIssues(client, name, content)| && SectionIssues(client, name, content)[i].FewMentions?)
      <==> client != [] && Count(Lower(body), Lower(client)) < ExpectedMentions(body)
  {
    var section := RemoveProblematicChars(name);
    var low := Lower(RemoveProblematicChars(content));
    var phrases := PhraseIssues(section, low, |GenericPhrases|);
    forall j | 0 <= j < |phrases| ensures phrases[j].GenericPhrase? {
      PhraseIssuesMembership(section, low, |GenericPhrases|, phrases[j]);
    }
    var issues := SectionIssues(client, name, content);
    if client != [] && Count(low, Lower(client)) < ExpectedMentions(RemoveProblematicChars(content)) {
      assert issues[0].FewMentions?;
    } else {
      assert issues == phrases;
    }
  }

  /** Without a client name no section is reported for too few references. */
  lemma {:induction false} NoClientNoMentionIssues(sections: Dict<string, string>, n: nat)
    requires n <= |sections|
    ensures forall i :: 0 <= i < |IssuesUpTo([], sections, n)| ==> IssuesUpTo([], sections, n)[i].GenericPhrase?
  {
    if n > 0 {
      NoClientNoMentionIssues(sections, n - 1);
      var (name, content) := sections[n - 1];
      var section := RemoveProblematicChars(name);
      var low := Lower(RemoveProblematicChars(content));
      var phrases := PhraseIssues(section, low, |GenericPhrases|);
      forall j | 0 <= j < |phrases| ensures phrases[j].GenericPhrase? {
        PhraseIssuesMembership(section, low, |GenericPhrases|, phrases[j]);
      }
      assert SectionIssues([], name, content) == phrases;
    }
  }

  /** The count of a non-empty name is zero exactly when the text does not
      contain it. */
  lemma CountZeroIff(s: string, sub: string)
    requires sub != []
    ensures Count(s, sub) == 0 <==> !Contains(s, sub)
  {
  }
}
