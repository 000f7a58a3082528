/** The helpers of the proposal generator that read lists out of an RFP
    analysis (generation_engine.py): each cuts the text between a marker
    and a terminator, strips it, splits it into lines, and keeps the
    stripped lines that pass its test. */
module RfpExtraction {
  import opened Wrappers
  import opened TextOps
  import opened Sanitizer

  /** `text[text.find(marker) + len(marker) : text.find(terminator, start)]`,
      stripped. A missing marker makes the cut start at `len(marker) - 1`;
      a missing terminator makes it end one character before the end. */
  function Block(clean: string, marker: string, terminator: string): (r: string)
    requires marker != []
    ensures IsStripped(r) && |r| <= |clean|
  {
    var start := Find(clean, marker, 0) + |marker|;
    var end := Find(clean, terminator, start);
    Strip(Slice(clean, start, end))
  }

  /** Which lines a helper keeps: every non-blank one, or those whose
      lower-cased text contains one of `terms`. */
  datatype LineFilter = AnyLine | Mentioning(terms: seq<string>)

  /** `any(term in text for term in terms)`. */
  predicate MentionsAny(text: string, terms: seq<string>) {
    exists k :: 0 <= k < |terms| && Contains(text, terms[k])
  }

  predicate Keeps(f: LineFilter, line: string) {
    Strip(line) != [] && (f.AnyLine? || MentionsAny(Lower(line), f.terms))
  }

  /** Each kept line is stored stripped and cleaned. */
  function Item(line: string): string {
    RemoveProblematicChars(Strip(line))
  }

  /** The stripped, cleaned form of every line among the first `n` that
      the filter keeps, in order. */
  function CollectUpTo(lines: seq<string>, f: LineFilter, n: nat): (r: seq<string>)
    requires n <= |lines|
    ensures |r| <= n
  {
    if n == 0 then []
    else CollectUpTo(lines, f, n - 1) + (if Keeps(f, lines[n - 1]) then [Item(lines[n - 1])] else [])
  }

  function Collect(lines: seq<string>, f: LineFilter): seq<string> {
    CollectUpTo(lines, f, |lines|)
  }

  /** The kept lines of a block. */
  function Kept(block: string, f: LineFilter): seq<string> {
    Collect(Split(block, '\n'), f)
  }

  const MustTerms: seq<string> := ["must", "required"]
  const DateTerms: seq<string> := ["deadline", "date", "due"]

  /** The lines between "KEY REQUIREMENTS" and "DELIVERABLES". */
  function RequirementLines(analysis: string): seq<string> {
    Split(Block(RemoveProblematicChars(analysis), "KEY REQUIREMENTS", "DELIVERABLES"), '\n')
  }

  /** `extract_mandatory_criteria`. */
  function MandatoryCriteria(analysis: string): seq<string> {
    Collect(RequirementLines(analysis), Mentioning(MustTerms))
  }

  /** `extract_deadlines`. */
  function Deadlines(analysis: string): seq<string> {
    Kept(Block(RemoveProblematicChars(analysis), "TIMELINE", "\n\n"), Mentioning(DateTerms))
  }

  /** `extract_deliverables`. */
  function Deliverables(analysis: string): seq<string> {
    Kept(Block(RemoveProblematicChars(analysis), "DELIVERABLES", "\n\n"), AnyLine)
  }

  /** `extract_required_sections`. */
  function RequiredSections(analysis: string): seq<string> {
    Kept(Block(RemoveProblematicChars(analysis), "REQUIRED SECTIONS", "\n\n"), AnyLine)
  }

  // ---------------------------------------------------------------------
  // Weighted criteria

  /** The optional group `(\s+\((\d+)%\))?` tried at the start of `l`:
      blanks, `(`, digits, `%` and `)`; its weight when it matches. */
  function WeightGroup(l: string): Option<nat> {
    var a := LeadingBlanks(l);
    if a == 0 || a == |l| || l[a] != '(' then None
    else
      var b := DigitRunEnd(l, a + 1);
      if b == a + 1 || b + 2 > |l| || l[b] != '%' || l[b + 1] != ')' then None
      else Some(ParseNat(l[a + 1..b]))
  }

  /** `re.match(r'^(.*?)(\s+\((\d+)%\))?', l)`: the lazy group takes
      nothing, since the optional group can always be skipped, so the
      criterion is empty and the weight is the group's, or 100. */
  function WeightedEntry(l: string): (string, nat) {
    var w := WeightGroup(l);
    (RemoveProblematicChars(Strip([])), if w.Some? then w.value else 100)
  }

  function Entries(lines: seq<string>): (r: seq<(string, nat)>)
    ensures |r| <= |lines|
  {
    if lines == [] then []
    else
      var last := lines[|lines| - 1];
      Entries(lines[..|lines| - 1]) + (if Strip(last) != [] then [WeightedEntry(Strip(last))] else [])
  }

  const DefaultCriteria: seq<(string, nat)> :=
    [("Requirement Match", 40), ("Compliance", 25), ("Quality", 20), ("Alignment", 15)]

  /** `extract_weighted_criteria`: the entries of the block between
      "EVALUATION CRITERIA" and "CLIENT PAIN POINTS", or the defaults when
      it has no non-blank line. */
  function WeightedCriteria(analysis: string): seq<(string, nat)> {
    var block := Block(RemoveProblematicChars(analysis), "EVALUATION CRITERIA", "CLIENT PAIN POINTS");
    var entries := Entries(Split(block, '\n'));
    if entries == [] then DefaultCriteria else entries
  }

  // ---------------------------------------------------------------------
  // The loops

  /** `any(term in text for term in terms)`, term by term. */
  method MentionsAnyOf(text: string, terms: seq<string>) returns (found: bool)
    ensures found == MentionsAny(text, terms)
  {
    found := false;
    for k := 0 to |terms|
      invariant !found
      invariant forall j :: 0 <= j < k ==> !Contains(text, terms[j])
    {
      if Find(text, terms[k], 0) >= 0 {
        return true;
      }
    }
  }

  /** The loop over the lines of a block. */
  method CollectLines(block: string, f: LineFilter) returns (items: seq<string>)
    ensures items == Kept(block, f)
  {
    var lines := Split(block, '\n');
    items := CollectFrom(lines, f);
  }

  /** The loop over the lines: each kept line is stored stripped and
      cleaned. */
  method CollectFrom(lines: seq<string>, f: LineFilter) returns (items: seq<string>)
    ensures items == Collect(lines, f)
  {
    items := [];
    for i := 0 to |lines|
      invariant items == CollectUpTo(lines, f, i)
    {
      var keep := KeepsLine(lines[i], f);
      if keep {
        items := items + [RemoveProblematicChars(Strip(lines[i]))];
      }
    }
  }

  /** The test of one line: non-blank, and mentioning a term when the
      helper has terms. */
  method KeepsLine(line: string, f: LineFilter) returns (keep: bool)
    ensures keep == Keeps(f, line)
  {
    keep := Strip(line) != [];
    if keep && f.Mentioning? {
      keep := MentionsAnyOf(Lower(line), f.terms);
    }
  }

  method CutBlock(analysis: string, marker: string, terminator: string) returns (block: string)
    requires marker != []
    ensures block == Block(RemoveProblematicChars(analysis), marker, terminator)
  {
    var clean := RemoveProblematicChars(analysis);
    var start := Find(clean, marker, 0) + |marker|;
    var end := Find(clean, terminator, start);
    block := Strip(Slice(clean, start, end));
  }

  method ExtractMandatoryCriteria(analysis: string) returns (criteria: seq<string>)
    ensures criteria == MandatoryCriteria(analysis)
  {
    var block := CutBlock(analysis, "KEY REQUIREMENTS", "DELIVERABLES");
    criteria := CollectLines(block, Mentioning(MustTerms));
  }

  method ExtractDeadlines(analysis: string) returns (deadlines: seq<string>)
    ensures deadlines == Deadlines(analysis)
  {
    var block := CutBlock(analysis, "TIMELINE", "\n\n");
    deadlines := CollectLines(block, Mentioning(DateTerms));
  }

  method ExtractDeliverables(analysis: string) returns (deliverables: seq<string>)
    ensures deliverables == Deliverables(analysis)
  {
    var block := CutBlock(analysis, "DELIVERABLES", "\n\n");
    deliverables := CollectLines(block, AnyLine);
  }

  method ExtractRequiredSections(analysis: string) returns (sections: seq<string>)
    ensures sections == RequiredSections(analysis)
  {
    var block := CutBlock(analysis, "REQUIRED SECTIONS", "\n\n");
    sections := CollectLines(block, AnyLine);
  }

  method ExtractWeightedCriteria(analysis: string) returns (criteria: seq<(string, nat)>)
    ensures criteria == WeightedCriteria(analysis)
  {
    var block := CutBlock(analysis, "EVALUATION CRITERIA", "CLIENT PAIN POINTS");
    criteria := ReadEntries(Split(block, '\n'));
    if criteria == [] {
      criteria := DefaultCriteria;
    }
  }

  /** The loop over the lines of the evaluation block. */
  method ReadEntries(lines: seq<string>) returns (criteria: seq<(string, nat)>)
    ensures criteria == Entries(lines)
  {
    criteria := [];
    for i := 0 to |lines|
      invariant criteria == Entries(lines[..i])
    {
      var l := Strip(lines[i]);
      assert lines[..i + 1][..i] == lines[..i];
      if l != [] {
        criteria := criteria + [WeightedEntry(l)];
      }
    }
    assert lines[..|lines|] == lines;
  }

  // ---------------------------------------------------------------------
  // Properties

  /** Every kept item comes from a line among the first `n` that passes
      the filter. */
  lemma {:induction false} CollectedFromLine(lines: seq<string>, f: LineFilter, n: nat, j: nat)
    requires n <= |lines| && j < |CollectUpTo(lines, f, n)|
    ensures exists i :: 0 <= i < n && Keeps(f, lines[i]) && Item(lines[i]) == CollectUpTo(lines, f, n)[j]
  {
    if j < |CollectUpTo(lines, f, n - 1)| {
      CollectedFromLine(lines, f, n - 1, j);
    }
  }

  /** Every line among the first `n` that passes the filter gives a kept
      item. */
  lemma {:induction false} LineCollected(lines: seq<string>, f: LineFilter, n: nat, i: nat)
    requires i < n <= |lines| && Keeps(f, lines[i])
    ensures Item(lines[i]) in CollectUpTo(lines, f, n)
  {
    if i < n - 1 {
      LineCollected(lines, f, n - 1, i);
    }
  }

  /** A line is kept exactly when it passes the filter, and it is kept as
      its stripped, cleaned text. */
  lemma CollectMembership(lines: seq<string>, f: LineFilter, x: string)
    ensures x in Collect(lines, f) <==> exists i :: 0 <= i < |lines| && Keeps(f, lines[i]) && Item(lines[i]) == x
  {
    var r := Collect(lines, f);
    if x in r {
      var j :| 0 <= j < |r| && r[j] == x;
      CollectedFromLine(lines, f, |lines|, j);
    }
    if exists i :: 0 <= i < |lines| && Keeps(f, lines[i]) && Item(lines[i]) == x {
      var i :| 0 <= i < |lines| && Keeps(f, lines[i]) && Item(lines[i]) == x;
      LineCollected(lines, f, |lines|, i);
    }
  }

  /** A line says "must" or "required", in any case. */
  predicate SaysMust(line: string) {
    Contains(Lower(line), "must") || Contains(Lower(line), "required")
  }

  /** Every mandatory criterion is a non-blank line of the requirements
      block that says "must" or "required", and every such line is one. */
  lemma MandatoryCriteriaMembership(analysis: string, x: string)
    ensures x in MandatoryCriteria(analysis) <==>
      exists i :: 0 <= i < |RequirementLines(analysis)| && Strip(RequirementLines(analysis)[i]) != []
        && SaysMust(RequirementLines(analysis)[i]) && Item(RequirementLines(analysis)[i]) == x
  {
    MustLinesKept(RequirementLines(analysis), x);
  }

  lemma MustLinesKept(lines: seq<string>, x: string)
    ensures x in Collect(lines, Mentioning(MustTerms)) <==>
      exists i :: 0 <= i < |lines| && Strip(lines[i]) != [] && SaysMust(lines[i]) && Item(lines[i]) == x
  {
    CollectMembership(lines, Mentioning(MustTerms), x);
    forall i | 0 <= i < |lines|
      ensures Keeps(Mentioning(MustTerms), lines[i]) <==> Strip(lines[i]) != [] && SaysMust(lines[i])
    {
      MustTermsMentioned(Lower(lines[i]));
    }
  }

  lemma MustTermsMentioned(l: string)
    ensures MentionsAny(l, MustTerms) <==> Contains(l, "must") || Contains(l, "required")
  {
    if Contains(l, "must") {
      assert Contains(l, MustTerms[0]);
    }
    if Contains(l, "required") {
      assert Contains(l, MustTerms[1]);
    }
  }

  /** A kept line of a clean text is non-blank, stripped and clean. */
  lemma KeptLineClean(line: string, f: LineFilter)
    requires IsSanitized(line) && Keeps(f, line)
    ensures Item(line) != [] && IsStripped(Item(line)) && IsSanitized(Item(line))
  {
    StripIsSanitized(line);
    SanitizeFixedPoint(Strip(line));
  }

  lemma StripIsSanitized(s: string)
    requires IsSanitized(s)
    ensures IsSanitized(Strip(s))
  {
    var l := LStrip(s);
    assert forall i :: 0 <= i < |l| ==> l[i] == s[LeadingBlanks(s) + i];
    var r := RStrip(l);
    assert forall i :: 0 <= i < |r| ==> r[i] == l[i];
  }

  /** The pieces of a clean text are clean. */
  lemma {:induction false} SplitSanitized(s: string, sep: char)
    requires IsSanitized(s)
    ensures forall i :: 0 <= i < |Split(s, sep)| ==> IsSanitized(Split(s, sep)[i])
  {
    if s != [] {
      SplitSanitized(s[1..], sep);
      var rest := Split(s[1..], sep);
      if s[0] != sep {
        assert Allowed(s[0]);
        var first := [s[0]] + rest[0];
        assert forall t :: 0 < t < |first| ==> first[t] == rest[0][t - 1];
      }
    }
  }

  lemma BlockSanitized(clean: string, marker: string, terminator: string)
    requires marker != [] && IsSanitized(clean)
    ensures IsSanitized(Block(clean, marker, terminator))
  {
    var start := Find(clean, marker, 0) + |marker|;
    var end := Find(clean, terminator, start);
    SliceSanitized(clean, start, end);
    StripIsSanitized(Slice(clean, start, end));
  }

  /** A slice of a clean text is clean. */
  lemma SliceSanitized(s: string, start: int, end: int)
    requires IsSanitized(s)
    ensures IsSanitized(Slice(s, start, end))
  {
    var a := SliceBound(|s|, start);
    var b := SliceBound(|s|, end);
    if a < b {
      var cut := s[a..b];
      forall i | 0 <= i < |cut| ensures Allowed(cut[i]) {
        assert cut[i] == s[a + i];
      }
    }
  }

  /** Every item the helpers return is a non-blank, stripped, clean line. */
  lemma ExtractedItemsClean(analysis: string, marker: string, terminator: string, f: LineFilter)
    requires marker != []
    ensures var items := Kept(Block(RemoveProblematicChars(analysis), marker, terminator), f);
      forall j :: 0 <= j < |items| ==> items[j] != [] && IsStripped(items[j]) && IsSanitized(items[j])
  {
    var block := Block(RemoveProblematicChars(analysis), marker, terminator);
    BlockSanitized(RemoveProblematicChars(analysis), marker, terminator);
    var lines := Split(block, '\n');
    SplitSanitized(block, '\n');
    var items := Kept(block, f);
    forall j | 0 <= j < |items|
      ensures items[j] != [] && IsStripped(items[j]) && IsSanitized(items[j])
    {
      CollectMembership(lines, f, items[j]);
      var i :| 0 <= i < |lines| && Keeps(f, lines[i]) && Item(lines[i]) == items[j];
      KeptLineClean(lines[i], f);
    }
  }

  /** A stripped line never starts with a blank, so the weight group never
      matches: every entry is `("", 100)`. */
  lemma StrippedLineDefaultWeight(l: string)
    requires l != [] && IsStripped(l)
    ensures WeightedEntry(l) == ("", 100)
  {
    assert LeadingBlanks(l) == 0;
    assert Strip([]) == [];
  }

  lemma {:induction false} EntriesAreDefault(lines: seq<string>)
    ensures forall j :: 0 <= j < |Entries(lines)| ==> Entries(lines)[j] == ("", 100)
  {
    if lines != [] {
      EntriesAreDefault(lines[..|lines| - 1]);
      var l := Strip(lines[|lines| - 1]);
      if l != [] {
        StrippedLineDefaultWeight(l);
      }
    }
  }

  /** `extract_weighted_criteria` returns the four defaults, or one
      `("", 100)` per non-blank line of its block, whatever weights the
      lines state. */
  lemma WeightedCriteriaShape(analysis: string)
    ensures var r := WeightedCriteria(analysis);
      r == DefaultCriteria || (r != [] && forall j :: 0 <= j < |r| ==> r[j] == ("", 100))
  {
    var block := Block(RemoveProblematicChars(analysis), "EVALUATION CRITERIA", "CLIENT PAIN POINTS");
    EntriesAreDefault(Split(block, '\n'));
  }

  /** The weight group itself reads a weight when the text starts with a
      blank: " (40%)" gives 40. */
  lemma WeightGroupReadsPercent()
    ensures WeightGroup(" (40%)") == Some(40)
  {
    var l := " (40%)";
    assert LeadingBlanks(l[1..]) == 0;
    assert LeadingBlanks(l) == 1;
    assert DigitRunEnd(l, 4) == 4;
    assert DigitRunEnd(l, 2) == 4;
    assert l[2..4] == "40";
    assert ParseNat("4") == 4;
  }

  /** With no blank line after the deliverables, the terminator is not
      found and the cut stops one character short: the last item loses its
      last letter. */
  lemma DeliverablesWithoutBlankLine()
    ensures Deliverables("DELIVERABLES\nAB") == ["A"]
  {
    var text := "DELIVERABLES\nAB";
    assert IsSanitized(text);
    SanitizeFixedPoint(text);
    ShortBlock();
    SingleLine();
  }

  lemma ShortBlock()
    ensures Block("DELIVERABLES\nAB", "DELIVERABLES", "\n\n") == "A"
  {
    var text := "DELIVERABLES\nAB";
    assert OccursAt(text, "DELIVERABLES", 0);
    assert text[12..14] == "\nA" && "\nA"[1] != "\n\n"[1];
    assert text[13..15] == "AB" && "AB"[0] != "\n\n"[0];
    assert Find(text, "\n\n", 14) == -1;
    assert Find(text, "\n\n", 12) == -1;
    StripNewlineA();
  }

  lemma StripNewlineA()
    ensures Strip("\nAB"[..2]) == "A"
  {
    var cut := "\nAB"[..2];
    assert cut == "\nA";
    assert LeadingBlanks(cut[1..]) == 0;
    assert LeadingBlanks(cut) == 1;
    assert LStrip(cut) == "A";
    assert TrailingBlanksStart("A") == 1;
  }

  lemma SingleLine()
    ensures Kept("A", AnyLine) == ["A"]
  {
    assert "A"[1..] == [] && "A"[0] != '\n';
    assert Split([], '\n') == [[]];
    assert ['A'] + [] == "A";
    assert Split("A", '\n') == ["A"];
    assert IsStripped("A") by { assert LeadingBlanks("A"[1..]) == 0; }
    assert IsSanitized("A");
    SanitizeFixedPoint("A");
    assert Keeps(AnyLine, "A") && Item("A") == "A";
  }
}
