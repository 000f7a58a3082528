/** `extract_sections_from_rfp` (document_processing.py): the RFP text is
    cleaned, cut into lines, and every line whose stripped form matches one
    of three header patterns opens a new section; all other lines, blank
    ones included, join the open section unstripped. The first section is
    "Overview". A section is stored only when it holds at least one line,
    and a name seen twice keeps its first place and its last body.

    Each header pattern is modelled by the one way the regular expression
    can cut a line into its parts: the parts are runs of character classes
    whose neighbours cannot belong to them, so backtracking never finds a
    second cut. */
module RfpSections {
  import opened Wrappers
  import opened TextOps
  import opened Sanitizer
  import opened OrderedDict

  // ---------------------------------------------------------------------
  // Character classes and runs

  /** `\d` or `.`, the characters of a `(?:\d+\.)` numbering prefix. */
  predicate IsNumberingChar(c: char) { IsDigit(c) || c == '.' }
  /** `[A-Za-z\s]`. */
  predicate IsNameChar(c: char) { IsLetter(c) || IsSpace(c) }
  /** `[A-Z\s]`. */
  predicate IsCapsChar(c: char) { IsUpper(c) || IsSpace(c) }

  predicate AllNameChars(s: string) { forall t :: 0 <= t < |s| ==> IsNameChar(s[t]) }
  predicate AllCapsChars(s: string) { forall t :: 0 <= t < |s| ==> IsCapsChar(s[t]) }

  /** The end of the run of digits and dots from `i`. */
  function NumberingEnd(s: string, i: nat): (r: nat)
    requires i <= |s|
    ensures i <= r <= |s|
    decreases |s| - i
  {
    if i < |s| && IsNumberingChar(s[i]) then NumberingEnd(s, i + 1) else i
  }

  /** The end of the run of digits from `i`. */
  function DigitsEnd(s: string, i: nat): (r: nat)
    requires i <= |s|
    ensures i <= r <= |s|
    decreases |s| - i
  {
    if i < |s| && IsDigit(s[i]) then DigitsEnd(s, i + 1) else i
  }

  // ---------------------------------------------------------------------
  // The three header patterns

  /** `d` is at most `k` groups `\d+\.`. */
  predicate Numbering(d: string, k: nat)
    decreases |d|
  {
    d == [] ||
    (k > 0 &&
     var e := DigitsEnd(d, 0);
     0 < e < |d| && d[e] == '.' && Numbering(d[e + 1..], k - 1))
  }

  /** Where the name of `^(?:\d+\.)?(?:\d+\.)?(?:\d+\.)?\s*` starts: the
      numbering is the whole run of digits and dots and the blanks the
      whole run after it, since the name must begin with a capital. */
  function NameStart(l: string): (r: Option<nat>)
    ensures r.Some? ==> r.value <= |l|
  {
    var d := NumberingEnd(l, 0);
    if Numbering(l[..d], 3) then Some(SpacesEnd(l, d)) else None
  }

  /** `^(?:\d+\.)?(?:\d+\.)?(?:\d+\.)?\s*([A-Z][A-Za-z\s]+)$`: an optional
      numbering of up to three levels, blanks, then a capital followed by
      at least one letter or blank up to the end. */
  function MatchNumbered(l: string): Option<string> {
    match NameStart(l)
    case None => None
    case Some(w) =>
      var n := l[w..];
      if |n| >= 2 && IsUpper(n[0]) && AllNameChars(n[1..]) then Some(Strip(n)) else None
  }

  /** Where the name of `^([A-Z][A-Z\s]+)(?:\:|\.)?\s*$` ends: without the
      stop it runs to the end; with it, up to the last non-blank
      character. */
  function CapsNameEnd(l: string): (r: Option<nat>)
    ensures r.Some? ==> 2 <= r.value <= |l| && IsUpper(l[0]) && AllCapsChars(l[1..r.value])
  {
    if |l| >= 2 && IsUpper(l[0]) && AllCapsChars(l[1..]) then Some(|l|)
    else
      var r := RStrip(l);
      if |r| >= 3 && (r[|r| - 1] == ':' || r[|r| - 1] == '.')
         && IsUpper(r[0]) && AllCapsChars(r[1..|r| - 1])
      then
        assert l[1..|r| - 1] == r[1..|r| - 1];
        Some(|r| - 1)
      else None
  }

  /** `^([A-Z][A-Z\s]+)(?:\:|\.)?\s*$`: a capital and at least one capital
      or blank, then an optional colon or full stop and trailing blanks. */
  function MatchCaps(l: string): Option<string> {
    match CapsNameEnd(l)
    case None => None
    case Some(e) => Some(Strip(l[..e]))
  }

  /** Where the group of `^(?:Section|SECTION)\s+\d+\s*[\:\-\.]` followed
      by `\s*([A-Za-z\s]+)$` starts, before its blanks are skipped. */
  function SectionRestStart(l: string): (r: Option<nat>)
    ensures r.Some? ==> 0 < r.value <= |l|
  {
    if !(StartsWith(l, "Section") || StartsWith(l, "SECTION")) then None
    else
      var a := SpacesEnd(l, 7);
      var b := DigitsEnd(l, a);
      var c := SpacesEnd(l, b);
      if a == 7 || b == a || c == |l| || !(l[c] == ':' || l[c] == '-' || l[c] == '.') then None
      else Some(c + 1)
  }

  /** `^(?:Section|SECTION)\s+\d+\s*[\:\-\.]\s*([A-Za-z\s]+)$`. The
      group's leading blanks go to `\s*` (or, when only blanks remain, the
      last one stays in the group); stripping makes the two the same. */
  function MatchSectionNumber(l: string): Option<string> {
    match SectionRestStart(l)
    case None => None
    case Some(p) =>
      var rest := l[p..];
      if rest != [] && AllNameChars(rest) then Some(Strip(rest)) else None
  }

  function MatchPattern(k: nat, l: string): Option<string>
    requires k < 3
  {
    if k == 0 then MatchNumbered(l) else if k == 1 then MatchCaps(l) else MatchSectionNumber(l)
  }

  /** The patterns from the `k`-th on, the first match winning. */
  function FirstPattern(l: string, k: nat): Option<string>
    decreases 3 - k
  {
    if k >= 3 then None
    else
      var m := MatchPattern(k, l);
      if m.Some? then m else FirstPattern(l, k + 1)
  }

  /** The section a line opens, if it is a header. */
  function HeaderName(line: string): Option<string> {
    FirstPattern(Strip(line), 0)
  }

  /** The inner loop over `section_patterns`. */
  method MatchHeader(line: string) returns (r: Option<string>)
    ensures r == HeaderName(line)
  {
    var l := Strip(line);
    var k := 0;
    while k < 3
      invariant 0 <= k <= 3
      invariant FirstPattern(l, k) == FirstPattern(l, 0)
      decreases 3 - k
    {
      var m := MatchPattern(k, l);
      if m.Some? {
        return m;
      }
      k := k + 1;
    }
    return None;
  }

  // ---------------------------------------------------------------------
  // The line loop

  datatype RfpState = RfpState(sections: Dict<string, string>, current: string, content: seq<string>)

  /** `if current_content: sections[current_section] = '\n'.join(...)`. */
  function Flush(st: RfpState): Dict<string, string> {
    if st.content != [] then Put(st.sections, st.current, Join(st.content, "\n")) else st.sections
  }

  /** A line with the name it opens when it is a header. */
  datatype Line = Line(text: string, header: Option<string>)

  /** Every line with the name it opens, if any. */
  function Tagged(lines: seq<string>): (r: seq<Line>)
    ensures |r| == |lines|
    ensures forall i :: 0 <= i < |lines| ==> r[i] == Line(lines[i], HeaderName(lines[i]))
  {
    if lines == [] then [] else [Line(lines[0], HeaderName(lines[0]))] + Tagged(lines[1..])
  }

  function Step(st: RfpState, line: Line): RfpState {
    match line.header
    case Some(name) => RfpState(Flush(st), name, [])
    case None => st.(content := st.content + [line.text])
  }

  const Start := RfpState([], "Overview", [])

  function Scan(lines: seq<Line>): RfpState {
    if lines == [] then Start
    else Step(Scan(lines[..|lines| - 1]), lines[|lines| - 1])
  }

  function Lines(text: string): seq<string> {
    Split(RemoveProblematicChars(text), '\n')
  }

  function Sections(text: string): Dict<string, string> {
    Flush(Scan(Tagged(Lines(text))))
  }

  method ExtractSectionsFromRfp(text: string) returns (sections: Dict<string, string>)
    ensures sections == Sections(text)
  {
    var lines := Split(RemoveProblematicChars(text), '\n');
    ghost var tagged := Tagged(lines);
    sections := [];
    var current := "Overview";
    var content: seq<string> := [];
    for i := 0 to |lines|
      invariant RfpState(sections, current, content) == Scan(tagged[..i])
    {
      var line := lines[i];
      assert tagged[..i + 1][..i] == tagged[..i];
      var name := MatchHeader(line);
      if name.Some? {
        if content != [] {
          sections := Put(sections, current, Join(content, "\n"));
          content := [];
        }
        current := name.value;
      } else {
        content := content + [line];
      }
    }
    assert tagged[..|lines|] == tagged;
    if content != [] {
      sections := Put(sections, current, Join(content, "\n"));
    }
  }

  // ---------------------------------------------------------------------
  // What a header name is

  /** Where `Strip(s)` starts in `s`. */
  function StripStart(s: string): nat {
    |s| - |LStrip(s)|
  }

  lemma StripIsSlice(s: string)
    ensures StripStart(s) + |Strip(s)| <= |s|
    ensures Strip(s) == s[StripStart(s)..StripStart(s) + |Strip(s)|]
  {
    var l := LStrip(s);
    assert Strip(s) == RStrip(l) == l[..|Strip(s)|];
  }

  lemma StripKeepsNameChars(s: string)
    requires AllNameChars(s)
    ensures AllNameChars(Strip(s))
  {
    StripIsSlice(s);
    var k := StripStart(s);
    assert forall t :: 0 <= t < |Strip(s)| ==> Strip(s)[t] == s[k + t];
  }

  lemma StripNonEmpty(s: string, i: nat)
    requires i < |s| && !IsSpace(s[i])
    ensures Strip(s) != []
  {
    var l := LStrip(s);
    LStripRemovesBlanks(s);
    assert |s| - |l| <= i;
    assert l[i - (|s| - |l|)] == s[i];
    var r := RStrip(l);
    RStripRemovesBlanks(l);
    assert |r| > i - (|s| - |l|);
  }

  /** The first pattern that matches wins. */
  lemma HeaderIsFirst(line: string)
    ensures var l := Strip(line);
      HeaderName(line) ==
        if MatchNumbered(l).Some? then MatchNumbered(l)
        else if MatchCaps(l).Some? then MatchCaps(l)
        else MatchSectionNumber(l)
  {
    var l := Strip(line);
    assert FirstPattern(l, 3).None?;
  }

  predicate GoodName(n: string) {
    n != [] && IsStripped(n) && AllNameChars(n)
  }

  /** A capital followed by letters and blanks is a good name once
      stripped. */
  lemma CapitalisedStrip(n: string)
    requires |n| >= 1 && IsUpper(n[0]) && AllNameChars(n[1..])
    ensures GoodName(Strip(n))
  {
    assert AllNameChars(n) by {
      assert forall t :: 1 <= t < |n| ==> n[t] == n[1..][t - 1];
    }
    StripKeepsNameChars(n);
    StripNonEmpty(n, 0);
  }

  lemma NumberedFacts(l: string)
    requires MatchNumbered(l).Some?
    ensures GoodName(MatchNumbered(l).value)
  {
    var n := l[NameStart(l).value..];
    CapitalisedStrip(n);
  }

  lemma CapsToName(g: string)
    requires AllCapsChars(g)
    ensures AllNameChars(g)
  {
  }

  lemma CapsFacts(l: string)
    requires MatchCaps(l).Some?
    ensures GoodName(MatchCaps(l).value)
  {
    var g := l[..CapsNameEnd(l).value];
    assert g[1..] == l[1..|g|];
    CapsToName(g[1..]);
    CapitalisedStrip(g);
  }

  lemma SectionNumberFacts(l: string)
    requires MatchSectionNumber(l).Some? && IsStripped(l)
    ensures GoodName(MatchSectionNumber(l).value)
  {
    var rest := l[SectionRestStart(l).value..];
    StripKeepsNameChars(rest);
    assert rest[|rest| - 1] == l[|l| - 1];
    StripNonEmpty(rest, |rest| - 1);
  }

  /** A header names its section with letters and blanks only, never an
      empty or padded name. */
  lemma HeaderNameFacts(line: string)
    requires HeaderName(line).Some?
    ensures GoodName(HeaderName(line).value)
  {
    var l := Strip(line);
    HeaderIsFirst(line);
    if MatchNumbered(l).Some? {
      NumberedFacts(l);
    } else if MatchCaps(l).Some? {
      CapsFacts(l);
    } else {
      SectionNumberFacts(l);
    }
  }

  // ---------------------------------------------------------------------
  // Which lines are headers

  /** A capitalised run of letters and blanks, as `MatchNumbered` names it. */
  predicate IsCapitalisedName(n: string) {
    |n| >= 2 && IsUpper(n[0]) && AllNameChars(n[1..]) && IsStripped(n)
  }

  /** `MatchNumbered` on a line that starts with the name itself. */
  lemma NumberedWithoutNumber(l: string)
    requires |l| >= 1 && IsUpper(l[0])
    ensures MatchNumbered(l) ==
      if |l| >= 2 && AllNameChars(l[1..]) then Some(Strip(l)) else None
  {
    assert NumberingEnd(l, 0) == 0;
    assert l[..0] == [];
    assert SpacesEnd(l, 0) == 0;
    assert l[0..] == l;
  }

  /** A capitalised line of letters and blanks ("Scope of Work") is a
      header naming itself. */
  lemma CapitalisedHeader(n: string)
    requires IsCapitalisedName(n)
    ensures HeaderName(n) == Some(n)
  {
    StripStripped(n);
    NumberedWithoutNumber(n);
    HeaderIsFirst(n);
  }

  lemma {:induction false} NumberingEndExact(s: string, i: nat, e: nat)
    requires i <= e <= |s|
    requires forall t :: i <= t < e ==> IsNumberingChar(s[t])
    requires e == |s| || !IsNumberingChar(s[e])
    ensures NumberingEnd(s, i) == e
    decreases e - i
  {
    if i < e {
      NumberingEndExact(s, i + 1, e);
    }
  }

  lemma {:induction false} DigitsEndExact(s: string, i: nat, e: nat)
    requires i <= e <= |s|
    requires forall t :: i <= t < e ==> IsDigit(s[t])
    requires e == |s| || !IsDigit(s[e])
    ensures DigitsEnd(s, i) == e
    decreases e - i
  {
    if i < e {
      DigitsEndExact(s, i + 1, e);
    }
  }

  /** One level of numbering, `<digits>.`. */
  lemma OneLevel(ds: string)
    requires ds != [] && AllDigits(ds)
    ensures Numbering(ds + ".", 3)
    ensures forall t :: 0 <= t < |ds + "."| ==> IsNumberingChar((ds + ".")[t])
  {
    var d := ds + ".";
    DigitsEndExact(d, 0, |ds|);
    assert d[|ds| + 1..] == [];
  }

  /** The name of a numbered line starts after the numbering and its
      blanks. */
  lemma NameStartAfter(d: string, n: string)
    requires Numbering(d, 3) && forall t :: 0 <= t < |d| ==> IsNumberingChar(d[t])
    requires n != [] && IsUpper(n[0])
    ensures NameStart(d + " " + n) == Some(|d| + 1)
  {
    var l := d + " " + n;
    NumberingEndExact(l, 0, |d|);
    assert l[..|d|] == d;
    assert l[|d| + 1] == n[0];
    assert SpacesEnd(l, |d| + 1) == |d| + 1;
    assert SpacesEnd(l, |d|) == |d| + 1;
  }

  /** A numbered heading ("3. Scope of Work") names the text after the
      number. */
  lemma NumberedHeader(k: nat, n: string)
    requires IsCapitalisedName(n)
    ensures HeaderName(NatToString(k) + ". " + n) == Some(n)
  {
    NumberedLine(NatToString(k), n);
    StrippedHeader(NatToString(k) + ". " + n);
  }

  /** A numbered line is stripped, and the numbered pattern captures its
      name. */
  lemma NumberedLine(ds: string, n: string)
    requires ds != [] && AllDigits(ds) && IsCapitalisedName(n)
    ensures IsStripped(ds + ". " + n) && MatchNumbered(ds + ". " + n) == Some(n)
  {
    var d := ds + ".";
    var l := d + " " + n;
    assert l == ds + ". " + n;
    OneLevel(ds);
    NameStartAfter(d, n);
    assert l[|d| + 1..] == n;
    NumberedMatch(l, |d| + 1, n);
    StrippedLine(ds, ". ", n);
  }

  /** A line that starts with a digit and ends with a letter is stripped. */
  lemma StrippedLine(ds: string, sep: string, n: string)
    requires ds != [] && IsDigit(ds[0]) && n != [] && IsLetter(n[|n| - 1])
    ensures IsStripped(ds + sep + n)
  {
    var l := ds + sep + n;
    assert l[0] == ds[0] && l[|l| - 1] == n[|n| - 1];
  }

  /** The numbered pattern captures a capitalised name where it starts. */
  lemma NumberedMatch(l: string, w: nat, n: string)
    requires IsCapitalisedName(n) && NameStart(l) == Some(w) && l[w..] == n
    ensures MatchNumbered(l) == Some(n)
  {
    StripStripped(n);
  }

  /** The first pattern fails on a line that starts with a capital when a
      later character is neither a letter nor a blank. */
  lemma NumberedFailsAt(l: string, t: nat)
    requires |l| >= 1 && IsUpper(l[0]) && 1 <= t < |l| && !IsNameChar(l[t])
    ensures MatchNumbered(l).None?
  {
    NumberedWithoutNumber(l);
    assert l[1..][t - 1] == l[t];
  }

  /** The second pattern fails when the second character is neither a
      capital nor a blank. */
  lemma CapsFailsAt1(l: string)
    requires |l| >= 2 && !IsCapsChar(l[1])
    ensures MatchCaps(l).None?
  {
    assert l[1..][0] == l[1];
    var r := RStrip(l);
    if |r| >= 3 {
      assert r[1..|r| - 1][0] == r[1] == l[1];
    }
  }

  /** An all-capitals title closed by a colon ("SCOPE OF WORK:") names the
      title. */
  lemma CapsHeader(n: string)
    requires |n| >= 2 && IsUpper(n[0]) && AllCapsChars(n[1..]) && IsStripped(n)
    ensures HeaderName(n + ":") == Some(n)
  {
    var l := n + ":";
    assert l[0] == n[0] && l[|l| - 1] == ':';
    NumberedFailsAt(l, |l| - 1);
    assert RStrip(l) == l;
    assert l[1..|l| - 1] == n[1..];
    assert !AllCapsChars(l[1..]) by {
      assert l[1..][|l| - 2] == ':';
    }
    assert CapsNameEnd(l) == Some(|l| - 1);
    assert l[..|l| - 1] == n;
    StripStripped(n);
    assert IsStripped(l);
    StripStripped(l);
    HeaderIsFirst(l);
  }

  /** Where the group of `Section <digits>:` starts. */
  lemma SectionRestAfter(ds: string, rest: string)
    requires ds != [] && AllDigits(ds)
    ensures SectionRestStart("Section " + ds + ":" + rest) == Some(9 + |ds|)
  {
    var l := "Section " + ds + ":" + rest;
    var b := 8 + |ds|;
    assert l[..7] == "Section";
    assert l[7] == ' ' && l[8] == ds[0];
    assert SpacesEnd(l, 7) == 8;
    assert l[8..b] == ds;
    assert l[b] == ':';
    DigitsEndExact(l, 8, b);
    assert SpacesEnd(l, b) == b;
  }

  lemma SectionMatch(ds: string, n: string)
    requires ds != [] && AllDigits(ds)
    requires n != [] && AllNameChars(n) && IsStripped(n)
    ensures MatchSectionNumber("Section " + ds + ": " + n) == Some(n)
  {
    var l := "Section " + ds + ":" + (" " + n);
    assert l == "Section " + ds + ": " + n;
    SectionRestAfter(ds, " " + n);
    assert l[9 + |ds|..] == " " + n;
    assert AllNameChars(" " + n);
    StripAfterBlank(n);
  }

  /** Stripping a blank and a stripped text gives the text. */
  lemma StripAfterBlank(n: string)
    requires n != [] && IsStripped(n)
    ensures Strip(" " + n) == n
  {
    assert (" " + n)[1..] == n;
    assert LeadingBlanks(n) == 0;
    assert LeadingBlanks(" " + n) == 1;
    StripStripped(n);
  }

  /** A numbered section heading ("Section 4: Timeline") names the text
      after the separator. */
  lemma SectionHeader(k: nat, n: string)
    requires n != [] && AllNameChars(n) && IsStripped(n)
    ensures HeaderName("Section " + NatToString(k) + ": " + n) == Some(n)
  {
    var ds := NatToString(k);
    var l := "Section " + ds + ": " + n;
    SectionLineShape(ds, n);
    NumberedFailsAt(l, 8);
    CapsFailsAt1(l);
    SectionMatch(ds, n);
    StrippedHeader(l);
  }

  lemma SectionLineShape(ds: string, n: string)
    requires ds != [] && AllDigits(ds) && n != [] && IsStripped(n)
    ensures var l := "Section " + ds + ": " + n;
      |l| > 9 && l[0] == 'S' && l[1] == 'e' && l[8] == ds[0] && IsStripped(l)
  {
    var l := "Section " + ds + ": " + n;
    assert l[|l| - 1] == n[|n| - 1];
  }

  /** The header of a line that needs no stripping is the first pattern
      that matches it. */
  lemma StrippedHeader(l: string)
    requires IsStripped(l)
    ensures HeaderName(l) ==
      if MatchNumbered(l).Some? then MatchNumbered(l)
      else if MatchCaps(l).Some? then MatchCaps(l)
      else MatchSectionNumber(l)
  {
    StripStripped(l);
    HeaderIsFirst(l);
  }

  /** A line that starts, once stripped, with a lower-case letter is never
      a header. */
  lemma LowerCaseLineIsBody(line: string)
    requires Strip(line) != [] && IsLowerLetter(Strip(line)[0])
    ensures HeaderName(line).None?
  {
    var l := Strip(line);
    assert NumberingEnd(l, 0) == 0;
    assert l[..0] == [];
    assert SpacesEnd(l, 0) == 0;
    assert l[0..] == l;
    assert MatchNumbered(l).None?;
    if |l| >= 3 {
      assert RStrip(l) == l;
    }
    assert MatchCaps(l).None?;
    assert !StartsWith(l, "Section") by {
      if |l| >= 7 {
        assert l[..7][0] == l[0];
      }
    }
    assert !StartsWith(l, "SECTION") by {
      if |l| >= 7 {
        assert l[..7][0] == l[0];
      }
    }
    HeaderIsFirst(line);
  }

  /** A blank line is never a header: it joins the open section. */
  lemma BlankLineIsBody(line: string)
    requires forall t :: 0 <= t < |line| ==> IsSpace(line[t])
    ensures HeaderName(line).None?
  {
    var l := Strip(line);
    StripIsSlice(line);
    assert l == [];
    assert Numbering(l, 3);
    assert MatchNumbered(l).None?;
    HeaderIsFirst(line);
  }

  // ---------------------------------------------------------------------
  // Properties of the sections

  lemma {:induction false} ScanDistinct(lines: seq<Line>)
    ensures DistinctKeys(Scan(lines).sections)
  {
    if lines != [] {
      var st := Scan(lines[..|lines| - 1]);
      ScanDistinct(lines[..|lines| - 1]);
      if st.content != [] {
        PutFacts(st.sections, st.current, Join(st.content, "\n"));
      }
    }
  }

  /** No section name occurs twice in the result. */
  lemma SectionsDistinct(text: string)
    ensures DistinctKeys(Sections(text))
  {
    var st := Scan(Tagged(Lines(text)));
    ScanDistinct(Tagged(Lines(text)));
    if st.content != [] {
      PutFacts(st.sections, st.current, Join(st.content, "\n"));
    }
  }

  /** `name` is "Overview" or the name a header among `lines` opens. */
  predicate NamedBy(name: string, lines: seq<Line>) {
    name == "Overview" || exists i :: 0 <= i < |lines| && lines[i].header == Some(name)
  }

  predicate AllNamedBy(st: RfpState, lines: seq<Line>) {
    NamedBy(st.current, lines) && forall k :: k in Keys(st.sections) ==> NamedBy(k, lines)
  }

  lemma NamedByGrows(name: string, lines: seq<Line>, line: Line)
    requires NamedBy(name, lines)
    ensures NamedBy(name, lines + [line])
  {
    if name != "Overview" {
      var i :| 0 <= i < |lines| && lines[i].header == Some(name);
      assert (lines + [line])[i] == lines[i];
    }
  }

  lemma FlushNamed(st: RfpState, lines: seq<Line>)
    requires AllNamedBy(st, lines)
    ensures forall k :: k in Keys(Flush(st)) ==> NamedBy(k, lines)
  {
    if st.content != [] {
      PutFacts(st.sections, st.current, Join(st.content, "\n"));
    }
  }

  lemma {:induction false} ScanNamed(lines: seq<Line>)
    ensures AllNamedBy(Scan(lines), lines)
  {
    if lines != [] {
      var init := lines[..|lines| - 1];
      var line := lines[|lines| - 1];
      assert lines == init + [line];
      var st := Scan(init);
      ScanNamed(init);
      FlushNamed(st, init);
      forall k | k in Keys(Flush(st)) ensures NamedBy(k, lines) {
        NamedByGrows(k, init, line);
      }
      NamedByGrows(st.current, init, line);
    }
  }

  /** Every section is "Overview" or is named by a header line of the
      cleaned text. */
  lemma SectionNamesFromHeaders(text: string)
    ensures forall k :: k in Keys(Sections(text)) ==>
      k == "Overview" || exists i :: 0 <= i < |Lines(text)| && HeaderName(Lines(text)[i]) == Some(k)
  {
    var tagged := Tagged(Lines(text));
    ScanNamed(tagged);
    FlushNamed(Scan(tagged), tagged);
  }

  function Texts(lines: seq<Line>): (r: seq<string>)
    ensures |r| == |lines| && forall i :: 0 <= i < |lines| ==> r[i] == lines[i].text
  {
    seq(|lines|, i requires 0 <= i < |lines| => lines[i].text)
  }

  /** Lines that are not headers only join the open section. */
  lemma {:induction false} ScanBody(prefix: seq<Line>, body: seq<Line>)
    requires forall i :: 0 <= i < |body| ==> body[i].header.None?
    ensures Scan(prefix + body) == Scan(prefix).(content := Scan(prefix).content + Texts(body))
  {
    if body != [] {
      var n := |body| - 1;
      assert (prefix + body)[..|prefix + body| - 1] == prefix + body[..n];
      assert (prefix + body)[|prefix + body| - 1] == body[n];
      ScanBody(prefix, body[..n]);
      assert Texts(body[..n]) + [body[n].text] == Texts(body);
    } else {
      assert prefix + body == prefix;
      assert Texts(body) == [];
    }
  }

  predicate NoHeaderLine(text: string) {
    forall i :: 0 <= i < |Split(text, '\n')| ==> HeaderName(Split(text, '\n')[i]).None?
  }

  /** The lines of header-free text only join the section open after
      `prefix`. */
  lemma BodyLines(prefix: seq<Line>, text: string)
    requires NoHeaderLine(text)
    ensures Scan(prefix + Tagged(Split(text, '\n')))
      == Scan(prefix).(content := Scan(prefix).content + Split(text, '\n'))
  {
    var lines := Split(text, '\n');
    var tagged := Tagged(lines);
    assert forall i :: 0 <= i < |tagged| ==> tagged[i].header.None?;
    ScanBody(prefix, tagged);
    assert Texts(tagged) == lines;
  }

  lemma PutFresh(k: string, v: string)
    ensures Put([], k, v) == [(k, v)]
  {
    var empty: Dict<string, string> := [];
    assert IndexOf(empty, k).None?;
  }

  /** From the start, header-free lines all go to "Overview". */
  lemma {:induction false} ScanNoHeader(body: seq<Line>)
    requires forall i :: 0 <= i < |body| ==> body[i].header.None?
    ensures Scan(body) == Start.(content := Texts(body))
  {
    if body != [] {
      var n := |body| - 1;
      ScanNoHeader(body[..n]);
      assert Texts(body[..n]) + [body[n].text] == Texts(body);
    }
  }

  lemma NoHeadersScan(text: string)
    requires NoHeaderLine(RemoveProblematicChars(text))
    ensures Scan(Tagged(Lines(text))) == RfpState([], "Overview", Lines(text))
  {
    var lines := Lines(text);
    var tagged := Tagged(lines);
    assert forall i :: 0 <= i < |tagged| ==> tagged[i].header.None?;
    ScanNoHeader(tagged);
    assert Texts(tagged) == lines;
  }

  /** A cleaned text without header lines is one "Overview" section holding
      all of it (the empty text included). */
  lemma NoHeaders(text: string)
    requires NoHeaderLine(RemoveProblematicChars(text))
    ensures Sections(text) == [("Overview", RemoveProblematicChars(text))]
  {
    var clean := RemoveProblematicChars(text);
    NoHeadersScan(text);
    JoinSplit(clean, '\n');
    PutFresh("Overview", clean);
  }

  /** The lines of a header line followed by a body. */
  lemma HeaderLines(name: string, body: string)
    requires '\n' !in name && IsSanitized(name) && IsSanitized(body)
    ensures Lines(name + "\n" + body) == [name] + Split(body, '\n')
  {
    var text := name + "\n" + body;
    assert IsSanitized(text) by {
      forall i | 0 <= i < |text| ensures Allowed(text[i]) {
        if i < |name| {
          assert text[i] == name[i];
        } else if i > |name| {
          assert text[i] == body[i - |name| - 1];
        }
      }
    }
    SanitizeFixedPoint(text);
    SplitAppend(name, body, '\n');
    SplitNoSep(name, '\n');
    assert text == name + ['\n'] + body;
  }

  lemma TaggedShift(first: string, lines: seq<string>)
    ensures Tagged([first] + lines) == [Line(first, HeaderName(first))] + Tagged(lines)
  {
    assert ([first] + lines)[1..] == lines;
  }

  /** A header line followed by header-free lines is one section under the
      header's name: the "Overview" before it is empty and not stored. */
  lemma HeaderThenBody(name: string, body: string)
    requires IsCapitalisedName(name) && '\n' !in name && IsSanitized(name) && IsSanitized(body)
    requires NoHeaderLine(body)
    ensures Sections(name + "\n" + body) == [(name, body)]
  {
    var lines := Split(body, '\n');
    HeaderLines(name, body);
    TaggedShift(name, lines);
    CapitalisedHeader(name);
    var head := [Line(name, Some(name))];
    var tagged := Tagged(Lines(name + "\n" + body));
    assert tagged == head + Tagged(lines);
    var none: seq<Line> := [];
    assert head[..0] == none;
    assert Scan(head) == RfpState([], name, []);
    BodyLines(head, body);
    var st := Scan(tagged);
    assert st == RfpState([], name, lines);
    JoinSplit(body, '\n');
    PutFresh(name, body);
    assert Flush(st) == Put([], name, body);
  }
}
