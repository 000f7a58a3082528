/** The text rules of the knowledge base (knowledge_base.py): query
    expansion with domain synonyms, splitting a document into
    header-delimited sections, and the metadata read from a file name. */
module KbText {
  import opened Wrappers
  import opened TextOps
  import opened Sanitizer
  import opened OrderedDict

  // ---------------------------------------------------------------------
  // expand_query

  /** The domain table, in the dict's insertion order: a key and its
      synonyms. */
  const DomainTerms: seq<(string, seq<string>)> := [
    ("proposal", ["offer", "bid", "solution"]),
    ("requirements", ["needs", "specifications", "criteria"]),
    ("implementation", ["deployment", "execution", "rollout"]),
    ("support", ["maintenance", "service", "assistance"])
  ]

  /** What one table entry adds for a lower-cased word: the synonyms when
      the word is the key, the key when the word is a synonym. */
  function EntryExpansion(lw: string, entry: (string, seq<string>)): seq<string> {
    if lw == entry.0 then entry.1
    else if lw in entry.1 then [entry.0]
    else []
  }

  /** The additions of the inner loop over the first entries of `table`. */
  function ExpansionFrom(lw: string, table: seq<(string, seq<string>)>): seq<string> {
    if table == [] then []
    else ExpansionFrom(lw, table[..|table| - 1]) + EntryExpansion(lw, table[|table| - 1])
  }

  function Expansion(w: string): seq<string> {
    ExpansionFrom(Lower(w), DomainTerms)
  }

  /** Each word followed by its expansion, in the order of the words. */
  function ExpandedWords(ws: seq<string>): seq<string> {
    if ws == [] then []
    else ExpandedWords(ws[..|ws| - 1]) + [ws[|ws| - 1]] + Expansion(ws[|ws| - 1])
  }

  method ExpandQuery(query: string) returns (r: string)
    ensures r == Join(ExpandedWords(Words(query)), " ")
  {
    var words := Words(query);
    var expanded: seq<string> := [];
    for i := 0 to |words|
      invariant expanded == ExpandedWords(words[..i])
    {
      var word := words[i];
      var additions := ScanTable(Lower(word), DomainTerms);
      assert words[..i + 1][..i] == words[..i];
      expanded := expanded + [word] + additions;
    }
    assert words[..|words|] == words;
    r := Join(expanded, " ");
  }

  /** The inner loop over the domain table for lower-cased word `lw`. */
  method ScanTable(lw: string, table: seq<(string, seq<string>)>) returns (additions: seq<string>)
    ensures additions == ExpansionFrom(lw, table)
  {
    additions := [];
    for j := 0 to |table|
      invariant additions == ExpansionFrom(lw, table[..j])
    {
      var (key, values) := table[j];
      assert table[..j + 1][..j] == table[..j];
      if lw == key {
        additions := additions + values;
      } else if lw in values {
        additions := additions + [key];
      }
    }
    assert table[..|table|] == table;
  }

  /** A word occurs in at most one entry of the domain table, as its key
      or as one of its synonyms. */
  predicate OnlyIn(lw: string, table: seq<(string, seq<string>)>, u: nat) {
    forall t :: 0 <= t < |table| && t != u ==> lw != table[t].0 && lw !in table[t].1
  }

  lemma {:induction false} ExpansionSingle(lw: string, table: seq<(string, seq<string>)>, u: nat)
    requires u < |table| && OnlyIn(lw, table, u)
    ensures ExpansionFrom(lw, table) == EntryExpansion(lw, table[u])
  {
    var n := |table| - 1;
    if u == n {
      ExpansionAbsent(lw, table[..n]);
    } else {
      ExpansionSingle(lw, table[..n], u);
    }
  }

  lemma {:induction false} ExpansionAbsent(lw: string, table: seq<(string, seq<string>)>)
    requires forall t :: 0 <= t < |table| ==> lw != table[t].0 && lw !in table[t].1
    ensures ExpansionFrom(lw, table) == []
  {
    if table != [] {
      ExpansionAbsent(lw, table[..|table| - 1]);
    }
  }

  /** The keys and synonyms of the table are all different words. */
  lemma DomainTermsDisjoint(t: nat, u: nat)
    requires t < |DomainTerms| && u < |DomainTerms| && t != u
    ensures DomainTerms[t].0 != DomainTerms[u].0
    ensures DomainTerms[t].0 !in DomainTerms[u].1
    ensures forall v :: v in DomainTerms[t].1 ==> v != DomainTerms[u].0 && v !in DomainTerms[u].1
    ensures DomainTerms[t].0 !in DomainTerms[t].1
  {
  }

  /** A key, in any letter case, is followed by its three synonyms. */
  lemma ExpandKey(w: string, t: nat)
    requires t < |DomainTerms| && Lower(w) == DomainTerms[t].0
    ensures Expansion(w) == DomainTerms[t].1
  {
    forall u | 0 <= u < |DomainTerms| && u != t
      ensures Lower(w) != DomainTerms[u].0 && Lower(w) !in DomainTerms[u].1
    {
      DomainTermsDisjoint(t, u);
    }
    ExpansionSingle(Lower(w), DomainTerms, t);
  }

  /** A synonym, in any letter case, is followed by its key. */
  lemma ExpandSynonym(w: string, t: nat)
    requires t < |DomainTerms| && Lower(w) in DomainTerms[t].1
    ensures Expansion(w) == [DomainTerms[t].0]
  {
    forall u | 0 <= u < |DomainTerms| && u != t
      ensures Lower(w) != DomainTerms[u].0 && Lower(w) !in DomainTerms[u].1
    {
      DomainTermsDisjoint(t, u);
    }
    DomainTermsDisjoint(t, if t == 0 then 1 else 0);
    ExpansionSingle(Lower(w), DomainTerms, t);
  }

  /** Any other word is kept alone. */
  lemma ExpandOther(w: string)
    requires forall t :: 0 <= t < |DomainTerms| ==> Lower(w) != DomainTerms[t].0 && Lower(w) !in DomainTerms[t].1
    ensures Expansion(w) == []
  {
    ExpansionAbsent(Lower(w), DomainTerms);
  }

  lemma {:induction false} ExpandedWordsWellFormed(ws: seq<string>)
    requires forall i :: 0 <= i < |ws| ==> ws[i] != [] && NoSpace(ws[i])
    ensures forall i :: 0 <= i < |ExpandedWords(ws)| ==> ExpandedWords(ws)[i] != [] && NoSpace(ExpandedWords(ws)[i])
  {
    if ws != [] {
      ExpandedWordsWellFormed(ws[..|ws| - 1]);
      DomainTermsAreWords();
      ExpansionWellFormed(Lower(ws[|ws| - 1]), DomainTerms);
    }
  }

  /** Every key and synonym of a table is a single non-empty word. */
  predicate TermsAreWords(table: seq<(string, seq<string>)>) {
    forall t :: 0 <= t < |table| ==>
      && table[t].0 != [] && NoSpace(table[t].0)
      && forall v :: 0 <= v < |table[t].1| ==> table[t].1[v] != [] && NoSpace(table[t].1[v])
  }

  lemma DomainTermsAreWords()
    ensures TermsAreWords(DomainTerms)
  {
    forall t | 0 <= t < |DomainTerms|
      ensures DomainTerms[t].0 != [] && NoSpace(DomainTerms[t].0)
      ensures forall v :: 0 <= v < |DomainTerms[t].1| ==> DomainTerms[t].1[v] != [] && NoSpace(DomainTerms[t].1[v])
    {
      LowerWordNoSpace(DomainTerms[t].0);
      forall v | 0 <= v < |DomainTerms[t].1| ensures DomainTerms[t].1[v] != [] && NoSpace(DomainTerms[t].1[v]) {
        LowerWordNoSpace(DomainTerms[t].1[v]);
      }
    }
  }

  lemma LowerWordNoSpace(s: string)
    requires s != [] && forall i :: 0 <= i < |s| ==> 'a' <= s[i] <= 'z'
    ensures NoSpace(s)
  {
  }

  lemma {:induction false} ExpansionWellFormed(lw: string, table: seq<(string, seq<string>)>)
    requires TermsAreWords(table)
    ensures forall i :: 0 <= i < |ExpansionFrom(lw, table)| ==>
      ExpansionFrom(lw, table)[i] != [] && NoSpace(ExpansionFrom(lw, table)[i])
  {
    if table != [] {
      var n := |table| - 1;
      ExpansionWellFormed(lw, table[..n]);
      assert table[n] == table[|table| - 1];
    }
  }

  /** The expanded query splits back into exactly the expanded words: the
      words of the query in order, each followed by its expansion. */
  lemma ExpandQueryWords(query: string)
    ensures Words(Join(ExpandedWords(Words(query)), " ")) == ExpandedWords(Words(query))
  {
    ExpandedWordsWellFormed(Words(query));
    WordsJoin(ExpandedWords(Words(query)));
  }

  // ---------------------------------------------------------------------
  // _split_into_sections

  datatype SplitState = SplitState(sections: Dict<string, string>, current: string, pending: seq<string>)

  predicate IsHeader(line: string) {
    StartsWith(line, "# ") || StartsWith(line, "## ")
  }

  /** Close the open section: it is stored only when it has collected at
      least one line. */
  function Flush(st: SplitState): Dict<string, string> {
    if st.pending != [] then Put(st.sections, RemoveProblematicChars(st.current), Join(st.pending, "\n"))
    else st.sections
  }

  function Step(st: SplitState, line: string): SplitState {
    if StartsWith(line, "# ") then SplitState(Flush(st), Strip(line[2..]), [])
    else if StartsWith(line, "## ") then SplitState(Flush(st), Strip(line[3..]), [])
    else st.(pending := st.pending + [line])
  }

  function Scan(lines: seq<string>): SplitState {
    if lines == [] then SplitState([], "Introduction", [])
    else Step(Scan(lines[..|lines| - 1]), lines[|lines| - 1])
  }

  function Sections(content: string): Dict<string, string> {
    Flush(Scan(Split(content, '\n')))
  }

  method SplitIntoSections(content: string) returns (sections: Dict<string, string>)
    ensures sections == Sections(content)
  {
    var lines := Split(content, '\n');
    sections := [];
    var current := "Introduction";
    var pending: seq<string> := [];
    for i := 0 to |lines|
      invariant SplitState(sections, current, pending) == Scan(lines[..i])
    {
      var line := lines[i];
      assert lines[..i + 1][..i] == lines[..i];
      assert Scan(lines[..i + 1]) == Step(Scan(lines[..i]), line);
      if StartsWith(line, "# ") {
        sections := CloseSection(sections, current, pending);
        pending := [];
        current := Strip(line[2..]);
      } else if StartsWith(line, "## ") {
        sections := CloseSection(sections, current, pending);
        pending := [];
        current := Strip(line[3..]);
      } else {
        pending := pending + [line];
      }
    }
    assert lines[..|lines|] == lines;
    sections := CloseSection(sections, current, pending);
  }

  /** `if current_content: sections[...] = '\n'.join(current_content)`. */
  method CloseSection(sections: Dict<string, string>, current: string, pending: seq<string>)
    returns (r: Dict<string, string>)
    ensures r == Flush(SplitState(sections, current, pending))
  {
    r := sections;
    if pending != [] {
      r := Put(sections, RemoveProblematicChars(current), Join(pending, "\n"));
    }
  }

  predicate SanitizedKeys(d: Dict<string, string>) {
    forall i :: 0 <= i < |d| ==> IsSanitized(d[i].0)
  }

  lemma {:induction false} ScanWellFormed(lines: seq<string>)
    ensures DistinctKeys(Scan(lines).sections) && SanitizedKeys(Scan(lines).sections)
  {
    if lines != [] {
      ScanWellFormed(lines[..|lines| - 1]);
      FlushWellFormed(Scan(lines[..|lines| - 1]));
    }
  }

  lemma FlushWellFormed(st: SplitState)
    requires DistinctKeys(st.sections) && SanitizedKeys(st.sections)
    ensures DistinctKeys(Flush(st)) && SanitizedKeys(Flush(st))
  {
    if st.pending != [] {
      var k := RemoveProblematicChars(st.current);
      var r := Flush(st);
      forall i | 0 <= i < |r| ensures IsSanitized(r[i].0) {
        assert Keys(r)[i] == r[i].0;
        if k !in Keys(st.sections) {
          assert Keys(r) == Keys(st.sections) + [k];
        }
      }
    }
  }

  /** Every section name is sanitized and no name occurs twice: a repeated
      header keeps its first position and its last body. */
  lemma SectionsWellFormed(content: string)
    ensures DistinctKeys(Sections(content)) && SanitizedKeys(Sections(content))
  {
    ScanWellFormed(Split(content, '\n'));
    FlushWellFormed(Scan(Split(content, '\n')));
  }

  /** Lines that are not headers only join the open section. */
  lemma {:induction false} ScanBody(prefix: seq<string>, body: seq<string>)
    requires forall i :: 0 <= i < |body| ==> !IsHeader(body[i])
    ensures Scan(prefix + body) == Scan(prefix).(pending := Scan(prefix).pending + body)
  {
    if body != [] {
      var n := |body| - 1;
      assert (prefix + body)[..|prefix + body| - 1] == prefix + body[..n];
      assert (prefix + body)[|prefix + body| - 1] == body[n];
      ScanBody(prefix, body[..n]);
      var st := Scan(prefix + body[..n]);
      assert Scan(prefix + body) == Step(st, body[n]);
      assert Step(st, body[n]) == st.(pending := st.pending + [body[n]]);
      assert body[..n] + [body[n]] == body;
      assert Scan(prefix).pending + body[..n] + [body[n]] == Scan(prefix).pending + body;
    } else {
      assert prefix + body == prefix;
    }
  }

  predicate NoHeaderLine(text: string) {
    forall i :: 0 <= i < |Split(text, '\n')| ==> !IsHeader(Split(text, '\n')[i])
  }

  /** A text without header lines is one section named "Introduction"
      holding the whole text (the empty text included). */
  lemma NoHeaders(content: string)
    requires NoHeaderLine(content)
    ensures Sections(content) == [("Introduction", content)]
  {
    var lines := Split(content, '\n');
    ScanBody([], lines);
    assert [] + lines == lines;
    JoinSplit(content, '\n');
    IntroductionIsClean();
  }

  lemma IntroductionIsClean()
    ensures RemoveProblematicChars("Introduction") == "Introduction"
  {
    assert IsSanitized("Introduction");
    SanitizeFixedPoint("Introduction");
  }

  /** A header line followed by header-free lines is one section under the
      header's stripped, sanitized name, whatever it overwrites. */
  lemma HeaderThenBody(name: string, body: string)
    requires '\n' !in name && NoHeaderLine(body)
    requires IsSanitized(name) && IsStripped(name)
    ensures Sections("# " + name + "\n" + body) == [(name, body)]
  {
    HeaderLines(name, body);
    HeaderScan(name, body);
    SingleSection(name, body);
  }

  lemma HeaderScan(name: string, body: string)
    requires '\n' !in name && NoHeaderLine(body) && IsStripped(name)
    ensures Scan(["# " + name] + Split(body, '\n')) == SplitState([], name, Split(body, '\n'))
  {
    var lines := Split(body, '\n');
    var none: seq<string> := [];
    HeaderOpens(name);
    ScanBody(["# " + name], lines);
    assert none + lines == lines;
  }


  lemma SingleSection(name: string, body: string)
    requires IsSanitized(name)
    ensures Flush(SplitState([], name, Split(body, '\n'))) == [(name, body)]
  {
    JoinSplit(body, '\n');
    SanitizeFixedPoint(name);
    var r := Put([], name, body);
    var empty: Dict<string, string> := [];
    assert IndexOf(empty, name).None?;
  }

  lemma HeaderLines(name: string, body: string)
    requires '\n' !in name
    ensures Split("# " + name + "\n" + body, '\n') == ["# " + name] + Split(body, '\n')
  {
    var head := "# " + name;
    assert '\n' !in head;
    SplitAppend(head, body, '\n');
    assert head + ['\n'] + body == "# " + name + "\n" + body;
    SplitNoSep(head, '\n');
  }

  lemma HeaderOpens(name: string)
    requires IsStripped(name)
    ensures Scan(["# " + name]) == SplitState([], name, [])
  {
    var head := "# " + name;
    var none: seq<string> := [];
    assert [head][..0] == none;
    assert StartsWith(head, "# ");
    assert head[2..] == name;
    StripStripped(name);
  }


  // ---------------------------------------------------------------------
  // Metadata read from a file name

  datatype Metadata = Metadata(industry: string, success: bool, size: string, differentiators: seq<string>)

  const DefaultMetadata := Metadata("general", true, "medium", ["quality", "experience"])

  /** `name.split(tag)[1].split("_")[0]` when `tag` occurs: the text after
      the first occurrence of `tag` up to the next underscore. The piece
      between the first and a second occurrence of a tag that starts with
      an underscore already ends at that underscore, so only the first
      occurrence matters. */
  function TagValue(name: string, tag: string): (r: Option<string>)
    ensures r.Some? <==> Contains(name, tag)
    ensures r.Some? ==> '_' !in r.value
  {
    var i := Find(name, tag, 0);
    if i < 0 then None else Some(Split(name[i + |tag|..], '_')[0])
  }

  /** The metadata of every section of the file `name` (already
      sanitized); absent tags keep their defaults. */
  function FileMetadata(name: string): Metadata {
    var success := TagValue(name, "_success_");
    var industry := TagValue(name, "_industry_");
    var size := TagValue(name, "_size_");
    Metadata(
      if industry.Some? then RemoveProblematicChars(industry.value) else "general",
      if success.Some? then success.value == "True" else true,
      if size.Some? then RemoveProblematicChars(size.value) else "medium",
      ["quality", "experience"])
  }

  /** Absent tags keep their defaults, every file has the same two
      differentiators, and the values read are sanitized. */
  lemma FileMetadataDefaults(name: string)
    ensures FileMetadata(name).differentiators == ["quality", "experience"]
    ensures !Contains(name, "_success_") ==> FileMetadata(name).success
    ensures !Contains(name, "_industry_") ==> FileMetadata(name).industry == "general"
    ensures !Contains(name, "_size_") ==> FileMetadata(name).size == "medium"
    ensures IsSanitized(FileMetadata(name).industry) && IsSanitized(FileMetadata(name).size)
  {
  }

  /** A tag written after an underscore-free prefix is read back. */
  lemma TagValueRoundTrip(prefix: string, tag: string, value: string, rest: string)
    requires '_' !in prefix && '_' !in value && tag != [] && tag[0] == '_'
    ensures TagValue(prefix + tag + value + "_" + rest, tag) == Some(value)
  {
    var name := prefix + tag + value + "_" + rest;
    assert OccursAt(name, tag, |prefix|) by {
      assert name[|prefix|..|prefix| + |tag|] == tag;
    }
    forall j | 0 <= j < |prefix| ensures !OccursAt(name, tag, j) {
      assert name[j] == prefix[j];
      assert prefix[j] != '_';
    }
    var i := Find(name, tag, 0);
    assert i == |prefix|;
    var after := name[i + |tag|..];
    assert after == value + ['_'] + rest;
    SplitAppend(value, rest, '_');
    SplitNoSep(value, '_');
  }

  /** The file name `<p>_success_True_industry_<v>_…` (with `p` free of
      underscores) tags its sections as successful, in industry `v`. */
  lemma SuccessAndIndustry(p: string, v: string, rest: string)
    requires '_' !in p && '_' !in v && IsSanitized(v)
    requires !Contains(p + "_success_True", "_industry_")
    ensures FileMetadata(p + "_success_" + "True" + "_" + ("industry_" + v + "_" + rest)).success
    ensures FileMetadata(p + "_success_" + "True" + "_" + ("industry_" + v + "_" + rest)).industry == v
  {
    var name := p + "_success_" + "True" + "_" + ("industry_" + v + "_" + rest);
    TagValueRoundTrip(p, "_success_", "True", "industry_" + v + "_" + rest);
    NameRegrouped(p, v, rest);
    IndustryAfter(p + "_success_True", v, rest);
    SanitizeFixedPoint(v);
    MetadataFromTags(name, "True", v);
  }

  lemma NameRegrouped(p: string, v: string, rest: string)
    ensures p + "_success_" + "True" + "_" + ("industry_" + v + "_" + rest)
         == (p + "_success_True") + "_industry_" + v + "_" + rest
  {
    assert "_success_" + "True" + "_" + "industry_" == "_success_True" + "_industry_";
  }

  /** The success flag and the industry follow the values read for their
      tags. */
  lemma MetadataFromTags(name: string, s: string, i: string)
    requires TagValue(name, "_success_") == Some(s) && TagValue(name, "_industry_") == Some(i)
    ensures FileMetadata(name).success == (s == "True")
    ensures FileMetadata(name).industry == RemoveProblematicChars(i)
  {
  }

  /** "_industry_" is found right after a prefix that does not contain it
      and whose last character does not occur in the tag. */
  lemma IndustryAfter(pre: string, v: string, rest: string)
    requires '_' !in v && !Contains(pre, "_industry_")
    requires pre != [] && pre[|pre| - 1] !in "_industry_"
    ensures TagValue(pre + "_industry_" + v + "_" + rest, "_industry_") == Some(v)
  {
    var tag := "_industry_";
    var name := pre + tag + v + "_" + rest;
    assert OccursAt(name, tag, |pre|) by {
      assert name[|pre|..|pre| + |tag|] == tag;
    }
    forall j | 0 <= j < |pre| ensures !OccursAt(name, tag, j) {
      if j + |tag| <= |pre| {
        assert name[j..j + |tag|] == pre[j..j + |tag|];
        assert !OccursAt(pre, tag, j);
      } else {
        // an occurrence here would put the last character of `pre` inside the tag
        var d := |pre| - 1 - j;
        assert name[j..j + |tag|][d] == pre[|pre| - 1];
        assert tag[d] in tag;
      }
    }
    var i := Find(name, tag, 0);
    assert i == |pre|;
    assert name[i + |tag|..] == v + ['_'] + rest;
    SplitAppend(v, rest, '_');
    SplitNoSep(v, '_');
  }

  /** A tag at the end of the name reads everything after it: the size
      tag of `deal_size_large.md` is `large.md`, extension included. */
  lemma TagValueAtEnd(prefix: string, tag: string, value: string)
    requires '_' !in prefix && '_' !in value && tag != [] && tag[0] == '_'
    ensures TagValue(prefix + tag + value, tag) == Some(value)
  {
    var name := prefix + tag + value;
    assert OccursAt(name, tag, |prefix|) by {
      assert name[|prefix|..|prefix| + |tag|] == tag;
    }
    forall j | 0 <= j < |prefix| ensures !OccursAt(name, tag, j) {
      assert name[j] == prefix[j];
      assert prefix[j] != '_';
    }
    var i := Find(name, tag, 0);
    assert i == |prefix|;
    assert name[i + |tag|..] == value;
    SplitNoSep(value, '_');
  }

  /** So the size of every section of `<p>_size_<v>` is `v`, whatever
      extension `v` carries. */
  lemma SizeKeepsExtension(p: string, v: string)
    requires '_' !in p && '_' !in v && IsSanitized(v)
    ensures FileMetadata(p + "_size_" + v).size == v
  {
    TagValueAtEnd(p, "_size_", v);
    SanitizeFixedPoint(v);
  }
}
