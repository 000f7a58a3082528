/** `remove_problematic_chars` (utils.py): every text the system reads,
    stores or returns passes through it. It applies a fixed table of
    replacements, drops what latin-1 cannot encode, then deletes every
    character outside the allow-set. */
module Sanitizer {
  import opened Wrappers
  import opened TextOps

  /** The allow-set of the final regex: printable ASCII, `\n`, `\r`, `\t`
      and the non-breaking space. */
  predicate Allowed(c: char) {
    (' ' <= c <= '~') || c == '\n' || c == '\r' || c == '\t' || c == '\U{A0}'
  }

  predicate IsSanitized(s: string) {
    forall i :: 0 <= i < |s| ==> Allowed(s[i])
  }

  predicate IsAscii(s: string) {
    forall i :: 0 <= i < |s| ==> s[i] < '\U{80}'
  }

  /** The replacement table, in the order the replacements are applied. */
  const Replacements: seq<(char, string)> := [
    ('\U{2013}', "-"),     // en dash
    ('\U{2014}', "-"),     // em dash
    ('\U{2018}', "'"),     // left single quote
    ('\U{2019}', "'"),     // right single quote
    ('\U{201C}', "\""),    // left double quote
    ('\U{201D}', "\""),    // right double quote
    ('\U{2026}', "..."),   // ellipsis
    ('\U{2022}', "*"),     // bullet
    ('\U{2122}', "(TM)"),  // trade mark
    ('\U{AE}', "(R)"),     // registered
    ('\U{A9}', "(C)")      // copyright
  ]

  /** Every target of the table is outside ASCII and every replacement is
      printable ASCII, so no replacement creates a later target. */
  predicate WellFormedTable(table: seq<(char, string)>) {
    forall i :: 0 <= i < |table| ==>
      table[i].0 >= '\U{80}' && IsAscii(table[i].1) && IsSanitized(table[i].1)
  }

  /** `s.replace(target, by)` for a one-character target. */
  function ReplaceChar(s: string, target: char, repl: string): (r: string)
    ensures target !in repl ==> target !in r
  {
    if s == [] then []
    else (if s[0] == target then repl else [s[0]]) + ReplaceChar(s[1..], target, repl)
  }

  /** The chain of `replace` calls, one per table entry, in table order. */
  function ApplyReplacements(s: string, table: seq<(char, string)>): string
    decreases |table|
  {
    if table == [] then s
    else ApplyReplacements(ReplaceChar(s, table[0].0, table[0].1), table[1..])
  }

  function Substitute(s: string): string {
    ApplyReplacements(s, Replacements)
  }

  /** `encode('latin-1', errors='ignore').decode('latin-1')`: drops every
      character above U+00FF and never fails. */
  function Latin1RoundTrip(s: string): (r: string)
    ensures |r| <= |s|
  {
    if s == [] then []
    else (if s[0] <= '\U{FF}' then [s[0]] else []) + Latin1RoundTrip(s[1..])
  }

  /** The regex substitution that deletes every character outside the
      allow-set. */
  function KeepAllowed(s: string): (r: string)
    ensures IsSanitized(r)
    ensures |r| <= |s|
  {
    if s == [] then []
    else (if Allowed(s[0]) then [s[0]] else []) + KeepAllowed(s[1..])
  }

  /** The function as written: the chain of replacements, the latin-1
      round trip, then the regex deletion. */
  function ReplaceEncodeFilter(s: string): (r: string)
    ensures IsSanitized(r)
  {
    KeepAllowed(Latin1RoundTrip(Substitute(s)))
  }

  /** `remove_problematic_chars` on a string, character by character: each
      character becomes its `Image`. `SanitizeIsChain` proves this equal to
      `ReplaceEncodeFilter`. */
  function RemoveProblematicChars(s: string): (r: string)
    ensures IsSanitized(r)
  {
    if s == [] then [] else Image(s[0]) + RemoveProblematicChars(s[1..])
  }

  /** A Python argument: the function returns anything that is not a
      string unchanged. */
  datatype Arg = Text(s: string) | NotText(handle: nat)

  function Clean(v: Arg): (r: Arg)
    ensures v.NotText? ==> r == v
    ensures v.Text? ==> r.Text? && IsSanitized(r.s)
  {
    match v
    case Text(s) => Text(RemoveProblematicChars(s))
    case NotText(_) => v
  }

  /** What a single character becomes: its replacement, itself, or nothing. */
  function Image(c: char): (r: string)
    ensures IsSanitized(r)
  {
    var rep := Lookup(Replacements, c);
    if rep.Some? then
      TableWellFormed();
      LookupFound(Replacements, c);
      rep.value
    else if Allowed(c) then [c] else []
  }

  function Lookup(table: seq<(char, string)>, c: char): Option<string> {
    if table == [] then None
    else if table[0].0 == c then Some(table[0].1)
    else Lookup(table[1..], c)
  }

  // ---------------------------------------------------------------------
  // Concatenation laws

  lemma {:induction false} ReplaceCharConcat(a: string, b: string, t: char, repl: string)
    ensures ReplaceChar(a + b, t, repl) == ReplaceChar(a, t, repl) + ReplaceChar(b, t, repl)
  {
    if a != [] {
      assert (a + b)[1..] == a[1..] + b;
      ReplaceCharConcat(a[1..], b, t, repl);
      var h := if a[0] == t then repl else [a[0]];
      assert ReplaceChar(a + b, t, repl) == h + ReplaceChar(a[1..] + b, t, repl);
      assert ReplaceChar(a, t, repl) == h + ReplaceChar(a[1..], t, repl);
    } else {
      assert a + b == b;
    }
  }

  lemma {:induction false} ReplaceCharAbsent(s: string, t: char, repl: string)
    requires t !in s
    ensures ReplaceChar(s, t, repl) == s
  {
    if s != [] {
      ReplaceCharAbsent(s[1..], t, repl);
      assert s == [s[0]] + s[1..];
    }
  }

  lemma {:induction false} ApplyConcat(a: string, b: string, table: seq<(char, string)>)
    ensures ApplyReplacements(a + b, table) == ApplyReplacements(a, table) + ApplyReplacements(b, table)
    decreases |table|
  {
    if table != [] {
      ReplaceCharConcat(a, b, table[0].0, table[0].1);
      ApplyConcat(ReplaceChar(a, table[0].0, table[0].1), ReplaceChar(b, table[0].0, table[0].1), table[1..]);
    }
  }

  lemma {:induction false} ApplyAscii(s: string, table: seq<(char, string)>)
    requires IsAscii(s) && WellFormedTable(table)
    ensures ApplyReplacements(s, table) == s
  {
    if table != [] {
      assert forall i :: 0 <= i < |s| ==> s[i] != table[0].0;
      assert table[0].0 !in s;
      ReplaceCharAbsent(s, table[0].0, table[0].1);
      ApplyAscii(s, table[1..]);
    }
  }

  /** On one character, the chain of replacements is a table lookup. */
  lemma {:induction false} ApplyChar(c: char, table: seq<(char, string)>)
    requires WellFormedTable(table)
    ensures ApplyReplacements([c], table) == Lookup(table, c).GetOr([c])
  {
    if table != [] {
      var r := ReplaceChar([c], table[0].0, table[0].1);
      assert [c][1..] == [];
      assert r == (if c == table[0].0 then table[0].1 else [c]) + ReplaceChar([], table[0].0, table[0].1);
      if table[0].0 == c {
        assert r == table[0].1;
        ApplyAscii(table[0].1, table[1..]);
      } else {
        assert r == [c];
        ApplyChar(c, table[1..]);
      }
    }
  }

  lemma {:induction false} Latin1Concat(a: string, b: string)
    ensures Latin1RoundTrip(a + b) == Latin1RoundTrip(a) + Latin1RoundTrip(b)
  {
    if a != [] {
      assert (a + b)[1..] == a[1..] + b;
      Latin1Concat(a[1..], b);
      var h := if a[0] <= '\U{FF}' then [a[0]] else [];
      assert Latin1RoundTrip(a + b) == h + Latin1RoundTrip(a[1..] + b);
      assert Latin1RoundTrip(a) == h + Latin1RoundTrip(a[1..]);
    } else {
      assert a + b == b;
    }
  }

  lemma {:induction false} KeepAllowedConcat(a: string, b: string)
    ensures KeepAllowed(a + b) == KeepAllowed(a) + KeepAllowed(b)
  {
    if a != [] {
      assert (a + b)[1..] == a[1..] + b;
      KeepAllowedConcat(a[1..], b);
      var h := if Allowed(a[0]) then [a[0]] else [];
      assert KeepAllowed(a + b) == h + KeepAllowed(a[1..] + b);
      assert KeepAllowed(a) == h + KeepAllowed(a[1..]);
    } else {
      assert a + b == b;
    }
  }

  /** The sanitizer works character by character: it maps a concatenation
      to the concatenation of the results. */
  lemma ChainConcat(a: string, b: string)
    ensures ReplaceEncodeFilter(a + b) == ReplaceEncodeFilter(a) + ReplaceEncodeFilter(b)
  {
    ApplyConcat(a, b, Replacements);
    Latin1Concat(Substitute(a), Substitute(b));
    KeepAllowedConcat(Latin1RoundTrip(Substitute(a)), Latin1RoundTrip(Substitute(b)));
  }

  lemma TableWellFormed()
    ensures WellFormedTable(Replacements)
  {
  }

  /** A character the table does not list is kept if allowed and deleted
      otherwise. */
  lemma ChainUnlisted(c: char)
    requires Lookup(Replacements, c).None?
    ensures ReplaceEncodeFilter([c]) == (if Allowed(c) then [c] else [])
  {
    TableWellFormed();
    ApplyChar(c, Replacements);
    ChainOfSubstituted([c]);
  }

  lemma ChainOfSubstituted(s: string)
    requires |s| == 1 && Substitute(s) == s
    ensures ReplaceEncodeFilter(s) == (if Allowed(s[0]) then s else [])
  {
    assert s == [s[0]];
    FilterSingle(s[0]);
  }

  /** The latin-1 round trip and the filter keep one character exactly
      when it is allowed. */
  lemma FilterSingle(c: char)
    ensures KeepAllowed(Latin1RoundTrip([c])) == (if Allowed(c) then [c] else [])
  {
    assert Latin1RoundTrip([c]) == (if c <= '\U{FF}' then [c] else []) + Latin1RoundTrip([]);
    if c <= '\U{FF}' {
      assert KeepAllowed([c]) == (if Allowed(c) then [c] else []) + KeepAllowed([]);
    }
  }

  /** A character the table lists becomes its replacement. */
  lemma ChainListed(c: char)
    requires Lookup(Replacements, c).Some?
    ensures ReplaceEncodeFilter([c]) == Lookup(Replacements, c).value
  {
    TableWellFormed();
    ApplyChar(c, Replacements);
    LookupFound(Replacements, c);
    Latin1Ascii(Lookup(Replacements, c).value);
    KeepAllowedFixed(Lookup(Replacements, c).value);
  }

  /** One character is replaced by its table entry, kept if allowed, and
      deleted otherwise. */
  lemma ChainChar(c: char)
    ensures ReplaceEncodeFilter([c]) == Image(c)
  {
    if Lookup(Replacements, c).Some? {
      ChainListed(c);
    } else {
      ChainUnlisted(c);
    }
  }

  lemma {:induction false} LookupFound(table: seq<(char, string)>, c: char)
    requires WellFormedTable(table) && Lookup(table, c).Some?
    ensures IsAscii(Lookup(table, c).value) && IsSanitized(Lookup(table, c).value)
  {
    if table[0].0 != c {
      LookupFound(table[1..], c);
    }
  }

  lemma {:induction false} Latin1Ascii(s: string)
    requires IsAscii(s)
    ensures Latin1RoundTrip(s) == s
  {
    if s != [] {
      Latin1Ascii(s[1..]);
      assert s == [s[0]] + s[1..];
    }
  }

  lemma {:induction false} KeepAllowedFixed(s: string)
    requires IsSanitized(s)
    ensures KeepAllowed(s) == s
  {
    if s != [] {
      KeepAllowedFixed(s[1..]);
      assert s == [s[0]] + s[1..];
    }
  }

  // ---------------------------------------------------------------------
  // The character-wise definition agrees with the chain as written

  /** Sanitizing is the chain of replacements, the latin-1 round trip and
      the regex deletion, applied one after another to the whole text. */
  lemma {:induction false} SanitizeIsChain(s: string)
    ensures RemoveProblematicChars(s) == ReplaceEncodeFilter(s)
  {
    if s == [] {
      ChainEmpty();
    } else {
      SanitizeIsChain(s[1..]);
      ChainStep(s);
    }
  }

  lemma ChainStep(s: string)
    requires s != []
    requires RemoveProblematicChars(s[1..]) == ReplaceEncodeFilter(s[1..])
    ensures RemoveProblematicChars(s) == ReplaceEncodeFilter(s)
  {
    ChainOfCons(s);
  }

  lemma ChainOfCons(s: string)
    requires s != []
    ensures ReplaceEncodeFilter(s) == Image(s[0]) + ReplaceEncodeFilter(s[1..])
  {
    var c, t := s[0], s[1..];
    assert [c] + t == s;
    ChainCons(c, t);
  }

  lemma {:induction false} ApplyEmpty(table: seq<(char, string)>)
    ensures ApplyReplacements([], table) == []
    decreases |table|
  {
    if table != [] {
      ApplyEmpty(table[1..]);
    }
  }

  lemma ChainEmpty()
    ensures ReplaceEncodeFilter([]) == []
  {
    ApplyEmpty(Replacements);
  }

  lemma ChainCons(c: char, t: string)
    ensures ReplaceEncodeFilter([c] + t) == Image(c) + ReplaceEncodeFilter(t)
  {
    ChainConcat([c], t);
    ChainChar(c);
  }

  // ---------------------------------------------------------------------
  // Properties of the sanitizer

  /** The sanitizer maps a concatenation to the concatenation of the
      results. */
  lemma {:induction false} SanitizeConcat(a: string, b: string)
    ensures RemoveProblematicChars(a + b) == RemoveProblematicChars(a) + RemoveProblematicChars(b)
  {
    if a == [] {
      assert a + b == b;
    } else {
      var ab := a + b;
      assert ab[0] == a[0] && ab[1..] == a[1..] + b;
      SanitizeConcat(a[1..], b);
      assert RemoveProblematicChars(ab) == Image(a[0]) + RemoveProblematicChars(a[1..] + b);
    }
  }

  /** The latin-1 step cannot change the result: whatever it drops is
      outside the allow-set as well. */
  lemma {:induction false} Latin1StepIsRedundant(s: string)
    ensures KeepAllowed(Latin1RoundTrip(s)) == KeepAllowed(s)
  {
    if s != [] {
      Latin1StepIsRedundant(s[1..]);
      Latin1Concat([s[0]], s[1..]);
      KeepAllowedConcat([s[0]], s[1..]);
      KeepAllowedConcat(Latin1RoundTrip([s[0]]), Latin1RoundTrip(s[1..]));
      assert [s[0]] + s[1..] == s;
      assert Latin1RoundTrip([s[0]]) == (if s[0] <= '\U{FF}' then [s[0]] else []);
      assert KeepAllowed(Latin1RoundTrip([s[0]])) == KeepAllowed([s[0]]);
    }
  }

  /** The result is the substituted text with every character outside the
      allow-set deleted. */
  lemma SanitizeIsSubstituteThenFilter(s: string)
    ensures RemoveProblematicChars(s) == KeepAllowed(Substitute(s))
  {
    SanitizeIsChain(s);
    Latin1StepIsRedundant(Substitute(s));
  }

  /** `a` can be obtained from `b` by deleting characters. */
  predicate IsSubsequence(a: string, b: string) {
    if a == [] then true
    else if b == [] then false
    else if a[0] == b[0] then IsSubsequence(a[1..], b[1..])
    else IsSubsequence(a, b[1..])
  }

  lemma {:induction false} KeepAllowedIsSubsequence(s: string)
    ensures IsSubsequence(KeepAllowed(s), s)
  {
    if s != [] {
      KeepAllowedIsSubsequence(s[1..]);
      var k := KeepAllowed(s);
      if Allowed(s[0]) {
        assert k == [s[0]] + KeepAllowed(s[1..]);
        assert k[1..] == KeepAllowed(s[1..]);
      } else {
        assert k == KeepAllowed(s[1..]);
        assert k != [] ==> k[0] != s[0];
      }
    }
  }

  /** The characters kept from the substituted text keep their order. */
  lemma SanitizeIsSubsequenceOfSubstitute(s: string)
    ensures IsSubsequence(RemoveProblematicChars(s), Substitute(s))
  {
    SanitizeIsSubstituteThenFilter(s);
    KeepAllowedIsSubsequence(Substitute(s));
  }

  /** Text that is already sanitized is a fixed point. */
  lemma {:induction false} SanitizeFixedPoint(s: string)
    requires IsSanitized(s)
    ensures RemoveProblematicChars(s) == s
  {
    if s != [] {
      SanitizeFixedPoint(s[1..]);
      NoTargetAllowed(s[0]);
      assert [s[0]] + s[1..] == s;
    }
  }

  lemma {:induction false} LookupMissing(table: seq<(char, string)>, c: char)
    requires forall i :: 0 <= i < |table| ==> table[i].0 != c
    ensures Lookup(table, c).None?
  {
    if table != [] {
      LookupMissing(table[1..], c);
    }
  }

  lemma {:induction false} LookupAt(table: seq<(char, string)>, i: nat)
    requires i < |table|
    requires forall j :: 0 <= j < i ==> table[j].0 != table[i].0
    ensures Lookup(table, table[i].0) == Some(table[i].1)
  {
    if i > 0 {
      LookupAt(table[1..], i - 1);
    }
  }

  lemma NoTargetAllowed(c: char)
    requires Allowed(c)
    ensures Lookup(Replacements, c).None?
  {
    TableWellFormed();
    LookupMissing(Replacements, c);
  }

  /** Sanitizing one character gives its image. */
  lemma SanitizeChar(c: char)
    ensures RemoveProblematicChars([c]) == Image(c)
  {
    assert [c][1..] == [];
  }

  /** Sanitizing a table target gives its replacement. */
  lemma SanitizeTableEntry(i: nat)
    requires i < |Replacements|
    ensures RemoveProblematicChars([Replacements[i].0]) == Replacements[i].1
  {
    TableTargetsDistinct();
    LookupAt(Replacements, i);
    SanitizeChar(Replacements[i].0);
  }

  lemma TableTargetsDistinct()
    ensures forall i, j :: 0 <= i < j < |Replacements| ==> Replacements[i].0 != Replacements[j].0
  {
  }

  /** Joining clean pieces with a clean separator gives clean text. */
  lemma {:induction false} JoinSanitized(parts: seq<string>, sep: string)
    requires forall i :: 0 <= i < |parts| ==> IsSanitized(parts[i])
    requires IsSanitized(sep)
    ensures IsSanitized(Join(parts, sep))
  {
    if |parts| > 1 {
      JoinSanitized(parts[1..], sep);
      var rest := Join(parts[1..], sep);
      var all := parts[0] + sep + rest;
      forall i | 0 <= i < |all| ensures Allowed(all[i]) {
        if i < |parts[0]| {
          assert all[i] == parts[0][i];
        } else if i < |parts[0]| + |sep| {
          assert all[i] == sep[i - |parts[0]|];
        } else {
          assert all[i] == rest[i - |parts[0]| - |sep|];
        }
      }
    }
  }

  /** Sanitizing twice is sanitizing once. */
  lemma SanitizeIdempotent(s: string)
    ensures RemoveProblematicChars(RemoveProblematicChars(s)) == RemoveProblematicChars(s)
  {
    SanitizeFixedPoint(RemoveProblematicChars(s));
  }

  /** The fixed substitutions of the table. */
  lemma SubstitutionTable()
    ensures RemoveProblematicChars("\U{2013}") == "-" && RemoveProblematicChars("\U{2014}") == "-"
    ensures RemoveProblematicChars("\U{2018}") == "'" && RemoveProblematicChars("\U{2019}") == "'"
    ensures RemoveProblematicChars("\U{201C}") == "\"" && RemoveProblematicChars("\U{201D}") == "\""
    ensures RemoveProblematicChars("\U{2026}") == "..."
    ensures RemoveProblematicChars("\U{2022}") == "*"
    ensures RemoveProblematicChars("\U{2122}") == "(TM)"
    ensures RemoveProblematicChars("\U{AE}") == "(R)"
    ensures RemoveProblematicChars("\U{A9}") == "(C)"
  {
    SanitizeTableEntry(0);
    SanitizeTableEntry(1);
    SanitizeTableEntry(2);
    SanitizeTableEntry(3);
    SanitizeTableEntry(4);
    SanitizeTableEntry(5);
    SanitizeTableEntry(6);
    SanitizeTableEntry(7);
    SanitizeTableEntry(8);
    SanitizeTableEntry(9);
    SanitizeTableEntry(10);
  }

  /** The Euro sign is deleted wherever it occurs: the allow-set of the
      regex does not contain it. */
  lemma EuroSignRemoved(a: string, b: string)
    ensures RemoveProblematicChars(a + "\U{20AC}" + b) == RemoveProblematicChars(a) + RemoveProblematicChars(b)
  {
    EuroNotListed();
    SanitizeChar('\U{20AC}');
    SanitizeConcat(a + "\U{20AC}", b);
    SanitizeConcat(a, "\U{20AC}");
  }

  lemma EuroNotListed()
    ensures Lookup(Replacements, '\U{20AC}').None?
  {
    assert forall i :: 0 <= i < |Replacements| ==> Replacements[i].0 != '\U{20AC}';
    LookupMissing(Replacements, '\U{20AC}');
  }
}
