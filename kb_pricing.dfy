/** `extract_pricing_from_kb` (knowledge_base.py): the amounts written after
    `Rs` in the COMMERCIAL PROPOSAL section of every `.md` file of the
    knowledge base. The three regular expressions it uses are modelled
    position by position, with the backtracking they do written out:
      - `^#{1,3}\s*COMMERCIAL PROPOSAL\s*$` (case-insensitive, multi-line),
        which `re.split` uses to find the section;
      - `^#{1,3}\s+\w` (multi-line), whose first match ends the section;
      - `(?:<rupee>|Rs\.?)[\s]*([0-9,]+)`, scanned with `finditer`. */
module KbPricing {
  import opened Wrappers
  import opened TextOps
  import opened Sanitizer
  import opened KnowledgeBase

  // ---------------------------------------------------------------------
  // Runs of characters

  /** `^` in multi-line mode. */
  predicate LineStart(s: string, i: nat)
    requires i <= |s|
  {
    i == 0 || s[i - 1] == '\n'
  }

  /** The end of the run of `#` starting at `i`. */
  function HashesEnd(s: string, i: nat): (r: nat)
    requires i <= |s|
    ensures i <= r <= |s|
    ensures forall t :: i <= t < r ==> s[t] == '#'
    ensures r < |s| ==> s[r] != '#'
    decreases |s| - i
  {
    if i < |s| && s[i] == '#' then HashesEnd(s, i + 1) else i
  }

  predicate IsAmountChar(c: char) { IsDigit(c) || c == ',' }

  /** The end of the run of `[0-9,]` starting at `i`. */
  function AmountEnd(s: string, i: nat): (r: nat)
    requires i <= |s|
    ensures i <= r <= |s|
    ensures forall t :: i <= t < r ==> IsAmountChar(s[t])
    ensures r < |s| ==> !IsAmountChar(s[r])
    decreases |s| - i
  {
    if i < |s| && IsAmountChar(s[i]) then AmountEnd(s, i + 1) else i
  }

  // ---------------------------------------------------------------------
  // The section heading

  const Heading := "COMMERCIAL PROPOSAL"

  /** `lit` (upper case) occurs at `i`, ignoring case. */
  predicate MatchesIgnoringCase(s: string, i: nat, lit: string) {
    i + |lit| <= |s| && forall t :: 0 <= t < |lit| ==> ToUpper(s[i + t]) == lit[t]
  }

  /** The last newline in `s[a..b]`, scanning back from `b`. */
  function LastNewline(s: string, a: nat, b: nat): (r: Option<nat>)
    requires a <= b <= |s|
    ensures r.Some? ==> a <= r.value < b && s[r.value] == '\n'
    ensures r.Some? ==> forall t :: r.value < t < b ==> s[t] != '\n'
    ensures r.None? ==> forall t :: a <= t < b ==> s[t] != '\n'
    decreases b - a
  {
    if a == b then None
    else if s[b - 1] == '\n' then Some(b - 1)
    else LastNewline(s, a, b - 1)
  }

  /** Where the heading pattern, tried at line start `p`, ends. The hashes
      must be a whole run of one to three; `\s*` takes every blank, newlines
      included; the trailing `\s*$` keeps the longest blank run that stops
      at the end of the text or before a newline. */
  function HeadingEnd(s: string, p: nat): (r: Option<nat>)
    requires p <= |s|
    ensures r.Some? ==> p < r.value <= |s|
    ensures r.Some? ==> r.value == |s| || s[r.value] == '\n'
  {
    var h := HashesEnd(s, p);
    if !(1 <= h - p <= 3) then None
    else
      var l := SpacesEnd(s, h);
      if !MatchesIgnoringCase(s, l, Heading) then None
      else
        var e := l + |Heading|;
        var w := SpacesEnd(s, e);
        if w == |s| then Some(w) else LastNewline(s, e, w)
  }

  predicate HeadingAt(s: string, p: nat)
    requires p <= |s|
  {
    LineStart(s, p) && HeadingEnd(s, p).Some?
  }

  /** The leftmost heading at or after `from`: its start and its end. */
  function FindHeading(s: string, from: nat): (r: Option<(nat, nat)>)
    requires from <= |s|
    ensures r.Some? ==> from <= r.value.0 < r.value.1 <= |s|
    ensures r.Some? ==> HeadingAt(s, r.value.0) && r.value.1 == HeadingEnd(s, r.value.0).value
    ensures r.None? ==> forall p :: from <= p <= |s| ==> !HeadingAt(s, p)
    decreases |s| - from
  {
    if HeadingAt(s, from) then Some((from, HeadingEnd(s, from).value))
    else if from == |s| then None
    else FindHeading(s, from + 1)
  }

  /** The heading found is the leftmost one. */
  lemma {:induction false} FindHeadingIsFirst(s: string, from: nat)
    requires from <= |s|
    ensures var r := FindHeading(s, from);
      r.Some? ==> forall p :: from <= p < r.value.0 ==> !HeadingAt(s, p)
    decreases |s| - from
  {
    if !HeadingAt(s, from) && from < |s| {
      FindHeadingIsFirst(s, from + 1);
    }
  }

  /** `parts[1]` of the heading split: the text between the first heading
      and the second, or `None` when there is no heading
      (`len(parts) < 2`). */
  function CommercialPart(s: string): (r: Option<string>)
  {
    match FindHeading(s, 0)
    case None => None
    case Some((_, q)) =>
      match FindHeading(s, q)
      case None => Some(s[q..])
      case Some((p2, _)) => Some(s[q..p2])
  }

  // ---------------------------------------------------------------------
  // The end of the section

  /** `^#{1,3}\s+\w` matches at `c`: one to three hashes (the whole run),
      at least one blank (newlines included), then a word character. */
  predicate CutAt(s: string, c: nat)
    requires c <= |s|
  {
    && LineStart(s, c)
    && var h := HashesEnd(s, c);
    && 1 <= h - c <= 3
    && var w := SpacesEnd(s, h);
    && h < w < |s| && IsWordChar(s[w])
  }

  /** The first cut at or after `from`, or the end of the text. */
  function FirstCut(s: string, from: nat): (r: nat)
    requires from <= |s|
    ensures from <= r <= |s|
    ensures r < |s| ==> CutAt(s, r)
    ensures forall c :: from <= c < r ==> !CutAt(s, c)
    decreases |s| - from
  {
    if from == |s| then from
    else if CutAt(s, from) then from
    else FirstCut(s, from + 1)
  }

  /** `re.split(r'^#{1,3}\s+\w', part, flags=re.MULTILINE)[0]`. */
  function Body(part: string): (r: string)
    ensures |r| <= |part| && r == part[..|r|]
    ensures forall c :: 0 <= c < |r| ==> !CutAt(part, c)
  {
    part[..FirstCut(part, 0)]
  }

  // ---------------------------------------------------------------------
  // The amounts

  /** The rupee sign as the pattern spells it: the UTF-8 bytes of U+20B9
      read as Windows-1252. */
  const Rupee := "\U{E2}\U{201A}\U{B9}"

  /** The price pattern tried at `i`: the digits group and the end of the
      match. `Rs\.?` takes the dot when there is one; the blanks and the
      `[0-9,]` run are taken whole. */
  function PriceAt(s: string, i: nat): (r: Option<(string, nat)>)
    requires i <= |s|
    ensures r.Some? ==> i < r.value.1 <= |s| && r.value.0 != [] && |r.value.0| <= r.value.1 && r.value.0 == s[r.value.1 - |r.value.0|..r.value.1]
    ensures r.Some? ==> forall t :: 0 <= t < |r.value.0| ==> IsAmountChar(r.value.0[t])
  {
    var j :=
      if OccursAt(s, Rupee, i) then i + |Rupee|
      else if OccursAt(s, "Rs", i) then (if i + 2 < |s| && s[i + 2] == '.' then i + 3 else i + 2)
      else i;
    if j == i then None
    else
      var k := SpacesEnd(s, j);
      var e := AmountEnd(s, k);
      if e == k then None else Some((s[k..e], e))
  }

  /** `[m.group(1) for m in pattern.finditer(s[i:])]`: after a match the
      scan resumes at its end, otherwise one character further. */
  function Groups(s: string, i: nat): (r: seq<string>)
    requires i <= |s|
    ensures forall g :: g in r ==> g != [] && AmountGroup(g)
    decreases |s| - i
  {
    if i == |s| then []
    else
      match PriceAt(s, i)
      case Some((g, e)) => [g] + Groups(s, e)
      case None => Groups(s, i + 1)
  }

  /** `s.replace(',', '')`. */
  function RemoveCommas(s: string): (r: string)
    ensures |r| <= |s|
    ensures forall t :: 0 <= t < |r| ==> r[t] != ','
  {
    if s == [] then []
    else (if s[0] == ',' then [] else [s[0]]) + RemoveCommas(s[1..])
  }

  lemma {:induction false} RemoveCommasDigits(s: string)
    requires forall t :: 0 <= t < |s| ==> IsAmountChar(s[t])
    ensures AllDigits(RemoveCommas(s))
  {
    if s != [] {
      RemoveCommasDigits(s[1..]);
    }
  }

  /** A group of `[0-9,]`. */
  predicate AmountGroup(g: string) {
    forall t :: 0 <= t < |g| ==> IsAmountChar(g[t])
  }

  /** `int(g.replace(',', ''))`: the ValueError where `int` raises, that is
      when the group holds only commas or more than `MaxStrDigits` digits. */
  function Amount(g: string): (r: Result<nat, IntError>)
    requires AmountGroup(g)
  {
    RemoveCommasDigits(g);
    IntOfDigits(RemoveCommas(g))
  }

  /** The amounts of the groups, in order; the first group `int` rejects
      aborts the whole extraction. */
  function Amounts(groups: seq<string>): (r: Result<seq<nat>, IntError>)
    requires forall g :: g in groups ==> AmountGroup(g)
    ensures r.Ok? ==> |r.value| == |groups|
    ensures r.Err? ==> IsRaised(r.error)
    ensures r.Err? ==> exists j :: 0 <= j < |groups| && Amount(groups[j]) == Err(r.error)
  {
    if groups == [] then Ok([])
    else
      var rest := groups[..|groups| - 1];
      var g := groups[|groups| - 1];
      match Amounts(rest)
      case Err(e) => Err(e)
      case Ok(vs) =>
        match Amount(g)
        case Err(e) => Err(e)
        case Ok(a) => Ok(vs + [a])
  }

  /** The prices of one file: nothing without a COMMERCIAL PROPOSAL
      heading, otherwise every amount in the section's body. */
  function FilePrices(text: string): Result<seq<nat>, IntError> {
    var clean := RemoveProblematicChars(text);
    match CommercialPart(clean)
    case None => Ok([])
    case Some(part) =>
      var body := Body(part);
      Amounts(Groups(body, 0))
  }

  /** `glob('*.md')`: a name ending in `.md` that is not hidden. */
  predicate IsMdPath(name: string) {
    EndsWith(name, ".md") && !StartsWith(name, ".")
  }

  /** The prices of every `.md` file, file by file in listing order. */
  function Pricing(files: seq<SourceFile>): (r: Result<seq<nat>, IntError>)
    ensures r.Err? ==> IsRaised(r.error)
  {
    if files == [] then Ok([])
    else
      var f := files[|files| - 1];
      match Pricing(files[..|files| - 1])
      case Err(e) => Err(e)
      case Ok(ps) =>
        if !IsMdPath(f.name) then Ok(ps)
        else
          match FilePrices(f.text)
          case Err(e) => Err(e)
          case Ok(qs) => Ok(ps + qs)
  }

  /** The `int(...)` conversions of one file's groups, in order. */
  method ConvertAmounts(groups: seq<string>) returns (r: Result<seq<nat>, IntError>)
    requires forall g :: g in groups ==> AmountGroup(g)
    ensures r == Amounts(groups)
  {
    var vs: seq<nat> := [];
    for j := 0 to |groups|
      invariant Amounts(groups[..j]) == Ok(vs)
    {
      assert groups[..j + 1][..j] == groups[..j];
      var a := Amount(groups[j]);
      if a.Err? {
        AmountsError(groups, j);
        return Err(a.error);
      }
      vs := vs + [a.value];
    }
    assert groups[..|groups|] == groups;
    return Ok(vs);
  }

  /** `extract_pricing_from_kb` over a listing of the directory. */
  method ExtractPricingFromKb(files: seq<SourceFile>) returns (r: Result<seq<nat>, IntError>)
    ensures r == Pricing(files)
  {
    var prices: seq<nat> := [];
    for i := 0 to |files|
      invariant Pricing(files[..i]) == Ok(prices)
    {
      var f := files[i];
      assert files[..i + 1][..i] == files[..i];
      if !IsMdPath(f.name) {
        continue;
      }
      var text := RemoveProblematicChars(f.text);
      var part := CommercialPart(text);
      if part.None? {
        assert FilePrices(f.text) == Ok([]);
        assert prices + [] == prices;
        continue;
      }
      var qs := ConvertAmounts(Groups(Body(part.value), 0));
      assert FilePrices(f.text) == qs;
      if qs.Err? {
        PricingError(files, i + 1);
        return Err(qs.error);
      }
      prices := prices + qs.value;
    }
    assert files[..|files|] == files;
    return Ok(prices);
  }

  /** The first group rejected aborts the list with its own error. */
  lemma {:induction false} AmountsError(groups: seq<string>, j: nat)
    requires forall g :: g in groups ==> AmountGroup(g)
    requires j < |groups| && Amounts(groups[..j]).Ok? && Amount(groups[j]).Err?
    ensures Amounts(groups) == Err(Amount(groups[j]).error)
    decreases |groups|
  {
    var n := |groups| - 1;
    var rest := groups[..n];
    if j < n {
      assert forall g :: g in rest ==> g in groups;
      assert rest[j] == groups[j] && rest[..j] == groups[..j];
      AmountsError(rest, j);
      assert Amounts(rest).Err?;
    } else {
      assert rest == groups[..j];
    }
  }

  /** Once a prefix of the listing is rejected, the whole listing is
      rejected with the same error. */
  lemma {:induction false} PricingError(files: seq<SourceFile>, i: nat)
    requires i <= |files| && Pricing(files[..i]).Err?
    ensures Pricing(files) == Pricing(files[..i])
    decreases |files|
  {
    if i < |files| {
      var n := |files| - 1;
      assert files[..n][..i] == files[..i];
      PricingError(files[..n], i);
    } else {
      assert files[..i] == files;
    }
  }

  /** A rejected listing is rejected with the error of one of its
      Markdown files. */
  lemma {:induction false} PricingErrorSource(files: seq<SourceFile>)
    requires Pricing(files).Err?
    ensures exists i ::
      && 0 <= i < |files| && IsMdPath(files[i].name)
      && FilePrices(files[i].text) == Err(Pricing(files).error)
    decreases |files|
  {
    var n := |files| - 1;
    var rest := files[..n];
    if Pricing(rest).Err? {
      PricingErrorSource(rest);
      var i :|
        && 0 <= i < |rest| && IsMdPath(rest[i].name)
        && FilePrices(rest[i].text) == Err(Pricing(rest).error);
      assert rest[i] == files[i];
    } else {
      assert IsMdPath(files[n].name) && FilePrices(files[n].text) == Err(Pricing(files).error);
    }
  }

  // ---------------------------------------------------------------------
  // Properties

  lemma {:induction false} RemoveCommasConcat(a: string, b: string)
    ensures RemoveCommas(a + b) == RemoveCommas(a) + RemoveCommas(b)
    decreases |a|
  {
    if a != [] {
      assert (a + b)[1..] == a[1..] + b;
      RemoveCommasConcat(a[1..], b);
    } else {
      assert a + b == b;
    }
  }

  lemma {:induction false} RemoveCommasNone(s: string)
    requires forall t :: 0 <= t < |s| ==> s[t] != ','
    ensures RemoveCommas(s) == s
  {
    if s != [] {
      RemoveCommasNone(s[1..]);
      assert s == [s[0]] + s[1..];
    }
  }

  /** Commas inside an amount are digit-group separators: dropping one does
      not change the value (`"1,50,000"` reads as `150000`). */
  lemma CommasIgnored(a: string, b: string)
    requires forall t :: 0 <= t < |a| ==> IsAmountChar(a[t])
    requires forall t :: 0 <= t < |b| ==> IsAmountChar(b[t])
    ensures Amount(a + "," + b) == Amount(a + b)
  {
    assert RemoveCommas(",") == [];
    calc {
      RemoveCommas(a + "," + b);
      { RemoveCommasConcat(a + ",", b); }
      RemoveCommas(a + ",") + RemoveCommas(b);
      { RemoveCommasConcat(a, ","); }
      RemoveCommas(a) + RemoveCommas(b);
      { RemoveCommasConcat(a, b); }
      RemoveCommas(a + b);
    }
  }

  /** A plain decimal amount reads back as the number written, unless it
      has more digits than `int()` converts. */
  lemma AmountRoundTrip(n: nat)
    ensures forall t :: 0 <= t < |NatToString(n)| ==> IsAmountChar(NatToString(n)[t])
    ensures Amount(NatToString(n)) ==
      if |NatToString(n)| <= MaxStrDigits then Ok(n) else Err(DigitLimit(|NatToString(n)|))
  {
    var d := NatToString(n);
    RemoveCommasNone(d);
    IntOfDigitsRoundTrip(n);
  }

  /** A group of 4301 digits is where `int()` raises the digit-limit
      error, and the extraction fails with it. */
  lemma OverlongAmountRejected()
    ensures var g := seq(MaxStrDigits + 1, _ => '1');
      AmountGroup(g) && Amount(g) == Err(DigitLimit(4301)) && Amounts([g]) == Err(DigitLimit(4301))
  {
    var g := seq(MaxStrDigits + 1, _ => '1');
    RemoveCommasNone(g);
    assert [g][..0] == [];
  }

  /** A group of commas alone is where `int('')` raises. */
  lemma OnlyCommasRejected(g: string)
    requires g != [] && forall t :: 0 <= t < |g| ==> g[t] == ','
    ensures forall t :: 0 <= t < |g| ==> IsAmountChar(g[t])
    ensures Amount(g) == Err(EmptyLiteral)
    ensures Amounts([g]) == Err(EmptyLiteral)
  {
    assert RemoveCommas(g) == [] by {
      if RemoveCommas(g) != [] {
        RemoveCommasIn(g, 0);
        assert false;
      }
    }
    assert [g][..0] == [];
  }

  /** Every character left by `RemoveCommas` comes from its input. */
  lemma {:induction false} RemoveCommasIn(s: string, t: nat)
    requires t < |RemoveCommas(s)|
    ensures exists u :: 0 <= u < |s| && s[u] == RemoveCommas(s)[t]
  {
    assert s != [];
    var head := if s[0] == ',' then [] else [s[0]];
    if t < |head| {
      assert s[0] == RemoveCommas(s)[t];
    } else {
      RemoveCommasIn(s[1..], t - |head|);
      var u :| 0 <= u < |s[1..]| && s[1..][u] == RemoveCommas(s[1..])[t - |head|];
      assert s[u + 1] == RemoveCommas(s)[t];
    }
  }

  /** The rupee alternative of the price pattern is spelled with characters
      the sanitizer never leaves, so on cleaned text only `Rs` prices are
      found. */
  lemma RupeeNeverMatches(s: string, i: nat)
    requires IsSanitized(s)
    ensures !OccursAt(s, Rupee, i)
  {
    if i + 3 <= |s| {
      assert Allowed(s[i]);
      assert s[i..i + 3][0] != Rupee[0];
    }
  }

  /** On cleaned text without an `Rs`, no price is found. */
  lemma {:induction false} NoRsNoGroups(s: string, i: nat)
    requires i <= |s| && IsSanitized(s)
    requires forall k :: i <= k < |s| ==> !OccursAt(s, "Rs", k)
    ensures Groups(s, i) == []
    decreases |s| - i
  {
    if i < |s| {
      RupeeNeverMatches(s, i);
      assert PriceAt(s, i).None?;
      NoRsNoGroups(s, i + 1);
    }
  }

  /** A price right after `Rs` is found, with or without the dot and the
      blank. */
  lemma PriceAfterRs(n: nat, sep: string, rest: string)
    requires sep == "" || sep == " " || sep == "." || sep == ". "
    requires rest == [] || !IsAmountChar(rest[0])
    ensures PriceAt("Rs" + sep + NatToString(n) + rest, 0)
      == Some((NatToString(n), 2 + |sep| + |NatToString(n)|))
  {
    var d := NatToString(n);
    var p := "Rs" + sep;
    var s := p + d + rest;
    RsMarker(sep, d, rest);
    RsAmount(p, d, rest);
    var j := if 2 < |s| && s[2] == '.' then 3 else 2;
    PriceAtRs(s, j, |p|, |p| + |d|);
  }

  /** "Rs", then the separator: the amount starts after it. */
  lemma RsMarker(sep: string, d: string, rest: string)
    requires sep == "" || sep == " " || sep == "." || sep == ". "
    requires d != [] && IsDigit(d[0])
    ensures var s := "Rs" + sep + d + rest;
      var j := if 2 < |s| && s[2] == '.' then 3 else 2;
      OccursAt(s, "Rs", 0) && !OccursAt(s, Rupee, 0) && j <= |s| && SpacesEnd(s, j) == 2 + |sep|
  {
    var s := "Rs" + sep + d + rest;
    var k := 2 + |sep|;
    assert s[k] == d[0];
    assert OccursAt(s, "Rs", 0) by {
      assert s[..2] == "Rs";
    }
    assert !OccursAt(s, Rupee, 0) by {
      if |s| >= 3 {
        assert s[..3][0] == 'R';
      }
    }
    var j := if 2 < |s| && s[2] == '.' then 3 else 2;
    assert j + (if sep == " " || sep == ". " then 1 else 0) == k by {
      if sep == "" {
        assert s[2] == d[0];
      } else {
        assert s[2] == sep[0];
      }
    }
    assert SpacesEnd(s, j) == k by {
      if j < k {
        assert s[j] == ' ';
      }
    }
  }

  /** The digits of the amount run up to the text after them. */
  lemma RsAmount(p: string, d: string, rest: string)
    requires d != [] && (forall t :: 0 <= t < |d| ==> IsDigit(d[t]))
    requires rest == [] || !IsAmountChar(rest[0])
    ensures var s := p + d + rest;
      AmountEnd(s, |p|) == |p| + |d| && s[|p|..|p| + |d|] == d
  {
    var s := p + d + rest;
    var k := |p|;
    forall t | k <= t < k + |d| ensures IsAmountChar(s[t]) {
      assert s[t] == d[t - k];
    }
    if k + |d| < |s| {
      assert s[k + |d|] == rest[0];
    }
    AmountEndRun(s, k, |d|);
    assert s[k..k + |d|] == d;
  }

  /** How `PriceAt` reads an `Rs` price once its pieces are located. */
  lemma PriceAtRs(s: string, j: nat, k: nat, e: nat)
    requires OccursAt(s, "Rs", 0) && !OccursAt(s, Rupee, 0)
    requires j == if 2 < |s| && s[2] == '.' then 3 else 2
    requires j <= |s| && SpacesEnd(s, j) == k && k <= |s| && AmountEnd(s, k) == e && k < e
    ensures PriceAt(s, 0) == Some((s[k..e], e))
  {
  }

  lemma {:induction false} AmountEndRun(s: string, k: nat, m: nat)
    requires k + m <= |s|
    requires forall t :: k <= t < k + m ==> IsAmountChar(s[t])
    requires k + m == |s| || !IsAmountChar(s[k + m])
    ensures AmountEnd(s, k) == k + m
    decreases m
  {
    if m > 0 {
      AmountEndRun(s, k + 1, m - 1);
    }
  }

  /** Without a `#` from `from` on there is no heading there. */
  lemma {:induction false} NoHashNoHeading(s: string, from: nat)
    requires from <= |s|
    requires forall p :: from <= p < |s| ==> s[p] != '#'
    ensures FindHeading(s, from).None?
    decreases |s| - from
  {
    assert HashesEnd(s, from) == from;
    if from < |s| {
      NoHashNoHeading(s, from + 1);
    }
  }

  /** Without a `#` there is nothing to cut at. */
  lemma {:induction false} NoHashNoCut(s: string, from: nat)
    requires from <= |s|
    requires forall p :: from <= p < |s| ==> s[p] != '#'
    ensures FirstCut(s, from) == |s|
    decreases |s| - from
  {
    assert HashesEnd(s, from) == from;
    if from < |s| {
      NoHashNoCut(s, from + 1);
    }
  }

  const CommercialHeading := "## COMMERCIAL PROPOSAL\n"

  /** The heading line of `CommercialHeading` matches and ends at its
      newline. */
  lemma HeadingLineMatches(s: string)
    requires |s| > |CommercialHeading| && s[..|CommercialHeading|] == CommercialHeading
    requires !IsSpace(s[|CommercialHeading|])
    ensures FindHeading(s, 0) == Some((0, |CommercialHeading| - 1))
  {
    HeadingLinePrefix(s);
    assert SpacesEnd(s, 23) == 23 && SpacesEnd(s, 22) == 23;
    assert LastNewline(s, 22, 23) == Some(22);
    assert HeadingEnd(s, 0) == Some(22);
  }

  /** The marks, the blank and the words of the heading line. */
  lemma HeadingLinePrefix(s: string)
    requires |s| > |CommercialHeading| && s[..|CommercialHeading|] == CommercialHeading
    ensures HashesEnd(s, 0) == 2 && SpacesEnd(s, 2) == 3 && MatchesIgnoringCase(s, 3, Heading)
    ensures s[22] == '\n'
  {
    var hd := CommercialHeading;
    assert forall t :: 0 <= t < |hd| ==> s[t] == hd[t];
    assert HashesEnd(s, 2) == 2;
    assert SpacesEnd(s, 3) == 3;
    forall t | 0 <= t < |Heading| ensures ToUpper(s[3 + t]) == Heading[t] {
      assert s[3 + t] == hd[3 + t] == Heading[t];
    }
  }

  /** After the heading line, the section runs to the end of a text with
      no further `#`, and its body is all of it. */
  lemma HeadingSection(s: string)
    requires |s| > |CommercialHeading| && s[..|CommercialHeading|] == CommercialHeading
    requires !IsSpace(s[|CommercialHeading|])
    requires forall p :: |CommercialHeading| <= p < |s| ==> s[p] != '#'
    ensures CommercialPart(s) == Some(s[|CommercialHeading| - 1..])
    ensures Body(s[|CommercialHeading| - 1..]) == s[|CommercialHeading| - 1..]
  {
    var n := |CommercialHeading|;
    HeadingLineMatches(s);
    assert s[n - 1] == CommercialHeading[n - 1];
    NoHashNoHeading(s, n - 1);
    var part := s[n - 1..];
    assert forall p :: 0 <= p < |part| ==> part[p] == s[n - 1 + p];
    NoHashNoCut(part, 0);
  }

  /** Cleaning leaves cleaned text as it is. */
  lemma CleanFilePrices(s: string)
    requires IsSanitized(s) && CommercialPart(s).Some?
    ensures FilePrices(s) == Amounts(Groups(Body(CommercialPart(s).value), 0))
  {
    SanitizeFixedPoint(s);
  }

  lemma HeadedText(b: string)
    requires b != [] && !IsSpace(b[0]) && IsSanitized(b)
    requires forall p :: 0 <= p < |b| ==> b[p] != '#'
    ensures var s := CommercialHeading + b;
      && |s| > |CommercialHeading| && s[..|CommercialHeading|] == CommercialHeading
      && !IsSpace(s[|CommercialHeading|])
      && (forall p :: |CommercialHeading| <= p < |s| ==> s[p] != '#')
      && IsSanitized(s)
      && s[|CommercialHeading| - 1..] == "\n" + b
  {
    var s := CommercialHeading + b;
    var hd := CommercialHeading;
    assert forall p :: |hd| <= p < |s| ==> s[p] == b[p - |hd|];
    assert IsSanitized(hd);
  }

  /** A file whose COMMERCIAL PROPOSAL heading is followed by lines without
      further headings: every price in those lines is read, and nothing
      else. */
  lemma SectionPrices(b: string)
    requires b != [] && !IsSpace(b[0]) && IsSanitized(b)
    requires forall p :: 0 <= p < |b| ==> b[p] != '#'
    ensures FilePrices(CommercialHeading + b) == Amounts(Groups("\n" + b, 0))
  {
    var s := CommercialHeading + b;
    HeadedText(b);
    HeadingSection(s);
    CleanFilePrices(s);
  }

  /** A Markdown file whose COMMERCIAL PROPOSAL section quotes a price of
      4301 digits: `int()` raises the digit-limit error, and the whole
      extraction fails with it. */
  lemma OverlongPriceRejected(name: string)
    requires IsMdPath(name)
    ensures var ones := seq(MaxStrDigits + 1, _ => '1');
      Pricing([SourceFile(name, CommercialHeading + "Rs " + ones)]) == Err(DigitLimit(4301))
  {
    var ones := seq(MaxStrDigits + 1, _ => '1');
    DigitsPrice(name, ones);
    assert CommercialHeading + "Rs " + ones == CommercialHeading + ("Rs " + ones);
    OverlongAmountRejected();
  }

  /** A Markdown file whose COMMERCIAL PROPOSAL section is "Rs " and a run
      of digits: its pricing is the conversion of that run. */
  lemma DigitsPrice(name: string, d: string)
    requires IsMdPath(name) && d != [] && AllDigits(d)
    ensures forall t :: 0 <= t < |d| ==> IsAmountChar(d[t])
    ensures Pricing([SourceFile(name, CommercialHeading + ("Rs " + d))]) == Amounts([d])
  {
    DigitsFilePrices(d);
    PricingSingle(SourceFile(name, CommercialHeading + ("Rs " + d)));
  }

  /** The file text of `DigitsPrice` gives the conversion of its digits. */
  lemma DigitsFilePrices(d: string)
    requires d != [] && AllDigits(d)
    ensures forall t :: 0 <= t < |d| ==> IsAmountChar(d[t])
    ensures FilePrices(CommercialHeading + ("Rs " + d)) == Amounts([d])
  {
    var b := "Rs " + d;
    RsDigitsSection(d);
    SectionPrices(b);
    RsDigitsGroups(d);
  }

  /** A listing of one Markdown file is priced as that file. */
  lemma PricingSingle(f: SourceFile)
    requires IsMdPath(f.name)
    ensures Pricing([f]) == FilePrices(f.text)
  {
    assert [f][..0] == [];
    if FilePrices(f.text).Ok? {
      assert [] + FilePrices(f.text).value == FilePrices(f.text).value;
    }
  }

  /** "Rs " and a run of digits is sanitized text without `#`. */
  lemma RsDigitsSection(d: string)
    requires AllDigits(d)
    ensures var b := "Rs " + d;
      b != [] && !IsSpace(b[0]) && IsSanitized(b) && forall p :: 0 <= p < |b| ==> b[p] != '#'
  {
    var b := "Rs " + d;
    assert forall p :: 3 <= p < |b| ==> b[p] == d[p - 3];
  }

  /** The only price group of "\nRs " followed by a run of digits is that run. */
  lemma RsDigitsGroups(ones: string)
    requires ones != [] && AllDigits(ones)
    ensures Groups("\n" + ("Rs " + ones), 0) == [ones]
  {
    var s := "\n" + ("Rs " + ones);
    assert s[..4] == "\nRs ";
    assert !OccursAt(s, Rupee, 0) by { assert s[0..3][0] == '\n'; }
    assert !OccursAt(s, "Rs", 0) by { assert s[0..2][0] == '\n'; }
    assert PriceAt(s, 0) == None;
    assert OccursAt(s, "Rs", 1) by { assert s[1..3] == "Rs"; }
    assert !OccursAt(s, Rupee, 1) by { assert s[1..4][0] == 'R'; }
    assert s[3] == ' ' && s[4] == ones[0];
    assert SpacesEnd(s, 4) == 4;
    assert SpacesEnd(s, 3) == 4;
    assert forall t :: 4 <= t < |s| ==> s[t] == ones[t - 4];
    AmountEndRun(s, 4, |ones|);
    assert AmountEnd(s, 4) == |s|;
    assert s[4..|s|] == ones;
    assert PriceAt(s, 1) == Some((ones, |s|));
    assert Groups(s, |s|) == [];
  }

  /** The files `glob('*.md')` selects, in listing order. */
  function MdFiles(files: seq<SourceFile>): (r: seq<SourceFile>)
    ensures forall f :: f in r ==> f in files && IsMdPath(f.name)
  {
    if files == [] then []
    else
      var f := files[|files| - 1];
      MdFiles(files[..|files| - 1]) + (if IsMdPath(f.name) then [f] else [])
  }

  /** Only the `.md` files of the directory contribute prices or errors. */
  lemma {:induction false} PricingOnlyMd(files: seq<SourceFile>)
    ensures Pricing(files) == Pricing(MdFiles(files))
  {
    if files != [] {
      var init := files[..|files| - 1];
      var f := files[|files| - 1];
      PricingOnlyMd(init);
      var m := MdFiles(init);
      if IsMdPath(f.name) {
        assert (m + [f])[..|m|] == m;
      } else {
        assert m + [] == m;
      }
    }
  }
}
