/** The Python `str` operations the core is built from: `isspace`, `strip`,
    `split`, `join`, `find`, `count`, `lower`, `title`, slicing and `int()`
    on a run of digits. Character classes that Python defines over all of
    Unicode (`lower`, `title`, `\w`, `\d`) are given for ASCII. Most texts
    they are applied to in the core have been through the sanitizer first,
    which leaves only ASCII and the non-breaking space; metric keys,
    grading-scale names and DOCX style names have not, and on those the
    ASCII forms differ from Python's for letters outside ASCII. */
module TextOps {
  import opened Wrappers

  /** Python's `str.isspace()` (and the regex class `\s`) for one character. */
  predicate IsSpace(c: char) {
    || c == ' ' || ('\t' <= c <= '\r') || ('\U{1C}' <= c <= '\U{1F}')
    || c == '\U{85}' || c == '\U{A0}' || c == '\U{1680}'
    || ('\U{2000}' <= c <= '\U{200A}') || c == '\U{2028}' || c == '\U{2029}'
    || c == '\U{202F}' || c == '\U{205F}' || c == '\U{3000}'
  }

  predicate IsDigit(c: char) { '0' <= c <= '9' }
  predicate IsUpper(c: char) { 'A' <= c <= 'Z' }
  predicate IsLowerLetter(c: char) { 'a' <= c <= 'z' }
  predicate IsLetter(c: char) { IsUpper(c) || IsLowerLetter(c) }
  /** The regex class `\w`. */
  predicate IsWordChar(c: char) { IsLetter(c) || IsDigit(c) || c == '_' }

  predicate AllDigits(s: string) { forall i :: 0 <= i < |s| ==> IsDigit(s[i]) }
  predicate NoSpace(s: string) { forall i :: 0 <= i < |s| ==> !IsSpace(s[i]) }

  function ToLower(c: char): (r: char)
    ensures !IsUpper(r)
    ensures IsLetter(c) <==> IsLetter(r)
  {
    if IsUpper(c) then (c as int + 32) as char else c
  }

  function ToUpper(c: char): (r: char)
    ensures !IsLowerLetter(r)
    ensures IsLetter(c) <==> IsLetter(r)
  {
    if IsLowerLetter(c) then (c as int - 32) as char else c
  }

  /** `str.lower()`. */
  function Lower(s: string): (r: string)
    ensures |r| == |s|
    ensures forall i :: 0 <= i < |s| ==> r[i] == ToLower(s[i])
  {
    seq(|s|, i requires 0 <= i < |s| => ToLower(s[i]))
  }

  lemma LowerConcat(a: string, b: string)
    ensures Lower(a + b) == Lower(a) + Lower(b)
  {
    assert forall i :: 0 <= i < |a + b| ==> Lower(a + b)[i] == (Lower(a) + Lower(b))[i];
  }

  /** `str.title()` for ASCII letters: a letter is upper-cased when it starts
      a run of letters and lower-cased otherwise; other characters, including
      letters outside ASCII, are kept and end a run. */
  function TitleFrom(s: string, afterLetter: bool): (r: string)
    ensures |r| == |s|
    ensures forall i :: 0 <= i < |s| ==> (IsLetter(r[i]) <==> IsLetter(s[i]))
    ensures forall i :: 0 <= i < |s| && !IsLetter(s[i]) ==> r[i] == s[i]
  {
    if s == [] then []
    else
      var c := s[0];
      var out := if !IsLetter(c) then c else if afterLetter then ToLower(c) else ToUpper(c);
      [out] + TitleFrom(s[1..], IsLetter(c))
  }

  function Title(s: string): (r: string)
    ensures |r| == |s|
  {
    TitleFrom(s, false)
  }

  /** How many blanks `s` starts with. */
  function LeadingBlanks(s: string): (r: nat)
    ensures r <= |s| && (r == |s| || !IsSpace(s[r]))
  {
    if s != [] && IsSpace(s[0]) then 1 + LeadingBlanks(s[1..]) else 0
  }

  /** `str.lstrip()`. */
  function LStrip(s: string): string {
    s[LeadingBlanks(s)..]
  }

  /** `lstrip` removes blanks only. */
  lemma {:induction false} LStripRemovesBlanks(s: string)
    ensures forall i :: 0 <= i < LeadingBlanks(s) ==> IsSpace(s[i])
  {
    if s != [] && IsSpace(s[0]) {
      LStripRemovesBlanks(s[1..]);
      assert forall i :: 1 <= i < LeadingBlanks(s) ==> s[i] == s[1..][i - 1];
    }
  }

  /** Where the trailing blanks of `s` start. */
  function TrailingBlanksStart(s: string): (r: nat)
    ensures r <= |s| && (r == 0 || !IsSpace(s[r - 1]))
  {
    if s != [] && IsSpace(s[|s| - 1]) then TrailingBlanksStart(s[..|s| - 1]) else |s|
  }

  /** `str.rstrip()`. */
  function RStrip(s: string): string {
    s[..TrailingBlanksStart(s)]
  }

  /** `rstrip` removes blanks only. */
  lemma {:induction false} RStripRemovesBlanks(s: string)
    ensures forall i :: TrailingBlanksStart(s) <= i < |s| ==> IsSpace(s[i])
  {
    if s != [] && IsSpace(s[|s| - 1]) {
      RStripRemovesBlanks(s[..|s| - 1]);
    }
  }

  predicate IsStripped(s: string) {
    s == [] || (!IsSpace(s[0]) && !IsSpace(s[|s| - 1]))
  }

  /** `str.strip()`. */
  function Strip(s: string): (r: string)
    ensures IsStripped(r)
    ensures |r| <= |s|
  {
    var l := LStrip(s);
    var r := RStrip(l);
    assert r != [] ==> r[0] == l[0];
    r
  }

  /** Text without blanks is left as it is. */
  lemma StripNoSpace(s: string)
    requires NoSpace(s)
    ensures Strip(s) == s
  {
    if s != [] {
      assert LStrip(s) == s;
      assert RStrip(s) == s;
    }
  }

  lemma StripStripped(s: string)
    requires IsStripped(s)
    ensures Strip(s) == s
  {
  }

  /** `str.split(sep)` for a one-character separator: always at least one
      piece, and no piece contains the separator. */
  function Split(s: string, sep: char): (r: seq<string>)
    ensures |r| >= 1
    ensures forall i :: 0 <= i < |r| ==> sep !in r[i]
  {
    if s == [] then [[]]
    else
      var rest := Split(s[1..], sep);
      if s[0] == sep then [[]] + rest else [[s[0]] + rest[0]] + rest[1..]
  }

  /** `sep.join(parts)`. */
  function Join(parts: seq<string>, sep: string): string {
    if |parts| == 0 then []
    else if |parts| == 1 then parts[0]
    else parts[0] + sep + Join(parts[1..], sep)
  }

  lemma JoinAppend(parts: seq<string>, last: string, sep: string)
    requires |parts| >= 1
    ensures Join(parts + [last], sep) == Join(parts, sep) + sep + last
  {
    if |parts| == 1 {
      assert Join(parts + [last], sep) == parts[0] + sep + Join([last], sep);
    } else {
      assert (parts + [last])[1..] == parts[1..] + [last];
      JoinAppend(parts[1..], last, sep);
    }
  }

  /** Joining the pieces of a split with the separator gives back the text. */
  lemma {:induction false} JoinSplit(s: string, sep: char)
    ensures Join(Split(s, sep), [sep]) == s
  {
    if s != [] {
      var rest := Split(s[1..], sep);
      JoinSplit(s[1..], sep);
      if s[0] == sep {
        assert Join([[]] + rest, [sep]) == [] + [sep] + Join(rest, [sep]);
      } else if |rest| == 1 {
        assert Split(s, sep) == [[s[0]] + rest[0]];
      } else {
        JoinConsHead(s[0], rest, sep);
      }
    }
  }

  /** Putting a character in front of the first part puts it in front of
      the joined text. */
  lemma JoinConsHead(c: char, rest: seq<string>, sep: char)
    requires |rest| > 1
    ensures Join([[c] + rest[0]] + rest[1..], [sep]) == [c] + Join(rest, [sep])
  {
    var parts := [[c] + rest[0]] + rest[1..];
    assert parts[1..] == rest[1..];
  }

  lemma {:induction false} SplitNoSep(s: string, sep: char)
    requires sep !in s
    ensures Split(s, sep) == [s]
  {
    if s != [] {
      SplitNoSep(s[1..], sep);
      assert s == [s[0]] + s[1..];
    }
  }

  lemma {:induction false} SplitAppend(a: string, b: string, sep: char)
    requires sep !in a
    ensures Split(a + [sep] + b, sep) == Split(a, sep) + Split(b, sep)
  {
    if a == [] {
      assert a + [sep] + b == [sep] + b;
      assert ([sep] + b)[1..] == b;
    } else {
      assert (a + [sep] + b)[1..] == a[1..] + [sep] + b;
      SplitAppend(a[1..], b, sep);
      SplitNoSep(a[1..], sep);
      SplitNoSep(a, sep);
    }
  }

  /** Splitting a join of separator-free pieces gives back the pieces. */
  lemma {:induction false} SplitJoin(parts: seq<string>, sep: char)
    requires |parts| >= 1
    requires forall i :: 0 <= i < |parts| ==> sep !in parts[i]
    ensures Split(Join(parts, [sep]), sep) == parts
  {
    if |parts| == 1 {
      SplitNoSep(parts[0], sep);
    } else {
      SplitJoin(parts[1..], sep);
      SplitAppend(parts[0], Join(parts[1..], [sep]), sep);
      SplitNoSep(parts[0], sep);
      assert parts == [parts[0]] + parts[1..];
    }
  }

  /** The longest prefix of `s` without whitespace. */
  function WordPrefix(s: string): (w: string)
    ensures |w| <= |s| && w == s[..|w|] && NoSpace(w)
    ensures |w| < |s| ==> IsSpace(s[|w|])
  {
    if s == [] || IsSpace(s[0]) then [] else [s[0]] + WordPrefix(s[1..])
  }

  /** `str.split()` with no argument: the maximal runs of non-whitespace. */
  function Words(s: string): (r: seq<string>)
    ensures forall i :: 0 <= i < |r| ==> r[i] != [] && NoSpace(r[i])
    decreases |s|
  {
    if s == [] then []
    else if IsSpace(s[0]) then Words(s[1..])
    else
      var w := WordPrefix(s);
      [w] + Words(s[|w|..])
  }

  lemma {:induction false} WordPrefixOf(w: string, rest: string)
    requires NoSpace(w)
    requires rest == [] || IsSpace(rest[0])
    ensures WordPrefix(w + rest) == w
  {
    if w != [] {
      assert (w + rest)[1..] == w[1..] + rest;
      WordPrefixOf(w[1..], rest);
    }
  }

  /** Splitting a single-space join of non-empty words without whitespace
      gives back the words. */
  lemma {:induction false} WordsJoin(ws: seq<string>)
    requires forall i :: 0 <= i < |ws| ==> ws[i] != [] && NoSpace(ws[i])
    ensures Words(Join(ws, " ")) == ws
  {
    if |ws| == 1 {
      WordPrefixOf(ws[0], []);
      assert ws[0] + [] == ws[0];
      assert ws[0][|ws[0]|..] == [];
    } else if |ws| > 1 {
      var rest := Join(ws[1..], " ");
      var s := ws[0] + " " + rest;
      WordPrefixOf(ws[0], " " + rest);
      assert s == ws[0] + (" " + rest);
      assert s[|ws[0]|..] == " " + rest;
      assert (" " + rest)[1..] == rest;
      WordsJoin(ws[1..]);
      assert ws == [ws[0]] + ws[1..];
    }
  }

  /** `sub` occurs in `s` at position `i`. */
  predicate OccursAt(s: string, sub: string, i: int) {
    0 <= i && i + |sub| <= |s| && s[i..i + |sub|] == sub
  }

  /** `s.find(sub, start)`: the lowest position at or after `start` where
      `sub` occurs, or -1. */
  function Find(s: string, sub: string, start: nat): (r: int)
    ensures r == -1 || (start <= r && OccursAt(s, sub, r))
    ensures forall j :: start <= j && (r == -1 || j < r) ==> !OccursAt(s, sub, j)
    decreases |s| - start
  {
    if start + |sub| > |s| then -1
    else if OccursAt(s, sub, start) then start
    else Find(s, sub, start + 1)
  }

  /** `sub in s`. */
  predicate Contains(s: string, sub: string) {
    Find(s, sub, 0) >= 0
  }

  lemma ContainsIff(s: string, sub: string)
    ensures Contains(s, sub) <==> exists j :: OccursAt(s, sub, j)
  {
  }

  function CountFrom(s: string, sub: string, start: nat): nat
    requires sub != []
    decreases |s| - start
  {
    var i := Find(s, sub, start);
    if i < 0 then 0 else 1 + CountFrom(s, sub, i + |sub|)
  }

  /** `s.count(sub)`: non-overlapping occurrences, scanning from the left;
      the empty string is counted `len(s) + 1` times. */
  function Count(s: string, sub: string): nat {
    if sub == [] then |s| + 1 else CountFrom(s, sub, 0)
  }

  predicate StartsWith(s: string, prefix: string) {
    |prefix| <= |s| && s[..|prefix|] == prefix
  }

  predicate EndsWith(s: string, suffix: string) {
    |suffix| <= |s| && s[|s| - |suffix|..] == suffix
  }

  /** Python's normalisation of a slice bound: negative bounds count from
      the end, and bounds are clamped to `[0, len]`. */
  function SliceBound(len: nat, x: int): (r: nat)
    ensures r <= len
  {
    if x < 0 then (if x + len < 0 then 0 else x + len) else if x > len then len else x
  }

  /** `s[start:end]`. */
  function Slice(s: string, start: int, end: int): (r: string)
    ensures |r| <= |s|
  {
    var a := SliceBound(|s|, start);
    var b := SliceBound(|s|, end);
    if a < b then s[a..b] else []
  }

  /** `s[:n]`. */
  function Prefix(s: string, n: nat): (r: string)
    ensures |r| <= n && |r| <= |s| && r == s[..|r|]
    ensures |s| <= n ==> r == s
  {
    if |s| <= n then s else s[..n]
  }

  function Repeat(c: char, n: nat): (r: string)
    ensures |r| == n && forall i :: 0 <= i < n ==> r[i] == c
  {
    seq(n, _ => c)
  }

  function DigitChar(d: nat): (c: char)
    requires d < 10
    ensures IsDigit(c)
  {
    ('0' as int + d) as char
  }

  /** `int(s)` on a non-empty run of decimal digits. */
  function ParseNat(s: string): nat
    requires AllDigits(s)
  {
    if s == [] then 0 else 10 * ParseNat(s[..|s| - 1]) + (s[|s| - 1] as int - '0' as int)
  }

  /** CPython's default limit on the digits `int()` converts from a decimal
      string (`sys.get_int_max_str_digits()`). */
  const MaxStrDigits := 4300

  /** The ValueError `int()` raises on a string of decimal digits: the
      string is empty, or it has more than `MaxStrDigits` digits. */
  datatype IntError = EmptyLiteral | DigitLimit(digits: nat)

  /** An error `int()` can raise: a digit-limit error names more digits
      than the limit. */
  predicate IsRaised(e: IntError) {
    e.DigitLimit? ==> MaxStrDigits < e.digits
  }

  /** The message Python gives each of these errors. */
  function IntErrorMessage(e: IntError): string {
    match e
    case EmptyLiteral => "invalid literal for int() with base 10: ''"
    case DigitLimit(n) =>
      "Exceeds the limit (4300 digits) for integer string conversion: value has "
        + NatToString(n) + " digits; use sys.set_int_max_str_digits() to increase the limit"
  }

  /** `int(d)` on a string of decimal digits: the number they spell, or the
      ValueError for the empty string and for more than `MaxStrDigits`
      digits. */
  function IntOfDigits(d: string): (r: Result<nat, IntError>)
    requires AllDigits(d)
    ensures r.Ok? <==> 0 < |d| <= MaxStrDigits
    ensures r.Err? ==> IsRaised(r.error)
    ensures d == [] ==> r == Err(EmptyLiteral)
    ensures MaxStrDigits < |d| ==> r == Err(DigitLimit(|d|))
  {
    if d == [] then Err(EmptyLiteral)
    else if |d| > MaxStrDigits then Err(DigitLimit(|d|))
    else Ok(ParseNat(d))
  }

  /** `int(str(n))` gives n back exactly when `str(n)` is within the digit
      limit, and raises the limit error otherwise. */
  lemma IntOfDigitsRoundTrip(n: nat)
    ensures var d := NatToString(n);
      IntOfDigits(d) == if |d| <= MaxStrDigits then Ok(n) else Err(DigitLimit(|d|))
  {
    ParseNatToString(n);
  }

  /** The end of the run of `\s` characters starting at `i`. */
  function SpacesEnd(s: string, i: nat): (r: nat)
    requires i <= |s|
    ensures i <= r <= |s|
    ensures forall t :: i <= t < r ==> IsSpace(s[t])
    ensures r < |s| ==> !IsSpace(s[r])
    decreases |s| - i
  {
    if i < |s| && IsSpace(s[i]) then SpacesEnd(s, i + 1) else i
  }

  /** The end of the run of digits from `i`. */
  function DigitRunEnd(s: string, i: nat): (r: nat)
    requires i <= |s|
    ensures i <= r <= |s|
    ensures forall t :: i <= t < r ==> IsDigit(s[t])
    ensures r < |s| ==> !IsDigit(s[r])
    decreases |s| - i
  {
    if i < |s| && IsDigit(s[i]) then DigitRunEnd(s, i + 1) else i
  }

  /** `str(n)` for a natural number. */
  function NatToString(n: nat): (r: string)
    ensures r != [] && AllDigits(r)
  {
    if n < 10 then [DigitChar(n)] else NatToString(n / 10) + [DigitChar(n % 10)]
  }

  lemma {:induction false} ParseNatToString(n: nat)
    ensures ParseNat(NatToString(n)) == n
  {
    if n >= 10 {
      var s := NatToString(n);
      assert s[..|s| - 1] == NatToString(n / 10);
      ParseNatToString(n / 10);
    }
  }
}
