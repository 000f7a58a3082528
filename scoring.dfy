/** `calculate_weighted_score` (generation_engine.py): the score of each
    configured metric is read out of an analysis text, the found scores are
    averaged by weight, the average is clamped to [0, 100], and a grade is
    looked up in the grading scale. */
module Scoring {
  import opened Wrappers
  import opened TextOps
  import opened Sanitizer
  import opened OrderedDict
  import opened Ranking

  // ---------------------------------------------------------------------
  // Reading one metric's score

  /** `metric.replace('_', ' ').title()`. */
  function Label(metric: string): (r: string)
    ensures |r| == |metric|
  {
    Title(seq(|metric|, i requires 0 <= i < |metric| => if metric[i] == '_' then ' ' else metric[i]))
  }

  /** A score token starts at `q` of the lower-cased text: a digit (`\d+`)
      or `n/a` (`N/A` matched without regard to case). */
  predicate TokenAt(low: string, q: nat) {
    q < |low| && (IsDigit(low[q]) || (q + 3 <= |low| && low[q..q + 3] == "n/a"))
  }

  /** The first token at or after `from`, or -1. */
  function TokenStart(low: string, from: nat): (r: int)
    requires from <= |low|
    ensures r == -1 || (from <= r && TokenAt(low, r))
    ensures forall j :: from <= j && (r == -1 || j < r) ==> !TokenAt(low, j)
    decreases |low| - from
  {
    if from == |low| then -1
    else if TokenAt(low, from) then from
    else TokenStart(low, from + 1)
  }

  /** Where the pattern `label.*?(\d+|N/A)` finds its token: after the
      leftmost occurrence of the label, the first token; -1 for no match. */
  function TokenPos(low: string, lab: string): int {
    var p := Find(low, lab, 0);
    if p < 0 then -1 else TokenStart(low, p + |lab|)
  }

  /** The value of the token at `q`: a digit run read as a number and
      capped at 100; nothing for `N/A`, and nothing where `int()` raises
      (the `except ValueError`), which is a run of more than `MaxStrDigits`
      digits. */
  function TokenValue(low: string, q: nat): (r: Option<nat>)
    requires TokenAt(low, q)
    ensures r.Some? <==> IsDigit(low[q]) && DigitRunEnd(low, q) - q <= MaxStrDigits
    ensures r.Some? ==> r.value <= 100
  {
    if !IsDigit(low[q]) then None
    else
      var n := IntOfDigits(low[q..DigitRunEnd(low, q)]);
      if n.Err? then None else Some(if n.value > 100 then 100 else n.value)
  }

  /** The score of the metric labelled `label` in the cleaned analysis
      text; nothing when the pattern does not match or matches `N/A`. */
  function ScoreFor(text: string, caption: string): (r: Option<nat>)
    ensures r.Some? ==> r.value <= 100
  {
    var low := Lower(RemoveProblematicChars(text));
    var q := TokenPos(low, Lower(caption));
    if q < 0 then None else TokenValue(low, q)
  }

  /** The pattern matches with the label at `p` and its token at `q`: the
      lazy `.*?` stops at the first token after the label. */
  predicate MatchAt(low: string, lab: string, p: int, q: int) {
    && OccursAt(low, lab, p)
    && p + |lab| <= q
    && TokenAt(low, q)
    && forall j :: p + |lab| <= j < q ==> !TokenAt(low, j)
  }

  // ---------------------------------------------------------------------
  // The composite score

  /** The individual scores, in the order of the weights. */
  function Scores(text: string, weights: Dict<string, real>): (r: Dict<string, Option<nat>>)
    ensures |r| == |weights|
    ensures forall i :: 0 <= i < |weights| ==> r[i] == (weights[i].0, ScoreFor(text, Label(weights[i].0)))
  {
    seq(|weights|, i requires 0 <= i < |weights| => (weights[i].0, ScoreFor(text, Label(weights[i].0))))
  }

  /** What a metric adds to the weighted sum: its score times its weight,
      or nothing when it has no score. */
  function Contribution(score: Option<nat>, weight: real): real {
    if score.Some? then score.value as real * weight else 0.0
  }

  /** The weighted sum of the first `n` found scores. */
  function WeightedTotal(weights: Dict<string, real>, scores: Dict<string, Option<nat>>, n: nat): real
    requires n <= |weights| == |scores|
  {
    if n == 0 then 0.0
    else
      WeightedTotal(weights, scores, n - 1) + Contribution(scores[n - 1].1, weights[n - 1].1)
  }

  /** `sum(weights.values())` over the first `n` weights. */
  function WeightSum(weights: Dict<string, real>, n: nat): real
    requires n <= |weights|
  {
    if n == 0 then 0.0 else WeightSum(weights, n - 1) + weights[n - 1].1
  }

  /** `max(0, min(total / sum if sum > 0 else 0, 100))`. */
  function Normalised(total: real, sum: real): (r: real)
    ensures 0.0 <= r <= 100.0
    ensures sum <= 0.0 ==> r == 0.0
  {
    var x := if sum > 0.0 then total / sum else 0.0;
    var y := if x < 100.0 then x else 100.0;
    if y > 0.0 then y else 0.0
  }

  /** The score used for grading and returned. */
  function FinalScore(text: string, weights: Dict<string, real>): real {
    Normalised(WeightedTotal(weights, Scores(text, weights), |weights|), WeightSum(weights, |weights|))
  }

  // ---------------------------------------------------------------------
  // The grade

  /** An element of a grading range as configured: a number, or anything
      else. */
  datatype Bound = Num(x: real) | NotNum

  /** A range is usable when it is a list of exactly two numbers. */
  predicate WellFormed(range: seq<Bound>) {
    |range| == 2 && range[0].Num? && range[1].Num?
  }

  predicate Fits(range: seq<Bound>, score: real) {
    WellFormed(range) && range[0].x <= score <= range[1].x
  }

  /** The sort keys `item[1][0]`, or nothing when sorting raises: an empty
      range has no first element, and a key that is not a number cannot be
      compared with another key. */
  function SortKeys(scale: Dict<string, seq<Bound>>): (r: Option<seq<real>>)
    ensures r.Some? ==> |r.value| == |scale|
    ensures r.Some? <==> ((forall i :: 0 <= i < |scale| ==> scale[i].1 != [])
      && (|scale| >= 2 ==> forall i :: 0 <= i < |scale| ==> scale[i].1[0].Num?))
  {
    if exists i :: 0 <= i < |scale| && scale[i].1 == [] then None
    else if |scale| >= 2 && exists i :: 0 <= i < |scale| && scale[i].1[0].NotNum? then None
    else Some(seq(|scale|, i requires 0 <= i < |scale| => if scale[i].1[0].Num? then scale[i].1[0].x else 0.0))
  }

  /** The index of the first entry whose range holds the score, or -1. */
  function FirstFit(entries: Dict<string, seq<Bound>>, score: real): (r: int)
    ensures -1 <= r < |entries|
    ensures r >= 0 ==> Fits(entries[r].1, score)
    ensures forall j :: 0 <= j < |entries| && (r < 0 || j < r) ==> !Fits(entries[j].1, score)
  {
    if entries == [] then -1
    else if Fits(entries[0].1, score) then 0
    else
      var k := FirstFit(entries[1..], score);
      if k < 0 then -1 else k + 1
  }

  /** The grade: the title-cased name of the first entry, by descending
      lower bound, whose range holds the score; "N/A" when none does;
      nothing when sorting the scale raises. The name is not sanitized, and
      `Title` maps ASCII case only. */
  function Grade(scale: Dict<string, seq<Bound>>, score: real): Option<string> {
    var keys := SortKeys(scale);
    if keys.None? then None
    else
      var sorted := SortDesc(scale, keys.value);
      var k := FirstFit(sorted, score);
      Some(if k < 0 then "N/A" else Title(sorted[k].0))
  }

  /** The three results: the final score, the individual scores and the
      grade. */
  datatype Report = Report(score: real, individual: Dict<string, Option<nat>>, grade: string)

  /** `calculate_weighted_score`; nothing when it raises. */
  function WeightedScore(text: string, weights: Dict<string, real>, scale: Dict<string, seq<Bound>>): Option<Report> {
    var score := FinalScore(text, weights);
    var grade := Grade(scale, score);
    if grade.None? then None else Some(Report(score, Scores(text, weights), grade.value))
  }

  // ---------------------------------------------------------------------
  // The method

  /** The loop over the metrics: each one's score is looked up and the
      found ones are added up by weight. */
  method ScoreMetrics(text: string, weights: Dict<string, real>)
    returns (individual: Dict<string, Option<nat>>, total: real)
    ensures individual == Scores(text, weights)
    ensures total == WeightedTotal(weights, Scores(text, weights), |weights|)
  {
    ghost var scores := Scores(text, weights);
    individual := [];
    total := 0.0;
    for i := 0 to |weights|
      invariant |individual| == i && forall j :: 0 <= j < i ==> individual[j] == scores[j]
      invariant total == WeightedTotal(weights, scores, i)
    {
      var (metric, w) := weights[i];
      var score := ScoreFor(text, Label(metric));
      assert scores[i] == (metric, score);
      individual := individual + [(metric, score)];
      total := total + Contribution(score, w);
    }
  }

  /** The scan of the sorted scale for the first range that holds the
      score. */
  method FindGrade(sorted: Dict<string, seq<Bound>>, score: real) returns (grade: string)
    ensures var k := FirstFit(sorted, score); grade == if k < 0 then "N/A" else Title(sorted[k].0)
  {
    grade := "N/A";
    var k := 0;
    while k < |sorted|
      invariant k <= |sorted|
      invariant forall j :: 0 <= j < k ==> !Fits(sorted[j].1, score)
    {
      if Fits(sorted[k].1, score) {
        grade := Title(sorted[k].0);
        return;
      }
      k := k + 1;
    }
  }

  method CalculateWeightedScore(text: string, weights: Dict<string, real>, scale: Dict<string, seq<Bound>>)
    returns (report: Option<Report>)
    ensures report == WeightedScore(text, weights, scale)
  {
    var individual, total := ScoreMetrics(text, weights);
    var final := Normalised(total, WeightSum(weights, |weights|));
    var keys := SortKeys(scale);
    if keys.None? {
      return None;
    }
    var grade := FindGrade(SortDesc(scale, keys.value), final);
    report := Some(Report(final, individual, grade));
  }

  // ---------------------------------------------------------------------
  // Properties

  /** The token position is the regular-expression search's: the first
      token after the leftmost label occurrence, and no occurrence further
      left has a match; -1 exactly when the pattern matches nowhere. */
  lemma TokenPosIsLeftmostMatch(low: string, lab: string)
    ensures var q := TokenPos(low, lab);
      q >= 0 ==> exists p :: MatchAt(low, lab, p, q) && forall p', q' :: MatchAt(low, lab, p', q') ==> p <= p'
    ensures TokenPos(low, lab) < 0 ==> forall p, q :: !MatchAt(low, lab, p, q)
  {
    var p := Find(low, lab, 0);
    var q := TokenPos(low, lab);
    if q >= 0 {
      assert MatchAt(low, lab, p, q);
    }
  }

  /** A metric whose label is not in the text has no score. */
  lemma AbsentLabelNoScore(text: string, caption: string)
    requires !Contains(Lower(RemoveProblematicChars(text)), Lower(caption))
    ensures ScoreFor(text, caption) == None
  {
  }

  /** The final score always lies in [0, 100]. */
  lemma FinalScoreInRange(text: string, weights: Dict<string, real>)
    ensures 0.0 <= FinalScore(text, weights) <= 100.0
  {
  }

  lemma {:induction false} NothingFoundTotal(weights: Dict<string, real>, scores: Dict<string, Option<nat>>, n: nat)
    requires n <= |weights| == |scores|
    requires forall i :: 0 <= i < n ==> scores[i].1 == None
    ensures WeightedTotal(weights, scores, n) == 0.0
  {
    if n > 0 {
      NothingFoundTotal(weights, scores, n - 1);
    }
  }

  /** When no metric has a score, the final score is 0. */
  lemma NothingFoundScoresZero(text: string, weights: Dict<string, real>)
    requires forall i :: 0 <= i < |weights| ==> ScoreFor(text, Label(weights[i].0)) == None
    ensures FinalScore(text, weights) == 0.0
  {
    NothingFoundTotal(weights, Scores(text, weights), |weights|);
  }

  lemma {:induction false} UniformTotal(weights: Dict<string, real>, scores: Dict<string, Option<nat>>, v: nat, n: nat)
    requires n <= |weights| == |scores|
    requires forall i :: 0 <= i < n ==> scores[i].1 == Some(v)
    ensures WeightedTotal(weights, scores, n) == v as real * WeightSum(weights, n)
  {
    if n > 0 {
      UniformTotal(weights, scores, v, n - 1);
    }
  }

  /** The score is a weighted average: in exact arithmetic, when every
      metric scores the same value and the weights sum to a positive
      number, the final score is that value. */
  lemma UniformScores(text: string, weights: Dict<string, real>, v: nat)
    requires forall i :: 0 <= i < |weights| ==> ScoreFor(text, Label(weights[i].0)) == Some(v)
    requires WeightSum(weights, |weights|) > 0.0
    ensures FinalScore(text, weights) == v as real
  {
    var scores := Scores(text, weights);
    UniformScoresFound(text, weights, v);
    UniformFinal(weights, scores, v);
  }

  lemma UniformScoresFound(text: string, weights: Dict<string, real>, v: nat)
    requires |weights| > 0
    requires forall i :: 0 <= i < |weights| ==> ScoreFor(text, Label(weights[i].0)) == Some(v)
    ensures v <= 100
    ensures forall i :: 0 <= i < |weights| ==> Scores(text, weights)[i].1 == Some(v)
  {
    assert ScoreFor(text, Label(weights[0].0)) == Some(v);
  }

  lemma UniformFinal(weights: Dict<string, real>, scores: Dict<string, Option<nat>>, v: nat)
    requires |weights| == |scores| && v <= 100
    requires forall i :: 0 <= i < |scores| ==> scores[i].1 == Some(v)
    requires WeightSum(weights, |weights|) > 0.0
    ensures Normalised(WeightedTotal(weights, scores, |weights|), WeightSum(weights, |weights|)) == v as real
  {
    UniformTotal(weights, scores, v, |weights|);
    NormalisedAverage(v as real, WeightSum(weights, |weights|));
  }

  lemma NormalisedAverage(v: real, sum: real)
    requires 0.0 <= v <= 100.0 && sum > 0.0
    ensures Normalised(v * sum, sum) == v
  {
    assert v * sum / sum == v;
  }

  /** Entry `i` outranks entry `j` in the sorted scale: its lower bound is
      higher, or equal with `i` first in the scale. */
  predicate Outranks(scale: Dict<string, seq<Bound>>, i: nat, j: nat)
    requires i < |scale| && j < |scale|
    requires WellFormed(scale[i].1) && WellFormed(scale[j].1)
  {
    scale[j].1[0].x < scale[i].1[0].x || (scale[j].1[0].x == scale[i].1[0].x && i <= j)
  }

  /** The grade follows the loop over the scale sorted by descending lower
      bound: a grade other than "N/A" names the fitting entry with the
      greatest lower bound, the earliest in the scale among equal bounds,
      and "N/A" means no entry's range holds the score. */
  lemma GradeNamesFittingEntry(scale: Dict<string, seq<Bound>>, score: real)
    requires SortKeys(scale).Some?
    ensures var g := Grade(scale, score).value;
      (g == "N/A" && forall i :: 0 <= i < |scale| ==> !Fits(scale[i].1, score))
      || exists i :: 0 <= i < |scale| && Fits(scale[i].1, score) && g == Title(scale[i].0)
           && forall j :: 0 <= j < |scale| && Fits(scale[j].1, score) ==> Outranks(scale, i, j)
  {
    var keys := SortKeys(scale).value;
    var sorted := SortDesc(scale, keys);
    var k := FirstFit(sorted, score);
    var order := RankDesc(keys);
    if k >= 0 {
      var i := order[k];
      assert sorted[k] == scale[i];
      forall j | 0 <= j < |scale| && Fits(scale[j].1, score) ensures Outranks(scale, i, j) {
        FitOutranked(scale, score, keys, k, j);
      }
    } else {
      forall i | 0 <= i < |scale| ensures !Fits(scale[i].1, score) {
        assert i in order;
        var j :| 0 <= j < |order| && order[j] == i;
        assert sorted[j] == scale[i];
      }
    }
  }

  /** A fitting entry is outranked by the first fitting entry of the
      sorted scale. */
  lemma FitOutranked(scale: Dict<string, seq<Bound>>, score: real, keys: seq<real>, k: nat, j: nat)
    requires SortKeys(scale) == Some(keys)
    requires k < |scale| && FirstFit(SortDesc(scale, keys), score) == k
    requires j < |scale| && Fits(scale[j].1, score)
    ensures RankDesc(keys)[k] < |scale| && WellFormed(scale[RankDesc(keys)[k]].1)
    ensures Outranks(scale, RankDesc(keys)[k], j)
  {
    var order := RankDesc(keys);
    var sorted := SortDesc(scale, keys);
    var i := order[k];
    assert sorted[k] == scale[i];
    assert j in order;
    var p :| 0 <= p < |order| && order[p] == j;
    assert sorted[p] == scale[j];
    assert k <= p;
    if k < p {
      RankedOrder(keys, order, k, p);
    }
    KeyIsLowerBound(scale, keys, i);
    KeyIsLowerBound(scale, keys, j);
  }

  /** The sort key of a usable range is its lower bound. */
  lemma KeyIsLowerBound(scale: Dict<string, seq<Bound>>, keys: seq<real>, i: nat)
    requires SortKeys(scale) == Some(keys)
    requires i < |scale| && WellFormed(scale[i].1)
    ensures keys[i] == scale[i].1[0].x
  {
  }

  /** When exactly one entry's range holds the score, that entry gives the
      grade. */
  lemma SingleFitGrade(scale: Dict<string, seq<Bound>>, score: real, i: nat)
    requires SortKeys(scale).Some?
    requires i < |scale| && Fits(scale[i].1, score)
    requires forall j :: 0 <= j < |scale| && j != i ==> !Fits(scale[j].1, score)
    ensures Grade(scale, score) == Some(Title(scale[i].0))
  {
    var keys := SortKeys(scale).value;
    var sorted := SortDesc(scale, keys);
    var order := RankDesc(keys);
    assert i in order;
    var j :| 0 <= j < |order| && order[j] == i;
    assert sorted[j] == scale[i];
    var k := FirstFit(sorted, score);
    assert k >= 0;
    assert sorted[k] == scale[order[k]];
    RankedDistinct(keys, order);
  }

  /** An empty range makes the grading raise. */
  lemma EmptyRangeRaises(scale: Dict<string, seq<Bound>>, score: real, i: nat)
    requires i < |scale| && scale[i].1 == []
    ensures Grade(scale, score) == None
  {
  }

  const DefaultScale: Dict<string, seq<Bound>> := [
    ("excellent", [Num(90.0), Num(100.0)]),
    ("good", [Num(70.0), Num(89.0)]),
    ("fair", [Num(50.0), Num(69.0)]),
    ("poor", [Num(0.0), Num(49.0)])
  ]

  lemma DefaultScaleSorts()
    ensures SortKeys(DefaultScale).Some?
  {
    forall i | 0 <= i < |DefaultScale| ensures DefaultScale[i].1 != [] && DefaultScale[i].1[0].Num? {
      assert DefaultScale[i].1[0].Num?;
    }
  }

  /** The default scale leaves gaps between its integer ranges: 89.5 gets
      no grade. */
  lemma DefaultScaleGap()
    ensures Grade(DefaultScale, 89.5) == Some("N/A")
  {
    DefaultScaleSorts();
    var fits := exists i :: 0 <= i < |DefaultScale| && Fits(DefaultScale[i].1, 89.5);
    assert !fits by {
      forall i | 0 <= i < |DefaultScale| ensures !Fits(DefaultScale[i].1, 89.5) {
        assert i == 0 || i == 1 || i == 2 || i == 3;
      }
    }
    GradeNamesFittingEntry(DefaultScale, 89.5);
  }

  lemma TitleGood()
    ensures Title("good") == "Good"
  {
    assert "good"[1..] == "ood" && "ood"[1..] == "od" && "od"[1..] == "d" && "d"[1..] == [];
    assert TitleFrom("d", true) == "d";
    assert TitleFrom("od", true) == "od";
    assert TitleFrom("ood", true) == "ood";
  }

  /** On the default scale, 75 is "Good". */
  lemma DefaultScaleGood()
    ensures Grade(DefaultScale, 75.0) == Some("Good")
  {
    DefaultScaleSorts();
    forall j | 0 <= j < |DefaultScale| && j != 1 ensures !Fits(DefaultScale[j].1, 75.0) {
      assert j == 0 || j == 2 || j == 3;
    }
    SingleFitGrade(DefaultScale, 75.0, 1);
    TitleGood();
  }

  /** With overlapping ranges the higher lower bound wins, wherever the
      entry stands in the scale: 95 fits both "good" [70, 100] and
      "excellent" [90, 100], and is graded by "excellent". */
  lemma OverlapPrefersHigherBound()
    ensures Grade([("good", [Num(70.0), Num(100.0)]), ("excellent", [Num(90.0), Num(100.0)])], 95.0)
      == Some(Title("excellent"))
  {
    var scale: Dict<string, seq<Bound>> := [("good", [Num(70.0), Num(100.0)]), ("excellent", [Num(90.0), Num(100.0)])];
    assert scale[0].1[0].Num? && scale[1].1[0].Num?;
    GradeNamesFittingEntry(scale, 95.0);
    assert Fits(scale[0].1, 95.0) && Fits(scale[1].1, 95.0);
    var g := Grade(scale, 95.0).value;
    var i :| 0 <= i < |scale| && Fits(scale[i].1, 95.0) && g == Title(scale[i].0)
      && forall j :: 0 <= j < |scale| && Fits(scale[j].1, 95.0) ==> Outranks(scale, i, j);
    assert Outranks(scale, i, 1);
  }

  lemma LabelOfLetter(c: char)
    requires 'a' <= c <= 'z'
    ensures Lower(Label([c])) == [c]
  {
    var spaced := seq(1, i requires 0 <= i < 1 => if [c][i] == '_' then ' ' else [c][i]);
    assert spaced == [c];
    assert TitleFrom([c][1..], true) == [];
  }

  lemma CleanLowExample()
    ensures Lower(RemoveProblematicChars("A: 100")) == "a: 100"
  {
    var t := "A: 100";
    assert IsSanitized(t);
    SanitizeFixedPoint(t);
    LowerExample();
  }

  lemma LowerExample()
    ensures Lower("A: 100") == "a: 100"
  {
  }

  lemma TokenPosExample()
    ensures TokenPos("a: 100", "a") == 3
  {
    var low := "a: 100";
    assert OccursAt(low, "a", 0);
    assert low[1..4][0] == ':' && low[2..5][0] == ' ';
    assert !TokenAt(low, 1) && !TokenAt(low, 2) && TokenAt(low, 3);
  }

  lemma TokenValueExample()
    ensures TokenValue("a: 100", 3) == Some(100)
  {
    var low := "a: 100";
    assert DigitRunEnd(low, 6) == 6;
    assert DigitRunEnd(low, 3) == 6;
    assert low[3..6] == "100";
    assert "100"[..2] == "10" && "10"[..1] == "1";
    assert ParseNat("1") == 1 && ParseNat("10") == 10;
  }

  lemma ScoreOfA()
    ensures ScoreFor("A: 100", Label("a")) == Some(100)
  {
    LabelOfLetter('a');
    CleanLowExample();
    TokenPosExample();
    TokenValueExample();
  }

  lemma ScoreOfB()
    ensures ScoreFor("A: 100", Label("b")) == None
  {
    CleanLowExample();
    LabelOfLetter('b');
    var low := "a: 100";
    forall j | 0 <= j < |low| ensures !OccursAt(low, "b", j) {
      assert low[j] != 'b';
    }
    AbsentLabelNoScore("A: 100", Label("b"));
  }

  /** A token of 4301 digits is where `int()` raises: the
      `except ValueError` leaves the metric without a score. */
  lemma OverlongTokenIgnored()
    ensures var low := seq(MaxStrDigits + 1, _ => '1');
      TokenAt(low, 0) && TokenValue(low, 0) == None
  {
    var low := seq(MaxStrDigits + 1, _ => '1');
    assert TokenAt(low, 0);
    assert DigitRunEnd(low, 0) == |low|;
  }

  /** Weights {a: 1, b: 1} with only a's score 100 in the text: the
      missing metric still counts in the weight sum, so the score is 50. */
  lemma MissingMetricHalvesScore()
    ensures FinalScore("A: 100", [("a", 1.0), ("b", 1.0)]) == 50.0
  {
    var weights := [("a", 1.0), ("b", 1.0)];
    ScoreOfA();
    ScoreOfB();
    var scores := Scores("A: 100", weights);
    assert scores[0].1 == Some(100) && scores[1].1 == None;
    assert WeightedTotal(weights, scores, 1) == 100.0;
    assert WeightedTotal(weights, scores, 2) == 100.0;
    assert WeightSum(weights, 2) == 2.0;
  }
}
