/** The two pieces of logic in frontend/app.py that do not draw anything:
    the relevance label of a score and the highest / average / lowest
    summary shown above the ranking. */
module Display {
  import opened Basics
  import opened StableSort
  import opened SimilarityCalculator
  import opened PythonStr
  import opened Screening

  // ---------------------------------------------------------------------
  // get_relevance_label

  /** The coloured circle shown in front of each bucket's name. */
  function Badge(r: Relevance): string
  {
    match r
    case HighlyRelevant => "\U{1F7E2}"
    case Relevant => "\U{1F7E1}"
    case ModeratelyRelevant => "\U{1F7E0}"
    case LowRelevance => "\U{1F534}"
  }

  function Label(r: Relevance): string
  {
    Badge(r) + " " + r.Name()
  }

  /** `get_relevance_label`: each bucket is closed at its lower threshold
      and every score, negative ones included, gets a label. */
  function GetRelevanceLabel(score: real): (shown: string)
    ensures shown == Label(HighlyRelevant) <==> score >= 0.8
    ensures shown == Label(Relevant) <==> 0.6 <= score < 0.8
    ensures shown == Label(ModeratelyRelevant) <==> 0.4 <= score < 0.6
    ensures shown == Label(LowRelevance) <==> score < 0.4
  {
    LabelsDistinct();
    if score >= 0.8 then Label(HighlyRelevant)
    else if score >= 0.6 then Label(Relevant)
    else if score >= 0.4 then Label(ModeratelyRelevant)
    else Label(LowRelevance)
  }

  /** The four labels as the frontend spells them. */
  lemma LabelTexts()
    ensures Label(HighlyRelevant) == "\U{1F7E2} Highly Relevant"
    ensures Label(Relevant) == "\U{1F7E1} Relevant"
    ensures Label(ModeratelyRelevant) == "\U{1F7E0} Moderately Relevant"
    ensures Label(LowRelevance) == "\U{1F534} Low Relevance"
  {
  }

  /** The badges differ, so no two buckets share a label. */
  lemma LabelsDistinct()
    ensures forall r1: Relevance, r2: Relevance :: r1 != r2 ==> Label(r1) != Label(r2)
  {
    forall r1: Relevance, r2: Relevance | r1 != r2 ensures Label(r1) != Label(r2) {
      assert Label(r1)[0] == Badge(r1)[0];
      assert Label(r2)[0] == Badge(r2)[0];
    }
  }

  /** The frontend label and the backend's `similarity_percentile` put
      every score in the same bucket. */
  lemma LabelAgreesWithPercentile(score: real)
    ensures GetRelevanceLabel(score) == Label(SimilarityPercentile(score).relevance)
  {
    assert score >= 0.8 <==> score * 100.0 >= 80.0;
    assert score >= 0.6 <==> score * 100.0 >= 60.0;
    assert score >= 0.4 <==> score * 100.0 >= 40.0;
  }

  /** A higher score never gets a lower bucket. */
  lemma LabelMonotone(s1: real, s2: real)
    requires s1 <= s2
    ensures SimilarityPercentile(s1).relevance.Level() <= SimilarityPercentile(s2).relevance.Level()
    ensures GetRelevanceLabel(s1) == Label(SimilarityPercentile(s1).relevance)
    ensures GetRelevanceLabel(s2) == Label(SimilarityPercentile(s2).relevance)
  {
    PercentileMonotone(s1, s2);
    LabelAgreesWithPercentile(s1);
    LabelAgreesWithPercentile(s2);
  }

  // ---------------------------------------------------------------------
  // The summary metrics

  function Sum(xs: seq<real>): real
  {
    if |xs| == 0 then 0.0 else xs[0] + Sum(xs[1..])
  }

  datatype Stats = Stats(top: real, average: real, lowest: real)

  /** `top_score`, `avg_score` and `min_score`: the first score, the mean
      and the last score.  On an empty list the first index raises, so
      there is no summary. */
  function Summary(scores: seq<real>): (s: Option<Stats>)
    ensures s.Some? <==> |scores| > 0
    ensures s.Some? ==> s.value.top == scores[0] && s.value.lowest == scores[|scores| - 1]
    ensures s.Some? ==> s.value.average * (|scores| as real) == Sum(scores)
  {
    if |scores| == 0 then None
    else
      var n := |scores| as real;
      var avg := Sum(scores) / n;
      assert avg * n == Sum(scores);
      Some(Stats(scores[0], avg, scores[|scores| - 1]))
  }

  /** The sum of n numbers between lo and hi lies between n * lo and n * hi. */
  lemma {:induction false} SumBounds(xs: seq<real>, lo: real, hi: real)
    requires forall i :: 0 <= i < |xs| ==> lo <= xs[i] <= hi
    ensures (|xs| as real) * lo <= Sum(xs) <= (|xs| as real) * hi
    decreases |xs|
  {
    if |xs| > 0 {
      SumBounds(xs[1..], lo, hi);
      var m := |xs[1..]| as real;
      calc {
        (|xs| as real) * lo;
        == (m + 1.0) * lo;
        == m * lo + lo;
      }
      calc {
        (|xs| as real) * hi;
        == (m + 1.0) * hi;
        == m * hi + hi;
      }
    }
  }

  /** A mean lies between the bounds of the numbers averaged. */
  lemma MeanBetween(sum: real, n: real, avg: real, lo: real, hi: real)
    requires n > 0.0 && avg * n == sum && n * lo <= sum <= n * hi
    ensures lo <= avg <= hi
  {
  }

  /** On a list in non-increasing order the highest, average and lowest
      metrics are ordered as their names say. */
  lemma SummaryOrdered(scores: seq<real>)
    requires |scores| > 0
    requires forall i, j :: 0 <= i < j < |scores| ==> scores[i] >= scores[j]
    ensures Summary(scores).value.top >= Summary(scores).value.average >= Summary(scores).value.lowest
  {
    var last := scores[|scores| - 1];
    forall i | 0 <= i < |scores| ensures last <= scores[i] <= scores[0] {
      if 0 < i < |scores| - 1 {
        assert scores[0] >= scores[i] >= last;
      }
    }
    SumBounds(scores, last, scores[0]);
    var st := Summary(scores).value;
    MeanBetween(Sum(scores), |scores| as real, st.average, last, scores[0]);
  }

  function ScoresOf(rs: seq<RankedResume>): (scores: seq<real>)
    ensures |scores| == |rs|
    ensures forall i :: 0 <= i < |rs| ==> scores[i] == rs[i].similarityScore
  {
    seq(|rs|, i requires 0 <= i < |rs| => rs[i].similarityScore)
  }

  /** The frontend reads the summary off a successful response: it always
      exists there, and its three numbers are ordered. */
  lemma SummaryOfSuccess<C>(jobDescription: string, uploads: seq<Upload<C>>, svc: Services<C>)
    requires ScreenResumes(jobDescription, uploads, svc).Success?
    ensures var scores := ScoresOf(ScreenResumes(jobDescription, uploads, svc).rankedResumes);
      && Summary(scores).Some?
      && Summary(scores).value.top >= Summary(scores).value.average >= Summary(scores).value.lowest
  {
    var r := ScreenResumes(jobDescription, uploads, svc);
    var cs := Candidates(uploads, svc.parse);
    RankedScoresDescending(Strip(jobDescription), cs, svc);
    SummaryOrdered(ScoresOf(r.rankedResumes));
  }
}
