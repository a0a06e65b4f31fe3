/** backend/similarity_calculator.py over the reals: cosine similarity
    with its zero-norm guard, clamp and catch-all error path, the batch
    map, the stable ranking of scores, and the four relevance buckets.
    The Euclidean norm is a parameter (the source takes a floating-point
    square root); IsEuclideanNorm says what is assumed of it. */
module SimilarityCalculator {
  import opened Basics
  import opened StableSort

  type Vector = seq<real>

  // ---------------------------------------------------------------------
  // Vectors

  function Dot(a: Vector, b: Vector): real
    requires |a| == |b|
  {
    if |a| == 0 then 0.0 else a[0] * b[0] + Dot(a[1..], b[1..])
  }

  predicate AllZero(v: Vector)
  {
    forall i :: 0 <= i < |v| ==> v[i] == 0.0
  }

  function Neg(v: Vector): (r: Vector)
    ensures |r| == |v|
  {
    seq(|v|, i requires 0 <= i < |v| => -v[i])
  }

  /** The square of a real, kept as a named term so that facts about it
      are stated once (SquareFacts) and reused by linear reasoning. */
  function Sq(a: real): real
  {
    a * a
  }

  /** norm is non-negative and squares to the dot product of a vector
      with itself, as `np.linalg.norm` does over the reals. */
  ghost predicate IsEuclideanNorm(norm: Vector -> real)
  {
    forall v :: 0.0 <= norm(v) && Sq(norm(v)) == Dot(v, v)
  }

  function Clamp(x: real, lo: real, hi: real): (r: real)
    requires lo <= hi
    ensures lo <= r <= hi
    ensures lo <= x <= hi ==> r == x
  {
    if x < lo then lo else if x > hi then hi else x
  }

  /** A square is never negative and is zero only at zero. */
  lemma SquareFacts(a: real)
    ensures Sq(a) >= 0.0
    ensures a != 0.0 ==> Sq(a) > 0.0
    ensures a == 0.0 ==> Sq(a) == 0.0
  {
    if a > 0.0 {
      calc { Sq(a); == a * a; > 0.0; }
    } else if a < 0.0 {
      calc { Sq(a); == a * a; > 0.0; }
    }
  }

  /** Squaring is strictly increasing on the non-negative reals. */
  lemma SquareMonotone(a: real, b: real)
    requires 0.0 <= a < b
    ensures Sq(a) < Sq(b)
  {
    calc { Sq(a); == a * a; <= a * b; < b * b; == Sq(b); }
  }

  lemma SquareInjective(m: real, n: real)
    requires 0.0 <= m && 0.0 <= n && Sq(m) == Sq(n)
    ensures m == n
  {
    if m < n {
      SquareMonotone(m, n);
    } else if n < m {
      SquareMonotone(n, m);
    }
  }

  lemma {:induction false} DotSymmetric(a: Vector, b: Vector)
    requires |a| == |b|
    ensures Dot(a, b) == Dot(b, a)
    decreases |a|
  {
    if |a| > 0 { DotSymmetric(a[1..], b[1..]); }
  }

  /** The dot product of a vector with itself is a sum of squares: never
      negative, zero for the zero vector and positive otherwise. */
  lemma {:induction false} DotSelf(v: Vector)
    ensures Dot(v, v) >= 0.0
    ensures AllZero(v) ==> Dot(v, v) == 0.0
    ensures !AllZero(v) ==> Dot(v, v) > 0.0
    decreases |v|
  {
    if |v| > 0 {
      DotSelf(v[1..]);
      var head, tail := Sq(v[0]), Dot(v[1..], v[1..]);
      assert Dot(v, v) == head + tail;
      SquareFacts(v[0]);
      if v[0] == 0.0 && AllZero(v[1..]) {
        forall i | 0 <= i < |v| ensures v[i] == 0.0 {
          if i > 0 { assert v[i] == v[1..][i - 1]; }
        }
      }
      assert AllZero(v) ==> v[0] == 0.0 && AllZero(v[1..]) by {
        if AllZero(v) {
          forall i | 0 <= i < |v[1..]| ensures v[1..][i] == 0.0 {
            assert v[1..][i] == v[i + 1];
          }
        }
      }
    }
  }

  lemma {:induction false} DotNeg(a: Vector, b: Vector)
    requires |a| == |b|
    ensures Dot(a, Neg(b)) == -Dot(a, b)
    ensures Dot(Neg(a), Neg(b)) == Dot(a, b)
    decreases |a|
  {
    if |a| > 0 {
      DotNeg(a[1..], b[1..]);
      assert Neg(b)[1..] == Neg(b[1..]);
      assert Neg(a)[1..] == Neg(a[1..]);
      assert a[0] * -b[0] == -(a[0] * b[0]);
      assert -a[0] * -b[0] == a[0] * b[0];
    }
  }

  /** Under a Euclidean norm, the norm is zero exactly for the zero vector. */
  lemma NormZeroIffAllZero(norm: Vector -> real, v: Vector)
    requires IsEuclideanNorm(norm)
    ensures AllZero(v) ==> norm(v) == 0.0
    ensures !AllZero(v) ==> norm(v) > 0.0
  {
    DotSelf(v);
    SquareFacts(norm(v));
  }

  // ---------------------------------------------------------------------
  // cosine_similarity and batch_similarity

  /** `cosine_similarity`.  `np.dot` raises on vectors of different
      lengths and the catch-all `except` turns that into 0.0, so a length
      mismatch is not reported.  A zero norm on either side gives 0.0;
      otherwise the quotient is clamped to [-1, 1]. */
  function CosineSimilarity(a: Vector, b: Vector, norm: Vector -> real): (r: real)
    ensures -1.0 <= r <= 1.0
    ensures |a| != |b| ==> r == 0.0
  {
    if |a| != |b| then 0.0
    else
      var dot := Dot(a, b);
      var n1 := norm(a);
      var n2 := norm(b);
      if n1 == 0.0 || n2 == 0.0 then 0.0
      else Clamp(dot / (n1 * n2), -1.0, 1.0)
  }

  /** A zero vector on either side gives similarity 0.0, whatever the
      other vector and whatever the dimension. */
  lemma CosineOfZeroVector(a: Vector, b: Vector, norm: Vector -> real)
    requires IsEuclideanNorm(norm)
    requires AllZero(a) || AllZero(b)
    ensures CosineSimilarity(a, b, norm) == 0.0
  {
    NormZeroIffAllZero(norm, a);
    NormZeroIffAllZero(norm, b);
  }

  lemma CosineSymmetric(a: Vector, b: Vector, norm: Vector -> real)
    ensures CosineSimilarity(a, b, norm) == CosineSimilarity(b, a, norm)
  {
    if |a| == |b| {
      DotSymmetric(a, b);
      assert norm(a) * norm(b) == norm(b) * norm(a);
    }
  }

  /** A non-zero vector is perfectly similar to itself. */
  lemma CosineSelf(v: Vector, norm: Vector -> real)
    requires IsEuclideanNorm(norm)
    requires !AllZero(v)
    ensures CosineSimilarity(v, v, norm) == 1.0
  {
    NormZeroIffAllZero(norm, v);
    DotSelf(v);
    var n := norm(v);
    var d := Dot(v, v);
    assert n * n == Sq(n) == d;
    DivSelf(d);
  }

  /** A non-zero vector and its negation have similarity -1. */
  lemma CosineOpposite(v: Vector, norm: Vector -> real)
    requires IsEuclideanNorm(norm)
    requires !AllZero(v)
    ensures CosineSimilarity(v, Neg(v), norm) == -1.0
  {
    var n := norm(v);
    var w := Neg(v);
    var dot := Dot(v, w);
    NormZeroIffAllZero(norm, v);
    DotSelf(v);
    DotNeg(v, v);
    OppositeQuotient(dot, n, Dot(v, v));
    assert dot / (n * n) == -1.0;
    NormOfNeg(v, norm);
    assert norm(w) == n;
    assert CosineSimilarity(v, w, norm) == Clamp(dot / (n * n), -1.0, 1.0);
  }

  /** Negating a vector does not change its norm. */
  lemma NormOfNeg(v: Vector, norm: Vector -> real)
    requires IsEuclideanNorm(norm)
    ensures norm(Neg(v)) == norm(v)
  {
    DotNeg(v, v);
    assert Sq(norm(v)) == Dot(v, v) && Sq(norm(Neg(v))) == Dot(Neg(v), Neg(v));
    SquareInjective(norm(Neg(v)), norm(v));
  }

  lemma OppositeQuotient(dot: real, n: real, d: real)
    requires n != 0.0 && Sq(n) == d && dot == -d
    ensures dot / (n * n) == -1.0
  {
    SquareFacts(n);
    DivSelf(d);
  }

  /** Dividing a non-zero number, or its negation, by itself. */
  lemma DivSelf(x: real)
    requires x != 0.0
    ensures x / x == 1.0 && -x / x == -1.0
  {
    assert -x / x == -(x / x);
  }

  /** `batch_similarity`: one score per resume vector, in order. */
  method BatchSimilarity(job: Vector, resumes: seq<Vector>, norm: Vector -> real) returns (scores: seq<real>)
    ensures |scores| == |resumes|
    ensures forall i :: 0 <= i < |resumes| ==> scores[i] == CosineSimilarity(job, resumes[i], norm)
    ensures forall i :: 0 <= i < |scores| ==> -1.0 <= scores[i] <= 1.0
  {
    scores := [];
    for i := 0 to |resumes|
      invariant |scores| == i
      invariant forall j :: 0 <= j < i ==> scores[j] == CosineSimilarity(job, resumes[j], norm)
    {
      var similarity := CosineSimilarity(job, resumes[i], norm);
      scores := scores + [similarity];
    }
  }

  // ---------------------------------------------------------------------
  // rank_by_similarity

  /** `zip(similarities, resume_names)`: pairs up to the shorter list. */
  function Zip(scores: seq<real>, names: seq<string>): (r: seq<(real, string)>)
    ensures |r| == Min(|scores|, |names|)
    ensures forall i :: 0 <= i < |r| ==> r[i] == (scores[i], names[i])
  {
    if |scores| == 0 || |names| == 0 then []
    else [(scores[0], names[0])] + Zip(scores[1..], names[1..])
  }

  function ScoreOf(p: (real, string)): real
  {
    p.0
  }

  datatype RankedName = RankedName(rank: nat, name: string, score: real)

  /** The (score, name) pairs of a ranking, ranks dropped. */
  function Pairs(rs: seq<RankedName>): (r: seq<(real, string)>)
    ensures |r| == |rs|
    ensures forall i :: 0 <= i < |rs| ==> r[i] == (rs[i].score, rs[i].name)
  {
    seq(|rs|, i requires 0 <= i < |rs| => (rs[i].score, rs[i].name))
  }

  /** `rank_by_similarity`: zip scores with names, stable-sort by score
      descending, number the result from 1. */
  function RankBySimilarity(scores: seq<real>, names: seq<string>): (r: seq<RankedName>)
    ensures |r| == Min(|scores|, |names|)
    ensures forall i :: 0 <= i < |r| ==> r[i].rank == i + 1
    ensures forall i, j :: 0 <= i < j < |r| ==> r[i].score >= r[j].score
    ensures multiset(Pairs(r)) == multiset(Zip(scores, names))
    ensures SameTies(Pairs(r), Zip(scores, names), ScoreOf)
  {
    var ranked := SortDesc(Zip(scores, names), ScoreOf);
    var r := seq(|ranked|, i requires 0 <= i < |ranked| => RankedName(i + 1, ranked[i].1, ranked[i].0));
    assert Pairs(r) == ranked;
    r
  }

  /** Already-ordered scores are only numbered; in particular equal
      scores keep their input order. */
  lemma RankSortedInput(scores: seq<real>, names: seq<string>)
    requires SortedDesc(Zip(scores, names), ScoreOf)
    ensures Pairs(RankBySimilarity(scores, names)) == Zip(scores, names)
  {
    var z := Zip(scores, names);
    SortDescUnique(z, Pairs(RankBySimilarity(scores, names)), ScoreOf);
    SortDescUnique(z, z, ScoreOf);
  }

  /** A ranking is determined by its ranks and its (score, name) pairs. */
  lemma RankedByPairs(r: seq<RankedName>, e: seq<RankedName>)
    requires |r| == |e| && Pairs(r) == Pairs(e)
    requires forall i :: 0 <= i < |r| ==> r[i].rank == e[i].rank
    ensures r == e
  {
    forall i | 0 <= i < |r| ensures r[i] == e[i] {
      assert Pairs(r)[i] == Pairs(e)[i];
    }
  }

  lemma ExampleZip()
    ensures Zip([0.9, 0.5, 0.2], ["A", "B", "C"]) == [(0.9, "A"), (0.5, "B"), (0.2, "C")]
    ensures SortedDesc(Zip([0.9, 0.5, 0.2], ["A", "B", "C"]), ScoreOf)
  {
    var z := Zip([0.9, 0.5, 0.2], ["A", "B", "C"]);
    assert z == [(0.9, "A"), (0.5, "B"), (0.2, "C")];
  }

  /** On already-ordered scores the ranking is the input, numbered from 1. */
  lemma RankOfSorted(scores: seq<real>, names: seq<string>, e: seq<RankedName>)
    requires SortedDesc(Zip(scores, names), ScoreOf)
    requires Pairs(e) == Zip(scores, names)
    requires forall i :: 0 <= i < |e| ==> e[i].rank == i + 1
    ensures RankBySimilarity(scores, names) == e
  {
    RankSortedInput(scores, names);
    RankedByPairs(RankBySimilarity(scores, names), e);
  }

  lemma RankExample()
    ensures RankBySimilarity([0.9, 0.5, 0.2], ["A", "B", "C"])
         == [RankedName(1, "A", 0.9), RankedName(2, "B", 0.5), RankedName(3, "C", 0.2)]
  {
    var e := [RankedName(1, "A", 0.9), RankedName(2, "B", 0.5), RankedName(3, "C", 0.2)];
    ExampleZip();
    assert Pairs(e) == [(0.9, "A"), (0.5, "B"), (0.2, "C")];
    RankOfSorted([0.9, 0.5, 0.2], ["A", "B", "C"], e);
  }

  lemma TieZip()
    ensures Zip([0.5, 0.5], ["A", "B"]) == [(0.5, "A"), (0.5, "B")]
    ensures SortedDesc(Zip([0.5, 0.5], ["A", "B"]), ScoreOf)
  {
    var z := Zip([0.5, 0.5], ["A", "B"]);
    assert z == [(0.5, "A"), (0.5, "B")];
  }

  /** Equal scores keep their input order. */
  lemma RankTieExample()
    ensures RankBySimilarity([0.5, 0.5], ["A", "B"]) == [RankedName(1, "A", 0.5), RankedName(2, "B", 0.5)]
  {
    var e := [RankedName(1, "A", 0.5), RankedName(2, "B", 0.5)];
    TieZip();
    assert Pairs(e) == [(0.5, "A"), (0.5, "B")];
    RankOfSorted([0.5, 0.5], ["A", "B"], e);
  }

  // ---------------------------------------------------------------------
  // similarity_percentile

  datatype Relevance = LowRelevance | ModeratelyRelevant | Relevant | HighlyRelevant
  {
    /** Position in the bucket order, lowest first. */
    function Level(): nat
    {
      match this
      case LowRelevance => 0
      case ModeratelyRelevant => 1
      case Relevant => 2
      case HighlyRelevant => 3
    }

    function Name(): string
    {
      match this
      case LowRelevance => "Low Relevance"
      case ModeratelyRelevant => "Moderately Relevant"
      case Relevant => "Relevant"
      case HighlyRelevant => "Highly Relevant"
    }
  }

  datatype Percentile = Percentile(percentage: real, relevance: Relevance)

  /** `similarity_percentile`: the score as a percentage and its bucket,
      each bucket closed at its lower threshold. */
  function SimilarityPercentile(score: real): (p: Percentile)
    ensures p.percentage == score * 100.0
    ensures p.relevance == HighlyRelevant <==> 80.0 <= p.percentage
    ensures p.relevance == Relevant <==> 60.0 <= p.percentage < 80.0
    ensures p.relevance == ModeratelyRelevant <==> 40.0 <= p.percentage < 60.0
    ensures p.relevance == LowRelevance <==> p.percentage < 40.0
  {
    var percentage := score * 100.0;
    var relevance :=
      if percentage >= 80.0 then HighlyRelevant
      else if percentage >= 60.0 then Relevant
      else if percentage >= 40.0 then ModeratelyRelevant
      else LowRelevance;
    Percentile(percentage, relevance)
  }

  /** A higher score never lands in a lower bucket. */
  lemma PercentileMonotone(s1: real, s2: real)
    requires s1 <= s2
    ensures SimilarityPercentile(s1).relevance.Level() <= SimilarityPercentile(s2).relevance.Level()
  {
    assert s1 * 100.0 <= s2 * 100.0;
  }
}
