/**
 * The ranking step of `getScoredMatches` in both keyword tools: the
 * candidates that scored above the threshold are sorted by descending
 * score (Python's sort is stable, so candidates with equal scores keep
 * their input order), cut to the first `num` with Python's slice
 * `res[:num]`, and stripped of their scores.
 */
module Ranking {
  import opened Sorting

  /** A candidate with its similarity score. */
  datatype Scored<X> = Scored(item: X, score: real)

  function Score<X>(s: Scored<X>): real
  {
    s.score
  }

  /** Sorting by descending score: a higher score goes first. */
  predicate Higher(p: real, q: real)
  {
    p > q
  }

  lemma HigherStrictOrder()
    ensures StrictOrder(Higher)
  {
  }

  function ByScore<X>(res: seq<Scored<X>>): seq<Scored<X>>
  {
    SortBy(res, Score, Higher)
  }

  /** Python's `s[:num]`: the first num elements, or for a negative num all but the last -num. */
  function Head<X>(s: seq<X>, num: int): seq<X>
  {
    if num >= 0 then s[..if num < |s| then num else |s|]
    else s[..if |s| + num > 0 then |s| + num else 0]
  }

  function Items<X>(s: seq<Scored<X>>): seq<X>
  {
    seq(|s|, i requires 0 <= i < |s| => s[i].item)
  }

  /** The ranked answer: sorted by descending score, sliced, without scores. */
  function Ranked<X>(res: seq<Scored<X>>, num: int): seq<X>
  {
    Items(Head(ByScore(res), num))
  }

  /**
   * What the ranked candidates are: the first ones of a stable sort of the
   * candidates by descending score, as many as the slice keeps; every
   * candidate kept scores at least as high as every candidate cut off.
   */
  lemma RankedFacts<X>(res: seq<Scored<X>>, num: int)
    ensures |ByScore(res)| == |res|
    ensures var top := Head(ByScore(res), num);
      && (num >= 0 ==> |top| == if num < |res| then num else |res|)
      && (num < 0 ==> |top| == if |res| + num > 0 then |res| + num else 0)
      && (forall i, j :: 0 <= i < j < |top| ==> top[i].score >= top[j].score)
      && (forall i :: 0 <= i < |top| ==> top[i] in res)
      && (forall i, j :: 0 <= i < |top| <= j < |ByScore(res)| ==> top[i].score >= ByScore(res)[j].score)
    ensures multiset(ByScore(res)) == multiset(res)
    ensures forall k :: WithKey(ByScore(res), Score, k) == WithKey(res, Score, k)
  {
    HigherStrictOrder();
    SortByCorrect(res, Score, Higher);
    var sorted := ByScore(res);
    assert |sorted| == |multiset(sorted)| == |multiset(res)| == |res|;
    var top := Head(sorted, num);
    assert top == sorted[..|top|];
    forall i | 0 <= i < |top|
      ensures top[i] in res
    {
      assert top[i] in multiset(sorted);
    }
  }
}
