/**
 * `lev_edit_distance` and `lev_u_edit_distance` of Levenshtein.c: one row of
 * costs updated in place, after stripping the common prefix and suffix.
 *
 * The byte and the Unicode function are the same algorithm over different
 * element types; one generic method models both.  They are coded
 * differently in two places, the one-element shortcut and the inner loop for
 * a nonzero `xcost`; the Unicode codings are modelled by their own methods
 * below and shown to compute the same values.
 */
module LevDistance {
  import opened LevSpec

  /**
   * Levenshtein distance between s1 and s2; a substitution costs 1 when
   * xcost is 0 and 2 otherwise.
   */
  method EditDistance<T(==)>(s1: seq<T>, s2: seq<T>, xcost: nat) returns (d: nat)
    ensures d == Distance(s1, s2, SubCost(xcost))
  {
    var sub := SubCost(xcost);
    var len1: nat, len2: nat, o: nat := |s1|, |s2|, 0;
    // strip common prefix
    while len1 > 0 && len2 > 0 && s1[o] == s2[o]
      invariant o + len1 == |s1| && o + len2 == |s2|
      invariant SameDistance(s1, s2, s1[o..], s2[o..], sub)
    {
      DistanceDropHead(s1[o..], s2[o..], sub);
      assert s1[o..][1..] == s1[o + 1..] && s2[o..][1..] == s2[o + 1..];
      len1, len2, o := len1 - 1, len2 - 1, o + 1;
    }
    assert s1[o..] == s1[o..o + len1] && s2[o..] == s2[o..o + len2];
    // strip common suffix
    while len1 > 0 && len2 > 0 && s1[o + len1 - 1] == s2[o + len2 - 1]
      invariant o + len1 <= |s1| && o + len2 <= |s2|
      invariant SameDistance(s1, s2, s1[o..o + len1], s2[o..o + len2], sub)
    {
      DistanceDropLast(s1[o..o + len1], s2[o..o + len2], sub);
      assert s1[o..o + len1][..len1 - 1] == s1[o..o + len1 - 1];
      assert s2[o..o + len2][..len2 - 1] == s2[o..o + len2 - 1];
      len1, len2 := len1 - 1, len2 - 1;
    }
    d := StrippedDistance(s1[o..o + len1], s2[o..o + len2], xcost);
  }

  /**
   * The distance once the common prefix and suffix are gone: the trivial
   * cases, the one-element shortcut, and the row loops with the shorter
   * string outside.
   */
  method StrippedDistance<T(==)>(s1: seq<T>, s2: seq<T>, xcost: nat) returns (d: nat)
    ensures d == Distance(s1, s2, SubCost(xcost))
  {
    var sub := SubCost(xcost);
    var string1, string2 := s1, s2;
    var len1, len2 := |string1|, |string2|;
    // catch trivial cases
    if len1 == 0 {
      return len2;
    }
    if len2 == 0 {
      return len1;
    }
    // make the inner cycle (string2) the longer one
    if len1 > len2 {
      DistanceSymmetric(string1, string2, sub);
      string1, string2 := string2, string1;
      len1, len2 := len2, len1;
    }
    // check len1 == 1 separately
    if len1 == 1 {
      CostSingle(string1, string2, len2, sub);
      assert string2[..len2] == string2;
      var found := if string1[0] in string2 then 1 else 0;
      if xcost != 0 {
        return len2 + 1 - 2 * found;
      } else {
        return len2 - found;
      }
    }
    if xcost != 0 {
      d := SubstTwoRows(string1, string2);
    } else {
      d := BandedRows(string1, string2);
    }
  }

  /**
   * `ratio`: the similarity (lensum - distance) / lensum where lensum is the
   * sum of the lengths and substitutions cost 2, or 1.0 for two empty
   * sequences.
   */
  function Similarity<T(==)>(s1: seq<T>, s2: seq<T>): real
  {
    var lensum := |s1| + |s2|;
    if lensum == 0 then 1.0 else (lensum - Distance(s1, s2, 2)) as real / lensum as real
  }

  /** `ratio_py`: the distance with xcost 1, turned into a similarity. */
  method Ratio<T(==)>(s1: seq<T>, s2: seq<T>) returns (r: real)
    ensures r == Similarity(s1, s2)
  {
    var lensum := |s1| + |s2|;
    var ldist := EditDistance(s1, s2, 1);
    if lensum == 0 {
      return 1.0;
    }
    r := (lensum - ldist) as real / lensum as real;
  }

  /** A fraction q / l of 0 <= q <= l lies in [0, 1], at the ends exactly for q = l and q = 0. */
  lemma FractionBounds(q: real, l: real)
    requires 0.0 <= q <= l && l > 0.0
    ensures 0.0 <= q / l <= 1.0
    ensures q / l == 1.0 <==> q == l
    ensures q / l == 0.0 <==> q == 0.0
  {
  }

  /** The similarity is a number between 0 and 1. */
  lemma SimilarityBounds<T>(s1: seq<T>, s2: seq<T>)
    ensures 0.0 <= Similarity(s1, s2) <= 1.0
  {
    DistanceBounds(s1, s2, 2);
    var lensum := |s1| + |s2|;
    if lensum > 0 {
      FractionBounds((lensum - Distance(s1, s2, 2)) as real, lensum as real);
    }
  }

  /** The similarity is 1 exactly for equal sequences. */
  lemma SimilarityOneIff<T>(s1: seq<T>, s2: seq<T>)
    ensures Similarity(s1, s2) == 1.0 <==> s1 == s2
  {
    DistanceZeroIff(s1, s2, 2);
    DistanceBounds(s1, s2, 2);
    var lensum := |s1| + |s2|;
    if lensum > 0 {
      FractionBounds((lensum - Distance(s1, s2, 2)) as real, lensum as real);
    } else {
      assert s1 == [] == s2;
    }
  }

  /** The similarity is 0 exactly for nonempty sequences without a shared element. */
  lemma SimilarityZeroIff<T>(s1: seq<T>, s2: seq<T>)
    ensures Similarity(s1, s2) == 0.0 <==>
      |s1| + |s2| > 0 && forall x, y :: 0 <= x < |s1| && 0 <= y < |s2| ==> s1[x] != s2[y]
  {
    DistanceDisjointIff(s1, s2);
    DistanceBounds(s1, s2, 2);
    var lensum := |s1| + |s2|;
    if lensum > 0 {
      FractionBounds((lensum - Distance(s1, s2, 2)) as real, lensum as real);
    }
  }

  /** The similarity does not depend on the order of the arguments. */
  lemma SimilaritySymmetric<T>(s1: seq<T>, s2: seq<T>)
    ensures Similarity(s1, s2) == Similarity(s2, s1)
  {
    DistanceSymmetric(s1, s2, 2);
  }

  /** Stripping the pair (s1, s2) down to (u, v) kept the distance. */
  ghost predicate SameDistance<T>(s1: seq<T>, s2: seq<T>, u: seq<T>, v: seq<T>, sub: nat)
  {
    Distance(s1, s2, sub) == Distance(u, v, sub)
  }

  /** The one-element shortcut as `lev_u_edit_distance` codes it: a scan instead of memchr. */
  method UnicodeSingle<T(==)>(z: T, string2: seq<T>, xcost: nat) returns (d: nat)
    requires 0 < |string2|
    ensures d == Distance([z], string2, SubCost(xcost))
  {
    var len2 := |string2|;
    var i, p := len2, 0;
    while i > 0
      invariant 0 <= i <= len2 && p == len2 - i
      invariant z !in string2[..p]
    {
      if string2[p] == z {
        CostSingle([z], string2, len2, SubCost(xcost));
        assert string2[..len2] == string2;
        return len2 - 1;
      }
      assert string2[..p + 1] == string2[..p] + [string2[p]];
      i, p := i - 1, p + 1;
    }
    CostSingle([z], string2, len2, SubCost(xcost));
    assert string2[..len2] == string2[..p];
    return len2 + (if xcost != 0 then 1 else 0);
  }

  /**
   * One cell when a substitution costs 2: a match takes the diagonal
   * neighbour, a mismatch never does (replacing costs as much as a deletion
   * and an insertion).
   */
  lemma SubstTwoCell<T>(a: seq<T>, b: seq<T>, C: seq<seq<nat>>, i: nat, j: nat)
    requires IsCostTable(a, b, 2, C) && 0 < i <= |a| && 0 < j <= |b|
    ensures C[i][j] == Min(if a[i - 1] == b[j - 1] then C[i - 1][j - 1] else C[i][j - 1] + 1, C[i - 1][j] + 1)
  {
    CostRecurrence(a, b, i, j, 2);
    CostUpNeighbour(a, b, i, j - 1, 2);
    CostLeftNeighbour(a, b, i, j, 2);
    CostDiagonalMonotone(a, b, i, j, 2);
  }

  function Min(x: nat, y: nat): nat { if x <= y then x else y }

  /** The first row of costs: reaching column k of string2 from nothing takes k insertions. */
  method InitRow<T>(string1: seq<T>, string2: seq<T>, ghost C: seq<seq<nat>>, row: array<nat>, ghost sub: nat)
    requires IsCostTable(string1, string2, sub, C) && row.Length == |string2| + 1
    modifies row
    ensures forall k {:trigger row[k]} :: 0 <= k < row.Length ==> row[k] == C[0][k]
  {
    var i := 0;
    while i < row.Length
      invariant 0 <= i <= row.Length
      invariant forall k {:trigger row[k]} :: 0 <= k < i ==> row[k] == C[0][k]
    {
      assert C[0][i] == Cost(string1, string2, 0, i, sub);
      row[i] := i;
      i := i + 1;
    }
  }

  /**
   * The row loop for a nonzero xcost, as the byte function codes it: D holds
   * the previous row's cell to the left plus one.
   */
  method SubstTwoRows<T(==)>(string1: seq<T>, string2: seq<T>) returns (d: nat)
    requires 2 <= |string1| <= |string2|
    ensures d == Cost(string1, string2, |string1|, |string2|, 2)
  {
    ghost var C := CostTableOf(string1, string2, 2);
    var len1, len2 := |string1| + 1, |string2| + 1;
    var row := new nat[len2];
    var end := len2 - 1;
    InitRow(string1, string2, C, row, 2);
    var i := 1;
    while i < len1
      invariant 1 <= i <= len1
      invariant forall k {:trigger row[k]} :: 0 < k < len2 ==> row[k] == C[i - 1][k]
    {
      SubstTwoRow(string1, string2, C, row, i);
      i := i + 1;
    }
    d := row[end];
  }

  /** Row i of the loop above, from row i - 1 in place. */
  method SubstTwoRow<T(==)>(string1: seq<T>, string2: seq<T>, ghost C: seq<seq<nat>>, row: array<nat>, i: nat)
    requires IsCostTable(string1, string2, 2, C)
    requires 0 < i <= |string1| && row.Length == |string2| + 1
    requires forall k {:trigger row[k]} :: 0 < k < row.Length ==> row[k] == C[i - 1][k]
    modifies row
    ensures forall k {:trigger row[k]} :: 0 < k < row.Length ==> row[k] == C[i][k]
  {
    var end := row.Length - 1;
    var p := 1;
    var char1 := string1[i - 1];
    var D, x := i, i;
    assert C[i][0] == Cost(string1, string2, i, 0, 2) && C[i - 1][0] == Cost(string1, string2, i - 1, 0, 2);
    while p <= end
      invariant 1 <= p <= row.Length
      invariant forall k {:trigger row[k]} :: 0 < k < p ==> row[k] == C[i][k]
      invariant forall k {:trigger row[k]} :: p <= k < row.Length ==> row[k] == C[i - 1][k]
      invariant x == C[i][p - 1]
      invariant D == C[i - 1][p - 1] + 1
    {
      SubstTwoCell(string1, string2, C, i, p);
      if char1 == string2[p - 1] {
        D := D - 1;
        x := D;
      } else {
        x := x + 1;
      }
      D := row[p];
      D := D + 1;
      if x > D {
        x := D;
      }
      row[p] := x;
      p := p + 1;
    }
  }

  /**
   * The same loop as `lev_u_edit_distance` codes it: D holds the previous
   * row's cell to the left itself, and the comparison adds the one.
   */
  method UnicodeSubstTwoRows<T(==)>(string1: seq<T>, string2: seq<T>) returns (d: nat)
    requires 2 <= |string1| <= |string2|
    ensures d == Cost(string1, string2, |string1|, |string2|, 2)
  {
    ghost var C := CostTableOf(string1, string2, 2);
    var len1, len2 := |string1| + 1, |string2| + 1;
    var row := new nat[len2];
    var end := len2 - 1;
    InitRow(string1, string2, C, row, 2);
    var i := 1;
    while i < len1
      invariant 1 <= i <= len1
      invariant forall k {:trigger row[k]} :: 0 < k < len2 ==> row[k] == C[i - 1][k]
    {
      UnicodeSubstTwoRow(string1, string2, C, row, i);
      i := i + 1;
    }
    d := row[end];
  }

  /** Row i of the Unicode loop, from row i - 1 in place. */
  method UnicodeSubstTwoRow<T(==)>(string1: seq<T>, string2: seq<T>, ghost C: seq<seq<nat>>, row: array<nat>, i: nat)
    requires IsCostTable(string1, string2, 2, C)
    requires 0 < i <= |string1| && row.Length == |string2| + 1
    requires forall k {:trigger row[k]} :: 0 < k < row.Length ==> row[k] == C[i - 1][k]
    modifies row
    ensures forall k {:trigger row[k]} :: 0 < k < row.Length ==> row[k] == C[i][k]
  {
    var end := row.Length - 1;
    var p := 1;
    var char1 := string1[i - 1];
    var D, x := i - 1, i;
    assert C[i][0] == Cost(string1, string2, i, 0, 2) && C[i - 1][0] == Cost(string1, string2, i - 1, 0, 2);
    while p <= end
      invariant 1 <= p <= row.Length
      invariant forall k {:trigger row[k]} :: 0 < k < p ==> row[k] == C[i][k]
      invariant forall k {:trigger row[k]} :: p <= k < row.Length ==> row[k] == C[i - 1][k]
      invariant x == C[i][p - 1]
      invariant D == C[i - 1][p - 1]
    {
      SubstTwoCell(string1, string2, C, i, p);
      if char1 == string2[p - 1] {
        x := D;
      } else {
        x := x + 1;
      }
      D := row[p];
      if x > D + 1 {
        x := D + 1;
      }
      row[p] := x;
      p := p + 1;
    }
  }

  /*
   * The banded loop for xcost == 0.  With m = |string1| <= n = |string2| and
   * half = (m + 1) / 2, row i is computed only for columns Lo(i)..Hi(i); the
   * two corner triangles outside that band are skipped.  A cell outside the
   * band cannot lie on a cheapest path, so the skipped cells never matter.
   */

  /** First column of row i inside the band. */
  function Lo(m: nat, half: nat, i: nat): nat
  {
    if i + half > m then i + half - m else 0
  }

  /** Last column of row i inside the band. */
  function Hi(m: nat, n: nat, half: nat, i: nat): int
  {
    if i < half then n + i - half else n
  }

  /**
   * A cell that costs c could lie on a cheapest path of cost at most n: c
   * plus the length difference still to cover, |(n - j) - (m - i)|, is within n.
   */
  predicate Within(m: nat, n: nat, i: nat, j: nat, c: nat)
  {
    c + i <= j + m && c + m + j <= i + 2 * n
  }

  ghost predicate Relevant<T>(a: seq<T>, b: seq<T>, i: nat, j: nat)
    requires i <= |a| && j <= |b|
  {
    Within(|a|, |b|, i, j, Cost(a, b, i, j, 1))
  }

  /** v bounds cell (i, j) of C from above, and is exact wherever the cell is relevant. */
  ghost predicate Good(C: seq<seq<nat>>, m: nat, n: nat, i: nat, j: nat, v: int)
  {
    && i < |C| && j < |C[i]|
    && v >= C[i][j]
    && (Within(m, n, i, j, C[i][j]) ==> v == C[i][j])
  }

  /** The skipped corner triangles hold no relevant cell. */
  lemma OutsideBandIrrelevant<T>(a: seq<T>, b: seq<T>, i: nat, j: nat)
    requires 2 <= |a| <= |b| && i <= |a| && j <= |b|
    requires j < Lo(|a|, (|a| + 1) / 2, i) || j > Hi(|a|, |b|, (|a| + 1) / 2, i)
    ensures !Relevant(a, b, i, j)
  {
    CostLowerBound(a, b, i, j, 1);
  }

  /** A relevant cell attains its cost through a relevant neighbour. */
  lemma RelevantPredecessor<T>(a: seq<T>, b: seq<T>, i: nat, j: nat)
    requires 0 < i <= |a| && 0 < j <= |b|
    requires Relevant(a, b, i, j)
    ensures || (Relevant(a, b, i, j - 1) && Cost(a, b, i, j, 1) == Cost(a, b, i, j - 1, 1) + 1)
            || (Relevant(a, b, i - 1, j) && Cost(a, b, i, j, 1) == Cost(a, b, i - 1, j, 1) + 1)
            || (Relevant(a, b, i - 1, j - 1) &&
                Cost(a, b, i, j, 1) == Cost(a, b, i - 1, j - 1, 1) + Diag(a[i - 1], b[j - 1], 1))
  {
    CostRecurrence(a, b, i, j, 1);
  }

  /** A full cell: left, diagonal and upper neighbours are all available. */
  lemma BandStep<T>(a: seq<T>, b: seq<T>, C: seq<seq<nat>>, i: nat, j: nat, x: nat, D: nat, up: nat)
    requires IsCostTable(a, b, 1, C) && 0 < i <= |a| && 0 < j <= |b|
    requires Good(C, |a|, |b|, i, j - 1, x) && Good(C, |a|, |b|, i - 1, j - 1, D) && Good(C, |a|, |b|, i - 1, j, up)
    ensures Good(C, |a|, |b|, i, j, Min(Min(x + 1, D + (if a[i - 1] != b[j - 1] then 1 else 0)), up + 1))
  {
    CostRecurrence(a, b, i, j, 1);
    if Relevant(a, b, i, j) {
      RelevantPredecessor(a, b, i, j);
    }
  }

  /** The first cell of a row below the upper triangle: its left neighbour is outside the band. */
  lemma BandStepNoLeft<T>(a: seq<T>, b: seq<T>, C: seq<seq<nat>>, i: nat, j: nat, D: nat, up: nat)
    requires IsCostTable(a, b, 1, C) && 2 <= |a| <= |b| && 0 < i <= |a| && 0 < j <= |b|
    requires j - 1 < Lo(|a|, (|a| + 1) / 2, i)
    requires Good(C, |a|, |b|, i - 1, j - 1, D) && Good(C, |a|, |b|, i - 1, j, up)
    ensures Good(C, |a|, |b|, i, j, Min(up + 1, D + (if a[i - 1] != b[j - 1] then 1 else 0)))
  {
    CostRecurrence(a, b, i, j, 1);
    if Relevant(a, b, i, j) {
      RelevantPredecessor(a, b, i, j);
      OutsideBandIrrelevant(a, b, i, j - 1);
    }
  }

  /** The sentinel cell at the end of a row above the lower triangle: its upper neighbour is outside the band. */
  lemma BandStepNoUp<T>(a: seq<T>, b: seq<T>, C: seq<seq<nat>>, i: nat, j: nat, x: nat, D: nat)
    requires IsCostTable(a, b, 1, C) && 2 <= |a| <= |b| && 0 < i <= |a| && 0 < j <= |b|
    requires j > Hi(|a|, |b|, (|a| + 1) / 2, i - 1)
    requires Good(C, |a|, |b|, i, j - 1, x) && Good(C, |a|, |b|, i - 1, j - 1, D)
    ensures Good(C, |a|, |b|, i, j, Min(x + 1, D + (if a[i - 1] != b[j - 1] then 1 else 0)))
  {
    CostRecurrence(a, b, i, j, 1);
    if Relevant(a, b, i, j) {
      RelevantPredecessor(a, b, i, j);
      OutsideBandIrrelevant(a, b, i - 1, j);
    }
  }

  /**
   * The row loop for xcost == 0, skipping the two corner triangles of size
   * about half = (|string1| + 1) / 2 that no cheapest path can cross.
   */
  method BandedRows<T(==)>(string1: seq<T>, string2: seq<T>) returns (d: nat)
    requires 2 <= |string1| <= |string2|
    ensures d == Cost(string1, string2, |string1|, |string2|, 1)
  {
    ghost var C := CostTableOf(string1, string2, 1);
    ghost var m, n := |string1|, |string2|;
    var len1, len2 := |string1| + 1, |string2| + 1;
    var half := len1 / 2;
    var row := new nat[len2];
    var end := len2 - 1;
    var i := 0;
    while i < len2 - half
      invariant 0 <= i <= len2 - half
      invariant forall k {:trigger row[k]} :: 0 <= k < i ==> row[k] == k
    {
      row[i] := i;
      i := i + 1;
    }
    forall k | 1 <= k <= Hi(m, n, half, 0)
      ensures Good(C, m, n, 0, k, row[k])
    {
      assert C[0][k] == Cost(string1, string2, 0, k, 1);
    }
    row[0] := len1 - half - 1;
    i := 1;
    while i < len1
      invariant 1 <= i <= len1
      invariant row[0] == m - half
      invariant i > 1 ==> end == Hi(m, n, half, i - 2)
      invariant forall k {:trigger row[k]} :: 1 <= k && Lo(m, half, i - 1) <= k <= Hi(m, n, half, i - 1) ==>
        Good(C, m, n, i - 1, k, row[k])
    {
      end := BandedRow(string1, string2, C, row, i);
      i := i + 1;
    }
    assert Within(m, n, m, n, C[m][n]) by {
      CostUpperBoundUnit(string1, string2, m, n, 1);
    }
    d := row[end];
  }

  /** Row i of the banded loop, from row i - 1 in place; end is the last column of row i - 1. */
  method BandedRow<T(==)>(string1: seq<T>, string2: seq<T>, ghost C: seq<seq<nat>>, row: array<nat>, i: nat) returns (end: nat)
    requires IsCostTable(string1, string2, 1, C)
    requires 2 <= |string1| <= |string2| && 0 < i <= |string1| && row.Length == |string2| + 1
    requires row[0] == |string1| - (|string1| + 1) / 2
    requires forall k {:trigger row[k]} ::
      1 <= k && Lo(|string1|, (|string1| + 1) / 2, i - 1) <= k <= Hi(|string1|, |string2|, (|string1| + 1) / 2, i - 1) ==>
        Good(C, |string1|, |string2|, i - 1, k, row[k])
    modifies row
    ensures end == Hi(|string1|, |string2|, (|string1| + 1) / 2, i - 1)
    ensures row[0] == |string1| - (|string1| + 1) / 2
    ensures forall k {:trigger row[k]} ::
      1 <= k && Lo(|string1|, (|string1| + 1) / 2, i) <= k <= Hi(|string1|, |string2|, (|string1| + 1) / 2, i) ==>
        Good(C, |string1|, |string2|, i, k, row[k])
  {
    var len1, len2 := |string1| + 1, |string2| + 1;
    var half := len1 / 2;
    var char1 := string1[i - 1];
    var p, D, x := BandedRowStart(string1, string2, C, row, i);
    // skip the lower triangle
    end := len2 - 1;
    if i <= half + 1 {
      end := len2 + i - half - 2;
    }
    p, D, x := BandedRowMain(string1, string2, C, row, i, p, end, D, x);
    // lower triangle sentinel
    if i <= half {
      BandStepNoUp(string1, string2, C, i, p, x, D - 1);
      D := D - 1;
      var c3 := D + (if char1 != string2[p - 1] then 1 else 0);
      x := x + 1;
      if x > c3 {
        x := c3;
      }
      row[p] := x;
    }
  }

  /**
   * The first cell of row i: below the upper triangle the row starts after
   * the skipped cells, computed from the upper neighbours only; otherwise
   * it starts at column 1 with the cost i of column 0.  Returns the next
   * column p, the register D (the previous row's cell at p - 1, plus one)
   * and x (this row's cell at p - 1).
   */
  method BandedRowStart<T(==)>(string1: seq<T>, string2: seq<T>, ghost C: seq<seq<nat>>, row: array<nat>, i: nat)
    returns (p: nat, D: nat, x: nat)
    requires IsCostTable(string1, string2, 1, C)
    requires 2 <= |string1| <= |string2| && 0 < i <= |string1| && row.Length == |string2| + 1
    requires row[0] == |string1| - (|string1| + 1) / 2
    requires forall k {:trigger row[k]} ::
      1 <= k && Lo(|string1|, (|string1| + 1) / 2, i - 1) <= k <= Hi(|string1|, |string2|, (|string1| + 1) / 2, i - 1) ==>
        Good(C, |string1|, |string2|, i - 1, k, row[k])
    modifies row
    ensures 0 < p <= Hi(|string1|, |string2|, (|string1| + 1) / 2, i - 1) + 1
    ensures Lo(|string1|, (|string1| + 1) / 2, i) <= p - 1
    ensures row[0] == old(row[0])
    ensures forall k {:trigger row[k]} :: 1 <= k && Lo(|string1|, (|string1| + 1) / 2, i) <= k < p ==>
      Good(C, |string1|, |string2|, i, k, row[k])
    ensures forall k {:trigger row[k]} ::
      1 <= k && Lo(|string1|, (|string1| + 1) / 2, i - 1) <= k && p <= k <= Hi(|string1|, |string2|, (|string1| + 1) / 2, i - 1) ==>
        Good(C, |string1|, |string2|, i - 1, k, row[k])
    ensures Good(C, |string1|, |string2|, i, p - 1, x)
    ensures D >= 1 && Good(C, |string1|, |string2|, i - 1, p - 1, D - 1)
  {
    ghost var m, n := |string1|, |string2|;
    var len1 := |string1| + 1;
    var half := len1 / 2;
    var char1 := string1[i - 1];
    if i >= len1 - half {
      // skip the upper triangle: the row starts at the cell (i, offset + 1)
      var offset := i - (len1 - half);
      p := offset;
      assert Good(C, m, n, i - 1, offset, row[p]) by {
        if offset == 0 {
          assert C[i - 1][0] == Cost(string1, string2, i - 1, 0, 1);
        }
      }
      // char2p points at string2[offset]
      var c3 := row[p] + (if char1 != string2[offset] then 1 else 0);
      p := p + 1;
      BandStepNoLeft(string1, string2, C, i, p, row[p - 1], row[p]);
      x := row[p];
      x := x + 1;
      D := x;
      if x > c3 {
        x := c3;
      }
      row[p] := x;
      p := p + 1;
    } else {
      p := 1;
      D, x := i, i;
      assert C[i][0] == Cost(string1, string2, i, 0, 1) && C[i - 1][0] == Cost(string1, string2, i - 1, 0, 1);
    }
  }

  /** The cells of row i from column p up to end, where both the left and the upper neighbour are inside the band. */
  method BandedRowMain<T(==)>(string1: seq<T>, string2: seq<T>, ghost C: seq<seq<nat>>, row: array<nat>, i: nat,
                               p0: nat, end: nat, D0: nat, x0: nat)
    returns (p: nat, D: nat, x: nat)
    requires IsCostTable(string1, string2, 1, C)
    requires 2 <= |string1| <= |string2| && 0 < i <= |string1| && row.Length == |string2| + 1
    requires end == Hi(|string1|, |string2|, (|string1| + 1) / 2, i - 1)
    requires 0 < p0 <= end + 1 && Lo(|string1|, (|string1| + 1) / 2, i) <= p0 - 1
    requires forall k {:trigger row[k]} :: 1 <= k && Lo(|string1|, (|string1| + 1) / 2, i) <= k < p0 ==>
      Good(C, |string1|, |string2|, i, k, row[k])
    requires forall k {:trigger row[k]} :: 1 <= k && Lo(|string1|, (|string1| + 1) / 2, i - 1) <= k && p0 <= k <= end ==>
      Good(C, |string1|, |string2|, i - 1, k, row[k])
    requires Good(C, |string1|, |string2|, i, p0 - 1, x0)
    requires D0 >= 1 && Good(C, |string1|, |string2|, i - 1, p0 - 1, D0 - 1)
    modifies row
    ensures p == end + 1 && row[0] == old(row[0])
    ensures forall k {:trigger row[k]} :: 1 <= k && Lo(|string1|, (|string1| + 1) / 2, i) <= k < p ==>
      Good(C, |string1|, |string2|, i, k, row[k])
    ensures Good(C, |string1|, |string2|, i, p - 1, x)
    ensures D >= 1 && Good(C, |string1|, |string2|, i - 1, p - 1, D - 1)
  {
    ghost var m, n := |string1|, |string2|;
    var half := (|string1| + 1) / 2;
    var char1 := string1[i - 1];
    p, D, x := p0, D0, x0;
    while p <= end
      invariant p0 <= p <= end + 1
      invariant row[0] == old(row[0])
      invariant forall k {:trigger row[k]} :: 1 <= k && Lo(m, half, i) <= k < p ==> Good(C, m, n, i, k, row[k])
      invariant forall k {:trigger row[k]} :: 1 <= k && Lo(m, half, i - 1) <= k && p <= k <= end ==>
        Good(C, m, n, i - 1, k, row[k])
      invariant Good(C, m, n, i, p - 1, x)
      invariant D >= 1 && Good(C, m, n, i - 1, p - 1, D - 1)
    {
      BandStep(string1, string2, C, i, p, x, D - 1, row[p]);
      D := D - 1;
      // char2p points at string2[p - 1]
      var c3 := D + (if char1 != string2[p - 1] then 1 else 0);
      x := x + 1;
      if x > c3 {
        x := c3;
      }
      D := row[p];
      D := D + 1;
      if x > D {
        x := D;
      }
      row[p] := x;
      p := p + 1;
    }
  }
}
