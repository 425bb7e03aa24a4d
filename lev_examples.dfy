/**
 * The examples that accompany `distance` and `ratio` in the documentation
 * strings of Levenshtein.c, stated about the reference definition.  Each
 * pair is first stripped of its shared head and tail, then the rest of the
 * cost table is filled in cell by cell.
 */
module LevExamples {
  import opened LevSpec
  import opened LevDistance

  /** Cell (i, j) of the cost table of (a, b) holds v. */
  ghost predicate CostIs<T>(a: seq<T>, b: seq<T>, i: nat, j: nat, sub: nat, v: nat)
    requires i <= |a| && j <= |b|
  {
    Cost(a, b, i, j, sub) == v
  }

  /** distance('Levenshtein', 'Lenvinsten') is 4: the shared head and tail do not count. */
  lemma LevenshteinLenvinsten(a: string, b: string)
    requires a == "Levenshtein" && b == "Lenvinsten"
    ensures Distance(a, b, 1) == 4
  {
    var u, v := "venshtei", "nvinste";
    assert a == "Le" + (u + "n") && b == "Le" + (v + "n");
    DistanceDropPrefix("Le", u + "n", v + "n", 1);
    DistanceDropSuffix(u, v, "n", 1);
    VenshteiNvinste(u, v);
  }

  /** 'venshtei' and 'nvinste' are 4 apart, cell by cell. */
  lemma VenshteiNvinste(a: string, b: string)
    requires |a| == 8 && a[0] == 'v' && a[1] == 'e' && a[2] == 'n' && a[3] == 's' && a[4] == 'h' && a[5] == 't' && a[6] == 'e' && a[7] == 'i'
    requires |b| == 7 && b[0] == 'n' && b[1] == 'v' && b[2] == 'i' && b[3] == 'n' && b[4] == 's' && b[5] == 't' && b[6] == 'e'
    ensures Distance(a, b, 1) == 4
  {
    assert CostIs(a, b, 1, 1, 1, 1);
    assert CostIs(a, b, 1, 2, 1, 1);
    assert CostIs(a, b, 1, 3, 1, 2);
    assert CostIs(a, b, 1, 4, 1, 3);
    assert CostIs(a, b, 1, 5, 1, 4);
    assert CostIs(a, b, 1, 6, 1, 5);
    assert CostIs(a, b, 1, 7, 1, 6);
    assert CostIs(a, b, 2, 1, 1, 2);
    assert CostIs(a, b, 2, 2, 1, 2);
    assert CostIs(a, b, 2, 3, 1, 2);
    assert CostIs(a, b, 2, 4, 1, 3);
    assert CostIs(a, b, 2, 5, 1, 4);
    assert CostIs(a, b, 2, 6, 1, 5);
    assert CostIs(a, b, 2, 7, 1, 5);
    assert CostIs(a, b, 3, 1, 1, 2);
    assert CostIs(a, b, 3, 2, 1, 3);
    assert CostIs(a, b, 3, 3, 1, 3);
    assert CostIs(a, b, 3, 4, 1, 2);
    assert CostIs(a, b, 3, 5, 1, 3);
    assert CostIs(a, b, 3, 6, 1, 4);
    assert CostIs(a, b, 3, 7, 1, 5);
    assert CostIs(a, b, 4, 1, 1, 3);
    assert CostIs(a, b, 4, 2, 1, 3);
    assert CostIs(a, b, 4, 3, 1, 4);
    assert CostIs(a, b, 4, 4, 1, 3);
    assert CostIs(a, b, 4, 5, 1, 2);
    assert CostIs(a, b, 4, 6, 1, 3);
    assert CostIs(a, b, 4, 7, 1, 4);
    assert CostIs(a, b, 5, 1, 1, 4);
    assert CostIs(a, b, 5, 2, 1, 4);
    assert CostIs(a, b, 5, 3, 1, 4);
    assert CostIs(a, b, 5, 4, 1, 4);
    assert CostIs(a, b, 5, 5, 1, 3);
    assert CostIs(a, b, 5, 6, 1, 3);
    assert CostIs(a, b, 5, 7, 1, 4);
    assert CostIs(a, b, 6, 1, 1, 5);
    assert CostIs(a, b, 6, 2, 1, 5);
    assert CostIs(a, b, 6, 3, 1, 5);
    assert CostIs(a, b, 6, 4, 1, 5);
    assert CostIs(a, b, 6, 5, 1, 4);
    assert CostIs(a, b, 6, 6, 1, 3);
    assert CostIs(a, b, 6, 7, 1, 4);
    assert CostIs(a, b, 7, 1, 1, 6);
    assert CostIs(a, b, 7, 2, 1, 6);
    assert CostIs(a, b, 7, 3, 1, 6);
    assert CostIs(a, b, 7, 4, 1, 6);
    assert CostIs(a, b, 7, 5, 1, 5);
    assert CostIs(a, b, 7, 6, 1, 4);
    assert CostIs(a, b, 7, 7, 1, 3);
    assert CostIs(a, b, 8, 1, 1, 7);
    assert CostIs(a, b, 8, 2, 1, 7);
    assert CostIs(a, b, 8, 3, 1, 6);
    assert CostIs(a, b, 8, 4, 1, 7);
    assert CostIs(a, b, 8, 5, 1, 6);
    assert CostIs(a, b, 8, 6, 1, 5);
    assert CostIs(a, b, 8, 7, 1, 4);
  }

  /** distance('Levenshtein', 'Levensthein') is 2: a swapped pair costs two edits. */
  lemma LevenshteinLevensthein(a: string, b: string)
    requires a == "Levenshtein" && b == "Levensthein"
    ensures Distance(a, b, 1) == 2
  {
    var u, v := "ht", "th";
    assert a == "Levens" + (u + "ein") && b == "Levens" + (v + "ein");
    DistanceDropPrefix("Levens", u + "ein", v + "ein", 1);
    DistanceDropSuffix(u, v, "ein", 1);
    HtTh(u, v);
  }

  /** 'ht' and 'th' are 2 apart. */
  lemma HtTh(a: string, b: string)
    requires |a| == 2 && a[0] == 'h' && a[1] == 't'
    requires |b| == 2 && b[0] == 't' && b[1] == 'h'
    ensures Distance(a, b, 1) == 2
  {
    assert CostIs(a, b, 1, 1, 1, 1);
    assert CostIs(a, b, 1, 2, 1, 1);
    assert CostIs(a, b, 2, 1, 1, 1);
    assert CostIs(a, b, 2, 2, 1, 2);
  }

  /** distance('Levenshtein', 'Levenshten') is 1: one deletion. */
  lemma LevenshteinLevenshten(a: string, b: string)
    requires a == "Levenshtein" && b == "Levenshten"
    ensures Distance(a, b, 1) == 1
  {
    var u, v := "i", "";
    assert a == "Levenshte" + (u + "n") && b == "Levenshte" + (v + "n");
    DistanceDropPrefix("Levenshte", u + "n", v + "n", 1);
    DistanceDropSuffix(u, v, "n", 1);
  }

  /** distance('Levenshtein', 'Levenshtein') is 0. */
  lemma LevenshteinItself(a: string)
    requires a == "Levenshtein"
    ensures Distance(a, a, 1) == 0
  {
    DistanceToItself(a, 1);
  }

  /** ratio('Brian', 'Jesus') is 0.0: the two names share no letter. */
  lemma BrianJesusRatio(a: string, b: string)
    requires a == "Brian" && b == "Jesus"
    ensures Similarity(a, b) == 0.0
  {
    SimilarityZeroIff(a, b);
  }
}
