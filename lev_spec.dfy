/**
 * Reference definition of the weighted Levenshtein distance computed by
 * `lev_edit_distance` in Levenshtein.c, and the facts about it that the
 * imperative code relies on.
 *
 * Insertions and deletions cost 1; a substitution costs `sub`, which the C
 * code selects with its `xcost` argument (see `SubCost`).
 */
module LevSpec {

  function Min3(x: nat, y: nat, z: nat): (r: nat)
    ensures r <= x && r <= y && r <= z
    ensures r == x || r == y || r == z
  {
    if x <= y && x <= z then x else if y <= z then y else z
  }

  /** Substitution cost selected by `xcost`: 1 when it is zero, 2 otherwise. */
  function SubCost(xcost: nat): (sub: nat)
    ensures sub == 1 <==> xcost == 0
    ensures 1 <= sub <= 2
  {
    if xcost == 0 then 1 else 2
  }

  /** Cost of the element pair (x, y) on the diagonal: 0 for a match, `sub` otherwise. */
  function Diag<T(==)>(x: T, y: T, sub: nat): nat
  {
    if x == y then 0 else sub
  }

  /** Minimal cost of turning a[..i] into b[..j]. */
  function Cost<T(==)>(a: seq<T>, b: seq<T>, i: nat, j: nat, sub: nat): nat
    requires i <= |a| && j <= |b|
    decreases i + j
  {
    if i == 0 then j
    else if j == 0 then i
    else Min3(Cost(a, b, i - 1, j, sub) + 1,
              Cost(a, b, i, j - 1, sub) + 1,
              Cost(a, b, i - 1, j - 1, sub) + Diag(a[i - 1], b[j - 1], sub))
  }

  /** The edit distance of two whole sequences. */
  function Distance<T(==)>(a: seq<T>, b: seq<T>, sub: nat): nat
  {
    Cost(a, b, |a|, |b|, sub)
  }

  function Abs(x: int): nat { if x < 0 then -x else x }

  /** The three cases of the recurrence, each an upper bound on the cell. */
  lemma CostRecurrence<T>(a: seq<T>, b: seq<T>, i: nat, j: nat, sub: nat)
    requires 0 < i <= |a| && 0 < j <= |b|
    ensures Cost(a, b, i, j, sub) <= Cost(a, b, i - 1, j, sub) + 1
    ensures Cost(a, b, i, j, sub) <= Cost(a, b, i, j - 1, sub) + 1
    ensures Cost(a, b, i, j, sub) <= Cost(a, b, i - 1, j - 1, sub) + Diag(a[i - 1], b[j - 1], sub)
    ensures || Cost(a, b, i, j, sub) == Cost(a, b, i - 1, j, sub) + 1
            || Cost(a, b, i, j, sub) == Cost(a, b, i, j - 1, sub) + 1
            || Cost(a, b, i, j, sub) == Cost(a, b, i - 1, j - 1, sub) + Diag(a[i - 1], b[j - 1], sub)
  {
  }

  /** No alignment of a[..i] with b[..j] costs less than the length difference. */
  lemma {:induction false} CostLowerBound<T>(a: seq<T>, b: seq<T>, i: nat, j: nat, sub: nat)
    requires i <= |a| && j <= |b|
    ensures Cost(a, b, i, j, sub) >= i - j && Cost(a, b, i, j, sub) >= j - i
    decreases i + j
  {
    if i > 0 && j > 0 {
      CostLowerBound(a, b, i - 1, j, sub);
      CostLowerBound(a, b, i, j - 1, sub);
      CostLowerBound(a, b, i - 1, j - 1, sub);
    }
  }

  /** Deleting all of a[..i] and inserting all of b[..j] is always possible. */
  lemma {:induction false} CostUpperBound<T>(a: seq<T>, b: seq<T>, i: nat, j: nat, sub: nat)
    requires i <= |a| && j <= |b|
    ensures Cost(a, b, i, j, sub) <= i + j
    decreases i + j
  {
    if i > 0 && j > 0 {
      CostUpperBound(a, b, i - 1, j, sub);
    }
  }

  /** Cell (i, j) costs at most the longer of the two prefixes. */
  ghost predicate WithinLonger<T>(a: seq<T>, b: seq<T>, i: nat, j: nat, sub: nat)
    requires i <= |a| && j <= |b|
  {
    Cost(a, b, i, j, sub) <= if i < j then j else i
  }

  /** With unit substitutions the cost never exceeds the longer prefix. */
  lemma {:induction false} CostUpperBoundUnit<T>(a: seq<T>, b: seq<T>, i: nat, j: nat, sub: nat)
    requires i <= |a| && j <= |b| && sub <= 1
    ensures WithinLonger(a, b, i, j, sub)
    decreases i + j
  {
    if i > 0 && j > 0 {
      if i < j {
        CostUpperBoundUnit(a, b, i, j - 1, sub);
      } else if j < i {
        CostUpperBoundUnit(a, b, i - 1, j, sub);
      } else {
        CostUpperBoundUnit(a, b, i - 1, j - 1, sub);
      }
    }
  }

  /** Moving one step left changes a cell by at most one. */
  lemma {:induction false} CostLeftNeighbour<T>(a: seq<T>, b: seq<T>, i: nat, j: nat, sub: nat)
    requires i <= |a| && 0 < j <= |b|
    ensures Cost(a, b, i, j - 1, sub) <= Cost(a, b, i, j, sub) + 1
    ensures Cost(a, b, i, j, sub) <= Cost(a, b, i, j - 1, sub) + 1
    decreases i + j
  {
    if i == 0 {
    } else if j == 1 {
      CostLowerBound(a, b, i, j, sub);
    } else {
      CostLeftNeighbour(a, b, i - 1, j, sub);
      CostUpNeighbour(a, b, i, j - 1, sub);
    }
  }

  /** Moving one step up changes a cell by at most one. */
  lemma {:induction false} CostUpNeighbour<T>(a: seq<T>, b: seq<T>, i: nat, j: nat, sub: nat)
    requires 0 < i <= |a| && j <= |b|
    ensures Cost(a, b, i - 1, j, sub) <= Cost(a, b, i, j, sub) + 1
    ensures Cost(a, b, i, j, sub) <= Cost(a, b, i - 1, j, sub) + 1
    decreases i + j
  {
    if j == 0 {
    } else if i == 1 {
      CostLowerBound(a, b, i, j, sub);
    } else {
      CostUpNeighbour(a, b, i, j - 1, sub);
      CostLeftNeighbour(a, b, i - 1, j, sub);
    }
  }

  /** Along a diagonal the cost never decreases. */
  lemma CostDiagonalMonotone<T>(a: seq<T>, b: seq<T>, i: nat, j: nat, sub: nat)
    requires 0 < i <= |a| && 0 < j <= |b|
    ensures Cost(a, b, i - 1, j - 1, sub) <= Cost(a, b, i, j, sub)
  {
    CostLeftNeighbour(a, b, i - 1, j, sub);
    CostUpNeighbour(a, b, i, j - 1, sub);
  }

  /** A matching last pair can always be kept for free. */
  lemma CostMatch<T>(a: seq<T>, b: seq<T>, i: nat, j: nat, sub: nat)
    requires 0 < i <= |a| && 0 < j <= |b| && a[i - 1] == b[j - 1]
    ensures Cost(a, b, i, j, sub) == Cost(a, b, i - 1, j - 1, sub)
  {
    CostDiagonalMonotone(a, b, i, j, sub);
  }

  /** Cell (i, j) costs the same as cell (j, i) of the exchanged pair. */
  ghost predicate SymmetricAt<T>(a: seq<T>, b: seq<T>, i: nat, j: nat, sub: nat)
    requires i <= |a| && j <= |b|
  {
    Cost(a, b, i, j, sub) == Cost(b, a, j, i, sub)
  }

  /** Exchanging the two sequences does not change the cost. */
  lemma {:induction false} CostSymmetric<T>(a: seq<T>, b: seq<T>, i: nat, j: nat, sub: nat)
    requires i <= |a| && j <= |b|
    ensures SymmetricAt(a, b, i, j, sub)
    decreases i + j
  {
    if i > 0 && j > 0 {
      CostSymmetric(a, b, i - 1, j, sub);
      CostSymmetric(a, b, i, j - 1, sub);
      CostSymmetric(a, b, i - 1, j - 1, sub);
    }
  }

  /** a' is a with its first element removed. */
  ghost predicate Shifted<T>(a: seq<T>, a': seq<T>)
  {
    |a| == |a'| + 1 && forall k :: 0 <= k < |a'| ==> a'[k] == a[k + 1]
  }

  /** With a shared first element, row 1 costs one less than plain insertion. */
  lemma {:induction false} CostSharedHeadRow<T>(a: seq<T>, b: seq<T>, j: nat, sub: nat)
    requires 0 < |a| && 0 < j <= |b| && a[0] == b[0]
    ensures Cost(a, b, 1, j, sub) == j - 1
    decreases j
  {
    CostLowerBound(a, b, 1, j, sub);
    if j > 1 {
      CostSharedHeadRow(a, b, j - 1, sub);
    }
  }

  /** With a shared first element, column 1 costs one less than plain deletion. */
  lemma {:induction false} CostSharedHeadColumn<T>(a: seq<T>, b: seq<T>, i: nat, sub: nat)
    requires 0 < i <= |a| && 0 < |b| && a[0] == b[0]
    ensures Cost(a, b, i, 1, sub) == i - 1
    decreases i
  {
    CostLowerBound(a, b, i, 1, sub);
    if i > 1 {
      CostSharedHeadColumn(a, b, i - 1, sub);
    }
  }

  /** A shared first element can be stripped without changing the cost. */
  lemma {:induction false} CostDropSharedHead<T>(a: seq<T>, b: seq<T>, a': seq<T>, b': seq<T>, i: nat, j: nat, sub: nat)
    requires Shifted(a, a') && Shifted(b, b') && a[0] == b[0]
    requires 0 < i <= |a| && 0 < j <= |b|
    ensures Cost(a, b, i, j, sub) == Cost(a', b', i - 1, j - 1, sub)
    decreases i + j
  {
    if i == 1 {
      CostSharedHeadRow(a, b, j, sub);
    } else if j == 1 {
      CostSharedHeadColumn(a, b, i, sub);
    } else {
      CostDropSharedHead(a, b, a', b', i - 1, j, sub);
      CostDropSharedHead(a, b, a', b', i, j - 1, sub);
      CostDropSharedHead(a, b, a', b', i - 1, j - 1, sub);
    }
  }

  /** The first elements of a and a' agree up to i, and those of b and b' up to j. */
  ghost predicate SamePrefixes<T>(a: seq<T>, b: seq<T>, a': seq<T>, b': seq<T>, i: nat, j: nat)
  {
    i <= |a| && j <= |b| && i <= |a'| && j <= |b'| &&
    (forall k :: 0 <= k < i ==> a[k] == a'[k]) && (forall k :: 0 <= k < j ==> b[k] == b'[k])
  }

  /** Cell (i, j) costs the same for both pairs. */
  ghost predicate SameCost<T>(a: seq<T>, b: seq<T>, a': seq<T>, b': seq<T>, i: nat, j: nat, sub: nat)
    requires i <= |a| && j <= |b| && i <= |a'| && j <= |b'|
  {
    Cost(a, b, i, j, sub) == Cost(a', b', i, j, sub)
  }

  /** The cost of a cell depends only on the prefixes it names. */
  lemma {:induction false} CostFrame<T>(a: seq<T>, b: seq<T>, a': seq<T>, b': seq<T>, i: nat, j: nat, sub: nat)
    requires SamePrefixes(a, b, a', b', i, j)
    ensures SameCost(a, b, a', b', i, j, sub)
    decreases i + j
  {
    if i > 0 && j > 0 {
      CostFrame(a, b, a', b', i - 1, j, sub);
      CostFrame(a, b, a', b', i, j - 1, sub);
      CostFrame(a, b, a', b', i - 1, j - 1, sub);
    }
  }

  /** Equal first elements can be dropped from both sequences. */
  lemma DistanceDropHead<T>(u: seq<T>, v: seq<T>, sub: nat)
    requires 0 < |u| && 0 < |v| && u[0] == v[0]
    ensures Distance(u, v, sub) == Distance(u[1..], v[1..], sub)
  {
    CostDropSharedHead(u, v, u[1..], v[1..], |u|, |v|, sub);
  }

  /** Equal last elements can be dropped from both sequences. */
  lemma DistanceDropLast<T>(u: seq<T>, v: seq<T>, sub: nat)
    requires 0 < |u| && 0 < |v| && u[|u| - 1] == v[|v| - 1]
    ensures Distance(u, v, sub) == Distance(u[..|u| - 1], v[..|v| - 1], sub)
  {
    CostMatch(u, v, |u|, |v|, sub);
    CostFrame(u, v, u[..|u| - 1], v[..|v| - 1], |u| - 1, |v| - 1, sub);
  }

  /** A common prefix does not count. */
  lemma {:induction false} DistanceDropPrefix<T>(p: seq<T>, u: seq<T>, v: seq<T>, sub: nat)
    ensures Distance(p + u, p + v, sub) == Distance(u, v, sub)
    decreases |p|
  {
    if p != [] {
      DistanceDropHead(p + u, p + v, sub);
      assert (p + u)[1..] == p[1..] + u && (p + v)[1..] == p[1..] + v;
      DistanceDropPrefix(p[1..], u, v, sub);
    } else {
      assert p + u == u && p + v == v;
    }
  }

  /** A common suffix does not count. */
  lemma {:induction false} DistanceDropSuffix<T>(u: seq<T>, v: seq<T>, s: seq<T>, sub: nat)
    ensures Distance(u + s, v + s, sub) == Distance(u, v, sub)
    decreases |s|
  {
    if s != [] {
      DistanceDropLast(u + s, v + s, sub);
      assert (u + s)[..|u + s| - 1] == u + s[..|s| - 1] && (v + s)[..|v + s| - 1] == v + s[..|s| - 1];
      DistanceDropSuffix(u, v, s[..|s| - 1], sub);
    } else {
      assert u + s == u && v + s == v;
    }
  }

  /** A sequence is at distance 0 from itself. */
  lemma {:induction false} CostIdentical<T>(a: seq<T>, i: nat, sub: nat)
    requires i <= |a|
    ensures Cost(a, a, i, i, sub) == 0
  {
    if i > 0 {
      CostMatch(a, a, i, i, sub);
      CostIdentical(a, i - 1, sub);
    }
  }

  lemma DistanceToItself<T>(a: seq<T>, sub: nat)
    ensures Distance(a, a, sub) == 0
  {
    CostIdentical(a, |a|, sub);
  }

  /** Distance is symmetric. */
  lemma DistanceSymmetric<T>(a: seq<T>, b: seq<T>, sub: nat)
    ensures Distance(a, b, sub) == Distance(b, a, sub)
  {
    CostSymmetric(a, b, |a|, |b|, sub);
  }

  /** Distance lies between the length difference and the length sum. */
  lemma DistanceBounds<T>(a: seq<T>, b: seq<T>, sub: nat)
    ensures Abs(|a| - |b|) <= Distance(a, b, sub) <= |a| + |b|
  {
    CostLowerBound(a, b, |a|, |b|, sub);
    CostUpperBound(a, b, |a|, |b|, sub);
  }

  /**
   * A single element against j > 0 elements: j - 1 when it occurs among them
   * (keep it, insert the rest), otherwise j - 1 + sub.
   */
  lemma {:induction false} CostSingle<T>(a: seq<T>, b: seq<T>, j: nat, sub: nat)
    requires |a| == 1 && 0 < j <= |b| && 1 <= sub <= 2
    ensures Cost(a, b, 1, j, sub) == if a[0] in b[..j] then j - 1 else j - 1 + sub
    decreases j
  {
    CostLowerBound(a, b, 1, j, sub);
    if j > 1 {
      CostSingle(a, b, j - 1, sub);
      assert b[..j] == b[..j - 1] + [b[j - 1]];
    } else {
      assert b[..1] == [b[0]];
    }
  }

  /** Without any shared element and with substitution cost 2, every element is inserted or deleted. */
  lemma {:induction false} CostDisjoint<T>(a: seq<T>, b: seq<T>, i: nat, j: nat)
    requires i <= |a| && j <= |b|
    requires forall x, y :: 0 <= x < |a| && 0 <= y < |b| ==> a[x] != b[y]
    ensures Cost(a, b, i, j, 2) == i + j
    decreases i + j
  {
    CostUpperBound(a, b, i, j, 2);
    if i > 0 && j > 0 {
      CostDisjoint(a, b, i - 1, j);
      CostDisjoint(a, b, i, j - 1);
      CostDisjoint(a, b, i - 1, j - 1);
    }
  }

  /** Only identical prefixes cost nothing. */
  lemma {:induction false} CostZero<T>(a: seq<T>, b: seq<T>, i: nat, j: nat, sub: nat)
    requires i <= |a| && j <= |b| && 1 <= sub
    requires Cost(a, b, i, j, sub) == 0
    ensures i == j && a[..i] == b[..j]
  {
    CostLowerBound(a, b, i, j, sub);
    if i > 0 {
      CostRecurrence(a, b, i, j, sub);
      CostZero(a, b, i - 1, j - 1, sub);
      assert a[..i] == a[..i - 1] + [a[i - 1]] && b[..j] == b[..j - 1] + [b[j - 1]];
    }
  }

  /** Distance is zero exactly between equal sequences. */
  lemma DistanceZeroIff<T>(a: seq<T>, b: seq<T>, sub: nat)
    requires 1 <= sub
    ensures Distance(a, b, sub) == 0 <==> a == b
  {
    if a == b {
      DistanceToItself(a, sub);
    }
    if Distance(a, b, sub) == 0 {
      CostZero(a, b, |a|, |b|, sub);
      assert a == a[..|a|] && b == b[..|b|];
    }
  }

  /** A cell is reachable from any cell above and to its left by plain insertions and deletions. */
  lemma {:induction false} CostDetour<T>(a: seq<T>, b: seq<T>, i0: nat, j0: nat, i: nat, j: nat, sub: nat)
    requires i0 <= i <= |a| && j0 <= j <= |b|
    ensures Cost(a, b, i, j, sub) <= Cost(a, b, i0, j0, sub) + (i - i0) + (j - j0)
    decreases i + j
  {
    if i > i0 {
      CostUpNeighbour(a, b, i, j, sub);
      CostDetour(a, b, i0, j0, i - 1, j, sub);
    } else if j > j0 {
      CostLeftNeighbour(a, b, i, j, sub);
      CostDetour(a, b, i0, j0, i, j - 1, sub);
    }
  }

  /** One shared element saves at least one insertion and one deletion. */
  lemma CostThroughMatch<T>(a: seq<T>, b: seq<T>, x: nat, y: nat, i: nat, j: nat, sub: nat)
    requires x < i <= |a| && y < j <= |b| && a[x] == b[y]
    ensures Cost(a, b, i, j, sub) <= i + j - 2
  {
    CostRecurrence(a, b, x + 1, y + 1, sub);
    CostUpperBound(a, b, x, y, sub);
    assert Diag(a[x], b[y], sub) == 0;
    assert Cost(a, b, x + 1, y + 1, sub) <= x + y;
    CostDetour(a, b, x + 1, y + 1, i, j, sub);
  }

  /** With substitution cost 2 the distance is the full length sum exactly when no element is shared. */
  lemma DistanceDisjointIff<T>(a: seq<T>, b: seq<T>)
    ensures Distance(a, b, 2) == |a| + |b| <==> forall x, y :: 0 <= x < |a| && 0 <= y < |b| ==> a[x] != b[y]
  {
    if forall x, y :: 0 <= x < |a| && 0 <= y < |b| ==> a[x] != b[y] {
      CostDisjoint(a, b, |a|, |b|);
    } else {
      var x, y :| 0 <= x < |a| && 0 <= y < |b| && a[x] == b[y];
      CostThroughMatch(a, b, x, y, |a|, |b|, 2);
    }
  }

  /**
   * C lists the cost of every cell of the pair (a, b): row i, column j holds
   * Cost(a, b, i, j, sub).  Imperative code that fills a cost matrix is
   * proved against such a table.
   */
  ghost predicate IsCostTable<T>(a: seq<T>, b: seq<T>, sub: nat, C: seq<seq<nat>>)
  {
    && |C| == |a| + 1
    && (forall i :: 0 <= i <= |a| ==> |C[i]| == |b| + 1)
    && forall i, j {:trigger Cost(a, b, i, j, sub)} :: 0 <= i <= |a| && 0 <= j <= |b| ==> C[i][j] == Cost(a, b, i, j, sub)
  }

  /** The table of all cells exists. */
  lemma CostTableOf<T>(a: seq<T>, b: seq<T>, sub: nat) returns (C: seq<seq<nat>>)
    ensures IsCostTable(a, b, sub, C)
  {
    C := seq(|a| + 1, i requires 0 <= i <= |a| => seq(|b| + 1, j requires 0 <= j <= |b| => Cost(a, b, i, j, sub)));
  }
}
