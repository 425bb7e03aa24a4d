/**
 * `lev_editops_find` and `editops_from_cost_matrix` of Levenshtein.c: find
 * one shortest list of edit operations turning string1 into string2.
 *
 * After stripping the common prefix and suffix, the full matrix of unit-cost
 * distances between the prefixes of what remains is filled in, and a walk
 * back from its last cell to its first writes the operations from the end
 * of the list to its start.
 */
module EditFind {
  import opened LevSpec
  import opened EditOps

  /*
   * Facts about edit scripts used by the walk back
   */

  /** Dropping the first operation shifts the index of every later one by one. */
  lemma {:induction false} AlignsShift<T>(s1: seq<T>, s2: seq<T>, ops: seq<EditOp>, k: nat, x: nat, y: nat)
    requires 1 <= k <= |ops|
    ensures AlignsFrom(s1, s2, ops, k, x, y) <==> AlignsFrom(s1, s2, ops[1..], k - 1, x, y)
    decreases |ops| - k
  {
    if k < |ops| {
      var o := ops[k];
      assert ops[1..][k - 1] == o;
      AlignsShift(s1, s2, ops, k + 1, o.spos + 1, o.dpos + 1);
      AlignsShift(s1, s2, ops, k + 1, o.spos, o.dpos + 1);
      AlignsShift(s1, s2, ops, k + 1, o.spos + 1, o.dpos);
    }
  }

  /** The cursor pair an edit (not a keep) leaves behind, seen from where it starts. */
  predicate StepsTo(op: EditOp, x: nat, y: nat)
  {
    || (op.kind == REPLACE && x == op.spos + 1 && y == op.dpos + 1)
    || (op.kind == INSERT && x == op.spos && y == op.dpos + 1)
    || (op.kind == DELETE && x == op.spos + 1 && y == op.dpos)
  }

  /** An edit placed in front of a script for the rest gives a script from the edit's own positions. */
  lemma AlignsPrepend<T>(s1: seq<T>, s2: seq<T>, op: EditOp, rest: seq<EditOp>, x: nat, y: nat)
    requires AlignsFrom(s1, s2, rest, 0, x, y) && StepsTo(op, x, y)
    ensures AlignsFrom(s1, s2, [op] + rest, 0, op.spos, op.dpos)
  {
    AlignsShift(s1, s2, [op] + rest, 1, x, y);
    assert ([op] + rest)[1..] == rest;
  }

  /*
   * The cost matrix
   */

  /** One cell of the fill loop: the unit-cost recurrence. */
  lemma UnitCell<T>(a: seq<T>, b: seq<T>, C: seq<seq<nat>>, i: nat, j: nat)
    requires IsCostTable(a, b, 1, C) && 0 < i <= |a| && 0 < j <= |b|
    ensures C[i][j] == Min3(C[i - 1][j - 1] + (if a[i - 1] != b[j - 1] then 1 else 0), C[i][j - 1] + 1, C[i - 1][j] + 1)
  {
    assert C[i][j] == Cost(a, b, i, j, 1);
    assert C[i - 1][j - 1] == Cost(a, b, i - 1, j - 1, 1);
    assert C[i][j - 1] == Cost(a, b, i, j - 1, 1) && C[i - 1][j] == Cost(a, b, i - 1, j, 1);
  }

  /** One row of the cost matrix, from the row above it and its first cell. */
  method FillRow<T(==)>(a: seq<T>, b: seq<T>, ghost C: seq<seq<nat>>, M: array2<nat>, i: nat)
    requires IsCostTable(a, b, 1, C) && 0 < i <= |a|
    requires M.Length0 == |a| + 1 && M.Length1 == |b| + 1
    requires forall r, k :: 0 <= r < i && 0 <= k <= |b| ==> M[r, k] == C[r][k]
    modifies M
    ensures forall r, k :: 0 <= r <= i && 0 <= k <= |b| ==> M[r, k] == C[r][k]
  {
    var char1 := a[i - 1];
    var x := i;
    assert C[i][0] == Cost(a, b, i, 0, 1);
    M[i, 0] := x;
    var p := 1;
    while p <= |b|
      invariant 1 <= p <= |b| + 1
      invariant x == C[i][p - 1]
      invariant forall k :: 0 <= k < p ==> M[i, k] == C[i][k]
      invariant forall r, k :: 0 <= r < i && 0 <= k <= |b| ==> M[r, k] == C[r][k]
    {
      var c3 := M[i - 1, p - 1] + (if char1 != b[p - 1] then 1 else 0);
      x := x + 1;
      if x > c3 {
        x := c3;
      }
      c3 := M[i - 1, p] + 1;
      if x > c3 {
        x := c3;
      }
      UnitCell(a, b, C, i, p);
      M[i, p] := x;
      p := p + 1;
    }
  }

  /** The whole cost matrix: the first row, then every further row. */
  method FillMatrix<T(==)>(a: seq<T>, b: seq<T>, ghost C: seq<seq<nat>>) returns (M: array2<nat>)
    requires IsCostTable(a, b, 1, C)
    ensures fresh(M) && M.Length0 == |a| + 1 && M.Length1 == |b| + 1
    ensures forall i, j :: 0 <= i <= |a| && 0 <= j <= |b| ==> M[i, j] == C[i][j]
  {
    M := new nat[|a| + 1, |b| + 1];
    var k := 0;
    while k <= |b|
      invariant 0 <= k <= |b| + 1
      invariant forall c :: 0 <= c < k ==> M[0, c] == C[0][c]
    {
      assert C[0][k] == Cost(a, b, 0, k, 1);
      M[0, k] := k;
      k := k + 1;
    }
    var i := 1;
    while i <= |a|
      invariant 1 <= i <= |a| + 1
      invariant forall r, c :: 0 <= r < i && 0 <= c <= |b| ==> M[r, c] == C[r][c]
    {
      FillRow(a, b, C, M, i);
      i := i + 1;
    }
  }

  /*
   * The walk back
   */

  /**
   * Wherever the walk stands, one of its moves applies: the matrix never
   * leaves it lost.  A run of inserts (dir < 0) arrived from the cell to the
   * right, a run of deletes (dir > 0) from the cell below, each one more
   * expensive; so the walk never has to turn from one kind of run straight
   * into the other.
   */
  lemma WalkCanMove<T>(a: seq<T>, b: seq<T>, C: seq<seq<nat>>, i: nat, j: nat, dir: int)
    requires IsCostTable(a, b, 1, C) && i <= |a| && j <= |b| && (i > 0 || j > 0)
    requires dir < 0 ==> j < |b| && C[i][j + 1] == C[i][j] + 1
    requires dir > 0 ==> i < |a| && C[i + 1][j] == C[i][j] + 1
    ensures || (dir < 0 && j > 0 && C[i][j] == C[i][j - 1] + 1)
            || (dir > 0 && i > 0 && C[i][j] == C[i - 1][j] + 1)
            || (i > 0 && j > 0 && C[i][j] == C[i - 1][j - 1] && a[i - 1] == b[j - 1])
            || (i > 0 && j > 0 && C[i][j] == C[i - 1][j - 1] + 1)
            || (dir == 0 && j > 0 && C[i][j] == C[i][j - 1] + 1)
            || (dir == 0 && i > 0 && C[i][j] == C[i - 1][j] + 1)
  {
    assert C[i][j] == Cost(a, b, i, j, 1);
    if j > 0 {
      assert C[i][j - 1] == Cost(a, b, i, j - 1, 1);
    }
    if i > 0 {
      assert C[i - 1][j] == Cost(a, b, i - 1, j, 1);
    }
    if i > 0 && j > 0 {
      assert C[i - 1][j - 1] == Cost(a, b, i - 1, j - 1, 1);
      CostRecurrence(a, b, i, j, 1);
    }
    if dir < 0 {
      assert C[i][j + 1] == Cost(a, b, i, j + 1, 1);
      if i > 0 {
        CostRecurrence(a, b, i, j + 1, 1);
      }
    }
    if dir > 0 {
      assert C[i + 1][j] == Cost(a, b, i + 1, j, 1);
      if j > 0 {
        CostRecurrence(a, b, i + 1, j, 1);
      }
    }
  }

  /** Write one edit in front of the ones already written, keeping the script invariant. */
  method Emit<T>(s1: seq<T>, s2: seq<T>, ops: array<EditOp>, pos: nat, op: EditOp, x: nat, y: nat)
    requires pos < ops.Length && AlignsFrom(s1, s2, ops[pos + 1..], 0, x, y) && StepsTo(op, x, y)
    requires forall k :: pos < k < ops.Length ==> ops[k].kind != KEEP
    modifies ops
    ensures ops[..pos] == old(ops[..pos]) && ops[pos..] == [op] + old(ops[pos + 1..])
    ensures AlignsFrom(s1, s2, ops[pos..], 0, op.spos, op.dpos)
    ensures forall k :: pos <= k < ops.Length ==> ops[k].kind != KEEP
  {
    ghost var rest := ops[pos + 1..];
    ops[pos] := op;
    assert ops[pos..] == [op] + rest;
    AlignsPrepend(s1, s2, op, rest, x, y);
  }

  /** C has a cell for every pair of prefixes of a and b. */
  ghost predicate TableShape<T>(a: seq<T>, b: seq<T>, C: seq<seq<nat>>)
  {
    |C| == |a| + 1 && forall r :: 0 <= r <= |a| ==> |C[r]| == |b| + 1
  }

  /** The unit-cost table of a and b. */
  ghost function UnitTable<T>(a: seq<T>, b: seq<T>): (C: seq<seq<nat>>)
    ensures IsCostTable(a, b, 1, C)
  {
    seq(|a| + 1, i requires 0 <= i <= |a| => seq(|b| + 1, j requires 0 <= j <= |b| => Cost(a, b, i, j, 1)))
  }

  /**
   * One move of the walk back: the cell it goes to, the run it is then in
   * (dir < 0 inserts, dir > 0 deletes) and the kind of operation it writes,
   * KEEP for a free diagonal step, which writes nothing.
   */
  datatype Move = Step(kind: nat, i: nat, j: nat, dir: int) | Lost

  /**
   * The move the walk makes from cell (i, j) of the cost table C of a and b,
   * in its order of preference: go on with the current run of inserts or
   * deletes, then take a free diagonal step over two equal elements, then a
   * replace, then start a run of inserts, then a run of deletes.  A cell
   * where none applies leaves the walk lost; `WalkCanMove` shows that this
   * never happens.
   */
  ghost function NextMove<T>(a: seq<T>, b: seq<T>, C: seq<seq<nat>>, i: nat, j: nat, dir: int): (m: Move)
    requires TableShape(a, b, C) && i <= |a| && j <= |b|
    ensures m.Step? ==> m.i <= i && m.j <= j && m.i + m.j < i + j
  {
    if dir < 0 && j > 0 && C[i][j] == C[i][j - 1] + 1 then Step(INSERT, i, j - 1, dir)
    else if dir > 0 && i > 0 && C[i][j] == C[i - 1][j] + 1 then Step(DELETE, i - 1, j, dir)
    else if i > 0 && j > 0 && C[i][j] == C[i - 1][j - 1] && a[i - 1] == b[j - 1] then Step(KEEP, i - 1, j - 1, 0)
    else if i > 0 && j > 0 && C[i][j] == C[i - 1][j - 1] + 1 then Step(REPLACE, i - 1, j - 1, 0)
    else if dir == 0 && j > 0 && C[i][j] == C[i][j - 1] + 1 then Step(INSERT, i, j - 1, -1)
    else if dir == 0 && i > 0 && C[i][j] == C[i - 1][j] + 1 then Step(DELETE, i - 1, j, 1)
    else Lost
  }

  /**
   * The operations the walk back writes from cell (i, j) of the cost table C
   * of the stripped strings a and b, which sit at offset o in string1 and
   * string2, down to the first cell.  Positions are positions in the full
   * strings.
   */
  ghost function WalkOps<T>(a: seq<T>, b: seq<T>, C: seq<seq<nat>>, o: nat, i: nat, j: nat, dir: int): seq<EditOp>
    requires TableShape(a, b, C) && i <= |a| && j <= |b|
    decreases i + j
  {
    if i == 0 && j == 0 then []
    else match NextMove(a, b, C, i, j, dir)
      case Lost => []
      case Step(kind, i', j', dir') =>
        WalkOps(a, b, C, o, i', j', dir') + (if kind == KEEP then [] else [EditOp(kind, i' + o, j' + o)])
  }

  /**
   * The state of the walk back: it stands at cell (i, j) of the stripped
   * strings a and b, which sit at offset o in string1 and string2; ops[pos..]
   * is already written, holds no keep and turns the rest of string1 from
   * there into the rest of string2; what is left to write is the walk from
   * (i, j), and pos is the cost of the cell; and a run of inserts or deletes
   * arrived from a cell one more expensive.
   */
  ghost predicate Walk<T>(s1: seq<T>, s2: seq<T>, o: nat, a: seq<T>, b: seq<T>, C: seq<seq<nat>>,
                          ops: seq<EditOp>, pos: nat, i: nat, j: nat, dir: int)
  {
    && IsCostTable(a, b, 1, C)
    && i <= |a| && j <= |b| && pos == C[i][j] && pos <= |ops|
    && AlignsFrom(s1, s2, ops[pos..], 0, o + i, o + j)
    && WalkOps(a, b, C, o, |a|, |b|, 0) == WalkOps(a, b, C, o, i, j, dir) + ops[pos..]
    && (forall k :: pos <= k < |ops| ==> ops[k].kind != KEEP)
    && (dir < 0 ==> j < |b| && C[i][j + 1] == C[i][j] + 1)
    && (dir > 0 ==> i < |a| && C[i + 1][j] == C[i][j] + 1)
  }

  /** The matrix holds the cost table. */
  ghost predicate Holds<T>(a: seq<T>, b: seq<T>, C: seq<seq<nat>>, M: array2<nat>)
    reads M
  {
    && IsCostTable(a, b, 1, C)
    && M.Length0 == |a| + 1 && M.Length1 == |b| + 1
    && forall i, j :: 0 <= i <= |a| && 0 <= j <= |b| ==> M[i, j] == C[i][j]
  }

  /** The walk from a cell is its next move followed by the walk from where that move leads. */
  lemma WalkOpsStep<T>(a: seq<T>, b: seq<T>, C: seq<seq<nat>>, o: nat, i: nat, j: nat, dir: int, kind: nat, i': nat, j': nat, dir': int)
    requires TableShape(a, b, C) && i <= |a| && j <= |b| && (i > 0 || j > 0)
    requires NextMove(a, b, C, i, j, dir) == Step(kind, i', j', dir')
    ensures WalkOps(a, b, C, o, i, j, dir) == WalkOps(a, b, C, o, i', j', dir') + (if kind == KEEP then [] else [EditOp(kind, i' + o, j' + o)])
  {
  }

  /** Writing an edit at pos - 1 moves the walk to the cell the edit starts from. */
  method EmitWalk<T>(s1: seq<T>, s2: seq<T>, o: nat, a: seq<T>, b: seq<T>, ghost C: seq<seq<nat>>,
                     arr: array<EditOp>, pos: nat, i: nat, j: nat, dir: int, op: EditOp, i': nat, j': nat, dir': int)
    requires Walk(s1, s2, o, a, b, C, arr[..], pos, i, j, dir)
    requires 0 < pos && i' <= i && j' <= j && C[i'][j'] == pos - 1
    requires op.spos == o + i' && op.dpos == o + j' && StepsTo(op, o + i, o + j)
    requires NextMove(a, b, C, i, j, dir) == Step(op.kind, i', j', dir') && op.kind != KEEP
    requires dir' < 0 ==> j' < |b| && C[i'][j' + 1] == C[i'][j'] + 1
    requires dir' > 0 ==> i' < |a| && C[i' + 1][j'] == C[i'][j'] + 1
    modifies arr
    ensures Walk(s1, s2, o, a, b, C, arr[..], pos - 1, i', j', dir')
  {
    ghost var before := arr[..];
    assert before[pos..] == arr[pos..];
    Emit(s1, s2, arr, pos - 1, op, o + i, o + j);
    assert arr[..][pos - 1..] == arr[pos - 1..];
    WalkAfterEmit(s1, s2, o, a, b, C, before, arr[..], pos, i, j, dir, op, i', j', dir');
  }

  /** The walk state after op has been written at pos - 1, on the scripts before and after. */
  lemma WalkAfterEmit<T>(s1: seq<T>, s2: seq<T>, o: nat, a: seq<T>, b: seq<T>, C: seq<seq<nat>>,
                         ops: seq<EditOp>, ops': seq<EditOp>, pos: nat, i: nat, j: nat, dir: int,
                         op: EditOp, i': nat, j': nat, dir': int)
    requires Walk(s1, s2, o, a, b, C, ops, pos, i, j, dir)
    requires 0 < pos && i' <= i && j' <= j && C[i'][j'] == pos - 1
    requires NextMove(a, b, C, i, j, dir) == Step(op.kind, i', j', dir') && op.kind != KEEP
    requires op.spos == o + i' && op.dpos == o + j'
    requires dir' < 0 ==> j' < |b| && C[i'][j' + 1] == C[i'][j'] + 1
    requires dir' > 0 ==> i' < |a| && C[i' + 1][j'] == C[i'][j'] + 1
    requires |ops'| == |ops| && ops'[pos - 1..] == [op] + ops[pos..]
    requires AlignsFrom(s1, s2, ops'[pos - 1..], 0, o + i', o + j')
    requires forall k :: pos - 1 <= k < |ops'| ==> ops'[k].kind != KEEP
    ensures Walk(s1, s2, o, a, b, C, ops', pos - 1, i', j', dir')
  {
    WalkOpsStep(a, b, C, o, i, j, dir, op.kind, i', j', dir');
    assert WalkOps(a, b, C, o, i, j, dir) == WalkOps(a, b, C, o, i', j', dir') + [op];
  }

  /** A free diagonal step over two equal elements moves the walk without writing anything. */
  lemma KeepWalk<T>(s1: seq<T>, s2: seq<T>, o: nat, a: seq<T>, b: seq<T>, C: seq<seq<nat>>,
                    ops: seq<EditOp>, pos: nat, i: nat, j: nat, dir: int)
    requires o + |a| <= |s1| && o + |b| <= |s2| && a == s1[o..o + |a|] && b == s2[o..o + |b|]
    requires Walk(s1, s2, o, a, b, C, ops, pos, i, j, dir)
    requires 0 < i && 0 < j && a[i - 1] == b[j - 1] && C[i][j] == C[i - 1][j - 1]
    requires NextMove(a, b, C, i, j, dir) == Step(KEEP, i - 1, j - 1, 0)
    ensures Walk(s1, s2, o, a, b, C, ops, pos, i - 1, j - 1, 0)
  {
    KeepAligns(s1, s2, o, a, b, ops[pos..], i, j);
    WalkOpsStep(a, b, C, o, i, j, dir, KEEP, i - 1, j - 1, 0);
    assert WalkOps(a, b, C, o, i, j, dir) == WalkOps(a, b, C, o, i - 1, j - 1, 0);
  }

  /** Two equal elements in front of an aligned rest align with it. */
  lemma KeepAligns<T>(s1: seq<T>, s2: seq<T>, o: nat, a: seq<T>, b: seq<T>, rest: seq<EditOp>, i: nat, j: nat)
    requires o + |a| <= |s1| && o + |b| <= |s2| && a == s1[o..o + |a|] && b == s2[o..o + |b|]
    requires 0 < i <= |a| && 0 < j <= |b| && a[i - 1] == b[j - 1]
    requires AlignsFrom(s1, s2, rest, 0, o + i, o + j)
    ensures AlignsFrom(s1, s2, rest, 0, o + i - 1, o + j - 1)
  {
    assert s1[o + i - 1..o + i] == [a[i - 1]] == s2[o + j - 1..o + j];
    AlignsGap(s1, s2, rest, 0, o + i, o + j, o + i - 1, o + j - 1);
  }

  /** One turn of the walk-back loop: go on with a run, or take a free diagonal step. */
  method WalkStep<T(==)>(s1: seq<T>, s2: seq<T>, o: nat, a: seq<T>, b: seq<T>, ghost C: seq<seq<nat>>, M: array2<nat>,
                         arr: array<EditOp>, pos: nat, i: nat, j: nat, dir: int)
    returns (pos': nat, i': nat, j': nat, dir': int)
    requires Holds(a, b, C, M) && o + |a| <= |s1| && o + |b| <= |s2| && a == s1[o..o + |a|] && b == s2[o..o + |b|]
    requires Walk(s1, s2, o, a, b, C, arr[..], pos, i, j, dir) && (i > 0 || j > 0)
    modifies arr
    ensures Walk(s1, s2, o, a, b, C, arr[..], pos', i', j', dir') && i' + j' < i + j
  {
    // prefer continuing in the same direction
    if dir < 0 && j > 0 && M[i, j] == M[i, j - 1] + 1 {
      pos', i', j', dir' := pos - 1, i, j - 1, dir;
      EmitWalk(s1, s2, o, a, b, C, arr, pos, i, j, dir, EditOp(INSERT, i' + o, j' + o), i', j', dir');
    } else if dir > 0 && i > 0 && M[i, j] == M[i - 1, j] + 1 {
      pos', i', j', dir' := pos - 1, i - 1, j, dir;
      EmitWalk(s1, s2, o, a, b, C, arr, pos, i, j, dir, EditOp(DELETE, i' + o, j' + o), i', j', dir');
    } else if i > 0 && j > 0 && M[i, j] == M[i - 1, j - 1] && a[i - 1] == b[j - 1] {
      // a keep is not stored
      pos', i', j', dir' := pos, i - 1, j - 1, 0;
      KeepWalk(s1, s2, o, a, b, C, arr[..], pos, i, j, dir);
    } else {
      pos', i', j', dir' := WalkTurn(s1, s2, o, a, b, C, M, arr, pos, i, j, dir);
    }
  }

  /** The rest of a turn: a replace, or the start of a new run. */
  method WalkTurn<T(==)>(s1: seq<T>, s2: seq<T>, o: nat, a: seq<T>, b: seq<T>, ghost C: seq<seq<nat>>, M: array2<nat>,
                         arr: array<EditOp>, pos: nat, i: nat, j: nat, dir: int)
    returns (pos': nat, i': nat, j': nat, dir': int)
    requires Holds(a, b, C, M) && o + |a| <= |s1| && o + |b| <= |s2| && a == s1[o..o + |a|] && b == s2[o..o + |b|]
    requires Walk(s1, s2, o, a, b, C, arr[..], pos, i, j, dir) && (i > 0 || j > 0)
    requires !(dir < 0 && j > 0 && C[i][j] == C[i][j - 1] + 1)
    requires !(dir > 0 && i > 0 && C[i][j] == C[i - 1][j] + 1)
    requires !(i > 0 && j > 0 && C[i][j] == C[i - 1][j - 1] && a[i - 1] == b[j - 1])
    modifies arr
    ensures Walk(s1, s2, o, a, b, C, arr[..], pos', i', j', dir') && i' + j' < i + j
  {
    WalkCanMove(a, b, C, i, j, dir);
    if i > 0 && j > 0 && M[i, j] == M[i - 1, j - 1] + 1 {
      pos', i', j', dir' := pos - 1, i - 1, j - 1, 0;
      EmitWalk(s1, s2, o, a, b, C, arr, pos, i, j, dir, EditOp(REPLACE, i' + o, j' + o), i', j', dir');
    } else if dir == 0 && j > 0 && M[i, j] == M[i, j - 1] + 1 {
      pos', i', j', dir' := pos - 1, i, j - 1, -1;
      EmitWalk(s1, s2, o, a, b, C, arr, pos, i, j, dir, EditOp(INSERT, i' + o, j' + o), i', j', dir');
    } else if dir == 0 && i > 0 && M[i, j] == M[i - 1, j] + 1 {
      pos', i', j', dir' := pos - 1, i - 1, j, 1;
      EmitWalk(s1, s2, o, a, b, C, arr, pos, i, j, dir, EditOp(DELETE, i' + o, j' + o), i', j', dir');
    } else {
      // lost in the cost matrix
      assert false;
    }
  }

  /**
   * `editops_from_cost_matrix`: walk from the last cell back to the first,
   * preferring to continue a run of inserts or deletes, then a free diagonal
   * step, then a replace, then starting a new run.  The stripped strings a
   * and b sit at offset o in string1 and string2, and the positions written
   * are positions in the full strings.
   */
  method Backtrack<T(==)>(s1: seq<T>, s2: seq<T>, o: nat, a: seq<T>, b: seq<T>, ghost C: seq<seq<nat>>, M: array2<nat>)
    returns (ops: seq<EditOp>)
    requires Holds(a, b, C, M)
    requires o + |a| <= |s1| && o + |b| <= |s2| && a == s1[o..o + |a|] && b == s2[o..o + |b|]
    requires s1[o + |a|..] == s2[o + |b|..]
    ensures AlignsFrom(s1, s2, ops, 0, o, o) && |ops| == C[|a|][|b|]
    ensures forall k :: 0 <= k < |ops| ==> ops[k].kind != KEEP
    ensures ops == WalkOps(a, b, C, o, |a|, |b|, 0)
  {
    var n := M[|a|, |b|];
    var arr := new EditOp[n];
    var pos: nat := n;
    var i: nat, j: nat := |a|, |b|;
    var dir := 0;
    assert arr[..][n..] == [];
    while i > 0 || j > 0
      invariant Walk(s1, s2, o, a, b, C, arr[..], pos, i, j, dir)
      decreases i + j
    {
      pos, i, j, dir := WalkStep(s1, s2, o, a, b, C, M, arr, pos, i, j, dir);
    }
    assert C[0][0] == Cost(a, b, 0, 0, 1);
    ops := arr[..];
    assert ops[0..] == ops;
  }

  /** The length of the longest common prefix of s1 and s2. */
  ghost function CommonPrefix<T>(s1: seq<T>, s2: seq<T>): (n: nat)
    ensures n <= |s1| && n <= |s2|
  {
    if |s1| > 0 && |s2| > 0 && s1[0] == s2[0] then 1 + CommonPrefix(s1[1..], s2[1..]) else 0
  }

  /**
   * The length of the longest common suffix of s1[o..] and s2[o..], when
   * their last m elements are already known to agree: count on from the end
   * until the two differ or one of them is used up.
   */
  ghost function CommonSuffix<T>(s1: seq<T>, s2: seq<T>, o: nat, m: nat): (n: nat)
    requires o + m <= |s1| && o + m <= |s2|
    ensures m <= n && o + n <= |s1| && o + n <= |s2|
    decreases |s1| - m
  {
    if o + m < |s1| && o + m < |s2| && s1[|s1| - 1 - m] == s2[|s2| - 1 - m] then CommonSuffix(s1, s2, o, m + 1) else m
  }

  /** The common prefix is shared, and the elements after it differ. */
  lemma {:induction false} CommonPrefixFacts<T>(s1: seq<T>, s2: seq<T>)
    ensures var n := CommonPrefix(s1, s2);
      && n <= |s1| && n <= |s2| && s1[..n] == s2[..n]
      && (n < |s1| && n < |s2| ==> s1[n] != s2[n])
  {
    if |s1| > 0 && |s2| > 0 && s1[0] == s2[0] {
      CommonPrefixFacts(s1[1..], s2[1..]);
      var n := CommonPrefix(s1, s2);
      assert s1[..n] == [s1[0]] + s1[1..][..n - 1] && s2[..n] == [s2[0]] + s2[1..][..n - 1];
    }
  }

  /** s1 and s2 agree on their last n elements. */
  ghost predicate SameTail<T>(s1: seq<T>, s2: seq<T>, n: nat)
    requires n <= |s1| && n <= |s2|
  {
    forall i :: |s1| - n <= i < |s1| ==> s1[i] == s2[i + |s2| - |s1|]
  }

  /** The common suffix is shared, and the elements just before it differ. */
  lemma {:induction false} CommonSuffixFacts<T>(s1: seq<T>, s2: seq<T>, o: nat, m: nat)
    requires o + m <= |s1| && o + m <= |s2| && SameTail(s1, s2, m)
    ensures var n := CommonSuffix(s1, s2, o, m);
      && SameTail(s1, s2, n)
      && (o + n < |s1| && o + n < |s2| ==> s1[|s1| - 1 - n] != s2[|s2| - 1 - n])
    decreases |s1| - m
  {
    if o + m < |s1| && o + m < |s2| && s1[|s1| - 1 - m] == s2[|s2| - 1 - m] {
      CommonSuffixFacts(s1, s2, o, m + 1);
    }
  }

  /** A shared first element adds one to the common prefix. */
  lemma PrefixStep<T>(s1: seq<T>, s2: seq<T>, o: nat)
    requires o < |s1| && o < |s2| && s1[o] == s2[o]
    ensures CommonPrefix(s1[o..], s2[o..]) == 1 + CommonPrefix(s1[o + 1..], s2[o + 1..])
  {
    assert s1[o..][1..] == s1[o + 1..] && s2[o..][1..] == s2[o + 1..];
  }

  /** `lev_editops_find`, first part: strip the common prefix, then the common suffix of what is left. */
  method StripCommon<T(==)>(s1: seq<T>, s2: seq<T>) returns (o: nat, len1: nat, len2: nat)
    ensures (o, len1, len2) == Strip(s1, s2)
  {
    // strip common prefix
    o := 0;
    while o < |s1| && o < |s2| && s1[o] == s2[o]
      invariant o <= |s1| && o <= |s2|
      invariant CommonPrefix(s1, s2) == o + CommonPrefix(s1[o..], s2[o..])
    {
      PrefixStep(s1, s2, o);
      o := o + 1;
    }
    PrefixEnd(s1, s2, o);
    // strip common suffix
    len1, len2 := StripSuffix(s1, s2, o);
  }

  /** Where the two differ or one is used up, no common prefix is left. */
  lemma PrefixEnd<T>(s1: seq<T>, s2: seq<T>, o: nat)
    requires o <= |s1| && o <= |s2| && !(o < |s1| && o < |s2| && s1[o] == s2[o])
    ensures CommonPrefix(s1[o..], s2[o..]) == 0
  {
  }

  /** The second part: strip the common suffix of what is left after offset o. */
  method StripSuffix<T(==)>(s1: seq<T>, s2: seq<T>, o: nat) returns (len1: nat, len2: nat)
    requires o <= |s1| && o <= |s2|
    ensures o + len1 <= |s1| && o + len2 <= |s2|
    ensures |s1| - (o + len1) == |s2| - (o + len2) == CommonSuffix(s1, s2, o, 0)
  {
    len1, len2 := |s1| - o, |s2| - o;
    while len1 > 0 && len2 > 0 && s1[o + len1 - 1] == s2[o + len2 - 1]
      invariant o + len1 <= |s1| && o + len2 <= |s2| && |s1| - len1 == |s2| - len2
      invariant SameTail(s1, s2, |s1| - (o + len1))
    {
      len1, len2 := len1 - 1, len2 - 1;
    }
    SuffixUnique(s1, s2, o, |s1| - (o + len1));
  }

  /** The common suffix is the one length whose tails agree and whose next elements do not. */
  lemma SuffixUnique<T>(s1: seq<T>, s2: seq<T>, o: nat, k: nat)
    requires o + k <= |s1| && o + k <= |s2| && SameTail(s1, s2, k)
    requires o + k < |s1| && o + k < |s2| ==> s1[|s1| - 1 - k] != s2[|s2| - 1 - k]
    ensures k == CommonSuffix(s1, s2, o, 0)
  {
    CommonSuffixFacts(s1, s2, o, 0);
  }

  /** What stripping leaves: the ends of each string outside the common prefix and suffix agree. */
  lemma StrippedEnds<T>(s1: seq<T>, s2: seq<T>, o: nat, len1: nat, len2: nat)
    requires (o, len1, len2) == Strip(s1, s2)
    ensures s1[..o] == s2[..o] && s1[o + len1..] == s2[o + len2..]
    ensures len1 > 0 && len2 > 0 ==> s1[o] != s2[o] && s1[o + len1 - 1] != s2[o + len2 - 1]
  {
    CommonPrefixFacts(s1, s2);
    SuffixEnds(s1, s2, o);
  }

  /** The common suffix of what follows offset o, as slices. */
  lemma SuffixEnds<T>(s1: seq<T>, s2: seq<T>, o: nat)
    requires o <= |s1| && o <= |s2|
    ensures var k := CommonSuffix(s1, s2, o, 0);
      && s1[|s1| - k..] == s2[|s2| - k..]
      && (o + k < |s1| && o + k < |s2| ==> s1[|s1| - 1 - k] != s2[|s2| - 1 - k])
  {
    CommonSuffixFacts(s1, s2, o, 0);
    var k := CommonSuffix(s1, s2, o, 0);
    var a, b := s1[|s1| - k..], s2[|s2| - k..];
    forall i | 0 <= i < k
      ensures a[i] == b[i]
    {
      assert s1[|s1| - k + i] == s2[|s1| - k + i + |s2| - |s1|];
    }
  }

  /** Only what is left after stripping counts towards the distance. */
  lemma StrippedCore<T>(s1: seq<T>, s2: seq<T>, o: nat, len1: nat, len2: nat)
    requires o + len1 <= |s1| && o + len2 <= |s2|
    requires s1[..o] == s2[..o] && s1[o + len1..] == s2[o + len2..]
    ensures Distance(s1, s2, 1) == Distance(s1[o..o + len1], s2[o..o + len2], 1)
  {
    var a, b, t := s1[o..o + len1], s2[o..o + len2], s1[o + len1..];
    assert s1 == s1[..o] + (a + t) && s2 == s1[..o] + (b + t);
    DistanceDropPrefix(s1[..o], a + t, b + t, 1);
    DistanceDropSuffix(a, b, t, 1);
  }

  /**
   * The script `lev_editops_find` returns: no operation when what is left
   * after stripping the common prefix and suffix is at distance 0, and
   * otherwise the walk back through the unit-cost table of what is left.
   */
  ghost function FoundOps<T>(s1: seq<T>, s2: seq<T>): seq<EditOp>
  {
    var (o, len1, len2) := Strip(s1, s2);
    CoreOps(s1[o..o + len1], s2[o..o + len2], o)
  }

  /** Where stripping the common prefix, then the common suffix of the rest, leaves the two strings: offset and lengths. */
  ghost function Strip<T>(s1: seq<T>, s2: seq<T>): (r: (nat, nat, nat))
    ensures r.0 + r.1 <= |s1| && r.0 + r.2 <= |s2|
  {
    var o := CommonPrefix(s1, s2);
    var k := CommonSuffix(s1, s2, o, 0);
    (o, |s1| - o - k, |s2| - o - k)
  }

  /** The script for the stripped strings a and b, which sit at offset o. */
  ghost function CoreOps<T>(a: seq<T>, b: seq<T>, o: nat): seq<EditOp>
  {
    if Distance(a, b, 1) == 0 then [] else WalkOps(a, b, UnitTable(a, b), o, |a|, |b|, 0)
  }

  /**
   * `lev_editops_find`: strip the common prefix and suffix, fill the cost
   * matrix of what is left and walk back through it.  The result turns
   * string1 into string2, has exactly as many operations as the unit-cost
   * distance between them, and stores no keep.
   */
  method EditopsFind<T(==)>(s1: seq<T>, s2: seq<T>) returns (ops: seq<EditOp>)
    ensures Aligns(s1, s2, ops)
    ensures |ops| == Distance(s1, s2, 1)
    ensures forall k :: 0 <= k < |ops| ==> ops[k].kind != KEEP
    ensures EditopsErrors(|s1|, |s2|, ops) == Ok && Applicable(|s1|, |s2|, ops) && Apply(s1, s2, ops) == s2
    ensures ops == FoundOps(s1, s2)
  {
    var o, len1, len2 := StripCommon(s1, s2);
    StrippedEnds(s1, s2, o, len1, len2);
    StrippedCore(s1, s2, o, len1, len2);
    ops := FindStripped(s1, s2, o, len1, len2);
    FoundOpsOf(s1, s2, o, len1, len2);
    AlignsChecked(s1, s2, ops);
  }

  /** The second part of `lev_editops_find`: fill the matrix of what is left after stripping, and walk back through it. */
  method FindStripped<T(==)>(s1: seq<T>, s2: seq<T>, o: nat, len1: nat, len2: nat) returns (ops: seq<EditOp>)
    requires o + len1 <= |s1| && o + len2 <= |s2|
    requires s1[..o] == s2[..o] && s1[o + len1..] == s2[o + len2..]
    ensures Aligns(s1, s2, ops) && |ops| == Distance(s1[o..o + len1], s2[o..o + len2], 1)
    ensures forall k :: 0 <= k < |ops| ==> ops[k].kind != KEEP
    ensures ops == CoreOps(s1[o..o + len1], s2[o..o + len2], o)
  {
    var a, b := s1[o..o + len1], s2[o..o + len2];
    ghost var C := UnitTable(a, b);
    var M := FillMatrix(a, b, C);
    assert C[|a|][|b|] == Distance(a, b, 1);
    if M[len1, len2] == 0 {
      ops := [];
      EmptyScript(s1, s2, o, len1, len2);
    } else {
      ops := Backtrack(s1, s2, o, a, b, C, M);
      AlignsGap(s1, s2, ops, 0, o, o, 0, 0);
    }
  }

  /** `FoundOps` walks through the strings that stripping leaves. */
  lemma FoundOpsOf<T>(s1: seq<T>, s2: seq<T>, o: nat, len1: nat, len2: nat)
    requires (o, len1, len2) == Strip(s1, s2)
    ensures FoundOps(s1, s2) == CoreOps(s1[o..o + len1], s2[o..o + len2], o)
  {
  }

  /** When what is left after stripping is at distance 0, the strings are equal and need no operation. */
  lemma EmptyScript<T>(s1: seq<T>, s2: seq<T>, o: nat, len1: nat, len2: nat)
    requires o + len1 <= |s1| && o + len2 <= |s2|
    requires s1[..o] == s2[..o] && s1[o + len1..] == s2[o + len2..]
    requires Distance(s1[o..o + len1], s2[o..o + len2], 1) == 0
    ensures Aligns(s1, s2, [])
  {
    DistanceZeroIff(s1[o..o + len1], s2[o..o + len2], 1);
    assert s1 == s1[..o] + s1[o..o + len1] + s1[o + len1..];
    assert s2 == s2[..o] + s2[o..o + len2] + s2[o + len2..];
    assert s1[0..] == s1 && s2[0..] == s2;
  }

  /*
   * The documented example: editops('spam', 'park') and editops('park', 'spam')
   */

  /** The unit-cost table of 'spam' (rows) and 'park' (columns), cell by cell. */
  lemma SpamParkTable(a: string, b: string)
    requires |a| == 4 && a[0] == 's' && a[1] == 'p' && a[2] == 'a' && a[3] == 'm'
    requires |b| == 4 && b[0] == 'p' && b[1] == 'a' && b[2] == 'r' && b[3] == 'k'
    ensures Cost(a, b, 1, 1, 1) == 1 && Cost(a, b, 1, 2, 1) == 2 && Cost(a, b, 1, 3, 1) == 3 && Cost(a, b, 1, 4, 1) == 4
    ensures Cost(a, b, 2, 1, 1) == 1 && Cost(a, b, 2, 2, 1) == 2 && Cost(a, b, 2, 3, 1) == 3 && Cost(a, b, 2, 4, 1) == 4
    ensures Cost(a, b, 3, 1, 1) == 2 && Cost(a, b, 3, 2, 1) == 1 && Cost(a, b, 3, 3, 1) == 2 && Cost(a, b, 3, 4, 1) == 3
    ensures Cost(a, b, 4, 1, 1) == 3 && Cost(a, b, 4, 2, 1) == 2 && Cost(a, b, 4, 3, 1) == 2 && Cost(a, b, 4, 4, 1) == 3
  {
    assert Cost(a, b, 1, 1, 1) == 1;
    assert Cost(a, b, 1, 2, 1) == 2;
    assert Cost(a, b, 1, 3, 1) == 3;
    assert Cost(a, b, 2, 1, 1) == 1;
    assert Cost(a, b, 2, 2, 1) == 2;
    assert Cost(a, b, 2, 3, 1) == 3;
    assert Cost(a, b, 3, 1, 1) == 2;
    assert Cost(a, b, 3, 2, 1) == 1;
    assert Cost(a, b, 3, 3, 1) == 2;
    assert Cost(a, b, 4, 1, 1) == 3;
    assert Cost(a, b, 4, 2, 1) == 2;
    assert Cost(a, b, 4, 3, 1) == 2;
  }

  /** The unit-cost table of 'park' (rows) and 'spam' (columns), cell by cell. */
  lemma ParkSpamTable(a: string, b: string)
    requires |a| == 4 && a[0] == 'p' && a[1] == 'a' && a[2] == 'r' && a[3] == 'k'
    requires |b| == 4 && b[0] == 's' && b[1] == 'p' && b[2] == 'a' && b[3] == 'm'
    ensures Cost(a, b, 1, 1, 1) == 1 && Cost(a, b, 1, 2, 1) == 1 && Cost(a, b, 1, 3, 1) == 2 && Cost(a, b, 1, 4, 1) == 3
    ensures Cost(a, b, 2, 1, 1) == 2 && Cost(a, b, 2, 2, 1) == 2 && Cost(a, b, 2, 3, 1) == 1 && Cost(a, b, 2, 4, 1) == 2
    ensures Cost(a, b, 3, 1, 1) == 3 && Cost(a, b, 3, 2, 1) == 3 && Cost(a, b, 3, 3, 1) == 2 && Cost(a, b, 3, 4, 1) == 2
    ensures Cost(a, b, 4, 1, 1) == 4 && Cost(a, b, 4, 2, 1) == 4 && Cost(a, b, 4, 3, 1) == 3 && Cost(a, b, 4, 4, 1) == 3
  {
    assert Cost(a, b, 1, 1, 1) == 1;
    assert Cost(a, b, 1, 2, 1) == 1;
    assert Cost(a, b, 1, 3, 1) == 2;
    assert Cost(a, b, 2, 1, 1) == 2;
    assert Cost(a, b, 2, 2, 1) == 2;
    assert Cost(a, b, 2, 3, 1) == 1;
    assert Cost(a, b, 3, 1, 1) == 3;
    assert Cost(a, b, 3, 2, 1) == 3;
    assert Cost(a, b, 3, 3, 1) == 2;
    assert Cost(a, b, 4, 1, 1) == 4;
    assert Cost(a, b, 4, 2, 1) == 4;
    assert Cost(a, b, 4, 3, 1) == 3;
  }

  /** Neither end of two strings that differ in their first and in their last element is stripped. */
  lemma NothingStripped<T>(a: seq<T>, b: seq<T>)
    requires |a| > 0 && |b| > 0 && a[0] != b[0] && a[|a| - 1] != b[|b| - 1]
    ensures Strip(a, b) == (0, |a|, |b|) && a[0..|a|] == a && b[0..|b|] == b
  {
  }

  /** editops('spam', 'park') is [('delete', 0, 0), ('insert', 3, 2), ('replace', 3, 3)]. */
  lemma SpamParkEditops(a: string, b: string)
    requires |a| == 4 && a[0] == 's' && a[1] == 'p' && a[2] == 'a' && a[3] == 'm'
    requires |b| == 4 && b[0] == 'p' && b[1] == 'a' && b[2] == 'r' && b[3] == 'k'
    ensures FoundOps(a, b) == [EditOp(DELETE, 0, 0), EditOp(INSERT, 3, 2), EditOp(REPLACE, 3, 3)]
  {
    NothingStripped(a, b);
    SpamParkTable(a, b);
    var C := UnitTable(a, b);
    WalkOpsStep(a, b, C, 0, 4, 4, 0, REPLACE, 3, 3, 0);
    WalkOpsStep(a, b, C, 0, 3, 3, 0, INSERT, 3, 2, -1);
    WalkOpsStep(a, b, C, 0, 3, 2, -1, KEEP, 2, 1, 0);
    WalkOpsStep(a, b, C, 0, 2, 1, 0, KEEP, 1, 0, 0);
    WalkOpsStep(a, b, C, 0, 1, 0, 0, DELETE, 0, 0, 1);
  }

  /** editops('park', 'spam') is [('insert', 0, 0), ('delete', 2, 3), ('replace', 3, 3)]. */
  lemma ParkSpamEditops(a: string, b: string)
    requires |a| == 4 && a[0] == 'p' && a[1] == 'a' && a[2] == 'r' && a[3] == 'k'
    requires |b| == 4 && b[0] == 's' && b[1] == 'p' && b[2] == 'a' && b[3] == 'm'
    ensures FoundOps(a, b) == [EditOp(INSERT, 0, 0), EditOp(DELETE, 2, 3), EditOp(REPLACE, 3, 3)]
  {
    NothingStripped(a, b);
    ParkSpamTable(a, b);
    var C := UnitTable(a, b);
    WalkOpsStep(a, b, C, 0, 4, 4, 0, REPLACE, 3, 3, 0);
    WalkOpsStep(a, b, C, 0, 3, 3, 0, DELETE, 2, 3, 1);
    WalkOpsStep(a, b, C, 0, 2, 3, 1, KEEP, 1, 2, 0);
    WalkOpsStep(a, b, C, 0, 1, 2, 0, KEEP, 0, 1, 0);
    WalkOpsStep(a, b, C, 0, 0, 1, 0, INSERT, 0, 0, -1);
  }

  /** inverse(editops('spam', 'park')) == editops('park', 'spam'). */
  lemma InverseSpamPark(a: string, b: string)
    requires |a| == 4 && a[0] == 's' && a[1] == 'p' && a[2] == 'a' && a[3] == 'm'
    requires |b| == 4 && b[0] == 'p' && b[1] == 'a' && b[2] == 'r' && b[3] == 'k'
    ensures InvertOps(FoundOps(a, b)) == FoundOps(b, a)
  {
    SpamParkEditops(a, b);
    ParkSpamEditops(b, a);
    InvertSpamParkScript();
  }
}
