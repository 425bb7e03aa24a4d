/**
 * Conversions between the two forms of an edit in Levenshtein.c:
 * `lev_editops_to_opcodes` groups atomic operations into blocks,
 * `lev_editops_matching_blocks` lists the stretches the operations leave
 * equal, and `lev_opcodes_to_editops` expands blocks back into atomic
 * operations.
 *
 * The first two scan the operations the same way: keep operations are
 * passed over, a stretch the cursor pair skips becomes an equal block, and a
 * run of operations of one kind, each sitting exactly where the previous one
 * left the cursor pair, becomes one block.  Both then close with an equal
 * block up to the ends of the strings.  The C code scans twice (once to size
 * the buffer, once to fill it); the model keeps the filling pass and grows a
 * sequence.
 */
module Convert {
  import opened EditOps
  import opened Opcodes
  import opened EditFind

  /** Where a scan stands: the next operation and the cursor pair. */
  datatype Scan = Scan(next: nat, spos: nat, dpos: nat)

  /** `LevMatchingBlock`: string1[spos..spos + len] is left equal to string2[dpos..dpos + len]. */
  datatype MatchingBlock = MatchingBlock(spos: nat, dpos: nat, len: nat)

  /** Every operation has one of the four kinds (the C scan never ends on any other number). */
  predicate KindsValid(ops: seq<EditOp>)
  {
    forall k :: 0 <= k < |ops| ==> ops[k].kind < LAST
  }

  /*
   * The scan shared by lev_editops_to_opcodes and lev_editops_matching_blocks
   */

  /** The first operation from k on that is not a keep, or the end of the list. */
  function SkipKeeps(ops: seq<EditOp>, k: nat): (r: nat)
    requires k <= |ops|
    ensures k <= r <= |ops| && (r < |ops| ==> ops[r].kind != KEEP)
    ensures forall l :: k <= l < r ==> ops[l].kind == KEEP
    decreases |ops| - k
  {
    if k < |ops| && ops[k].kind == KEEP then SkipKeeps(ops, k + 1) else k
  }

  /**
   * The rest of a run of one kind with the cursor pair at (s, d): the run
   * goes on while the next operation has that kind and sits exactly at the
   * cursor pair, and each operation moves the cursor pair as it would when
   * applied.
   */
  function RunRest(ops: seq<EditOp>, kind: nat, k: nat, s: nat, d: nat): (r: Scan)
    requires k <= |ops|
    ensures k <= r.next <= |ops|
    ensures forall l :: k <= l < r.next ==> ops[l].kind == kind
    ensures r.spos == if Consumes(kind) == 1 then s + (r.next - k) else s
    ensures r.dpos == if kind == DELETE then d else d + (r.next - k)
    ensures forall l :: k <= l < r.next ==>
      ops[l].spos == (if Consumes(kind) == 1 then s + (l - k) else s) && ops[l].dpos == (if kind == DELETE then d else d + (l - k))
    decreases |ops| - k
  {
    if k < |ops| && ops[k].kind == kind && ops[k].spos == s && ops[k].dpos == d then
      RunRest(ops, kind, k + 1, Next(ops[k]), NextDst(ops[k]))
    else
      Scan(k, s, d)
  }

  /** A run always takes operation k, from the cursor pair (s, d) whatever the operation's own positions, then goes on as RunRest. */
  function Run(ops: seq<EditOp>, k: nat, s: nat, d: nat): (r: Scan)
    requires k < |ops|
    ensures k < r.next <= |ops|
    ensures forall l :: k <= l < r.next ==> ops[l].kind == ops[k].kind
    ensures r.spos == if Consumes(ops[k].kind) == 1 then s + (r.next - k) else s
    ensures r.dpos == if ops[k].kind == DELETE then d else d + (r.next - k)
    ensures forall l :: k < l < r.next ==>
      ops[l].spos == (if Consumes(ops[k].kind) == 1 then s + (l - k) else s) && ops[l].dpos == (if ops[k].kind == DELETE then d else d + (l - k))
  {
    var o := EditOp(ops[k].kind, s, d);
    RunRest(ops, o.kind, k + 1, Next(o), NextDst(o))
  }

  /**
   * The blocks `lev_editops_to_opcodes` writes for ops[k..] with the cursor
   * pair at (s, d): an equal block over a skipped stretch, a block for each
   * run, and a closing equal block when the cursor pair has not reached
   * (len1, len2).  The C code asserts that the closing block has equal
   * lengths; the model follows a build without assertions and writes it
   * regardless (BlocksOfAligned shows the assertion holds for aligned
   * scripts).
   */
  function Blocks(len1: nat, len2: nat, ops: seq<EditOp>, k: nat, s: nat, d: nat): seq<OpCode>
    requires k <= |ops|
    decreases |ops| - k
  {
    var k' := SkipKeeps(ops, k);
    if k' == |ops| then
      if s < len1 || d < len2 then [OpCode(KEEP, s, len1, d, len2)] else []
    else
      var o := ops[k'];
      var gap := s < o.spos || d < o.dpos;
      var s0 := if gap then o.spos else s;
      var d0 := if gap then o.dpos else d;
      var r := Run(ops, k', s0, d0);
      (if gap then [OpCode(KEEP, s, o.spos, d, o.dpos)] else [])
        + [OpCode(o.kind, s0, r.spos, d0, r.dpos)]
        + Blocks(len1, len2, ops, r.next, r.spos, r.dpos)
  }

  function ToOpcodes(len1: nat, len2: nat, ops: seq<EditOp>): seq<OpCode>
  {
    Blocks(len1, len2, ops, 0, 0, 0)
  }

  /** Passing over keep operations first does not change the blocks. */
  lemma BlocksSkip(len1: nat, len2: nat, ops: seq<EditOp>, k: nat, s: nat, d: nat)
    requires k <= |ops|
    ensures Blocks(len1, len2, ops, SkipKeeps(ops, k), s, d) == Blocks(len1, len2, ops, k, s, d)
  {
    var k' := SkipKeeps(ops, k);
    assert SkipKeeps(ops, k') == k';
  }

  /**
   * One step of the scan from a non-keep operation k: the blocks are the
   * equal block over the skipped stretch (if any), the run's block, then the
   * blocks of the rest.
   */
  lemma ScanStep(len1: nat, len2: nat, ops: seq<EditOp>, k: nat, s: nat, d: nat)
    requires k < |ops| && ops[k].kind != KEEP
    ensures var o := ops[k];
      var gap := s < o.spos || d < o.dpos;
      var s0 := if gap then o.spos else s;
      var d0 := if gap then o.dpos else d;
      var r := Run(ops, k, s0, d0);
      Blocks(len1, len2, ops, k, s, d)
        == (if gap then [OpCode(KEEP, s, o.spos, d, o.dpos)] else [])
           + ([OpCode(o.kind, s0, r.spos, d0, r.dpos)] + Blocks(len1, len2, ops, r.next, r.spos, r.dpos))
  {
    assert SkipKeeps(ops, k) == k;
  }

  /** Of the blocks of one scan step only the equal block over the skipped stretch is a matching block. */
  lemma ScanStepMatching(len1: nat, len2: nat, ops: seq<EditOp>, k: nat, s: nat, d: nat)
    requires k < |ops| && ops[k].kind != KEEP
    ensures var o := ops[k];
      var gap := s < o.spos || d < o.dpos;
      var s0 := if gap then o.spos else s;
      var d0 := if gap then o.dpos else d;
      var r := Run(ops, k, s0, d0);
      MatchingOf(Blocks(len1, len2, ops, k, s, d))
        == (if gap then [MatchingBlock(s, d, Diff(o.spos, s))] else []) + MatchingOf(Blocks(len1, len2, ops, r.next, r.spos, r.dpos))
  {
    ScanStep(len1, len2, ops, k, s, d);
    var o := ops[k];
    var gap := s < o.spos || d < o.dpos;
    var s0 := if gap then o.spos else s;
    var d0 := if gap then o.dpos else d;
    var r := Run(ops, k, s0, d0);
    var rest := Blocks(len1, len2, ops, r.next, r.spos, r.dpos);
    var run := OpCode(o.kind, s0, r.spos, d0, r.dpos);
    assert ([run] + rest)[1..] == rest;
    if gap {
      var g := OpCode(KEEP, s, o.spos, d, o.dpos);
      assert ([g] + ([run] + rest))[1..] == [run] + rest;
    } else {
      assert [] + ([run] + rest) == [run] + rest;
    }
  }

  /** When only keep operations are left, the scan ends with the closing equal block, which is a matching block. */
  lemma ScanEnd(len1: nat, len2: nat, ops: seq<EditOp>, k: nat, s: nat, d: nat)
    requires k <= |ops| && SkipKeeps(ops, k) == |ops|
    ensures Blocks(len1, len2, ops, k, s, d) == if s < len1 || d < len2 then [OpCode(KEEP, s, len1, d, len2)] else []
    ensures MatchingOf(Blocks(len1, len2, ops, k, s, d)) == if s < len1 || d < len2 then [MatchingBlock(s, d, Diff(len1, s))] else []
  {
    if s < len1 || d < len2 {
      assert [OpCode(KEEP, s, len1, d, len2)][1..] == [];
    }
  }

  /** The keep loop at the head of each scan step. */
  method SkipKeepOps(ops: seq<EditOp>, k: nat) returns (r: nat)
    requires k <= |ops|
    ensures r == SkipKeeps(ops, k)
  {
    r := k;
    while r < |ops| && ops[r].kind == KEEP
      invariant k <= r <= |ops| && SkipKeeps(ops, r) == SkipKeeps(ops, k)
    {
      r := r + 1;
    }
  }

  /** The run loop: take operation k, then every following operation of its kind that sits at the cursor pair. */
  method RunOps(ops: seq<EditOp>, k: nat, s: nat, d: nat) returns (r: Scan)
    requires k < |ops| && ops[k].kind != KEEP && ops[k].kind < LAST
    ensures r == Run(ops, k, s, d)
  {
    var kind := ops[k].kind;
    var i, spos, dpos := k + 1, Next(EditOp(kind, s, d)), NextDst(EditOp(kind, s, d));
    while i < |ops| && ops[i].kind == kind && spos == ops[i].spos && dpos == ops[i].dpos
      invariant k < i <= |ops| && RunRest(ops, kind, i, spos, dpos) == Run(ops, k, s, d)
      decreases |ops| - i
    {
      // each operation of the run moves the cursor pair as applying it would
      i, spos, dpos := i + 1, Next(ops[i]), NextDst(ops[i]);
    }
    r := Scan(i, spos, dpos);
  }


  /*
   * lev_editops_to_opcodes
   */

  /** Progress of the block loop: bops followed by the blocks of the rest of the scan is the whole answer. */
  ghost predicate BlocksState(len1: nat, len2: nat, ops: seq<EditOp>, bops: seq<OpCode>, k: nat, s: nat, d: nat)
  {
    k <= |ops| && bops + Blocks(len1, len2, ops, k, s, d) == ToOpcodes(len1, len2, ops)
  }

  /** One pass of the scan loop body: the keep loop, then the equal block over a skipped stretch and the run's block. */
  method BlocksStep(len1: nat, len2: nat, ops: seq<EditOp>, bops: seq<OpCode>, k: nat, spos: nat, dpos: nat)
    returns (bops': seq<OpCode>, k': nat, spos': nat, dpos': nat)
    requires k < |ops| && KindsValid(ops) && BlocksState(len1, len2, ops, bops, k, spos, dpos)
    ensures k < k' && BlocksState(len1, len2, ops, bops', k', spos', dpos')
  {
    BlocksSkip(len1, len2, ops, k, spos, dpos);
    k' := SkipKeepOps(ops, k);
    bops', spos', dpos' := bops, spos, dpos;
    if k' == |ops| {
      return;
    }
    ScanStep(len1, len2, ops, k', spos, dpos);
    var o := ops[k'];
    var out := [];
    if spos' < o.spos || dpos' < o.dpos {
      out := [OpCode(KEEP, spos', o.spos, dpos', o.dpos)];
      spos', dpos' := o.spos, o.dpos;
    }
    var r := RunOps(ops, k', spos', dpos');
    var run := OpCode(o.kind, spos', r.spos, dpos', r.dpos);
    ghost var rest := Blocks(len1, len2, ops, r.next, r.spos, r.dpos);
    assert bops + (out + ([run] + rest)) == (bops + out + [run]) + rest;
    bops' := bops + out + [run];
    k', spos', dpos' := r.next, r.spos, r.dpos;
  }

  /** `lev_editops_to_opcodes`: group the operations into blocks, closing with an equal block up to (len1, len2). */
  method EditopsToOpcodes(ops: seq<EditOp>, len1: nat, len2: nat) returns (bops: seq<OpCode>)
    requires KindsValid(ops)
    ensures bops == ToOpcodes(len1, len2, ops)
  {
    bops := [];
    var k: nat, spos: nat, dpos: nat := 0, 0, 0;
    while k < |ops|
      invariant BlocksState(len1, len2, ops, bops, k, spos, dpos)
      decreases |ops| - k
    {
      bops, k, spos, dpos := BlocksStep(len1, len2, ops, bops, k, spos, dpos);
    }
    ScanEnd(len1, len2, ops, k, spos, dpos);
    if spos < len1 || dpos < len2 {
      bops := bops + [OpCode(KEEP, spos, len1, dpos, len2)];
    }
  }

  /*
   * lev_editops_matching_blocks
   */

  /** The matching blocks a list of blocks describes: one per equal block, with its source length taken on size_t. */
  function MatchingOf(bops: seq<OpCode>): seq<MatchingBlock>
  {
    if bops == [] then []
    else
      (if bops[0].kind == KEEP then [MatchingBlock(bops[0].sbeg, bops[0].dbeg, Diff(bops[0].send, bops[0].sbeg))] else [])
        + MatchingOf(bops[1..])
  }

  /** Progress of the matching-block loop: mbs followed by the matching blocks of the rest of the scan is the whole answer. */
  ghost predicate MatchingState(len1: nat, len2: nat, ops: seq<EditOp>, mbs: seq<MatchingBlock>, k: nat, s: nat, d: nat)
  {
    k <= |ops| && mbs + MatchingOf(Blocks(len1, len2, ops, k, s, d)) == MatchingOf(ToOpcodes(len1, len2, ops))
  }

  /** One pass of the matching-block loop body: a matching block for a skipped stretch, and the run passed over. */
  method MatchingStep(len1: nat, len2: nat, ops: seq<EditOp>, mbs: seq<MatchingBlock>, k: nat, spos: nat, dpos: nat)
    returns (mbs': seq<MatchingBlock>, k': nat, spos': nat, dpos': nat)
    requires k < |ops| && KindsValid(ops) && MatchingState(len1, len2, ops, mbs, k, spos, dpos)
    ensures k < k' && MatchingState(len1, len2, ops, mbs', k', spos', dpos')
  {
    BlocksSkip(len1, len2, ops, k, spos, dpos);
    k' := SkipKeepOps(ops, k);
    mbs', spos', dpos' := mbs, spos, dpos;
    if k' == |ops| {
      return;
    }
    ScanStepMatching(len1, len2, ops, k', spos, dpos);
    ghost var here := MatchingOf(Blocks(len1, len2, ops, k', spos, dpos));
    var o := ops[k'];
    var out := [];
    if spos' < o.spos || dpos' < o.dpos {
      out := [MatchingBlock(spos', dpos', Diff(o.spos, spos'))];
      spos', dpos' := o.spos, o.dpos;
    }
    var r := RunOps(ops, k', spos', dpos');
    ghost var later := MatchingOf(Blocks(len1, len2, ops, r.next, r.spos, r.dpos));
    assert here == out + later;
    assert mbs + here == (mbs + out) + later;
    mbs' := mbs + out;
    k', spos', dpos' := r.next, r.spos, r.dpos;
  }

  /**
   * `lev_editops_matching_blocks`: the same scan as
   * `lev_editops_to_opcodes`, writing a matching block where that one writes
   * an equal block.
   */
  method EditopsMatchingBlocks(len1: nat, len2: nat, ops: seq<EditOp>) returns (mbs: seq<MatchingBlock>)
    requires KindsValid(ops)
    ensures mbs == MatchingOf(ToOpcodes(len1, len2, ops))
  {
    mbs := [];
    var k: nat, spos: nat, dpos: nat := 0, 0, 0;
    while k < |ops|
      invariant MatchingState(len1, len2, ops, mbs, k, spos, dpos)
      decreases |ops| - k
    {
      mbs, k, spos, dpos := MatchingStep(len1, len2, ops, mbs, k, spos, dpos);
    }
    ScanEnd(len1, len2, ops, k, spos, dpos);
    if spos < len1 || dpos < len2 {
      mbs := mbs + [MatchingBlock(spos, dpos, Diff(len1, spos))];
    }
  }

  /*
   * What the blocks of an aligned script are
   */

  /**
   * bops tiles string1[i..] and string2[j..] from (i, j) to the ends, block
   * after block, each block shaped and each equal block on equal stretches.
   */
  ghost predicate Covers<T>(s1: seq<T>, s2: seq<T>, bops: seq<OpCode>, i: nat, j: nat)
    decreases |bops|
  {
    if bops == [] then i == |s1| && j == |s2|
    else
      var b := bops[0];
      && Shaped(b) && b.sbeg == i && b.dbeg == j && b.send <= |s1| && b.dend <= |s2|
      && (b.kind == KEEP ==> s1[i..b.send] == s2[j..b.dend])
      && Covers(s1, s2, bops[1..], b.send, b.dend)
  }

  /** A tiling from (i, j) starts at (i, j), ends at the ends of both strings, and is contiguous, shaped and matching. */
  lemma {:induction false} CoversTiles<T>(s1: seq<T>, s2: seq<T>, bops: seq<OpCode>, i: nat, j: nat)
    requires Covers(s1, s2, bops, i, j) && bops != []
    ensures bops[0].sbeg == i && bops[0].dbeg == j
    ensures bops[|bops| - 1].send == |s1| && bops[|bops| - 1].dend == |s2|
    ensures Contiguous(bops) && (forall k :: 0 <= k < |bops| ==> Shaped(bops[k])) && KeepsMatch(s1, s2, bops)
    decreases |bops|
  {
    var rest := bops[1..];
    if rest != [] {
      CoversTiles(s1, s2, rest, bops[0].send, bops[0].dend);
      assert forall k :: 1 <= k < |bops| ==> bops[k] == rest[k - 1];
    }
  }

  /** The blocks of a complete block edit from block m on tile the strings from where block m starts. */
  lemma {:induction false} TilesCover<T>(s1: seq<T>, s2: seq<T>, bops: seq<OpCode>, m: nat)
    requires WellFormed(|s1|, |s2|, bops) && KeepsMatch(s1, s2, bops) && m < |bops|
    ensures Covers(s1, s2, bops[m..], bops[m].sbeg, bops[m].dbeg)
    decreases |bops| - m
  {
    BlockWithin(|s1|, |s2|, bops, m);
    assert bops[m..][1..] == bops[m + 1..];
    if m + 1 < |bops| {
      TilesCover(s1, s2, bops, m + 1);
      assert bops[m + 1].sbeg == bops[m].send && bops[m + 1].dbeg == bops[m].dend;
    }
  }

  /** A non-empty list of blocks tiles both strings from the start exactly when it is a complete block edit whose equal blocks match. */
  lemma CoversIff<T>(s1: seq<T>, s2: seq<T>, bops: seq<OpCode>)
    requires bops != []
    ensures Covers(s1, s2, bops, 0, 0) <==> WellFormed(|s1|, |s2|, bops) && KeepsMatch(s1, s2, bops)
  {
    if Covers(s1, s2, bops, 0, 0) {
      CoversTiles(s1, s2, bops, 0, 0);
    }
    if WellFormed(|s1|, |s2|, bops) && KeepsMatch(s1, s2, bops) {
      TilesCover(s1, s2, bops, 0);
      assert bops[0..] == bops;
    }
  }

  /** Keep operations of an aligned script only sit on equal elements, so passing over them keeps the cursor pair aligned. */
  lemma {:induction false} SkipAligns<T>(s1: seq<T>, s2: seq<T>, ops: seq<EditOp>, k: nat, i: nat, j: nat)
    requires k <= |ops| && AlignsFrom(s1, s2, ops, k, i, j)
    ensures AlignsFrom(s1, s2, ops, SkipKeeps(ops, k), i, j)
    decreases |ops| - k
  {
    if k < |ops| && ops[k].kind == KEEP {
      var o := ops[k];
      AlignsFromStep(s1, s2, ops, k, i, j);
      assert s1[i..o.spos + 1] == s1[i..o.spos] + [s1[o.spos]];
      assert s2[j..o.dpos + 1] == s2[j..o.dpos] + [s2[o.dpos]];
      AlignsGap(s1, s2, ops, k + 1, o.spos + 1, o.dpos + 1, i, j);
      SkipAligns(s1, s2, ops, k + 1, i, j);
    }
  }

  /** A run over an aligned script ends at a cursor pair from which the rest is aligned. */
  lemma {:induction false} RunRestAligns<T>(s1: seq<T>, s2: seq<T>, ops: seq<EditOp>, kind: nat, k: nat, s: nat, d: nat)
    requires k <= |ops| && AlignsFrom(s1, s2, ops, k, s, d)
    ensures AlignsFrom(s1, s2, ops, RunRest(ops, kind, k, s, d).next, RunRest(ops, kind, k, s, d).spos, RunRest(ops, kind, k, s, d).dpos)
    decreases |ops| - k
  {
    if k < |ops| && ops[k].kind == kind && ops[k].spos == s && ops[k].dpos == d {
      AlignsFromStep(s1, s2, ops, k, s, d);
      RunRestAligns(s1, s2, ops, kind, k + 1, Next(ops[k]), NextDst(ops[k]));
    }
  }

  /** The run starting at an edit of an aligned script is a shaped block inside both strings, after which the rest is aligned. */
  lemma RunAligns<T>(s1: seq<T>, s2: seq<T>, ops: seq<EditOp>, k: nat)
    requires k < |ops| && ops[k].kind != KEEP && AlignsFrom(s1, s2, ops, k, ops[k].spos, ops[k].dpos)
    ensures var o := ops[k]; var r := Run(ops, k, o.spos, o.dpos);
      && Shaped(OpCode(o.kind, o.spos, r.spos, o.dpos, r.dpos)) && r.spos <= |s1| && r.dpos <= |s2|
      && AlignsFrom(s1, s2, ops, r.next, r.spos, r.dpos)
  {
    var o := ops[k];
    AlignsFromStep(s1, s2, ops, k, o.spos, o.dpos);
    RunRestAligns(s1, s2, ops, o.kind, k + 1, Next(o), NextDst(o));
  }

  /** An equal stretch (if any) and a run's block in front of a tiling from the run's end tile from the cursor pair. */
  lemma CoverStep<T>(s1: seq<T>, s2: seq<T>, o: EditOp, i: nat, j: nat, r: Scan, rest: seq<OpCode>)
    requires i <= o.spos <= |s1| && j <= o.dpos <= |s2| && o.spos - i == o.dpos - j && s1[i..o.spos] == s2[j..o.dpos]
    requires Shaped(OpCode(o.kind, o.spos, r.spos, o.dpos, r.dpos)) && r.spos <= |s1| && r.dpos <= |s2| && o.kind != KEEP
    requires Covers(s1, s2, rest, r.spos, r.dpos)
    ensures Covers(s1, s2, (if i < o.spos then [OpCode(KEEP, i, o.spos, j, o.dpos)] else []) + ([OpCode(o.kind, o.spos, r.spos, o.dpos, r.dpos)] + rest), i, j)
  {
    var run := OpCode(o.kind, o.spos, r.spos, o.dpos, r.dpos);
    assert ([run] + rest)[1..] == rest;
    assert Covers(s1, s2, [run] + rest, o.spos, o.dpos);
    if i < o.spos {
      var g := OpCode(KEEP, i, o.spos, j, o.dpos);
      assert Shaped(g);
      assert ([g] + ([run] + rest))[1..] == [run] + rest;
      assert Covers(s1, s2, [g] + ([run] + rest), i, j);
    } else {
      assert [] + ([run] + rest) == [run] + rest;
    }
  }

  /** On an aligned script the cursor pair is at or before the next operation, with equal stretches between, and the script is aligned from that operation's own positions. */
  lemma AlignsAtOp<T>(s1: seq<T>, s2: seq<T>, ops: seq<EditOp>, k: nat, i: nat, j: nat)
    requires k < |ops| && AlignsFrom(s1, s2, ops, k, i, j)
    ensures var o := ops[k];
      && i <= o.spos <= |s1| && j <= o.dpos <= |s2| && o.spos - i == o.dpos - j && s1[i..o.spos] == s2[j..o.dpos]
      && AlignsFrom(s1, s2, ops, k, o.spos, o.dpos)
  {
    var o := ops[k];
    assert s1[o.spos..o.spos] == [] == s2[o.dpos..o.dpos];
  }

  /** When the cursor pair is before a non-keep operation by the same amount in both strings, the scan step's run starts at the operation's own positions. */
  lemma ScanAligned(len1: nat, len2: nat, ops: seq<EditOp>, k: nat, i: nat, j: nat)
    requires k < |ops| && ops[k].kind != KEEP && i <= ops[k].spos && j <= ops[k].dpos
    requires ops[k].spos - i == ops[k].dpos - j
    ensures var o := ops[k];
      var r := Run(ops, k, o.spos, o.dpos);
      Blocks(len1, len2, ops, k, i, j)
        == (if i < o.spos then [OpCode(KEEP, i, o.spos, j, o.dpos)] else [])
           + ([OpCode(o.kind, o.spos, r.spos, o.dpos, r.dpos)] + Blocks(len1, len2, ops, r.next, r.spos, r.dpos))
  {
    ScanStep(len1, len2, ops, k, i, j);
  }

  /** With nothing left but equal rests, the closing equal block (if any) tiles them. */
  lemma CoverEnd<T>(s1: seq<T>, s2: seq<T>, ops: seq<EditOp>, i: nat, j: nat)
    requires AlignsFrom(s1, s2, ops, |ops|, i, j)
    ensures Covers(s1, s2, if i < |s1| || j < |s2| then [OpCode(KEEP, i, |s1|, j, |s2|)] else [], i, j)
  {
    if i < |s1| || j < |s2| {
      assert |s1[i..]| == |s2[j..]|;
      assert [OpCode(KEEP, i, |s1|, j, |s2|)][1..] == [];
    }
  }

  /** The blocks of an aligned script tile both strings from the cursor pair to their ends. */
  lemma {:induction false} BlocksCover<T>(s1: seq<T>, s2: seq<T>, ops: seq<EditOp>, k: nat, i: nat, j: nat)
    requires k <= |ops| && AlignsFrom(s1, s2, ops, k, i, j)
    ensures Covers(s1, s2, Blocks(|s1|, |s2|, ops, k, i, j), i, j)
    decreases |ops| - k
  {
    var k' := SkipKeeps(ops, k);
    SkipAligns(s1, s2, ops, k, i, j);
    var B := Blocks(|s1|, |s2|, ops, k, i, j);
    if k' == |ops| {
      ScanEnd(|s1|, |s2|, ops, k, i, j);
      CoverEnd(s1, s2, ops, i, j);
    } else {
      var o := ops[k'];
      AlignsAtOp(s1, s2, ops, k', i, j);
      ScanAligned(|s1|, |s2|, ops, k', i, j);
      RunAligns(s1, s2, ops, k');
      var r := Run(ops, k', o.spos, o.dpos);
      BlocksCover(s1, s2, ops, r.next, r.spos, r.dpos);
      BlocksSkip(|s1|, |s2|, ops, k, i, j);
      CoverStep(s1, s2, o, i, j, r, Blocks(|s1|, |s2|, ops, r.next, r.spos, r.dpos));
    }
  }

  /**
   * The blocks of an aligned script (every script `lev_editops_find`
   * returns is one) form a complete block edit whose equal blocks match, so
   * applying them turns string1 into string2; they are empty only for two
   * empty strings.  In particular the closing equal block has equal
   * lengths, as the C code asserts.
   */
  lemma BlocksOfAligned<T>(s1: seq<T>, s2: seq<T>, ops: seq<EditOp>)
    requires Aligns(s1, s2, ops)
    ensures ToOpcodes(|s1|, |s2|, ops) == [] <==> s1 == [] && s2 == []
    ensures ToOpcodes(|s1|, |s2|, ops) != [] ==>
      && WellFormed(|s1|, |s2|, ToOpcodes(|s1|, |s2|, ops))
      && KeepsMatch(s1, s2, ToOpcodes(|s1|, |s2|, ops))
      && OpcodesOutput(s1, s2, ToOpcodes(|s1|, |s2|, ops)) == s2
  {
    var B := ToOpcodes(|s1|, |s2|, ops);
    BlocksCover(s1, s2, ops, 0, 0, 0);
    if B != [] {
      CoversIff(s1, s2, B);
      OutputIsDestination(s1, s2, B);
    }
  }

  /** The matching blocks of a tiling lie inside both strings and name equal stretches. */
  lemma {:induction false} CoversMatching<T>(s1: seq<T>, s2: seq<T>, bops: seq<OpCode>, i: nat, j: nat)
    requires Covers(s1, s2, bops, i, j) && |s1| < SIZE
    ensures forall m :: m in MatchingOf(bops) ==>
      m.spos + m.len <= |s1| && m.dpos + m.len <= |s2| && s1[m.spos..m.spos + m.len] == s2[m.dpos..m.dpos + m.len]
    decreases |bops|
  {
    if bops != [] {
      var b := bops[0];
      CoversMatching(s1, s2, bops[1..], b.send, b.dend);
      if b.kind == KEEP {
        DiffFacts(b.send, b.sbeg);
      }
    }
  }

  /** Every matching block of an aligned script names equal stretches of the two strings. */
  lemma MatchingOfAligned<T>(s1: seq<T>, s2: seq<T>, ops: seq<EditOp>)
    requires Aligns(s1, s2, ops) && |s1| < SIZE
    ensures forall m :: m in MatchingOf(ToOpcodes(|s1|, |s2|, ops)) ==>
      m.spos + m.len <= |s1| && m.dpos + m.len <= |s2| && s1[m.spos..m.spos + m.len] == s2[m.dpos..m.dpos + m.len]
  {
    BlocksCover(s1, s2, ops, 0, 0, 0);
    CoversMatching(s1, s2, ToOpcodes(|s1|, |s2|, ops), 0, 0);
  }

  /*
   * lev_opcodes_to_editops
   */

  /** How many atomic operations a block stands for: its destination length for an insert, its source length otherwise. */
  function Width(b: OpCode): nat
    requires Shaped(b)
  {
    if b.kind == INSERT then b.dend - b.dbeg else b.send - b.sbeg
  }

  /** The positions of the t-th atomic operation of a block: an insert stays at sbeg, a delete at dbeg. */
  function SrcAt(b: OpCode, t: nat): nat
  {
    if b.kind == INSERT then b.sbeg else b.sbeg + t
  }

  function DstAt(b: OpCode, t: nat): nat
  {
    if b.kind == DELETE then b.dbeg else b.dbeg + t
  }

  /** The atomic operations one block expands to; an equal block expands to keeps only with keepkeep. */
  function Expand(b: OpCode, keepkeep: bool): seq<EditOp>
    requires Shaped(b)
  {
    if b.kind == KEEP && !keepkeep then []
    else seq(Width(b), t requires 0 <= t < Width(b) => EditOp(b.kind, SrcAt(b, t), DstAt(b, t)))
  }

  function ToEditops(bops: seq<OpCode>, keepkeep: bool): seq<EditOp>
    requires forall k :: 0 <= k < |bops| ==> Shaped(bops[k])
  {
    if bops == [] then [] else Expand(bops[0], keepkeep) + ToEditops(bops[1..], keepkeep)
  }

  /** Expanding a list of blocks is expanding its parts. */
  lemma {:induction false} ToEditopsAppend(a: seq<OpCode>, b: seq<OpCode>, keepkeep: bool)
    requires forall k :: 0 <= k < |a| ==> Shaped(a[k])
    requires forall k :: 0 <= k < |b| ==> Shaped(b[k])
    ensures ToEditops(a + b, keepkeep) == ToEditops(a, keepkeep) + ToEditops(b, keepkeep)
    decreases |a|
  {
    if a != [] {
      assert (a + b)[1..] == a[1..] + b;
      ToEditopsAppend(a[1..], b, keepkeep);
    } else {
      assert a + b == b;
    }
  }

  /** The loops of one block, one per kind as in the C switch. */
  method ExpandBlock(b: OpCode, keepkeep: bool) returns (e: seq<EditOp>)
    requires Shaped(b)
    ensures e == Expand(b, keepkeep)
  {
    e := [];
    var j := 0;
    if b.kind == KEEP {
      if keepkeep {
        while j < b.send - b.sbeg
          invariant j <= Width(b) && e == Expand(b, keepkeep)[..j]
        {
          e := e + [EditOp(KEEP, b.sbeg + j, b.dbeg + j)];
          j := j + 1;
        }
      }
    } else if b.kind == REPLACE {
      while j < b.send - b.sbeg
        invariant j <= Width(b) && e == Expand(b, keepkeep)[..j]
      {
        e := e + [EditOp(REPLACE, b.sbeg + j, b.dbeg + j)];
        j := j + 1;
      }
    } else if b.kind == DELETE {
      while j < b.send - b.sbeg
        invariant j <= Width(b) && e == Expand(b, keepkeep)[..j]
      {
        e := e + [EditOp(DELETE, b.sbeg + j, b.dbeg)];
        j := j + 1;
      }
    } else {
      while j < b.dend - b.dbeg
        invariant j <= Width(b) && e == Expand(b, keepkeep)[..j]
      {
        e := e + [EditOp(INSERT, b.sbeg, b.dbeg + j)];
        j := j + 1;
      }
    }
  }

  /**
   * `lev_opcodes_to_editops`: expand every block in turn.  The blocks must be
   * shaped (forward, with the spans the validity check demands of their
   * kind), which the strict check guarantees; the C check alone also lets
   * backward blocks through, for which the C code writes past its buffer.
   */
  method OpcodesToEditops(bops: seq<OpCode>, keepkeep: bool) returns (ops: seq<EditOp>)
    requires forall k :: 0 <= k < |bops| ==> Shaped(bops[k])
    ensures ops == ToEditops(bops, keepkeep)
  {
    ops := [];
    var k := 0;
    while k < |bops|
      invariant k <= |bops| && ops == ToEditops(bops[..k], keepkeep)
    {
      var e := ExpandBlock(bops[k], keepkeep);
      ToEditopsSnoc(bops, k, keepkeep);
      ops := ops + e;
      k := k + 1;
    }
    assert bops[..k] == bops;
  }

  /** Expanding the first k + 1 blocks is expanding the first k, then block k. */
  lemma ToEditopsSnoc(bops: seq<OpCode>, k: nat, keepkeep: bool)
    requires k < |bops| && forall l :: 0 <= l < |bops| ==> Shaped(bops[l])
    ensures ToEditops(bops[..k + 1], keepkeep) == ToEditops(bops[..k], keepkeep) + Expand(bops[k], keepkeep)
  {
    ToEditopsAppend(bops[..k], [bops[k]], keepkeep);
    assert bops[..k + 1] == bops[..k] + [bops[k]];
    assert [bops[k]][1..] == [];
  }

  /** An equal stretch in front of an aligned script can be taken by a keep operation. */
  lemma AlignsKeep<T>(s1: seq<T>, s2: seq<T>, op: EditOp, rest: seq<EditOp>)
    requires op.kind == KEEP && op.spos < |s1| && op.dpos < |s2| && s1[op.spos] == s2[op.dpos]
    requires AlignsFrom(s1, s2, rest, 0, op.spos + 1, op.dpos + 1)
    ensures AlignsFrom(s1, s2, [op] + rest, 0, op.spos, op.dpos)
  {
    AlignsShift(s1, s2, [op] + rest, 1, op.spos + 1, op.dpos + 1);
    assert ([op] + rest)[1..] == rest;
  }

  /** The t-th atomic operation of a block lies inside both strings and moves the cursor pair to the positions of the next one. */
  lemma ExpandStep<T>(s1: seq<T>, s2: seq<T>, b: OpCode, keepkeep: bool, t: nat)
    requires Shaped(b) && b.send <= |s1| && b.dend <= |s2| && (b.kind != KEEP || keepkeep) && t < Width(b)
    ensures var op := Expand(b, keepkeep)[t];
      && op == EditOp(b.kind, SrcAt(b, t), DstAt(b, t))
      && (b.kind != INSERT ==> op.spos < |s1|) && (b.kind != DELETE ==> op.dpos < |s2|)
      && Next(op) == SrcAt(b, t + 1) && NextDst(op) == DstAt(b, t + 1)
  {
  }

  /** A suffix from t is its first element in front of the suffix from t + 1. */
  lemma ConsSlice<X>(e: seq<X>, rest: seq<X>, t: nat)
    requires t < |e|
    ensures e[t..] + rest == [e[t]] + (e[t + 1..] + rest)
  {
    assert e[t..] == [e[t]] + e[t + 1..];
  }

  /** Putting the t-th atomic operation of a block in front of the later ones keeps the script aligned. */
  lemma ExpandCons<T>(s1: seq<T>, s2: seq<T>, b: OpCode, keepkeep: bool, rest: seq<EditOp>, t: nat)
    requires Shaped(b) && b.send <= |s1| && b.dend <= |s2| && (b.kind == KEEP ==> s1[b.sbeg..b.send] == s2[b.dbeg..b.dend])
    requires b.kind != KEEP || keepkeep
    requires t < Width(b) && AlignsFrom(s1, s2, Expand(b, keepkeep)[t + 1..] + rest, 0, SrcAt(b, t + 1), DstAt(b, t + 1))
    ensures AlignsFrom(s1, s2, Expand(b, keepkeep)[t..] + rest, 0, SrcAt(b, t), DstAt(b, t))
  {
    var e := Expand(b, keepkeep);
    ExpandStep(s1, s2, b, keepkeep, t);
    ConsSlice(e, rest, t);
    if b.kind == KEEP {
      ExpandConsKeep(s1, s2, b, e[t], e[t + 1..] + rest, t);
    } else {
      assert StepsTo(e[t], SrcAt(b, t + 1), DstAt(b, t + 1));
      AlignsPrepend(s1, s2, e[t], e[t + 1..] + rest, SrcAt(b, t + 1), DstAt(b, t + 1));
    }
  }

  /** The keep case of `ExpandCons`: the t-th elements of the equal stretches agree. */
  lemma ExpandConsKeep<T>(s1: seq<T>, s2: seq<T>, b: OpCode, op: EditOp, rest: seq<EditOp>, t: nat)
    requires Shaped(b) && b.kind == KEEP && b.send <= |s1| && b.dend <= |s2| && s1[b.sbeg..b.send] == s2[b.dbeg..b.dend]
    requires t < b.send - b.sbeg && op == EditOp(KEEP, SrcAt(b, t), DstAt(b, t))
    requires SrcAt(b, t + 1) == op.spos + 1 && DstAt(b, t + 1) == op.dpos + 1
    requires AlignsFrom(s1, s2, rest, 0, SrcAt(b, t + 1), DstAt(b, t + 1))
    ensures AlignsFrom(s1, s2, [op] + rest, 0, op.spos, op.dpos)
  {
    assert s1[b.sbeg..b.send][t] == s2[b.dbeg..b.dend][t];
    AlignsKeep(s1, s2, op, rest);
  }

  /** The atomic operations of a block, from the t-th on, followed by a script aligned from the block's end, are aligned from the t-th operation's positions. */
  lemma {:induction false} ExpandAligns<T>(s1: seq<T>, s2: seq<T>, b: OpCode, keepkeep: bool, rest: seq<EditOp>, t: nat)
    requires Shaped(b) && b.send <= |s1| && b.dend <= |s2| && (b.kind == KEEP ==> s1[b.sbeg..b.send] == s2[b.dbeg..b.dend])
    requires b.kind != KEEP || keepkeep
    requires t <= Width(b) && AlignsFrom(s1, s2, rest, 0, b.send, b.dend)
    ensures AlignsFrom(s1, s2, Expand(b, keepkeep)[t..] + rest, 0, SrcAt(b, t), DstAt(b, t))
    decreases Width(b) - t
  {
    var e := Expand(b, keepkeep);
    if t == Width(b) {
      assert e[t..] + rest == rest;
      assert SrcAt(b, t) == b.send && DstAt(b, t) == b.dend;
    } else {
      ExpandAligns(s1, s2, b, keepkeep, rest, t + 1);
      ExpandCons(s1, s2, b, keepkeep, rest, t);
    }
  }

  /** Expanding a tiling gives a script aligned from where the tiling starts. */
  lemma {:induction false} CoversExpand<T>(s1: seq<T>, s2: seq<T>, bops: seq<OpCode>, keepkeep: bool, i: nat, j: nat)
    requires Covers(s1, s2, bops, i, j)
    ensures (forall k :: 0 <= k < |bops| ==> Shaped(bops[k])) && AlignsFrom(s1, s2, ToEditops(bops, keepkeep), 0, i, j)
    decreases |bops|
  {
    if bops == [] {
      assert s1[i..] == [] == s2[j..];
    } else {
      var b := bops[0];
      CoversExpand(s1, s2, bops[1..], keepkeep, b.send, b.dend);
      assert forall k :: 1 <= k < |bops| ==> bops[k] == bops[1..][k - 1];
      var rest := ToEditops(bops[1..], keepkeep);
      if b.kind == KEEP && !keepkeep {
        assert Expand(b, keepkeep) + rest == rest;
        AlignsGap(s1, s2, rest, 0, b.send, b.dend, i, j);
      } else {
        ExpandAligns(s1, s2, b, keepkeep, rest, 0);
        assert Expand(b, keepkeep)[0..] == Expand(b, keepkeep);
      }
    }
  }

  /**
   * Expanding a complete block edit whose equal blocks match, with or
   * without keep operations, gives an aligned script: it passes the strict
   * validity check and applying it turns string1 into string2.
   */
  lemma EditopsOfWellFormed<T>(s1: seq<T>, s2: seq<T>, bops: seq<OpCode>, keepkeep: bool)
    requires WellFormed(|s1|, |s2|, bops) && KeepsMatch(s1, s2, bops)
    ensures Aligns(s1, s2, ToEditops(bops, keepkeep))
    ensures StrictEditopsErrors(|s1|, |s2|, ToEditops(bops, keepkeep)) == Ok
    ensures Applicable(|s1|, |s2|, ToEditops(bops, keepkeep)) && Apply(s1, s2, ToEditops(bops, keepkeep)) == s2
  {
    CoversIff(s1, s2, bops);
    CoversExpand(s1, s2, bops, keepkeep, 0, 0);
    AlignsChecked(s1, s2, ToEditops(bops, keepkeep));
  }

  /*
   * Back and forth
   */

  /** Every block of a tiling is shaped. */
  lemma {:induction false} CoversShaped<T>(s1: seq<T>, s2: seq<T>, bops: seq<OpCode>, i: nat, j: nat)
    requires Covers(s1, s2, bops, i, j)
    ensures forall k :: 0 <= k < |bops| ==> Shaped(bops[k])
    decreases |bops|
  {
    if bops != [] {
      CoversShaped(s1, s2, bops[1..], bops[0].send, bops[0].dend);
      assert forall k :: 1 <= k < |bops| ==> bops[k] == bops[1..][k - 1];
    }
  }

  /** The block of a run starting at an edit of an aligned script expands back to exactly the run's operations. */
  lemma ExpandRun<T>(s1: seq<T>, s2: seq<T>, ops: seq<EditOp>, k: nat)
    requires k < |ops| && ops[k].kind != KEEP && AlignsFrom(s1, s2, ops, k, ops[k].spos, ops[k].dpos)
    ensures var o := ops[k]; var r := Run(ops, k, o.spos, o.dpos);
      && Shaped(OpCode(o.kind, o.spos, r.spos, o.dpos, r.dpos))
      && Expand(OpCode(o.kind, o.spos, r.spos, o.dpos, r.dpos), false) == ops[k..r.next]
  {
    RunAligns(s1, s2, ops, k);
    var o := ops[k];
    var r := Run(ops, k, o.spos, o.dpos);
    var b := OpCode(o.kind, o.spos, r.spos, o.dpos, r.dpos);
    var e := Expand(b, false);
    assert |e| == r.next - k;
    forall m | 0 <= m < |e|
      ensures e[m] == ops[k..r.next][m]
    {
      if m > 0 {
        assert ops[k + m].spos == SrcAt(b, m) && ops[k + m].dpos == DstAt(b, m);
      }
    }
  }

  /** Without keepkeep, an empty list or a single equal block expands to nothing. */
  lemma DropKeeps(g: seq<OpCode>)
    requires g == [] || (|g| == 1 && g[0].kind == KEEP && Shaped(g[0]))
    ensures ToEditops(g, false) == []
  {
    if g != [] {
      assert g[1..] == [];
    }
  }

  /** Without keepkeep, a scan step's blocks expand to the run's block expanded, then the rest expanded. */
  lemma ToEditopsStep(g: seq<OpCode>, run: OpCode, rest: seq<OpCode>)
    requires g == [] || (|g| == 1 && g[0].kind == KEEP && Shaped(g[0]))
    requires Shaped(run) && forall l :: 0 <= l < |rest| ==> Shaped(rest[l])
    ensures forall l :: 0 <= l < |g + ([run] + rest)| ==> Shaped((g + ([run] + rest))[l])
    ensures ToEditops(g + ([run] + rest), false) == Expand(run, false) + ToEditops(rest, false)
  {
    var tail := [run] + rest;
    assert tail[1..] == rest;
    assert forall l :: 0 <= l < |tail| ==> Shaped(tail[l]);
    if g == [] {
      assert g + tail == tail;
    } else {
      assert (g + tail)[1..] == tail;
      assert forall l :: 0 <= l < |g + tail| ==> Shaped((g + tail)[l]);
    }
  }

  /** A skipped stretch, a run's block expanding to ops[k..m] and blocks expanding to ops[m..] together expand to ops[k..]. */
  lemma Recombine(g: seq<OpCode>, run: OpCode, rest: seq<OpCode>, ops: seq<EditOp>, k: nat, m: nat)
    requires g == [] || (|g| == 1 && g[0].kind == KEEP && Shaped(g[0]))
    requires Shaped(run) && forall l :: 0 <= l < |rest| ==> Shaped(rest[l])
    requires k <= m <= |ops| && Expand(run, false) == ops[k..m] && ToEditops(rest, false) == ops[m..]
    ensures forall l :: 0 <= l < |g + ([run] + rest)| ==> Shaped((g + ([run] + rest))[l])
    ensures ToEditops(g + ([run] + rest), false) == ops[k..]
  {
    ToEditopsStep(g, run, rest);
    SliceSplit(ops, k, m);
  }

  lemma SliceSplit(ops: seq<EditOp>, k: nat, m: nat)
    requires k <= m <= |ops|
    ensures ops[k..] == ops[k..m] + ops[m..]
  {
  }

  /** One scan step of the round trip: the step's blocks expand to the run's operations followed by what the later blocks expand to. */
  lemma RoundTripStep<T>(s1: seq<T>, s2: seq<T>, ops: seq<EditOp>, k: nat, i: nat, j: nat)
    requires k < |ops| && ops[k].kind != KEEP && AlignsFrom(s1, s2, ops, k, i, j)
    requires var o := ops[k]; var r := Run(ops, k, o.spos, o.dpos);
      var rest := Blocks(|s1|, |s2|, ops, r.next, r.spos, r.dpos);
      (forall l :: 0 <= l < |rest| ==> Shaped(rest[l])) && ToEditops(rest, false) == ops[r.next..]
    ensures forall l :: 0 <= l < |Blocks(|s1|, |s2|, ops, k, i, j)| ==> Shaped(Blocks(|s1|, |s2|, ops, k, i, j)[l])
    ensures ToEditops(Blocks(|s1|, |s2|, ops, k, i, j), false) == ops[k..]
  {
    var o := ops[k];
    AlignsAtOp(s1, s2, ops, k, i, j);
    ScanAligned(|s1|, |s2|, ops, k, i, j);
    ExpandRun(s1, s2, ops, k);
    var r := Run(ops, k, o.spos, o.dpos);
    var run := OpCode(o.kind, o.spos, r.spos, o.dpos, r.dpos);
    var rest := Blocks(|s1|, |s2|, ops, r.next, r.spos, r.dpos);
    var g: seq<OpCode> := if i < o.spos then [OpCode(KEEP, i, o.spos, j, o.dpos)] else [];
    assert Blocks(|s1|, |s2|, ops, k, i, j) == g + ([run] + rest);
    Recombine(g, run, rest, ops, k, r.next);
  }

  /**
   * Expanding the blocks of a keep-free aligned script, without keeps, gives
   * the script back from operation k on.
   */
  lemma {:induction false} BlocksRoundTrip<T>(s1: seq<T>, s2: seq<T>, ops: seq<EditOp>, k: nat, i: nat, j: nat)
    requires k <= |ops| && AlignsFrom(s1, s2, ops, k, i, j)
    requires forall l :: k <= l < |ops| ==> ops[l].kind != KEEP
    ensures forall l :: 0 <= l < |Blocks(|s1|, |s2|, ops, k, i, j)| ==> Shaped(Blocks(|s1|, |s2|, ops, k, i, j)[l])
    ensures ToEditops(Blocks(|s1|, |s2|, ops, k, i, j), false) == ops[k..]
    decreases |ops| - k
  {
    if k == |ops| {
      var B := Blocks(|s1|, |s2|, ops, k, i, j);
      ScanEnd(|s1|, |s2|, ops, k, i, j);
      CoverEnd(s1, s2, ops, i, j);
      DropKeeps(B);
    } else {
      var o := ops[k];
      AlignsAtOp(s1, s2, ops, k, i, j);
      RunAligns(s1, s2, ops, k);
      var r := Run(ops, k, o.spos, o.dpos);
      BlocksRoundTrip(s1, s2, ops, r.next, r.spos, r.dpos);
      RoundTripStep(s1, s2, ops, k, i, j);
    }
  }

  /**
   * For a keep-free aligned script (such as the one `lev_editops_find`
   * returns), converting to blocks and back gives the same script: the two
   * forms carry the same edit.
   */
  lemma OpcodesRoundTrip<T>(s1: seq<T>, s2: seq<T>, ops: seq<EditOp>)
    requires Aligns(s1, s2, ops) && forall l :: 0 <= l < |ops| ==> ops[l].kind != KEEP
    ensures KindsValid(ops)
    ensures forall l :: 0 <= l < |ToOpcodes(|s1|, |s2|, ops)| ==> Shaped(ToOpcodes(|s1|, |s2|, ops)[l])
    ensures ToEditops(ToOpcodes(|s1|, |s2|, ops), false) == ops
  {
    AlignsFromValid(s1, s2, ops, 0, 0, 0);
    BlocksRoundTrip(s1, s2, ops, 0, 0, 0);
    assert ops[0..] == ops;
  }

  /** The blocks of [delete 0 0, insert 3 2, replace 3 3] between strings of length 4. */
  lemma SpamParkScriptOpcodes()
    ensures ToOpcodes(4, 4, [EditOp(DELETE, 0, 0), EditOp(INSERT, 3, 2), EditOp(REPLACE, 3, 3)])
      == [OpCode(DELETE, 0, 1, 0, 0), OpCode(KEEP, 1, 3, 0, 2), OpCode(INSERT, 3, 3, 2, 3), OpCode(REPLACE, 3, 4, 3, 4)]
  {
    var ops := [EditOp(DELETE, 0, 0), EditOp(INSERT, 3, 2), EditOp(REPLACE, 3, 3)];
    assert Run(ops, 2, 3, 3) == Scan(3, 4, 4);
    assert Blocks(4, 4, ops, 3, 4, 4) == [];
    assert Run(ops, 1, 3, 2) == Scan(2, 3, 3);
    assert Blocks(4, 4, ops, 2, 3, 3) == [OpCode(REPLACE, 3, 4, 3, 4)];
    assert Run(ops, 0, 0, 0) == Scan(1, 1, 0);
    assert Blocks(4, 4, ops, 1, 1, 0) == [OpCode(KEEP, 1, 3, 0, 2), OpCode(INSERT, 3, 3, 2, 3), OpCode(REPLACE, 3, 4, 3, 4)];
  }

  /** The matching blocks of that script. */
  lemma SpamParkScriptMatching()
    ensures MatchingOf(ToOpcodes(4, 4, [EditOp(DELETE, 0, 0), EditOp(INSERT, 3, 2), EditOp(REPLACE, 3, 3)])) == [MatchingBlock(1, 0, 2)]
  {
    SpamParkScriptOpcodes();
    var bops := [OpCode(DELETE, 0, 1, 0, 0), OpCode(KEEP, 1, 3, 0, 2), OpCode(INSERT, 3, 3, 2, 3), OpCode(REPLACE, 3, 4, 3, 4)];
    assert MatchingOf(bops[3..]) == [];
    assert MatchingOf(bops[2..]) == [];
    DiffFacts(3, 1);
    assert MatchingOf(bops[1..]) == [MatchingBlock(1, 0, 2)];
  }

  /** opcodes('spam', 'park'): delete "s", keep "pa", insert "r", replace "m" by "k". */
  lemma SpamParkOpcodes(a: string, b: string)
    requires |a| == 4 && a[0] == 's' && a[1] == 'p' && a[2] == 'a' && a[3] == 'm'
    requires |b| == 4 && b[0] == 'p' && b[1] == 'a' && b[2] == 'r' && b[3] == 'k'
    ensures ToOpcodes(|a|, |b|, FoundOps(a, b))
      == [OpCode(DELETE, 0, 1, 0, 0), OpCode(KEEP, 1, 3, 0, 2), OpCode(INSERT, 3, 3, 2, 3), OpCode(REPLACE, 3, 4, 3, 4)]
  {
    SpamParkEditops(a, b);
    SpamParkScriptOpcodes();
  }

  /** matching_blocks(editops('spam', 'park'), 'spam', 'park'): "pa" at 1 in "spam" and at 0 in "park", before the closing (4, 4, 0) that the Python layer adds. */
  lemma SpamParkMatching(a: string, b: string)
    requires |a| == 4 && a[0] == 's' && a[1] == 'p' && a[2] == 'a' && a[3] == 'm'
    requires |b| == 4 && b[0] == 'p' && b[1] == 'a' && b[2] == 'r' && b[3] == 'k'
    ensures MatchingOf(ToOpcodes(|a|, |b|, FoundOps(a, b))) == [MatchingBlock(1, 0, 2)]
  {
    SpamParkEditops(a, b);
    SpamParkScriptMatching();
  }
}
