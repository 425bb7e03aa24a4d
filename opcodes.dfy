/**
 * Block edit operations of Levenshtein.c (`LevOpCode`, difflib-like
 * opcodes): validation (`lev_opcodes_check_errors`), inversion in place
 * (`lev_opcodes_inverse`) and application (`lev_opcodes_apply`,
 * `lev_u_opcodes_apply`, which are the same loop).
 *
 * A block of kind `kind` turns string1[sbeg..send] into string2[dbeg..dend].
 * Positions are C `size_t` values, so a difference of two positions wraps
 * modulo 2^64 (`Diff`).
 */
module Opcodes {
  import opened EditOps

  datatype OpCode = OpCode(kind: nat, sbeg: nat, send: nat, dbeg: nat, dend: nat)

  /** 2^64: one more than the largest `size_t`. */
  const SIZE: nat := 0x1_0000_0000_0000_0000

  /** `x - y` on `size_t`. */
  function Diff(x: nat, y: nat): nat
  {
    (x - y) % SIZE
  }

  /** All positions of all blocks are `size_t` values. */
  predicate Fits(bops: seq<OpCode>)
  {
    forall k :: 0 <= k < |bops| ==>
      bops[k].sbeg < SIZE && bops[k].send < SIZE && bops[k].dbeg < SIZE && bops[k].dend < SIZE
  }

  /** On `size_t` values the wrapped difference is zero exactly for equal values, and exact when no wrap happens. */
  lemma DiffFacts(x: nat, y: nat)
    requires x < SIZE && y < SIZE
    ensures Diff(x, y) == 0 <==> x == y
    ensures y <= x ==> Diff(x, y) == x - y
    ensures x < y ==> Diff(x, y) == SIZE - (y - x)
  {
  }

  /*
   * lev_opcodes_check_errors
   */

  /** The bounds and shape rules for one block, in the order the C code tests them. */
  function BlockError(len1: nat, len2: nat, b: OpCode): EditError
  {
    if b.send > len1 || b.dend > len2 then ErrOut
    else if b.kind == KEEP || b.kind == REPLACE then
      (if Diff(b.dend, b.dbeg) != Diff(b.send, b.sbeg) || b.dend == b.dbeg then ErrBlock else Ok)
    else if b.kind == INSERT then
      (if Diff(b.dend, b.dbeg) == 0 || Diff(b.send, b.sbeg) != 0 then ErrBlock else Ok)
    else if b.kind == DELETE then
      (if Diff(b.send, b.sbeg) == 0 || Diff(b.dend, b.dbeg) != 0 then ErrBlock else Ok)
    else ErrType
  }

  /** The error of the first block from index k on that breaks a bounds or shape rule. */
  function BlocksError(len1: nat, len2: nat, bops: seq<OpCode>, k: nat): EditError
    requires k <= |bops|
    decreases |bops| - k
  {
    if k == |bops| then Ok
    else if BlockError(len1, len2, bops[k]) != Ok then BlockError(len1, len2, bops[k])
    else BlocksError(len1, len2, bops, k + 1)
  }

  /** Each block starts where the previous one ends, in both strings. */
  predicate Contiguous(bops: seq<OpCode>)
  {
    forall k :: 0 < k < |bops| ==> bops[k].sbeg == bops[k - 1].send && bops[k].dbeg == bops[k - 1].dend
  }

  /** The blocks start at (0, 0) and end at (len1, len2). */
  predicate Spans(len1: nat, len2: nat, bops: seq<OpCode>)
    requires |bops| > 0
  {
    bops[0].sbeg == 0 && bops[0].dbeg == 0 && bops[|bops| - 1].send == len1 && bops[|bops| - 1].dend == len2
  }

  /**
   * What `lev_opcodes_check_errors` reports: an empty list is refused with
   * the code 1 (the type error), then completeness, then bounds and shapes,
   * then ordering.
   */
  function OpcodesErrors(len1: nat, len2: nat, bops: seq<OpCode>): EditError
  {
    if |bops| == 0 then ErrType
    else if !Spans(len1, len2, bops) then ErrSpan
    else if BlocksError(len1, len2, bops, 0) != Ok then BlocksError(len1, len2, bops, 0)
    else if !Contiguous(bops) then ErrOrder
    else Ok
  }

  /** `lev_opcodes_check_errors`: a span test, a pass over the blocks, then an ordering pass. */
  method CheckOpcodes(len1: nat, len2: nat, bops: seq<OpCode>) returns (e: EditError)
    ensures e == OpcodesErrors(len1, len2, bops)
  {
    var nb := |bops|;
    if nb == 0 {
      return ErrType;
    }
    // check completeness
    if bops[0].sbeg != 0 || bops[0].dbeg != 0 || bops[nb - 1].send != len1 || bops[nb - 1].dend != len2 {
      return ErrSpan;
    }
    // check bounds and block consistency
    var k := 0;
    while k < nb
      invariant 0 <= k <= nb
      invariant BlocksError(len1, len2, bops, 0) == BlocksError(len1, len2, bops, k)
    {
      var b := bops[k];
      if b.send > len1 || b.dend > len2 {
        return ErrOut;
      }
      if b.kind == KEEP || b.kind == REPLACE {
        if Diff(b.dend, b.dbeg) != Diff(b.send, b.sbeg) || b.dend == b.dbeg {
          return ErrBlock;
        }
      } else if b.kind == INSERT {
        if Diff(b.dend, b.dbeg) == 0 || Diff(b.send, b.sbeg) != 0 {
          return ErrBlock;
        }
      } else if b.kind == DELETE {
        if Diff(b.send, b.sbeg) == 0 || Diff(b.dend, b.dbeg) != 0 {
          return ErrBlock;
        }
      } else {
        return ErrType;
      }
      k := k + 1;
    }
    // check ordering
    k := 1;
    while k < nb
      invariant 1 <= k <= nb
      invariant forall l :: 0 < l < k ==> bops[l].sbeg == bops[l - 1].send && bops[l].dbeg == bops[l - 1].dend
    {
      if bops[k].sbeg != bops[k - 1].send || bops[k].dbeg != bops[k - 1].dend {
        return ErrOrder;
      }
      k := k + 1;
    }
    return Ok;
  }

  /**
   * One block with the shape its kind calls for: a keep or replace block
   * spans equal, non-empty stretches of both strings, an insert block only
   * the destination and a delete block only the source.
   */
  predicate Shaped(b: OpCode)
  {
    && b.sbeg <= b.send && b.dbeg <= b.dend
    && match b.kind
       case 0 => b.send - b.sbeg == b.dend - b.dbeg > 0
       case 1 => b.send - b.sbeg == b.dend - b.dbeg > 0
       case 2 => b.sbeg == b.send && b.dbeg < b.dend
       case 3 => b.dbeg == b.dend && b.sbeg < b.send
       case _ => false
  }

  /** A complete block edit: shaped blocks that tile string1 and string2 from start to end. */
  predicate WellFormed(len1: nat, len2: nat, bops: seq<OpCode>)
  {
    && |bops| > 0 && Spans(len1, len2, bops) && Contiguous(bops)
    && forall k :: 0 <= k < |bops| ==> Shaped(bops[k])
  }

  /*
   * What the validity check lets through
   */

  /**
   * Because the span differences are taken on `size_t`, the check accepts a
   * block running backwards: here the middle block claims to keep
   * string1[2..1], whose "length" 1 - 2 wraps to 2^64 - 1 in both strings.
   * `lev_opcodes_apply` would copy that many elements.
   */
  lemma CheckAcceptsBackwardBlock()
    ensures OpcodesErrors(3, 3, [OpCode(KEEP, 0, 2, 0, 2), OpCode(KEEP, 2, 1, 2, 1), OpCode(KEEP, 1, 3, 1, 3)]) == Ok
    ensures !WellFormed(3, 3, [OpCode(KEEP, 0, 2, 0, 2), OpCode(KEEP, 2, 1, 2, 1), OpCode(KEEP, 1, 3, 1, 3)])
    ensures Diff(1, 2) == SIZE - 1
  {
    var bops := [OpCode(KEEP, 0, 2, 0, 2), OpCode(KEEP, 2, 1, 2, 1), OpCode(KEEP, 1, 3, 1, 3)];
    DiffFacts(2, 0);
    DiffFacts(1, 2);
    DiffFacts(3, 1);
    assert BlocksError(3, 3, bops, 3) == Ok;
    assert BlocksError(3, 3, bops, 2) == Ok;
    assert BlocksError(3, 3, bops, 1) == Ok;
    assert BlocksError(3, 3, bops, 0) == Ok;
    assert !Shaped(bops[1]);
  }

  /** Every block runs forwards in both strings. */
  predicate Forward(bops: seq<OpCode>)
  {
    forall k :: 0 <= k < |bops| ==> bops[k].sbeg <= bops[k].send && bops[k].dbeg <= bops[k].dend
  }

  /** The check with the missing rule added: a block may not run backwards. */
  function StrictOpcodesErrors(len1: nat, len2: nat, bops: seq<OpCode>): EditError
  {
    var e := OpcodesErrors(len1, len2, bops);
    if e != Ok then e else if !Forward(bops) then ErrBlock else Ok
  }

  lemma {:induction false} BlocksErrorOk(len1: nat, len2: nat, bops: seq<OpCode>, k: nat)
    requires k <= |bops|
    ensures BlocksError(len1, len2, bops, k) == Ok <==> forall l :: k <= l < |bops| ==> BlockError(len1, len2, bops[l]) == Ok
    decreases |bops| - k
  {
    if k < |bops| {
      BlocksErrorOk(len1, len2, bops, k + 1);
    }
  }

  /** For a forward block within the bounds, the C rules are exactly the shape rules. */
  lemma BlockOkIff(len1: nat, len2: nat, b: OpCode)
    requires b.sbeg <= b.send < SIZE && b.dbeg <= b.dend < SIZE
    ensures BlockError(len1, len2, b) == Ok <==> Shaped(b) && b.send <= len1 && b.dend <= len2
  {
    DiffFacts(b.send, b.sbeg);
    DiffFacts(b.dend, b.dbeg);
  }

  /** The strict check accepts exactly the complete block edits. */
  lemma StrictOpcodesOkIff(len1: nat, len2: nat, bops: seq<OpCode>)
    requires Fits(bops)
    ensures StrictOpcodesErrors(len1, len2, bops) == Ok <==> WellFormed(len1, len2, bops)
  {
    BlocksErrorOk(len1, len2, bops, 0);
    if StrictOpcodesErrors(len1, len2, bops) == Ok {
      forall k | 0 <= k < |bops|
        ensures Shaped(bops[k])
      {
        BlockOkIff(len1, len2, bops[k]);
      }
    }
    if WellFormed(len1, len2, bops) {
      TilesWithin(len1, len2, bops, 0);
      forall k | 0 <= k < |bops|
        ensures BlockError(len1, len2, bops[k]) == Ok
      {
        BlockOkIff(len1, len2, bops[k]);
      }
    }
  }

  /** In a complete block edit every block lies within both strings. */
  lemma {:induction false} TilesWithin(len1: nat, len2: nat, bops: seq<OpCode>, k: nat)
    requires WellFormed(len1, len2, bops) && k <= |bops|
    ensures forall l :: k <= l < |bops| ==> bops[l].send <= len1 && bops[l].dend <= len2
    decreases |bops| - k
  {
    if k < |bops| {
      TilesWithin(len1, len2, bops, k + 1);
      if k + 1 < |bops| {
        assert bops[k + 1].sbeg == bops[k].send && bops[k + 1].dbeg == bops[k].dend;
        assert Shaped(bops[k + 1]);
      }
    }
  }

  /** Block k of a complete block edit is shaped and lies within both strings. */
  lemma BlockWithin(len1: nat, len2: nat, bops: seq<OpCode>, k: nat)
    requires WellFormed(len1, len2, bops) && k < |bops|
    ensures Shaped(bops[k]) && bops[k].send <= len1 && bops[k].dend <= len2
  {
    TilesWithin(len1, len2, bops, k);
  }

  /** The strict check: the C check followed by a pass for backward blocks. */
  method CheckOpcodesStrict(len1: nat, len2: nat, bops: seq<OpCode>) returns (e: EditError)
    ensures e == StrictOpcodesErrors(len1, len2, bops)
  {
    e := CheckOpcodes(len1, len2, bops);
    if e != Ok {
      return;
    }
    var k := 0;
    while k < |bops|
      invariant 0 <= k <= |bops|
      invariant forall l :: 0 <= l < k ==> bops[l].sbeg <= bops[l].send && bops[l].dbeg <= bops[l].dend
    {
      if bops[k].send < bops[k].sbeg || bops[k].dend < bops[k].dbeg {
        return ErrBlock;
      }
      k := k + 1;
    }
  }

  /*
   * lev_opcodes_inverse
   */

  function InvertCode(b: OpCode): OpCode
  {
    OpCode(FlipKind(b.kind), b.dbeg, b.dend, b.sbeg, b.send)
  }

  function InvertCodes(bops: seq<OpCode>): seq<OpCode>
  {
    seq(|bops|, k requires 0 <= k < |bops| => InvertCode(bops[k]))
  }

  /** `lev_opcodes_inverse`: swap source and destination ranges and flip the kind of every block, in place. */
  method InverseOpcodes(bops: array<OpCode>)
    modifies bops
    ensures bops[..] == InvertCodes(old(bops[..]))
  {
    var k := 0;
    while k < bops.Length
      invariant 0 <= k <= bops.Length
      invariant forall l :: 0 <= l < k ==> bops[l] == InvertCode(old(bops[l]))
      invariant forall l :: k <= l < bops.Length ==> bops[l] == old(bops[l])
    {
      var b := bops[k];
      var z := b.dbeg;
      b := b.(dbeg := b.sbeg, sbeg := z);
      z := b.dend;
      b := b.(dend := b.send, send := z);
      if b.kind / 2 % 2 == 1 {
        b := b.(kind := if b.kind % 2 == 0 then b.kind + 1 else b.kind - 1);
      }
      bops[k] := b;
      k := k + 1;
    }
  }

  /** Inverting twice gives back the original blocks. */
  lemma InvertCodesInvolution(bops: seq<OpCode>)
    ensures InvertCodes(InvertCodes(bops)) == bops
  {
    assert forall k :: 0 <= k < |bops| ==> InvertCodes(InvertCodes(bops))[k] == bops[k];
  }

  /** A complete block edit of len1 -> len2 inverts to a complete block edit of len2 -> len1, and back. */
  lemma InvertCodesWellFormed(len1: nat, len2: nat, bops: seq<OpCode>)
    ensures WellFormed(len2, len1, InvertCodes(bops)) <==> WellFormed(len1, len2, bops)
  {
    var inv := InvertCodes(bops);
    FlipKindSwaps();
    assert forall k :: 0 <= k < |bops| ==> (Shaped(inv[k]) <==> Shaped(bops[k]));
  }

  /*
   * lev_opcodes_apply
   */

  /** What one block writes: a keep block copies the source stretch, an insert or replace block the destination stretch. */
  function BlockOutput<T>(s1: seq<T>, s2: seq<T>, b: OpCode): (r: seq<T>)
    requires Shaped(b) && b.send <= |s1| && b.dend <= |s2|
    ensures |r| == b.dend - b.dbeg
  {
    if b.kind == KEEP then s1[b.sbeg..b.send]
    else if b.kind == INSERT || b.kind == REPLACE then s2[b.dbeg..b.dend]
    else []
  }

  /** The output of the blocks from index k on. */
  function OutputFrom<T>(s1: seq<T>, s2: seq<T>, bops: seq<OpCode>, k: nat): seq<T>
    requires WellFormed(|s1|, |s2|, bops) && k <= |bops|
    decreases |bops| - k
  {
    if k == |bops| then []
    else
      BlockWithin(|s1|, |s2|, bops, k);
      BlockOutput(s1, s2, bops[k]) + OutputFrom(s1, s2, bops, k + 1)
  }

  function OpcodesOutput<T>(s1: seq<T>, s2: seq<T>, bops: seq<OpCode>): seq<T>
    requires WellFormed(|s1|, |s2|, bops)
  {
    OutputFrom(s1, s2, bops, 0)
  }

  /** Each keep block sits on equal stretches of the two strings. */
  predicate KeepsMatch<T(==)>(s1: seq<T>, s2: seq<T>, bops: seq<OpCode>)
  {
    forall k :: 0 <= k < |bops| && bops[k].kind == KEEP ==>
      bops[k].sbeg <= bops[k].send <= |s1| && bops[k].dbeg <= bops[k].dend <= |s2| &&
      s1[bops[k].sbeg..bops[k].send] == s2[bops[k].dbeg..bops[k].dend]
  }

  /** A block of a complete block edit whose keep blocks match writes its own stretch of string2. */
  lemma BlockOutputIsDestination<T>(s1: seq<T>, s2: seq<T>, bops: seq<OpCode>, k: nat)
    requires WellFormed(|s1|, |s2|, bops) && KeepsMatch(s1, s2, bops) && k < |bops|
    ensures Shaped(bops[k]) && bops[k].send <= |s1| && bops[k].dend <= |s2|
    ensures BlockOutput(s1, s2, bops[k]) == s2[bops[k].dbeg..bops[k].dend]
  {
    BlockWithin(|s1|, |s2|, bops, k);
  }

  /** The blocks from k on write exactly string2 from the start of block k, when the keep blocks match. */
  lemma {:induction false} OutputFromIsDestination<T>(s1: seq<T>, s2: seq<T>, bops: seq<OpCode>, k: nat)
    requires WellFormed(|s1|, |s2|, bops) && KeepsMatch(s1, s2, bops) && k < |bops|
    ensures bops[k].dbeg <= |s2| && OutputFrom(s1, s2, bops, k) == s2[bops[k].dbeg..]
    decreases |bops| - k
  {
    BlockOutputIsDestination(s1, s2, bops, k);
    var b := bops[k];
    var rest := OutputFrom(s1, s2, bops, k + 1);
    assert OutputFrom(s1, s2, bops, k) == s2[b.dbeg..b.dend] + rest;
    if k + 1 < |bops| {
      OutputFromIsDestination(s1, s2, bops, k + 1);
      assert bops[k + 1].dbeg == b.dend;
      assert rest == s2[b.dend..];
    } else {
      assert b.dend == |s2| && rest == [];
    }
    assert s2[b.dbeg..] == s2[b.dbeg..b.dend] + s2[b.dend..];
  }

  /** Applying a complete block edit whose keep blocks match turns string1 into string2. */
  lemma OutputIsDestination<T>(s1: seq<T>, s2: seq<T>, bops: seq<OpCode>)
    requires WellFormed(|s1|, |s2|, bops) && KeepsMatch(s1, s2, bops)
    ensures OpcodesOutput(s1, s2, bops) == s2
  {
    OutputFromIsDestination(s1, s2, bops, 0);
  }

  /** Whatever the keep blocks copy, the output has the destination's length. */
  lemma {:induction false} OutputFromLength<T>(s1: seq<T>, s2: seq<T>, bops: seq<OpCode>, k: nat)
    requires WellFormed(|s1|, |s2|, bops) && k < |bops|
    ensures bops[k].dbeg <= |s2| && |OutputFrom(s1, s2, bops, k)| == |s2| - bops[k].dbeg
    decreases |bops| - k
  {
    BlockWithin(|s1|, |s2|, bops, k);
    var b := bops[k];
    if k + 1 < |bops| {
      OutputFromLength(s1, s2, bops, k + 1);
      assert bops[k + 1].dbeg == b.dend;
    }
  }

  /** The inverse of a block edit whose keep blocks match turns string2 back into string1. */
  lemma InverseOutput<T>(s1: seq<T>, s2: seq<T>, bops: seq<OpCode>)
    requires WellFormed(|s1|, |s2|, bops) && KeepsMatch(s1, s2, bops)
    ensures WellFormed(|s2|, |s1|, InvertCodes(bops)) && OpcodesOutput(s2, s1, InvertCodes(bops)) == s1
  {
    InvertCodesWellFormed(|s1|, |s2|, bops);
    var inv := InvertCodes(bops);
    FlipKindSwaps();
    assert forall k :: 0 <= k < |inv| && inv[k].kind == KEEP ==> bops[k].kind == KEEP;
    OutputIsDestination(s2, s1, inv);
  }

  /**
   * Progress of the apply loop: out is what the blocks before k have
   * written, which ends where block k starts in string2, and the blocks from
   * k on write the rest.
   */
  ghost predicate Copying<T>(s1: seq<T>, s2: seq<T>, bops: seq<OpCode>, out: seq<T>, k: nat)
  {
    && WellFormed(|s1|, |s2|, bops) && k <= |bops|
    && (k < |bops| ==> |out| == bops[k].dbeg)
    && (k == |bops| ==> |out| == |s2|)
    && out + OutputFrom(s1, s2, bops, k) == OpcodesOutput(s1, s2, bops)
  }

  /** One block of the apply loop: its output is appended, and it has the length of its destination stretch. */
  lemma CopyingStep<T>(s1: seq<T>, s2: seq<T>, bops: seq<OpCode>, out: seq<T>, k: nat)
    requires Copying(s1, s2, bops, out, k) && k < |bops|
    ensures Shaped(bops[k]) && bops[k].send <= |s1| && bops[k].dend <= |s2|
    ensures |BlockOutput(s1, s2, bops[k])| == bops[k].dend - bops[k].dbeg
    ensures Copying(s1, s2, bops, out + BlockOutput(s1, s2, bops[k]), k + 1)
  {
    BlockWithin(|s1|, |s2|, bops, k);
    var b := bops[k];
    var p := BlockOutput(s1, s2, b);
    if k + 1 < |bops| {
      assert bops[k + 1].dbeg == b.dend;
    }
    var rest := OutputFrom(s1, s2, bops, k + 1);
    assert OutputFrom(s1, s2, bops, k) == p + rest;
    assert out + (p + rest) == (out + p) + rest;
  }

  /** Copy block k's stretch to the buffer at dpos, and move dpos past it. */
  method CopyBlock<T>(s1: seq<T>, s2: seq<T>, bops: seq<OpCode>, k: nat, dst: array<T>, dpos: nat) returns (dpos': nat)
    requires dpos <= |s2| <= dst.Length && Copying(s1, s2, bops, dst[..dpos], k) && k < |bops|
    modifies dst
    ensures dpos' <= |s2| && Copying(s1, s2, bops, dst[..dpos'], k + 1)
  {
    ghost var out := dst[..dpos];
    CopyingStep(s1, s2, bops, out, k);
    var b := bops[k];
    if b.kind == INSERT || b.kind == REPLACE {
      CopyInto(dst, dpos, s2, b.dbeg, b.dend);
    } else if b.kind == KEEP {
      CopyInto(dst, dpos, s1, b.sbeg, b.send);
    }
    dpos' := dpos + (b.dend - b.dbeg);
    assert dst[..dpos'] == out + BlockOutput(s1, s2, b);
  }

  /**
   * `lev_opcodes_apply`: copy each block's stretch into a buffer of
   * len1 + len2 elements.  The C code trusts its caller to pass checked
   * blocks; here they must form a complete block edit.
   */
  method ApplyOpcodes<T(0)>(s1: seq<T>, s2: seq<T>, bops: seq<OpCode>) returns (r: seq<T>)
    requires WellFormed(|s1|, |s2|, bops)
    ensures r == OpcodesOutput(s1, s2, bops)
  {
    var dst := new T[|s1| + |s2|];
    var dpos: nat := 0;
    var k := 0;
    while k < |bops|
      invariant dpos <= |s2| <= dst.Length && Copying(s1, s2, bops, dst[..dpos], k)
    {
      dpos := CopyBlock(s1, s2, bops, k, dst, dpos);
      k := k + 1;
    }
    r := dst[..dpos];
  }
}
