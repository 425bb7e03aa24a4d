/**
 * Atomic edit operations of Levenshtein.c (`LevEditOp`): validation
 * (`lev_editops_check_errors`), inversion in place (`lev_editops_inverse`)
 * and application to a string (`lev_editops_apply`, `lev_u_editops_apply`).
 *
 * An operation names a kind and a position in the source (spos) and in the
 * destination (dpos).  The kinds are numbered as in the opcode name table
 * (`equal`, `replace`, `insert`, `delete`); a number from LAST on is not a
 * kind, which only the validity check looks at.
 */
module EditOps {

  const KEEP: nat := 0
  const REPLACE: nat := 1
  const INSERT: nat := 2
  const DELETE: nat := 3
  /** The first number that is not an edit kind. */
  const LAST: nat := 4

  datatype EditOp = EditOp(kind: nat, spos: nat, dpos: nat)

  /** Results of the validity checks, in the order of the C error codes. */
  datatype EditError = Ok | ErrType | ErrOut | ErrOrder | ErrBlock | ErrSpan

  /*
   * lev_editops_check_errors
   */

  /** The bounds rules for one operation, in the order the C code tests them. */
  function OpError(len1: nat, len2: nat, o: EditOp): EditError
  {
    if o.kind >= LAST then ErrType
    else if o.spos > len1 || o.dpos > len2 then ErrOut
    else if o.spos == len1 && o.kind != INSERT then ErrOut
    else if o.dpos == len2 && o.kind != DELETE then ErrOut
    else Ok
  }

  /** The error of the first operation from index k on that breaks a bounds rule. */
  function BoundsError(len1: nat, len2: nat, ops: seq<EditOp>, k: nat): EditError
    requires k <= |ops|
    decreases |ops| - k
  {
    if k == |ops| then Ok
    else if OpError(len1, len2, ops[k]) != Ok then OpError(len1, len2, ops[k])
    else BoundsError(len1, len2, ops, k + 1)
  }

  /** Neither position ever decreases from one operation to the next. */
  predicate Monotone(ops: seq<EditOp>)
  {
    forall k :: 0 < k < |ops| ==> ops[k - 1].spos <= ops[k].spos && ops[k - 1].dpos <= ops[k].dpos
  }

  /** What `lev_editops_check_errors` reports: bounds first, then ordering. */
  function EditopsErrors(len1: nat, len2: nat, ops: seq<EditOp>): EditError
  {
    if BoundsError(len1, len2, ops, 0) != Ok then BoundsError(len1, len2, ops, 0)
    else if !Monotone(ops) then ErrOrder
    else Ok
  }

  /** One operation that a len1 -> len2 edit can contain. */
  predicate ValidEditOp(len1: nat, len2: nat, o: EditOp)
  {
    && o.kind < LAST
    && o.spos <= len1 && o.dpos <= len2
    && (o.spos == len1 ==> o.kind == INSERT)
    && (o.dpos == len2 ==> o.kind == DELETE)
  }

  lemma OpErrorOkIff(len1: nat, len2: nat, o: EditOp)
    ensures OpError(len1, len2, o) == Ok <==> ValidEditOp(len1, len2, o)
  {
  }

  /** From k on, the bounds pass succeeds exactly when every operation is valid. */
  lemma {:induction false} BoundsErrorOkIff(len1: nat, len2: nat, ops: seq<EditOp>, k: nat)
    requires k <= |ops|
    ensures BoundsError(len1, len2, ops, k) == Ok <==> forall l :: k <= l < |ops| ==> ValidEditOp(len1, len2, ops[l])
    decreases |ops| - k
  {
    if k < |ops| {
      OpErrorOkIff(len1, len2, ops[k]);
      BoundsErrorOkIff(len1, len2, ops, k + 1);
    }
  }

  /** A failing bounds pass reports the error of the first invalid operation. */
  lemma {:induction false} BoundsErrorIsFirst(len1: nat, len2: nat, ops: seq<EditOp>, k: nat)
    requires k <= |ops| && BoundsError(len1, len2, ops, k) != Ok
    ensures exists l :: k <= l < |ops| && BoundsError(len1, len2, ops, k) == OpError(len1, len2, ops[l]) &&
                        forall l' :: k <= l' < l ==> OpError(len1, len2, ops[l']) == Ok
    decreases |ops| - k
  {
    if OpError(len1, len2, ops[k]) == Ok {
      BoundsErrorIsFirst(len1, len2, ops, k + 1);
    }
  }

  /**
   * The check accepts exactly the lists of valid operations whose positions
   * never decrease; in particular the empty list.
   */
  lemma EditopsOkIff(len1: nat, len2: nat, ops: seq<EditOp>)
    ensures EditopsErrors(len1, len2, ops) == Ok <==>
      (forall l :: 0 <= l < |ops| ==> ValidEditOp(len1, len2, ops[l])) && Monotone(ops)
  {
    BoundsErrorOkIff(len1, len2, ops, 0);
  }

  /** `lev_editops_check_errors`: a bounds pass over all operations, then an ordering pass. */
  method CheckEditops(len1: nat, len2: nat, ops: seq<EditOp>) returns (e: EditError)
    ensures e == EditopsErrors(len1, len2, ops)
  {
    var n := |ops|;
    if n == 0 {
      return Ok;
    }
    // check bounds
    var k := 0;
    while k < n
      invariant 0 <= k <= n
      invariant BoundsError(len1, len2, ops, 0) == BoundsError(len1, len2, ops, k)
    {
      var o := ops[k];
      if o.kind >= LAST {
        return ErrType;
      }
      if o.spos > len1 || o.dpos > len2 {
        return ErrOut;
      }
      if o.spos == len1 && o.kind != INSERT {
        return ErrOut;
      }
      if o.dpos == len2 && o.kind != DELETE {
        return ErrOut;
      }
      k := k + 1;
    }
    // check ordering
    k := 1;
    while k < n
      invariant 1 <= k <= n
      invariant forall l :: 0 < l < k ==> ops[l - 1].spos <= ops[l].spos && ops[l - 1].dpos <= ops[l].dpos
    {
      if ops[k].spos < ops[k - 1].spos || ops[k].dpos < ops[k - 1].dpos {
        return ErrOrder;
      }
      k := k + 1;
    }
    return Ok;
  }

  /*
   * lev_editops_inverse
   */

  /** `type & 2 ? type ^ 1 : type`: insert and delete trade places, keep and replace stay. */
  function FlipKind(kind: nat): nat
  {
    if kind / 2 % 2 == 1 then (if kind % 2 == 0 then kind + 1 else kind - 1) else kind
  }

  function InvertOp(o: EditOp): EditOp
  {
    EditOp(FlipKind(o.kind), o.dpos, o.spos)
  }

  function InvertOps(ops: seq<EditOp>): seq<EditOp>
  {
    seq(|ops|, k requires 0 <= k < |ops| => InvertOp(ops[k]))
  }

  /** `lev_editops_inverse`: swap the positions and flip the kind of every operation, in place. */
  method InverseEditops(ops: array<EditOp>)
    modifies ops
    ensures ops[..] == InvertOps(old(ops[..]))
  {
    var k := 0;
    while k < ops.Length
      invariant 0 <= k <= ops.Length
      invariant forall l :: 0 <= l < k ==> ops[l] == InvertOp(old(ops[l]))
      invariant forall l :: k <= l < ops.Length ==> ops[l] == old(ops[l])
    {
      var o := ops[k];
      var z := o.dpos;
      var kind := o.kind;
      if kind / 2 % 2 == 1 {
        kind := if kind % 2 == 0 then kind + 1 else kind - 1;
      }
      ops[k] := EditOp(kind, o.spos, o.dpos).(dpos := o.spos, spos := z);
      k := k + 1;
    }
  }

  /** Keep and replace are their own inverses; insert and delete are each other's. */
  lemma FlipKindSwaps()
    ensures FlipKind(KEEP) == KEEP && FlipKind(REPLACE) == REPLACE
    ensures FlipKind(INSERT) == DELETE && FlipKind(DELETE) == INSERT
  {
  }

  /** Inverting twice gives back the original list. */
  lemma InvertOpsInvolution(ops: seq<EditOp>)
    ensures InvertOps(InvertOps(ops)) == ops
  {
    assert forall k :: 0 <= k < |ops| ==> InvertOps(InvertOps(ops))[k] == ops[k];
  }

  /** A list is valid for len1 -> len2 exactly when its inverse is valid for len2 -> len1. */
  lemma InvertOpsValid(len1: nat, len2: nat, ops: seq<EditOp>)
    ensures EditopsErrors(len2, len1, InvertOps(ops)) == Ok <==> EditopsErrors(len1, len2, ops) == Ok
  {
    EditopsOkIff(len1, len2, ops);
    EditopsOkIff(len2, len1, InvertOps(ops));
    var inv := InvertOps(ops);
    assert forall l :: 0 <= l < |ops| ==> (ValidEditOp(len2, len1, inv[l]) <==> ValidEditOp(len1, len2, ops[l]));
  }

  /*
   * lev_editops_apply
   */

  /** Whether an operation of this kind advances the source cursor past its own element. */
  function Consumes(kind: nat): nat
  {
    if kind == KEEP || kind == DELETE || kind == REPLACE then 1 else 0
  }

  /** How far the source is copied before the operation takes effect: through spos for a keep, up to it otherwise. */
  function CopyEnd(o: EditOp): nat
  {
    o.spos + (if o.kind == KEEP then 1 else 0)
  }

  /** Whether an operation of this kind writes string2[dpos] to the output. */
  predicate Produces(kind: nat)
  {
    kind == REPLACE || kind == INSERT
  }

  /**
   * Applying ops[k..] with the source cursor at cur stays inside both
   * strings, and no copy length `spos - cursor + keep` goes negative (in the
   * C code that difference is an unsigned size_t, so a negative one is a
   * wild copy).
   */
  predicate ApplicableFrom(len1: nat, len2: nat, ops: seq<EditOp>, k: nat, cur: nat)
    requires k <= |ops|
    decreases |ops| - k
  {
    if k == |ops| then cur <= len1
    else
      var o := ops[k];
      && cur <= CopyEnd(o) <= len1
      && (Produces(o.kind) ==> o.dpos < len2)
      && ApplicableFrom(len1, len2, ops, k + 1, Next(o))
  }

  predicate Applicable(len1: nat, len2: nat, ops: seq<EditOp>)
  {
    ApplicableFrom(len1, len2, ops, 0, 0)
  }

  /** The source cursor after an operation: past spos when the operation consumes a source element. */
  function Next(o: EditOp): nat
  {
    o.spos + Consumes(o.kind)
  }

  /**
   * What one operation contributes with the source cursor at cur: the source
   * copied up to it, then the destination element a replace or insert writes.
   */
  function Piece<T>(s1: seq<T>, s2: seq<T>, o: EditOp, cur: nat): seq<T>
    requires cur <= CopyEnd(o) <= |s1| && (Produces(o.kind) ==> o.dpos < |s2|)
  {
    s1[cur..CopyEnd(o)] + (if Produces(o.kind) then [s2[o.dpos]] else [])
  }

  /**
   * The output of applying ops[k..] with the source cursor at cur: each
   * operation's piece in turn, then the rest of the source.
   */
  function ApplyFrom<T>(s1: seq<T>, s2: seq<T>, ops: seq<EditOp>, k: nat, cur: nat): seq<T>
    requires k <= |ops| && ApplicableFrom(|s1|, |s2|, ops, k, cur)
    decreases |ops| - k
  {
    if k == |ops| then s1[cur..]
    else Piece(s1, s2, ops[k], cur) + ApplyFrom(s1, s2, ops, k + 1, Next(ops[k]))
  }

  function Apply<T>(s1: seq<T>, s2: seq<T>, ops: seq<EditOp>): seq<T>
    requires Applicable(|s1|, |s2|, ops)
  {
    ApplyFrom(s1, s2, ops, 0, 0)
  }

  /** The source cursor after the last operation: where the final tail copy starts. */
  function EndCursor(len1: nat, len2: nat, ops: seq<EditOp>, k: nat, cur: nat): (c: nat)
    requires k <= |ops| && ApplicableFrom(len1, len2, ops, k, cur)
    ensures cur <= c <= len1
    decreases |ops| - k
  {
    if k == |ops| then cur else EndCursor(len1, len2, ops, k + 1, Next(ops[k]))
  }

  /** The output of ops[k..] is at most one element per operation plus the rest of the source. */
  lemma {:induction false} ApplyFromLength<T>(s1: seq<T>, s2: seq<T>, ops: seq<EditOp>, k: nat, cur: nat)
    requires k <= |ops| && ApplicableFrom(|s1|, |s2|, ops, k, cur)
    ensures |ApplyFrom(s1, s2, ops, k, cur)| <= (|ops| - k) + (|s1| - cur)
    decreases |ops| - k
  {
    if k < |ops| {
      ApplyFromLength(s1, s2, ops, k + 1, Next(ops[k]));
    }
  }

  /** Copy src[from..to] into dst at position at, as memcpy does. */
  method CopyInto<T>(dst: array<T>, at: nat, src: seq<T>, from: nat, to: nat)
    requires from <= to <= |src| && at + (to - from) <= dst.Length
    modifies dst
    ensures dst[..at + (to - from)] == old(dst[..at]) + src[from..to]
  {
    var k := 0;
    while k < to - from
      invariant 0 <= k <= to - from
      invariant dst[..at + k] == old(dst[..at]) + src[from..from + k]
    {
      dst[at + k] := src[from + k];
      assert src[from..from + k + 1] == src[from..from + k] + [src[from + k]];
      k := k + 1;
    }
  }

  /** One turn of the apply loop: copy the source up to the operation, then write its element. */
  method ApplyOp<T>(s1: seq<T>, s2: seq<T>, o: EditOp, dst: array<T>, dpos: nat, spos: nat)
    returns (dpos': nat, spos': nat)
    requires spos <= CopyEnd(o) <= |s1| && (Produces(o.kind) ==> o.dpos < |s2|)
    requires dpos + |Piece(s1, s2, o, spos)| <= dst.Length
    modifies dst
    ensures spos' == Next(o) && dpos' == dpos + |Piece(s1, s2, o, spos)|
    ensures dst[..dpos'] == old(dst[..dpos]) + Piece(s1, s2, o, spos)
  {
    spos', dpos' := spos, dpos;
    var j := CopyEnd(o) - spos;
    if j > 0 {
      CopyInto(dst, dpos, s1, spos, spos + j);
      spos', dpos' := spos + j, dpos + j;
    }
    if o.kind == DELETE {
      spos' := spos' + 1;
    } else if o.kind == REPLACE || o.kind == INSERT {
      if o.kind == REPLACE {
        spos' := spos' + 1;
      }
      dst[dpos'] := s2[o.dpos];
      dpos' := dpos' + 1;
    }
  }

  /**
   * Progress of the apply loop: out is what has been written, ops[k..] is
   * still to come with the source cursor at cur, and the two together make
   * the whole output.
   */
  ghost predicate Applying<T>(s1: seq<T>, s2: seq<T>, ops: seq<EditOp>, out: seq<T>, k: nat, cur: nat)
  {
    && Applicable(|s1|, |s2|, ops)
    && k <= |ops| && ApplicableFrom(|s1|, |s2|, ops, k, cur)
    && |out| <= k + cur
    && out + ApplyFrom(s1, s2, ops, k, cur) == Apply(s1, s2, ops)
    && EndCursor(|s1|, |s2|, ops, k, cur) == EndCursor(|s1|, |s2|, ops, 0, 0)
  }

  /** One operation of the loop: its piece is appended, and the buffer of n + len1 elements has room for it. */
  lemma ApplyingStep<T>(s1: seq<T>, s2: seq<T>, ops: seq<EditOp>, out: seq<T>, k: nat, cur: nat)
    requires Applying(s1, s2, ops, out, k, cur) && k < |ops|
    ensures cur <= CopyEnd(ops[k]) <= |s1| && (Produces(ops[k].kind) ==> ops[k].dpos < |s2|)
    ensures |out| + |Piece(s1, s2, ops[k], cur)| <= |ops| + |s1|
    ensures Applying(s1, s2, ops, out + Piece(s1, s2, ops[k], cur), k + 1, Next(ops[k]))
  {
    var o := ops[k];
    assert ApplicableFrom(|s1|, |s2|, ops, k + 1, Next(o));
    if k + 1 < |ops| {
      assert Next(o) <= CopyEnd(ops[k + 1]) <= |s1|;
    }
    var p := Piece(s1, s2, o, cur);
    assert out + ApplyFrom(s1, s2, ops, k, cur) == (out + p) + ApplyFrom(s1, s2, ops, k + 1, Next(o));
  }

  /** After the last operation only the rest of the source remains, and it fits the buffer. */
  lemma ApplyingDone<T>(s1: seq<T>, s2: seq<T>, ops: seq<EditOp>, out: seq<T>, cur: nat)
    requires Applying(s1, s2, ops, out, |ops|, cur)
    ensures cur == EndCursor(|s1|, |s2|, ops, 0, 0) <= |s1|
    ensures out + s1[cur..] == Apply(s1, s2, ops) && |out| + (|s1| - cur) <= |ops| + |s1|
  {
  }

  /**
   * `lev_editops_apply`: the output buffer has room for n + len1 elements,
   * and the result is never longer.
   */
  method ApplyEditops<T(0)>(s1: seq<T>, s2: seq<T>, ops: seq<EditOp>) returns (r: seq<T>)
    requires Applicable(|s1|, |s2|, ops)
    ensures r == Apply(s1, s2, ops)
    ensures |r| <= |ops| + |s1|
  {
    var dst := new T[|ops| + |s1|];
    var dpos: nat, spos: nat := 0, 0;
    var k := 0;
    while k < |ops|
      invariant dpos <= dst.Length && Applying(s1, s2, ops, dst[..dpos], k, spos)
    {
      ApplyingStep(s1, s2, ops, dst[..dpos], k, spos);
      dpos, spos := ApplyOp(s1, s2, ops[k], dst, dpos, spos);
      k := k + 1;
    }
    ApplyingDone(s1, s2, ops, dst[..dpos], spos);
    var j := |s1| - spos;
    if j > 0 {
      CopyInto(dst, dpos, s1, spos, spos + j);
      dpos := dpos + j;
    }
    r := dst[..dpos];
  }

  /**
   * `lev_u_editops_apply` as written: the same loop, but the rest of the
   * source after the last operation is never copied.  The result is the
   * correct output minus that tail.
   */
  method UnicodeApplyEditops<T(0)>(s1: seq<T>, s2: seq<T>, ops: seq<EditOp>) returns (r: seq<T>)
    requires Applicable(|s1|, |s2|, ops)
    ensures r + s1[EndCursor(|s1|, |s2|, ops, 0, 0)..] == Apply(s1, s2, ops)
  {
    var dst := new T[|ops| + |s1|];
    var dpos: nat, spos: nat := 0, 0;
    var k := 0;
    while k < |ops|
      invariant dpos <= dst.Length && Applying(s1, s2, ops, dst[..dpos], k, spos)
    {
      ApplyingStep(s1, s2, ops, dst[..dpos], k, spos);
      dpos, spos := ApplyOp(s1, s2, ops[k], dst, dpos, spos);
      k := k + 1;
    }
    ApplyingDone(s1, s2, ops, dst[..dpos], spos);
    r := dst[..dpos];
  }

  /**
   * What the Unicode apply loses: replacing the first letter of "abc" by
   * that of "xbc" yields "x", not "xbc".
   */
  lemma UnicodeApplyDropsTail(r: string)
    requires r + "abc"[EndCursor(3, 3, [EditOp(REPLACE, 0, 0)], 0, 0)..] == Apply("abc", "xbc", [EditOp(REPLACE, 0, 0)])
    ensures r == "x" && r != Apply("abc", "xbc", [EditOp(REPLACE, 0, 0)])
  {
    var ops := [EditOp(REPLACE, 0, 0)];
    assert ApplyFrom("abc", "xbc", ops, 1, 1) == "bc";
    assert Apply("abc", "xbc", ops) == "xbc";
  }

  /*
   * What the validity check lets through
   */

  /**
   * `lev_editops_check_errors` accepts two deletions of the same source
   * element, but applying them copies `0 - 1` elements: the list is not
   * applicable.
   */
  lemma CheckAcceptsRepeatedDelete()
    ensures EditopsErrors(1, 0, [EditOp(DELETE, 0, 0), EditOp(DELETE, 0, 0)]) == Ok
    ensures !Applicable(1, 0, [EditOp(DELETE, 0, 0), EditOp(DELETE, 0, 0)])
  {
    var ops := [EditOp(DELETE, 0, 0), EditOp(DELETE, 0, 0)];
    assert BoundsError(1, 0, ops, 2) == Ok;
    assert BoundsError(1, 0, ops, 1) == Ok;
    assert BoundsError(1, 0, ops, 0) == Ok;
    assert Monotone(ops);
    assert !ApplicableFrom(1, 0, ops, 1, 1);
  }

  /** No operation starts before the source element its predecessor consumed. */
  predicate Sequential(ops: seq<EditOp>)
  {
    forall k :: 0 < k < |ops| ==> Next(ops[k - 1]) <= CopyEnd(ops[k])
  }

  /** The check with the missing rule added: an operation may not reuse a consumed element. */
  function StrictEditopsErrors(len1: nat, len2: nat, ops: seq<EditOp>): EditError
  {
    var e := EditopsErrors(len1, len2, ops);
    if e != Ok then e else if !Sequential(ops) then ErrOrder else Ok
  }

  lemma {:induction false} ValidSequentialApplicable(len1: nat, len2: nat, ops: seq<EditOp>, k: nat, cur: nat)
    requires k <= |ops| && forall l :: k <= l < |ops| ==> ValidEditOp(len1, len2, ops[l])
    requires Sequential(ops) && cur <= len1
    requires k < |ops| ==> cur <= CopyEnd(ops[k])
    ensures ApplicableFrom(len1, len2, ops, k, cur)
    decreases |ops| - k
  {
    if k < |ops| {
      ValidSequentialApplicable(len1, len2, ops, k + 1, Next(ops[k]));
    }
  }

  /** Every list the strict check accepts can be applied. */
  lemma StrictCheckApplicable(len1: nat, len2: nat, ops: seq<EditOp>)
    requires StrictEditopsErrors(len1, len2, ops) == Ok
    ensures EditopsErrors(len1, len2, ops) == Ok && Applicable(len1, len2, ops)
  {
    EditopsOkIff(len1, len2, ops);
    ValidSequentialApplicable(len1, len2, ops, 0, 0);
  }

  /** The strict check: the C check followed by a pass for consumed elements. */
  method CheckEditopsStrict(len1: nat, len2: nat, ops: seq<EditOp>) returns (e: EditError)
    ensures e == StrictEditopsErrors(len1, len2, ops)
    ensures e == Ok ==> Applicable(len1, len2, ops)
  {
    e := CheckEditops(len1, len2, ops);
    if e != Ok {
      return;
    }
    var k := 1;
    while k < |ops|
      invariant 1 <= k
      invariant |ops| > 0 ==> k <= |ops|
      invariant forall l :: 0 < l < k && l < |ops| ==> Next(ops[l - 1]) <= CopyEnd(ops[l])
    {
      if CopyEnd(ops[k]) < Next(ops[k - 1]) {
        return ErrOrder;
      }
      k := k + 1;
    }
    StrictCheckApplicable(len1, len2, ops);
  }

  /**
   * `apply_edit` on a list of edit operations, corrected: check the list with
   * the strict check `CheckEditopsStrict` in place of `lev_editops_check_errors`
   * (which accepts overlapping operations), then apply it; a list that fails
   * the check is refused.
   */
  method ApplyEdit<T(0)>(s1: seq<T>, s2: seq<T>, ops: seq<EditOp>) returns (r: EditError, out: seq<T>)
    ensures r == StrictEditopsErrors(|s1|, |s2|, ops)
    ensures r == Ok ==> Applicable(|s1|, |s2|, ops) && out == Apply(s1, s2, ops)
    ensures r != Ok ==> out == []
  {
    out := [];
    r := CheckEditopsStrict(|s1|, |s2|, ops);
    if r == Ok {
      out := ApplyEditops(s1, s2, ops);
    }
  }

  /*
   * Edit scripts that turn one string into another
   */

  /**
   * ops[k..] describes how s1[i..] becomes s2[j..]: the stretch up to each
   * operation is equal in both strings, a keep sits on two equal elements,
   * a replace on any two, an insert on a destination element and a delete on
   * a source element; after the last operation both rests are equal.
   */
  ghost predicate AlignsFrom<T>(s1: seq<T>, s2: seq<T>, ops: seq<EditOp>, k: nat, i: nat, j: nat)
    requires k <= |ops|
    decreases |ops| - k
  {
    && i <= |s1| && j <= |s2|
    && if k == |ops| then s1[i..] == s2[j..]
       else
         var o := ops[k];
         && i <= o.spos <= |s1| && j <= o.dpos <= |s2|
         && o.spos - i == o.dpos - j
         && s1[i..o.spos] == s2[j..o.dpos]
         && match o.kind
            case 0 => o.spos < |s1| && o.dpos < |s2| && s1[o.spos] == s2[o.dpos] && AlignsFrom(s1, s2, ops, k + 1, o.spos + 1, o.dpos + 1)
            case 1 => o.spos < |s1| && o.dpos < |s2| && AlignsFrom(s1, s2, ops, k + 1, o.spos + 1, o.dpos + 1)
            case 2 => o.dpos < |s2| && AlignsFrom(s1, s2, ops, k + 1, o.spos, o.dpos + 1)
            case 3 => o.spos < |s1| && AlignsFrom(s1, s2, ops, k + 1, o.spos + 1, o.dpos)
            case _ => false
  }

  ghost predicate Aligns<T>(s1: seq<T>, s2: seq<T>, ops: seq<EditOp>)
  {
    AlignsFrom(s1, s2, ops, 0, 0, 0)
  }

  /** A stretch that is equal in both strings can be put in front of the cursor pair without an operation. */
  lemma AlignsGap<T>(s1: seq<T>, s2: seq<T>, ops: seq<EditOp>, k: nat, x: nat, y: nat, x': nat, y': nat)
    requires k <= |ops| && AlignsFrom(s1, s2, ops, k, x, y)
    requires x' <= x && y' <= y && x - x' == y - y' && s1[x'..x] == s2[y'..y]
    ensures AlignsFrom(s1, s2, ops, k, x', y')
  {
    if k == |ops| {
      assert s1[x'..] == s1[x'..x] + s1[x..];
      assert s2[y'..] == s2[y'..y] + s2[y..];
    } else {
      assert s1[x'..ops[k].spos] == s1[x'..x] + s1[x..ops[k].spos];
      assert s2[y'..ops[k].dpos] == s2[y'..y] + s2[y..ops[k].dpos];
    }
  }

  /** The destination cursor after an operation: past dpos unless the operation is a delete. */
  function NextDst(o: EditOp): nat
  {
    o.dpos + (if o.kind == DELETE then 0 else 1)
  }

  /** The first operation of an aligned script is valid and its piece of output is the next stretch of the destination. */
  lemma AlignsFromStep<T>(s1: seq<T>, s2: seq<T>, ops: seq<EditOp>, k: nat, i: nat, j: nat)
    requires k < |ops| && AlignsFrom(s1, s2, ops, k, i, j)
    ensures ValidEditOp(|s1|, |s2|, ops[k]) && i <= ops[k].spos && j <= ops[k].dpos
    ensures i <= CopyEnd(ops[k]) <= |s1| && (Produces(ops[k].kind) ==> ops[k].dpos < |s2|)
    ensures j <= NextDst(ops[k]) <= |s2| && Next(ops[k]) <= |s1|
    ensures Piece(s1, s2, ops[k], i) == s2[j..NextDst(ops[k])]
    ensures AlignsFrom(s1, s2, ops, k + 1, Next(ops[k]), NextDst(ops[k]))
  {
    var o := ops[k];
    if o.kind == KEEP {
      assert s1[i..o.spos + 1] == s1[i..o.spos] + [s1[o.spos]];
      assert s2[j..o.dpos + 1] == s2[j..o.dpos] + [s2[o.dpos]];
    } else if o.kind != DELETE {
      assert s2[j..o.dpos + 1] == s2[j..o.dpos] + [s2[o.dpos]];
    }
  }

  /** Applying an aligned script to the source yields the destination. */
  lemma {:induction false} AlignsFromApply<T>(s1: seq<T>, s2: seq<T>, ops: seq<EditOp>, k: nat, i: nat, j: nat)
    requires k <= |ops| && AlignsFrom(s1, s2, ops, k, i, j)
    ensures ApplicableFrom(|s1|, |s2|, ops, k, i) && ApplyFrom(s1, s2, ops, k, i) == s2[j..]
    decreases |ops| - k
  {
    if k < |ops| {
      var o := ops[k];
      AlignsFromStep(s1, s2, ops, k, i, j);
      AlignsFromApply(s1, s2, ops, k + 1, Next(o), NextDst(o));
      assert s2[j..] == s2[j..NextDst(o)] + s2[NextDst(o)..];
    }
  }

  /** All operations of an aligned script from k on are valid and in order, and none reuses a consumed element. */
  lemma {:induction false} AlignsFromValid<T>(s1: seq<T>, s2: seq<T>, ops: seq<EditOp>, k: nat, i: nat, j: nat)
    requires k <= |ops| && AlignsFrom(s1, s2, ops, k, i, j)
    ensures forall l :: k <= l < |ops| ==> ValidEditOp(|s1|, |s2|, ops[l])
    ensures forall l :: k < l < |ops| ==> ops[l - 1].spos <= ops[l].spos && ops[l - 1].dpos <= ops[l].dpos
    ensures forall l :: k < l < |ops| ==> Next(ops[l - 1]) <= CopyEnd(ops[l])
    ensures k < |ops| ==> i <= ops[k].spos && j <= ops[k].dpos
    decreases |ops| - k
  {
    if k < |ops| {
      var o := ops[k];
      AlignsFromStep(s1, s2, ops, k, i, j);
      AlignsFromValid(s1, s2, ops, k + 1, Next(o), NextDst(o));
    }
  }

  /** An aligned script passes the strict check, and so the C check, and applies to the destination. */
  lemma AlignsChecked<T>(s1: seq<T>, s2: seq<T>, ops: seq<EditOp>)
    requires Aligns(s1, s2, ops)
    ensures StrictEditopsErrors(|s1|, |s2|, ops) == Ok && EditopsErrors(|s1|, |s2|, ops) == Ok
    ensures Applicable(|s1|, |s2|, ops) && Apply(s1, s2, ops) == s2
  {
    AlignsFromValid(s1, s2, ops, 0, 0, 0);
    EditopsOkIff(|s1|, |s2|, ops);
    AlignsFromApply(s1, s2, ops, 0, 0, 0);
  }

  /** The inverse of one aligned operation is aligned the other way round. */
  lemma AlignsInverseStep<T>(s1: seq<T>, s2: seq<T>, ops: seq<EditOp>, k: nat, i: nat, j: nat)
    requires k < |ops| && AlignsFrom(s1, s2, ops, k, i, j)
    requires AlignsFrom(s2, s1, InvertOps(ops), k + 1, NextDst(ops[k]), Next(ops[k]))
    ensures AlignsFrom(s2, s1, InvertOps(ops), k, j, i)
  {
    var o, inv := ops[k], InvertOps(ops)[k];
    assert inv == EditOp(FlipKind(o.kind), o.dpos, o.spos);
    FlipKindSwaps();
  }

  /** The inverse of a script aligning s1 with s2 aligns s2 with s1. */
  lemma {:induction false} AlignsFromInverse<T>(s1: seq<T>, s2: seq<T>, ops: seq<EditOp>, k: nat, i: nat, j: nat)
    requires k <= |ops| && AlignsFrom(s1, s2, ops, k, i, j)
    ensures AlignsFrom(s2, s1, InvertOps(ops), k, j, i)
    decreases |ops| - k
  {
    if k < |ops| {
      var o := ops[k];
      AlignsFromStep(s1, s2, ops, k, i, j);
      AlignsFromInverse(s1, s2, ops, k + 1, Next(o), NextDst(o));
      AlignsInverseStep(s1, s2, ops, k, i, j);
    } else {
      assert |InvertOps(ops)| == |ops|;
    }
  }

  /** Applying the inverse of an aligned script to the destination gives back the source. */
  lemma InverseUndoes<T>(s1: seq<T>, s2: seq<T>, ops: seq<EditOp>)
    requires Aligns(s1, s2, ops)
    ensures Applicable(|s2|, |s1|, InvertOps(ops)) && Apply(s2, s1, InvertOps(ops)) == s1
  {
    AlignsFromInverse(s1, s2, ops, 0, 0, 0);
    AlignsChecked(s2, s1, InvertOps(ops));
  }

  /** Inverting [delete 0 0, insert 3 2, replace 3 3] swaps the positions and the insert and delete. */
  lemma InvertSpamParkScript()
    ensures InvertOps([EditOp(DELETE, 0, 0), EditOp(INSERT, 3, 2), EditOp(REPLACE, 3, 3)]) ==
            [EditOp(INSERT, 0, 0), EditOp(DELETE, 2, 3), EditOp(REPLACE, 3, 3)]
  {
    FlipKindSwaps();
  }
}
