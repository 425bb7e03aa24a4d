/**
 * `make_symlist` from Levenshtein.c: the helper of the median routines that
 * lists, in increasing order and once each, the byte values occurring in
 * any of a set of byte strings.  It marks each byte it meets in a table of
 * 256 flags, counting the flags it turns on, then reads the table in
 * order into a buffer of exactly that many bytes.
 */
module Symbols {
  newtype byte = x: int | 0 <= x < 256

  /** The bytes occurring in one string. */
  ghost function Elements(s: seq<byte>): set<byte>
  {
    set c: byte | c in s
  }

  /** The bytes occurring in any of the strings. */
  ghost function AllSymbols(strings: seq<seq<byte>>): set<byte>
  {
    if strings == [] then {}
    else AllSymbols(strings[..|strings| - 1]) + Elements(strings[|strings| - 1])
  }

  /** How many flags are on. */
  function Trues(flags: seq<bool>): (n: nat)
    ensures n <= |flags|
  {
    if flags == [] then 0
    else Trues(flags[..|flags| - 1]) + (if flags[|flags| - 1] then 1 else 0)
  }

  /** A table with every flag off counts zero. */
  lemma {:induction false} TruesNone(flags: seq<bool>)
    requires forall c :: 0 <= c < |flags| ==> !flags[c]
    ensures Trues(flags) == 0
    decreases |flags|
  {
    if flags != [] {
      TruesNone(flags[..|flags| - 1]);
    }
  }

  /** Turning one flag on that was off adds one to the count. */
  lemma {:induction false} TruesSet(flags: seq<bool>, c: nat)
    requires c < |flags| && !flags[c]
    ensures Trues(flags[c := true]) == Trues(flags) + 1
    decreases |flags|
  {
    var last := |flags| - 1;
    var flags' := flags[c := true];
    if c == last {
      assert flags'[..last] == flags[..last];
    } else {
      assert flags'[..last] == flags[..last][c := true];
      TruesSet(flags[..last], c);
    }
  }

  /** A prefix has no more flags on than the whole table. */
  lemma {:induction false} TruesPrefix(flags: seq<bool>, j: nat)
    requires j <= |flags|
    ensures Trues(flags[..j]) <= Trues(flags)
    decreases |flags|
  {
    if j < |flags| {
      var last := |flags| - 1;
      assert flags[..last][..j] == flags[..j];
      TruesPrefix(flags[..last], j);
    } else {
      assert flags[..j] == flags;
    }
  }

  /** Each entry of the list is smaller than the next. */
  predicate Increasing(list: seq<byte>)
  {
    forall p, q :: 0 <= p < q < |list| ==> list[p] < list[q]
  }

  /** The inner loop of `make_symlist`: mark every byte of one string, counting the flags turned on. */
  method MarkSymbols(symset: array<bool>, count: nat, s: seq<byte>) returns (count': nat)
    requires symset.Length == 256 && count == Trues(symset[..])
    modifies symset
    ensures count' == Trues(symset[..])
    ensures forall c: byte :: symset[c] <==> old(symset[c]) || c in s
  {
    count' := count;
    for j := 0 to |s|
      invariant count' == Trues(symset[..])
      invariant forall c: byte :: symset[c] <==> old(symset[c]) || c in s[..j]
    {
      var c := s[j];
      ghost var before := symset[..];
      if !symset[c] {
        TruesSet(before, c as nat);
        count' := count' + 1;
      } else {
        assert before[c as nat := true] == before;
      }
      symset[c] := true;
      assert symset[..] == before[c as nat := true];
      assert s[..j + 1] == s[..j] + [c];
    }
    assert s[..|s|] == s;
  }

  /** The second half of `make_symlist`: read the marked bytes in increasing order into a buffer of exactly `count` bytes. */
  method ListMarked(symset: array<bool>, count: nat) returns (symlist: seq<byte>)
    requires symset.Length == 256 && count == Trues(symset[..])
    ensures Increasing(symlist) && |symlist| == count
    ensures forall c: byte :: c in symlist <==> symset[c]
  {
    var list := new byte[count];
    var pos := 0;
    for j := 0 to 256
      invariant pos == Trues(symset[..j]) && pos <= count
      invariant Increasing(list[..pos])
      invariant forall p :: 0 <= p < pos ==> list[p] as int < j
      invariant forall c: byte :: c as int < j ==> (symset[c] <==> c in list[..pos])
    {
      assert symset[..j + 1][..j] == symset[..j];
      if symset[j] {
        TruesPrefix(symset[..], j + 1);
        ghost var before := list[..pos];
        list[pos] := j as byte;
        assert list[..pos + 1] == before + [j as byte];
        pos := pos + 1;
      } else {
        assert (j as byte) !in list[..pos];
      }
    }
    assert symset[..256] == symset[..];
    symlist := list[..pos];
  }

  /**
   * `make_symlist`: the bytes occurring in the strings, each once, in
   * increasing order.  No occurring byte gives the empty list (the C
   * function then returns NULL with a zero length).
   */
  method MakeSymlist(strings: seq<seq<byte>>) returns (symlist: seq<byte>)
    ensures Increasing(symlist)
    ensures forall c :: c in symlist <==> c in AllSymbols(strings)
  {
    var symset := new bool[256](_ => false);
    var count := 0;
    TruesNone(symset[..]);
    for i := 0 to |strings|
      invariant count == Trues(symset[..])
      invariant forall c: byte :: symset[c] <==> c in AllSymbols(strings[..i])
    {
      assert strings[..i + 1][..i] == strings[..i];
      count := MarkSymbols(symset, count, strings[i]);
    }
    assert strings[..|strings|] == strings;
    symlist := ListMarked(symset, count);
  }
}
