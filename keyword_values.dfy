/**
 * How both keyword tools rewrite the keyword field of one object.  The
 * field holds a list (a Python list or tuple), a set, or a single value.
 * Merging old keywords into a new one overwrites them in a list and then
 * removes duplicates, swaps them out of a set, and replaces a single value
 * outright; deleting keywords removes every occurrence from a list (order
 * and the other duplicates stay), takes them out of a set, and clears a
 * single value to None.
 */
module KeywordValues {
  import opened Sorting

  /** The value of a keyword field. */
  datatype FieldValue =
    | ListValue(items: seq<string>)
    | SetValue(members: set<string>)
    | Scalar(text: string)
    | NoValue

  /*
   * Lists: the loops of `change` and `delete`
   */

  /** `list.index`: the first position of e. */
  function FirstIndex(s: seq<string>, e: string): (r: nat)
    requires e in s
    ensures r < |s| && s[r] == e && e !in s[..r]
  {
    if s[0] == e then 0
    else
      var r := FirstIndex(s[1..], e) + 1;
      assert s[..r] == [s[0]] + s[1..][..r - 1];
      r
  }

  /** The list after merging: every element that is one of the old keywords is the new keyword. */
  function Replaced(value: seq<string>, olds: seq<string>, newKeyword: string): seq<string>
  {
    seq(|value|, i requires 0 <= i < |value| => if value[i] in olds then newKeyword else value[i])
  }

  /**
   * The merge loop of `change`: for each old keyword other than the new
   * one, overwrite its first occurrence with the new keyword while there is
   * one.
   */
  method ReplaceKeywords(value: seq<string>, olds: seq<string>, newKeyword: string) returns (r: seq<string>)
    ensures r == Replaced(value, olds, newKeyword)
  {
    r := value;
    for k := 0 to |olds|
      invariant r == Replaced(value, olds[..k], newKeyword)
    {
      var element := olds[k];
      ghost var before := r;
      assert olds[..k + 1] == olds[..k] + [element];
      while element in r && element != newKeyword
        invariant |r| == |value|
        invariant forall i :: 0 <= i < |r| ==> r[i] == before[i] || (before[i] == element && r[i] == newKeyword)
        decreases multiset(r)[element]
      {
        var i := FirstIndex(r, element);
        r := r[i := newKeyword];
      }
    }
  }

  /** `list.remove`: drop the first occurrence of e; the other elements keep their order. */
  function RemoveFirst(s: seq<string>, e: string): (r: seq<string>)
    requires e in s
    ensures r == s[..FirstIndex(s, e)] + s[FirstIndex(s, e) + 1..]
    ensures |r| == |s| - 1 && multiset(r) == multiset(s) - multiset{e}
  {
    if s[0] == e then
      assert s == [s[0]] + s[1..];
      s[1..]
    else
      assert s == [s[0]] + s[1..];
      var rest := RemoveFirst(s[1..], e);
      RemoveFirstStep(s, e, rest);
      [s[0]] + rest
  }

  /** Dropping the first occurrence from the tail, after a head that differs, drops it from the whole. */
  lemma RemoveFirstStep(s: seq<string>, e: string, rest: seq<string>)
    requires e in s && s[0] != e
    requires rest == s[1..][..FirstIndex(s[1..], e)] + s[1..][FirstIndex(s[1..], e) + 1..]
    ensures [s[0]] + rest == s[..FirstIndex(s, e)] + s[FirstIndex(s, e) + 1..]
  {
    var k := FirstIndex(s[1..], e);
    assert FirstIndex(s, e) == k + 1;
    assert s[..k + 1] == [s[0]] + s[1..][..k];
    assert s[k + 2..] == s[1..][k + 1..];
  }

  /** The list after deleting: the elements that are not among the keywords, in order. */
  function Without(s: seq<string>, keywords: seq<string>): seq<string>
  {
    if s == [] then []
    else (if s[0] in keywords then [] else [s[0]]) + Without(s[1..], keywords)
  }

  lemma {:induction false} WithoutRemoveFirst(s: seq<string>, e: string, keywords: seq<string>)
    requires e in s && e in keywords
    ensures Without(RemoveFirst(s, e), keywords) == Without(s, keywords)
  {
    if s[0] != e {
      WithoutRemoveFirst(s[1..], e, keywords);
      assert ([s[0]] + RemoveFirst(s[1..], e))[1..] == RemoveFirst(s[1..], e);
    }
  }

  lemma {:induction false} WithoutMore(s: seq<string>, keywords: seq<string>, e: string)
    ensures Without(Without(s, keywords), [e]) == Without(s, keywords + [e])
  {
    if s != [] {
      WithoutMore(s[1..], keywords, e);
      var head: seq<string> := if s[0] in keywords then [] else [s[0]];
      WithoutAppend(head, Without(s[1..], keywords), [e]);
    }
  }

  lemma {:induction false} WithoutAppend(a: seq<string>, b: seq<string>, keywords: seq<string>)
    ensures Without(a + b, keywords) == Without(a, keywords) + Without(b, keywords)
  {
    if a == [] {
      assert a + b == b;
    } else {
      assert (a + b)[1..] == a[1..] + b;
      WithoutAppend(a[1..], b, keywords);
    }
  }

  lemma {:induction false} WithoutAbsent(s: seq<string>, keywords: seq<string>)
    requires forall i :: 0 <= i < |s| ==> s[i] !in keywords
    ensures Without(s, keywords) == s
  {
    if s != [] {
      WithoutAbsent(s[1..], keywords);
      assert s == [s[0]] + s[1..];
    }
  }

  /** The delete loop of `delete`: for each keyword, remove its first occurrence while there is one. */
  method RemoveKeywords(value: seq<string>, keywords: seq<string>) returns (r: seq<string>)
    ensures r == Without(value, keywords)
  {
    r := value;
    assert Without(value, []) == value by {
      WithoutAbsent(value, []);
    }
    for k := 0 to |keywords|
      invariant r == Without(value, keywords[..k])
    {
      var element := keywords[k];
      assert keywords[..k + 1] == keywords[..k] + [element];
      WithoutMore(value, keywords[..k], element);
      while element in r
        invariant Without(r, [element]) == Without(value, keywords[..k + 1])
        decreases |r|
      {
        WithoutRemoveFirst(r, element, [element]);
        r := RemoveFirst(r, element);
      }
      WithoutAbsent(r, [element]);
    }
    assert keywords[..|keywords|] == keywords;
  }

  /** `list(set(value))`: each element once.  Python leaves the order open; the model keeps first occurrences. */
  function Dedupe(s: seq<string>): (r: seq<string>)
    ensures Distinct(r)
    ensures forall x :: x in r <==> x in s
  {
    if s == [] then []
    else
      var d := Dedupe(s[..|s| - 1]);
      assert s == s[..|s| - 1] + [s[|s| - 1]];
      if s[|s| - 1] in d then d else d + [s[|s| - 1]]
  }

  /** Removing duplicates from a list without any leaves it as it is. */
  lemma {:induction false} DedupeDistinct(s: seq<string>)
    requires Distinct(s)
    ensures Dedupe(s) == s
  {
    if s != [] {
      var init := s[..|s| - 1];
      DedupeDistinct(init);
      assert s[|s| - 1] !in init;
      assert s == init + [s[|s| - 1]];
    }
  }

  /*
   * One field
   */

  /** The set of a list's elements (`set(old_keywords)`). */
  function AsSet(s: seq<string>): set<string>
  {
    set x | x in s
  }

  /** `change` on one field value: overwrite and dedupe a list, swap in a set, replace anything else. */
  function ChangeValue(value: FieldValue, olds: seq<string>, newKeyword: string): FieldValue
  {
    match value
    case ListValue(items) => ListValue(Dedupe(Replaced(items, olds, newKeyword)))
    case SetValue(members) => SetValue(members - AsSet(olds) + {newKeyword})
    case _ => Scalar(newKeyword)
  }

  /** `delete` on one field value: remove from a list or a set, clear anything else to None. */
  function DeleteValue(value: FieldValue, keywords: seq<string>): FieldValue
  {
    match value
    case ListValue(items) => ListValue(Without(items, keywords))
    case SetValue(members) => SetValue(members - AsSet(keywords))
    case _ => NoValue
  }

  /** `change` on one object: the computation of the new value, with the merge loop for a list. */
  method ChangedValue(value: FieldValue, olds: seq<string>, newKeyword: string) returns (r: FieldValue)
    ensures r == ChangeValue(value, olds, newKeyword)
  {
    match value {
      case ListValue(items) =>
        var merged := ReplaceKeywords(items, olds, newKeyword);
        r := ListValue(Dedupe(merged));
      case SetValue(members) =>
        r := SetValue(members - AsSet(olds) + {newKeyword});
      case _ =>
        r := Scalar(newKeyword);
    }
  }

  /** `delete` on one object: the computation of the new value, with the delete loop for a list. */
  method DeletedValue(value: FieldValue, keywords: seq<string>) returns (r: FieldValue)
    ensures r == DeleteValue(value, keywords)
  {
    match value {
      case ListValue(items) =>
        var kept := RemoveKeywords(items, keywords);
        r := ListValue(kept);
      case SetValue(members) =>
        r := SetValue(members - AsSet(keywords));
      case _ =>
        r := NoValue;
    }
  }

  /*
   * What the rewrites promise
   */

  /**
   * After merging, a list holds each keyword once: the elements that were
   * not old keywords (or were the new one), and the new keyword exactly
   * when some element was an old keyword or the new keyword was already
   * there.
   */
  lemma ChangeList(items: seq<string>, olds: seq<string>, newKeyword: string)
    ensures ChangeValue(ListValue(items), olds, newKeyword).ListValue?
    ensures Distinct(ChangeValue(ListValue(items), olds, newKeyword).items)
    ensures forall x :: x in ChangeValue(ListValue(items), olds, newKeyword).items <==>
      (x in items && (x !in olds || x == newKeyword)) || (x == newKeyword && exists i :: 0 <= i < |items| && items[i] in olds)
  {
    var r := Replaced(items, olds, newKeyword);
    forall x
      ensures x in r <==> (x in items && (x !in olds || x == newKeyword)) || (x == newKeyword && exists i :: 0 <= i < |items| && items[i] in olds)
    {
      if x in r {
        var i :| 0 <= i < |r| && r[i] == x;
      }
      if x in items && (x !in olds || x == newKeyword) {
        var i :| 0 <= i < |items| && items[i] == x;
        assert r[i] == x;
      }
      if x == newKeyword && exists i :: 0 <= i < |items| && items[i] in olds {
        var i :| 0 <= i < |items| && items[i] in olds;
        assert r[i] == x;
      }
    }
  }

  /** After merging into a set, the old keywords other than the new one are gone, the new one is there, the rest stays. */
  lemma ChangeSet(members: set<string>, olds: seq<string>, newKeyword: string)
    ensures ChangeValue(SetValue(members), olds, newKeyword).SetValue?
    ensures forall x :: x in ChangeValue(SetValue(members), olds, newKeyword).members <==> x == newKeyword || (x in members && x !in olds)
  {
  }

  /** Merging twice is merging once, for every kind of value. */
  lemma ChangeIdempotent(value: FieldValue, olds: seq<string>, newKeyword: string)
    ensures ChangeValue(ChangeValue(value, olds, newKeyword), olds, newKeyword) == ChangeValue(value, olds, newKeyword)
  {
    if value.ListValue? {
      var once := Dedupe(Replaced(value.items, olds, newKeyword));
      var again := Replaced(once, olds, newKeyword);
      assert again == once by {
        forall i | 0 <= i < |once|
          ensures again[i] == once[i]
        {
          assert once[i] in Replaced(value.items, olds, newKeyword);
          var j :| 0 <= j < |value.items| && Replaced(value.items, olds, newKeyword)[j] == once[i];
        }
      }
      DedupeDistinct(once);
    }
  }

  /** After deleting from a list, no keyword is left and every other element keeps its number of occurrences. */
  lemma {:induction false} DeleteList(items: seq<string>, keywords: seq<string>)
    ensures forall x :: x in keywords ==> x !in Without(items, keywords)
    ensures forall x :: x !in keywords ==> multiset(Without(items, keywords))[x] == multiset(items)[x]
  {
    if items != [] {
      DeleteList(items[1..], keywords);
      assert items == [items[0]] + items[1..];
    }
  }

  /** Deleting twice is deleting once, for every kind of value. */
  lemma DeleteIdempotent(value: FieldValue, keywords: seq<string>)
    ensures DeleteValue(DeleteValue(value, keywords), keywords) == DeleteValue(value, keywords)
  {
    if value.ListValue? {
      var once := Without(value.items, keywords);
      DeleteList(value.items, keywords);
      WithoutAbsent(once, keywords);
    }
  }
}
