/**
 * Python's stable sort (`sorted(xs, key=...)`, `list.sort()`), which both
 * keyword tools use to order keywords, index ids and scored matches.  The
 * sort is insertion by key: each element goes behind every element already
 * placed whose key is not greater.  Besides the order and the permutation,
 * stability is proved: for every key, the elements with that key keep their
 * input order.
 */
module Sorting {

  /** Python's `<` on two strings: lexicographic on code points, a proper prefix first. */
  predicate Less(a: string, b: string)
  {
    if a == [] then b != []
    else if b == [] then false
    else if a[0] != b[0] then a[0] < b[0]
    else Less(a[1..], b[1..])
  }

  lemma {:induction false} LessIrreflexive(a: string)
    ensures !Less(a, a)
  {
    if a != [] {
      LessIrreflexive(a[1..]);
    }
  }

  lemma {:induction false} LessTransitive(a: string, b: string, c: string)
    requires Less(a, b) && Less(b, c)
    ensures Less(a, c)
  {
    if a != [] && b != [] && c != [] && a[0] == b[0] == c[0] {
      LessTransitive(a[1..], b[1..], c[1..]);
    }
  }

  /** Two different strings are ordered one way or the other. */
  lemma {:induction false} LessTotal(a: string, b: string)
    requires a != b
    ensures Less(a, b) || Less(b, a)
  {
    if a != [] && b != [] && a[0] == b[0] {
      assert a == [a[0]] + a[1..] && b == [b[0]] + b[1..];
      LessTotal(a[1..], b[1..]);
    }
  }

  /** No element occurs twice. */
  predicate Distinct(s: seq<string>)
  {
    forall i, j :: 0 <= i < j < |s| ==> s[i] != s[j]
  }

  /** Each string is smaller than every later one. */
  predicate Increasing(s: seq<string>)
  {
    forall i, j :: 0 <= i < j < |s| ==> Less(s[i], s[j])
  }

  /** Two increasing lists with the same elements are the same list. */
  lemma {:induction false} IncreasingUnique(a: seq<string>, b: seq<string>)
    requires Increasing(a) && Increasing(b)
    requires forall x :: x in a <==> x in b
    ensures a == b
    decreases |a|
  {
    if b != [] {
      assert b[0] in a;
    }
    if a != [] {
      assert a[0] in b;
      assert a[0] == b[0] by {
        assert a[0] in b && b[0] in a;
        if a[0] != b[0] {
          var i :| 0 <= i < |b| && b[i] == a[0];
          var j :| 0 <= j < |a| && a[j] == b[0];
          LessTransitive(a[0], b[0], a[0]);
          LessIrreflexive(a[0]);
        }
      }
      forall x
        ensures x in a[1..] <==> x in b[1..]
      {
        if x in a[1..] {
          TailMember(a, b, x);
        }
        if x in b[1..] {
          TailMember(b, a, x);
        }
      }
      IncreasingUnique(a[1..], b[1..]);
      assert a == [a[0]] + a[1..] && b == [b[0]] + b[1..];
    }
  }

  /** An element of the tail of one increasing list is in the tail of another with the same head and elements. */
  lemma TailMember(a: seq<string>, b: seq<string>, x: string)
    requires Increasing(a) && a != [] && b != [] && a[0] == b[0]
    requires x in a[1..] && x in b
    ensures x in b[1..]
  {
    var i :| 1 <= i < |a| && a[i] == x;
    LessIrreflexive(x);
    var k :| 0 <= k < |b| && b[k] == x;
    assert b[1..][k - 1] == x;
  }

  /** `str.lower` on the ASCII letters; other characters are kept. */
  function LowerChar(c: char): char
  {
    if 'A' <= c <= 'Z' then (c as int + 32) as char else c
  }

  function Lower(s: string): string
  {
    seq(|s|, i requires 0 <= i < |s| => LowerChar(s[i]))
  }

  /** `less` is a strict order on keys. */
  ghost predicate StrictOrder<K(!new)>(less: (K, K) -> bool)
  {
    && (forall a :: !less(a, a))
    && (forall a, b, c :: less(a, b) && less(b, c) ==> less(a, c))
  }

  lemma StringsStrictOrder()
    ensures StrictOrder(Less)
    ensures forall a, b :: a != b ==> Less(a, b) || Less(b, a)
  {
    forall a | true
      ensures !Less(a, a)
    {
      LessIrreflexive(a);
    }
    forall a, b, c | Less(a, b) && Less(b, c)
      ensures Less(a, c)
    {
      LessTransitive(a, b, c);
    }
    forall a, b | a != b
      ensures Less(a, b) || Less(b, a)
    {
      LessTotal(a, b);
    }
  }

  /** Strings as their own sort key. */
  function Id(s: string): string
  {
    s
  }

  /** No element's key is smaller than the key of an element before it. */
  predicate SortedBy<X, K>(s: seq<X>, key: X -> K, less: (K, K) -> bool)
  {
    forall i, j :: 0 <= i < j < |s| ==> !less(key(s[j]), key(s[i]))
  }

  /** Put x in front of the first element whose key is greater, or at the end. */
  function InsertBy<X, K>(x: X, s: seq<X>, key: X -> K, less: (K, K) -> bool): seq<X>
  {
    if s == [] then [x]
    else if less(key(x), key(s[0])) then [x] + s
    else [s[0]] + InsertBy(x, s[1..], key, less)
  }

  /** The stable sort of xs by key. */
  function SortBy<X, K>(xs: seq<X>, key: X -> K, less: (K, K) -> bool): seq<X>
  {
    if xs == [] then []
    else InsertBy(xs[|xs| - 1], SortBy(xs[..|xs| - 1], key, less), key, less)
  }

  /** The elements of s whose key is k, in order. */
  function WithKey<X, K(==)>(s: seq<X>, key: X -> K, k: K): seq<X>
  {
    if s == [] then []
    else (if key(s[0]) == k then [s[0]] else []) + WithKey(s[1..], key, k)
  }

  lemma {:induction false} WithKeyAppend<X, K>(a: seq<X>, b: seq<X>, key: X -> K, k: K)
    ensures WithKey(a + b, key, k) == WithKey(a, key, k) + WithKey(b, key, k)
  {
    if a == [] {
      assert a + b == b;
    } else {
      var ab := a + b;
      var head := if key(a[0]) == k then [a[0]] else [];
      assert ab[0] == a[0] && ab[1..] == a[1..] + b;
      calc {
        WithKey(ab, key, k);
        head + WithKey(a[1..] + b, key, k);
        { WithKeyAppend(a[1..], b, key, k); }
        head + (WithKey(a[1..], key, k) + WithKey(b, key, k));
        (head + WithKey(a[1..], key, k)) + WithKey(b, key, k);
        WithKey(a, key, k) + WithKey(b, key, k);
      }
    }
  }

  lemma {:induction false} WithKeyNone<X, K>(s: seq<X>, key: X -> K, k: K)
    requires forall i :: 0 <= i < |s| ==> key(s[i]) != k
    ensures WithKey(s, key, k) == []
  {
    if s != [] {
      WithKeyNone(s[1..], key, k);
    }
  }

  /** Inserting adds x to the contents. */
  lemma {:induction false} InsertContents<X, K>(x: X, s: seq<X>, key: X -> K, less: (K, K) -> bool)
    ensures multiset(InsertBy(x, s, key, less)) == multiset(s) + multiset{x}
    ensures forall i :: 0 <= i < |InsertBy(x, s, key, less)| ==> InsertBy(x, s, key, less)[i] == x || InsertBy(x, s, key, less)[i] in s
  {
    if s != [] && !less(key(x), key(s[0])) {
      InsertContents(x, s[1..], key, less);
      assert s == [s[0]] + s[1..];
    }
  }

  /** Every key in s is at least the key of its head. */
  lemma HeadLeast<X, K(!new)>(s: seq<X>, key: X -> K, less: (K, K) -> bool)
    requires StrictOrder(less) && SortedBy(s, key, less) && s != []
    ensures forall y :: y in s ==> !less(key(y), key(s[0]))
  {
    forall y | y in s
      ensures !less(key(y), key(s[0]))
    {
      var j :| 0 <= j < |s| && s[j] == y;
    }
  }

  /** Inserting keeps the list sorted. */
  lemma {:induction false} InsertSorted<X, K(!new)>(x: X, s: seq<X>, key: X -> K, less: (K, K) -> bool)
    requires StrictOrder(less) && SortedBy(s, key, less)
    ensures SortedBy(InsertBy(x, s, key, less), key, less)
  {
    if s == [] {
    } else if less(key(x), key(s[0])) {
      HeadLeast(s, key, less);
    } else {
      InsertSorted(x, s[1..], key, less);
      InsertContents(x, s[1..], key, less);
      HeadLeast(s, key, less);
      var t := InsertBy(x, s[1..], key, less);
      assert forall i :: 0 <= i < |t| ==> !less(key(t[i]), key(s[0]));
    }
  }

  /** Inserting x adds it behind every element with the same key. */
  lemma {:induction false} InsertWithKey<X, K(!new)>(x: X, s: seq<X>, key: X -> K, less: (K, K) -> bool, k: K)
    requires StrictOrder(less) && SortedBy(s, key, less)
    ensures WithKey(InsertBy(x, s, key, less), key, k) == WithKey(s, key, k) + (if key(x) == k then [x] else [])
  {
    if s == [] {
    } else if less(key(x), key(s[0])) {
      assert ([x] + s)[1..] == s;
      if key(x) == k {
        forall i | 0 <= i < |s|
          ensures key(s[i]) != k
        {
          if i > 0 {
            assert !less(key(s[i]), key(s[0]));
          }
        }
        WithKeyNone(s, key, k);
      }
    } else {
      InsertWithKey(x, s[1..], key, less, k);
      assert ([s[0]] + InsertBy(x, s[1..], key, less))[1..] == InsertBy(x, s[1..], key, less);
    }
  }

  /** Inserting a new string into an increasing list keeps it increasing. */
  lemma {:induction false} InsertIncreasing(x: string, s: seq<string>)
    requires Increasing(s) && x !in s
    ensures Increasing(InsertBy(x, s, Id, Less))
  {
    if s == [] {
    } else if Less(x, s[0]) {
      forall j | 1 <= j < |s|
        ensures Less(x, s[j])
      {
        LessTransitive(x, s[0], s[j]);
      }
    } else {
      LessTotal(x, s[0]);
      InsertIncreasing(x, s[1..]);
      InsertBehindHead(x, s);
    }
  }

  /** Inserting behind the head: the head stays below everything inserted after it. */
  lemma InsertBehindHead(x: string, s: seq<string>)
    requires Increasing(s) && s != [] && Less(s[0], x)
    requires Increasing(InsertBy(x, s[1..], Id, Less))
    ensures Increasing([s[0]] + InsertBy(x, s[1..], Id, Less))
  {
    InsertContents(x, s[1..], Id, Less);
    var t := InsertBy(x, s[1..], Id, Less);
    forall j | 0 <= j < |t|
      ensures Less(s[0], t[j])
    {
      if t[j] != x {
        var k :| 0 <= k < |s[1..]| && s[1..][k] == t[j];
        assert s[k + 1] == t[j];
      }
    }
  }

  /** Sorting keeps the elements. */
  lemma {:induction false} SortMembers<X, K>(xs: seq<X>, key: X -> K, less: (K, K) -> bool)
    ensures forall x :: x in SortBy(xs, key, less) <==> x in xs
  {
    if xs != [] {
      var init := xs[..|xs| - 1];
      var x := xs[|xs| - 1];
      SortMembers(init, key, less);
      InsertContents(x, SortBy(init, key, less), key, less);
      assert xs == init + [x];
      forall y
        ensures y in SortBy(xs, key, less) <==> y in xs
      {
        assert y in SortBy(xs, key, less) <==> y in multiset(SortBy(xs, key, less));
      }
    }
  }

  /** Sorting a list without duplicates gives an increasing list. */
  lemma {:induction false} SortIncreasing(xs: seq<string>)
    requires Distinct(xs)
    ensures Increasing(SortBy(xs, Id, Less))
  {
    if xs != [] {
      var init := xs[..|xs| - 1];
      var x := xs[|xs| - 1];
      SortIncreasing(init);
      SortMembers(init, Id, Less);
      assert x !in init;
      InsertIncreasing(x, SortBy(init, Id, Less));
    }
  }

  /**
   * The sort orders by key, is a permutation of its input and is stable:
   * for every key, the elements with that key come out in input order.
   */
  lemma {:induction false} SortByCorrect<X, K(!new)>(xs: seq<X>, key: X -> K, less: (K, K) -> bool)
    requires StrictOrder(less)
    ensures SortedBy(SortBy(xs, key, less), key, less)
    ensures multiset(SortBy(xs, key, less)) == multiset(xs)
    ensures forall k :: WithKey(SortBy(xs, key, less), key, k) == WithKey(xs, key, k)
  {
    if xs != [] {
      var init := xs[..|xs| - 1];
      var x := xs[|xs| - 1];
      SortByCorrect(init, key, less);
      InsertSorted(x, SortBy(init, key, less), key, less);
      InsertContents(x, SortBy(init, key, less), key, less);
      assert xs == init + [x];
      forall k
        ensures WithKey(SortBy(xs, key, less), key, k) == WithKey(xs, key, k)
      {
        InsertWithKey(x, SortBy(init, key, less), key, less, k);
        WithKeyAppend(init, [x], key, k);
      }
    }
  }
}
