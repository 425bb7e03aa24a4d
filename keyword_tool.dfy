/**
 * The keyword manager tool of the current package
 * (src/Products/PloneKeywordManager/tool.py): merging and deleting keywords
 * on every object the catalog finds, the index lists it works on, the
 * keyword listing, and the ranking of similar keywords by Levenshtein
 * ratio.
 *
 * The catalog search is a parameter (`find`), as are the catalog's index
 * objects and the unique values of an index.  The objects' keyword fields
 * are a map from (object, index) to the field value; whether an object has
 * a setter for an index is the set `writable`; the reindexing requests
 * made are recorded in `reindexed`.
 */
module KeywordTool {
  import opened Sorting
  import opened KeywordValues
  import opened Ranking
  import opened LevDistance
  import Symbols
  import opened Wrappers

  /** A result or the ValueError the tool raises. */
  datatype Result<X> = Ok(value: X) | ValueError

  /*
   * Configuration (config.py)
   */

  const META_TYPE: string := "KeywordIndex"
  const IGNORE_INDEXES: seq<string> := ["object_provides", "allowedRolesAndUsers", "getRawRelatedItems", "getEventType"]
  const ALWAYS_REINDEX: seq<string> := []

  /*
   * The indexes
   */

  /** `_getFullIndexList`: the index itself and the indexes always reindexed, each once. */
  function FullIndexList(indexName: string): (r: seq<string>)
    ensures Distinct(r)
    ensures forall x :: x in r <==> x == indexName || x in ALWAYS_REINDEX
  {
    Dedupe([indexName] + ALWAYS_REINDEX)
  }

  /** An entry of `catalog.index_objects()`. */
  datatype CatalogIndex = CatalogIndex(id: string, metaType: string)

  /** The ids of the keyword indexes that are not ignored, in catalog order. */
  function ManagedIds(indexes: seq<CatalogIndex>): seq<string>
  {
    if indexes == [] then []
    else
      var i := indexes[0];
      (if i.metaType == META_TYPE && i.id !in IGNORE_INDEXES then [i.id] else []) + ManagedIds(indexes[1..])
  }

  /** `getKeywordIndexes`: the managed ids, sorted. */
  function KeywordIndexes(indexes: seq<CatalogIndex>): seq<string>
  {
    SortBy(ManagedIds(indexes), Id, Less)
  }

  lemma {:induction false} ManagedIdsMembers(indexes: seq<CatalogIndex>)
    ensures forall x :: x in ManagedIds(indexes) <==>
      exists i :: 0 <= i < |indexes| && indexes[i].id == x && indexes[i].metaType == META_TYPE && x !in IGNORE_INDEXES
  {
    if indexes != [] {
      ManagedIdsMembers(indexes[1..]);
      forall x | x in ManagedIds(indexes[1..])
        ensures exists i :: 0 <= i < |indexes| && indexes[i].id == x && indexes[i].metaType == META_TYPE && x !in IGNORE_INDEXES
      {
        var i :| 0 <= i < |indexes[1..]| && indexes[1..][i].id == x && indexes[1..][i].metaType == META_TYPE && x !in IGNORE_INDEXES;
        assert indexes[i + 1] == indexes[1..][i];
      }
      forall x, i | 0 <= i < |indexes| && indexes[i].id == x && indexes[i].metaType == META_TYPE && x !in IGNORE_INDEXES
        ensures x in ManagedIds(indexes)
      {
        if i > 0 {
          assert indexes[1..][i - 1] == indexes[i];
        }
      }
    }
  }

  /**
   * The keyword indexes are exactly the ids of the catalog's indexes of
   * the keyword index type that are not ignored, sorted.
   */
  lemma KeywordIndexesFacts(indexes: seq<CatalogIndex>)
    ensures SortedBy(KeywordIndexes(indexes), Id, Less)
    ensures multiset(KeywordIndexes(indexes)) == multiset(ManagedIds(indexes))
    ensures forall x :: x in KeywordIndexes(indexes) <==>
      exists i :: 0 <= i < |indexes| && indexes[i].id == x && indexes[i].metaType == META_TYPE && x !in IGNORE_INDEXES
  {
    StringsStrictOrder();
    SortByCorrect(ManagedIds(indexes), Id, Less);
    ManagedIdsMembers(indexes);
    forall x
      ensures x in KeywordIndexes(indexes) <==> x in ManagedIds(indexes)
    {
      assert x in KeywordIndexes(indexes) <==> x in multiset(KeywordIndexes(indexes));
    }
  }

  /*
   * Listing keywords
   */

  /** The values of an index other than None, in order. */
  function Present(values: seq<Option<string>>): seq<string>
  {
    if values == [] then []
    else (if values[0].Some? then [values[0].value] else []) + Present(values[1..])
  }

  lemma {:induction false} PresentMembers(values: seq<Option<string>>)
    ensures forall x :: x in Present(values) <==> Some(x) in values
  {
    if values != [] {
      PresentMembers(values[1..]);
      assert values == [values[0]] + values[1..];
    }
  }

  /**
   * `getKeywords`: a ValueError for an index that is not a keyword index,
   * otherwise the index's unique values without None, sorted by their
   * lower-cased form.
   */
  function GetKeywords(indexName: string, indexes: seq<CatalogIndex>, uniqueValues: seq<Option<string>>): Result<seq<string>>
  {
    if indexName !in KeywordIndexes(indexes) then ValueError
    else Ok(SortBy(Present(uniqueValues), Lower, Less))
  }

  /**
   * The listing fails exactly for an index that is not a managed keyword
   * index; otherwise it holds every value other than None as often as the
   * index lists it, ordered by lower-cased value, values equal in lower
   * case in the index's order.
   */
  lemma GetKeywordsFacts(indexName: string, indexes: seq<CatalogIndex>, uniqueValues: seq<Option<string>>)
    ensures GetKeywords(indexName, indexes, uniqueValues).Ok? <==>
      exists i :: 0 <= i < |indexes| && indexes[i].id == indexName && indexes[i].metaType == META_TYPE && indexName !in IGNORE_INDEXES
    ensures GetKeywords(indexName, indexes, uniqueValues).Ok? ==>
      var r := GetKeywords(indexName, indexes, uniqueValues).value;
      && SortedBy(r, Lower, Less)
      && multiset(r) == multiset(Present(uniqueValues))
      && (forall x :: x in r <==> Some(x) in uniqueValues)
      && (forall k :: WithKey(r, Lower, k) == WithKey(Present(uniqueValues), Lower, k))
  {
    KeywordIndexesFacts(indexes);
    StringsStrictOrder();
    SortByCorrect(Present(uniqueValues), Lower, Less);
    PresentMembers(uniqueValues);
    var r := SortBy(Present(uniqueValues), Lower, Less);
    forall x
      ensures x in r <==> x in Present(uniqueValues)
    {
      assert x in r <==> x in multiset(r);
    }
  }

  /*
   * The field-name heuristic of getSetter and getFieldValue
   */

  /** One of the characters of the argument "get_" of lstrip. */
  predicate Stripped(c: char)
  {
    c == 'g' || c == 'e' || c == 't' || c == '_'
  }

  /** `str.lstrip("get_")`: drop the longest prefix made of the characters g, e, t and _. */
  function LstripGet(s: string): (r: string)
    ensures |r| <= |s| && r == s[|s| - |r|..]
    ensures r == [] || !Stripped(r[0])
    ensures forall i :: 0 <= i < |s| - |r| ==> Stripped(s[i])
  {
    if s != [] && Stripped(s[0]) then LstripGet(s[1..]) else s
  }

  predicate StartsWithGet(s: string)
  {
    |s| >= 3 && s[..3] == "get"
  }

  /** `name[0].lower() + name[1:]`, or None where an empty name raises IndexError. */
  function LowerFirst(s: string): Option<string>
  {
    if s == [] then None else Some([LowerChar(s[0])] + s[1..])
  }

  /** The attribute a Dexterity object's setter writes: strip a "get" name, then lower-case the first letter. */
  function DexterityFieldName(fieldName: string): Option<string>
  {
    LowerFirst(if StartsWithGet(fieldName) then LstripGet(fieldName) else fieldName)
  }

  /** The second name tried for an Archetypes field or an attribute whose first lookup came back empty. */
  function FallbackFieldName(fieldName: string): Option<string>
    requires StartsWithGet(fieldName)
  {
    LowerFirst(LstripGet(fieldName))
  }

  /**
   * The heuristic turns an accessor name "get" + X... into the field name
   * x..., when X is not one of g, e, t and _ (any upper-case letter, say).
   */
  /** lstrip stops at the first character that is not one of g, e, t and _. */
  lemma {:induction false} LstripAt(s: string, n: nat)
    requires n <= |s| && (n < |s| ==> !Stripped(s[n]))
    requires forall i :: 0 <= i < n ==> Stripped(s[i])
    ensures LstripGet(s) == s[n..]
  {
    if n > 0 {
      LstripAt(s[1..], n - 1);
      assert s[1..][n - 1..] == s[n..];
    }
  }

  /**
   * For an accessor name "get" + p + d + rest, where every character of p
   * is one of g, e, t and _ and d is not, the field name is d, lower-cased,
   * then rest.  With p empty this is the intended "getSubject" to
   * "subject"; otherwise lstrip, which takes a set of characters, strips
   * more than the prefix: "get_email" gives "mail".
   */
  lemma FieldNameOfAccessor(p: string, d: char, rest: string)
    requires forall i :: 0 <= i < |p| ==> Stripped(p[i])
    requires !Stripped(d)
    ensures StartsWithGet("get" + p + [d] + rest)
    ensures FallbackFieldName("get" + p + [d] + rest) == Some([LowerChar(d)] + rest)
    ensures DexterityFieldName("get" + p + [d] + rest) == Some([LowerChar(d)] + rest)
  {
    var name := "get" + p + [d] + rest;
    assert name[..3] == "get";
    StripAccessor(name, p, d, rest);
  }

  lemma StripAccessor(name: string, p: string, d: char, rest: string)
    requires forall i :: 0 <= i < |p| ==> Stripped(p[i])
    requires !Stripped(d) && name == "get" + p + [d] + rest
    ensures LstripGet(name) == [d] + rest
  {
    forall i | 0 <= i < 3 + |p|
      ensures Stripped(name[i])
    {
      if i >= 3 {
        assert name[i] == p[i - 3];
      }
    }
    assert name[3 + |p|] == d;
    LstripAt(name, 3 + |p|);
    assert name[3 + |p|..] == [d] + rest;
  }

  /** A name made only of the characters g, e, t and _, "get" itself say, strips to nothing, and the lower-casing raises IndexError. */
  lemma FieldNameOfStrippedOnly(name: string)
    requires StartsWithGet(name)
    requires forall i :: 0 <= i < |name| ==> Stripped(name[i])
    ensures FallbackFieldName(name) == None && DexterityFieldName(name) == None
  {
    LstripAt(name, |name|);
  }

  /*
   * Ranking similar keywords
   */

  /** A Python text value: str or bytes. */
  datatype Text = Str(chars: string) | Bytes(bytes: seq<Symbols.byte>)

  /** An entry of the possibilities: a text, or anything else. */
  datatype Candidate = TextValue(text: Text) | OtherValue

  predicate SameType(a: Text, b: Text)
  {
    a.Str? == b.Str?
  }

  /** `Levenshtein.ratio` of two texts of one type. */
  function TextRatio(a: Text, b: Text): real
    requires SameType(a, b)
  {
    if a.Str? then Similarity(a.chars, b.chars) else Similarity(a.bytes, b.bytes)
  }

  /** `Levenshtein.ratio` called on two texts of one type. */
  method RatioOf(a: Text, b: Text) returns (r: real)
    requires SameType(a, b)
    ensures r == TextRatio(a, b)
  {
    if a.Str? {
      r := Ratio(a.chars, b.chars);
    } else {
      r := Ratio(a.bytes, b.bytes);
    }
  }

  /** The score of a candidate: against the word when of the word's type, else against the word's UTF-8 counterpart. */
  function Rating(word: Text, counterpart: Text, item: Text): real
    requires !SameType(word, counterpart)
  {
    if SameType(item, word) then TextRatio(word, item) else TextRatio(counterpart, item)
  }

  predicate AllText(possibilities: seq<Candidate>)
  {
    forall i :: 0 <= i < |possibilities| ==> possibilities[i].TextValue?
  }

  /** The candidates scoring above the threshold, with their scores, in input order. */
  function Above(word: Text, counterpart: Text, possibilities: seq<Candidate>, score: real): seq<Scored<Text>>
    requires !SameType(word, counterpart) && AllText(possibilities)
  {
    if possibilities == [] then []
    else
      var init := possibilities[..|possibilities| - 1];
      var item := possibilities[|possibilities| - 1].text;
      var s := Rating(word, counterpart, item);
      Above(word, counterpart, init, score) + (if s > score then [Scored(item, s)] else [])
  }

  /** The scored candidates are exactly the possibilities whose score is above the threshold, with that score. */
  lemma {:induction false} AboveMembers(word: Text, counterpart: Text, possibilities: seq<Candidate>, score: real)
    requires !SameType(word, counterpart) && AllText(possibilities)
    ensures forall x :: x in Above(word, counterpart, possibilities, score) <==>
      (exists i :: 0 <= i < |possibilities| && possibilities[i] == TextValue(x.item))
      && x.score == Rating(word, counterpart, x.item) && x.score > score
  {
    if possibilities != [] {
      var init := possibilities[..|possibilities| - 1];
      AboveMembers(word, counterpart, init, score);
      var last := |possibilities| - 1;
      forall x: Scored<Text>
        ensures (exists i :: 0 <= i < |possibilities| && possibilities[i] == TextValue(x.item)) <==>
          (exists i :: 0 <= i < |init| && init[i] == TextValue(x.item)) || possibilities[last] == TextValue(x.item)
      {
        if exists i :: 0 <= i < |possibilities| && possibilities[i] == TextValue(x.item) {
          var i :| 0 <= i < |possibilities| && possibilities[i] == TextValue(x.item);
          if i < last {
            assert init[i] == possibilities[i];
          }
        }
        if exists i :: 0 <= i < |init| && init[i] == TextValue(x.item) {
          var i :| 0 <= i < |init| && init[i] == TextValue(x.item);
          assert possibilities[i] == init[i];
        }
      }
    }
  }

  /**
   * `getScoredMatches` with the Levenshtein module present: score every
   * possibility, keep those scoring strictly above `score`, rank them by
   * descending score and return the first `num` without scores.  A
   * possibility that is neither of the word's type nor of its counterpart's
   * raises ValueError.
   */
  method GetScoredMatches(word: Text, counterpart: Text, possibilities: seq<Candidate>, num: int, score: real)
    returns (r: Result<seq<Text>>)
    requires !SameType(word, counterpart)
    ensures r.ValueError? <==> !AllText(possibilities)
    ensures r.Ok? ==> r.value == Ranked(Above(word, counterpart, possibilities, score), num)
  {
    var res: seq<Scored<Text>> := [];
    for i := 0 to |possibilities|
      invariant AllText(possibilities[..i])
      invariant res == Above(word, counterpart, possibilities[..i], score)
    {
      assert possibilities[..i + 1][..i] == possibilities[..i];
      var lscore: real;
      match possibilities[i] {
        case OtherValue =>
          return ValueError;
        case TextValue(item) =>
          if SameType(item, word) {
            lscore := RatioOf(word, item);
          } else {
            lscore := RatioOf(counterpart, item);
          }
      }
      if lscore > score {
        res := res + [Scored(possibilities[i].text, lscore)];
      }
    }
    assert possibilities[..|possibilities|] == possibilities;
    return Ok(Ranked(res, num));
  }

  /*
   * Merging and deleting
   */

  /** One object's keyword field for one index. */
  datatype Field = Field(obj: nat, index: string)

  /** A call `obj.reindexObject(idxs=...)`. */
  datatype Reindex = Reindex(obj: nat, idxs: seq<string>)

  /** The catalog query: the index and its keywords, and a path when a context is given. */
  datatype Query = Query(index: string, keywords: seq<string>, path: Option<string>)

  /** `"/".join(segments)` */
  function JoinPath(segments: seq<string>): string
  {
    if segments == [] then ""
    else if |segments| == 1 then segments[0]
    else segments[0] + "/" + JoinPath(segments[1..])
  }

  /** The query of `change` and `delete`: the path of the context restricts it only when a context is given. */
  function QueryFor(indexName: string, keywords: seq<string>, context: Option<seq<string>>): (q: Query)
    ensures q.index == indexName && q.keywords == keywords
    ensures q.path.Some? <==> context.Some?
    ensures context.Some? ==> q.path == Some(JoinPath(context.value))
  {
    Query(indexName, keywords, if context.Some? then Some(JoinPath(context.value)) else None)
  }

  /** What is done to each field found: merge into a keyword, or delete keywords. */
  datatype Rewrite = Merge(olds: seq<string>, newKeyword: string) | Remove(keywords: seq<string>)

  function Rewriting(rw: Rewrite, value: FieldValue): FieldValue
  {
    match rw
    case Merge(olds, newKeyword) => ChangeValue(value, olds, newKeyword)
    case Remove(keywords) => DeleteValue(value, keywords)
  }

  lemma RewritingIdempotent(rw: Rewrite, value: FieldValue)
    ensures Rewriting(rw, Rewriting(rw, value)) == Rewriting(rw, value)
  {
    match rw {
      case Merge(olds, newKeyword) => ChangeIdempotent(value, olds, newKeyword);
      case Remove(keywords) => DeleteIdempotent(value, keywords);
    }
  }

  /** A missing attribute reads as an empty tuple. */
  function Lookup(fields: map<Field, FieldValue>, f: Field): FieldValue
  {
    if f in fields then fields[f] else ListValue([])
  }

  /** The fields after rewriting the field of each object of objs in turn, skipping fields without a setter. */
  function Rewritten(fields: map<Field, FieldValue>, writable: set<Field>, objs: seq<nat>, indexName: string, rw: Rewrite): map<Field, FieldValue>
  {
    if objs == [] then fields
    else
      var before := Rewritten(fields, writable, objs[..|objs| - 1], indexName, rw);
      var f := Field(objs[|objs| - 1], indexName);
      if f in writable then before[f := Rewriting(rw, Lookup(before, f))] else before
  }

  /** The reindexing requests for the objects of objs that have a setter, in order. */
  function Reindexes(writable: set<Field>, objs: seq<nat>, indexName: string): seq<Reindex>
  {
    if objs == [] then []
    else
      Reindexes(writable, objs[..|objs| - 1], indexName)
        + (if Field(objs[|objs| - 1], indexName) in writable then [Reindex(objs[|objs| - 1], FullIndexList(indexName))] else [])
  }

  /**
   * After a batch, the field of each object found that has a setter is
   * rewritten once (rewriting again changes nothing, so an object found
   * twice is no different), and every other field is as before.
   */
  lemma {:induction false} RewrittenEffect(fields: map<Field, FieldValue>, writable: set<Field>, objs: seq<nat>, indexName: string, rw: Rewrite, f: Field)
    ensures Lookup(Rewritten(fields, writable, objs, indexName, rw), f)
      == if f.index == indexName && f.obj in objs && f in writable then Rewriting(rw, Lookup(fields, f)) else Lookup(fields, f)
  {
    if objs != [] {
      var init := objs[..|objs| - 1];
      RewrittenEffect(fields, writable, init, indexName, rw, f);
      assert objs == init + [objs[|objs| - 1]];
      if f == Field(objs[|objs| - 1], indexName) && f in writable && f.obj in init {
        RewritingIdempotent(rw, Lookup(fields, f));
      }
    }
  }

  class KeywordManager {
    /** The keyword field of each object, per index. */
    var fields: map<Field, FieldValue>
    /** The fields for which `getSetter` finds a setter. */
    var writable: set<Field>
    /** The reindexing requests made, in order. */
    var reindexed: seq<Reindex>

    constructor (fields: map<Field, FieldValue>, writable: set<Field>)
      ensures this.fields == fields && this.writable == writable && reindexed == []
    {
      this.fields := fields;
      this.writable := writable;
      reindexed := [];
    }

    /** `getFieldValue` */
    function ValueOf(f: Field): FieldValue
      reads this
    {
      Lookup(fields, f)
    }

    /**
     * `updateObject`: with a setter, store the value and reindex the
     * object's full index list; without one, do nothing.
     */
    method UpdateObject(obj: nat, indexName: string, value: FieldValue)
      modifies this
      ensures writable == old(writable)
      ensures Field(obj, indexName) in writable ==>
        fields == old(fields)[Field(obj, indexName) := value] && reindexed == old(reindexed) + [Reindex(obj, FullIndexList(indexName))]
      ensures Field(obj, indexName) !in writable ==> fields == old(fields) && reindexed == old(reindexed)
    {
      if Field(obj, indexName) in writable {
        fields := fields[Field(obj, indexName) := value];
        var idxs := FullIndexList(indexName);
        reindexed := reindexed + [Reindex(obj, idxs)];
      }
    }

    /** The loop shared by `change` and `delete`: rewrite the field of every object found and count the objects. */
    method RewriteAll(querySet: seq<nat>, indexName: string, rw: Rewrite) returns (count: nat)
      modifies this
      ensures count == |querySet|
      ensures writable == old(writable)
      ensures fields == Rewritten(old(fields), writable, querySet, indexName, rw)
      ensures reindexed == old(reindexed) + Reindexes(writable, querySet, indexName)
    {
      for k := 0 to |querySet|
        invariant writable == old(writable)
        invariant fields == Rewritten(old(fields), writable, querySet[..k], indexName, rw)
        invariant reindexed == old(reindexed) + Reindexes(writable, querySet[..k], indexName)
      {
        var obj := querySet[k];
        assert querySet[..k + 1][..k] == querySet[..k];
        var value := ValueOf(Field(obj, indexName));
        var newValue: FieldValue;
        match rw {
          case Merge(olds, newKeyword) => newValue := ChangedValue(value, olds, newKeyword);
          case Remove(keywords) => newValue := DeletedValue(value, keywords);
        }
        UpdateObject(obj, indexName, newValue);
      }
      assert querySet[..|querySet|] == querySet;
      count := |querySet|;
    }

    /**
     * `change`: merge the old keywords into the new one on every object
     * the query finds; the count is the number found, setter or not.
     */
    method Change(oldKeywords: seq<string>, newKeyword: string, context: Option<seq<string>>, indexName: string, find: Query -> seq<nat>)
      returns (count: nat)
      modifies this
      ensures count == |find(QueryFor(indexName, oldKeywords, context))|
      ensures writable == old(writable)
      ensures fields == Rewritten(old(fields), writable, find(QueryFor(indexName, oldKeywords, context)), indexName, Merge(oldKeywords, newKeyword))
      ensures reindexed == old(reindexed) + Reindexes(writable, find(QueryFor(indexName, oldKeywords, context)), indexName)
    {
      var querySet := find(QueryFor(indexName, oldKeywords, context));
      count := RewriteAll(querySet, indexName, Merge(oldKeywords, newKeyword));
    }

    /**
     * `delete`: remove the keywords on every object the query finds; the
     * count is the number found, setter or not.
     */
    method Delete(keywords: seq<string>, context: Option<seq<string>>, indexName: string, find: Query -> seq<nat>)
      returns (count: nat)
      modifies this
      ensures count == |find(QueryFor(indexName, keywords, context))|
      ensures writable == old(writable)
      ensures fields == Rewritten(old(fields), writable, find(QueryFor(indexName, keywords, context)), indexName, Remove(keywords))
      ensures reindexed == old(reindexed) + Reindexes(writable, find(QueryFor(indexName, keywords, context)), indexName)
    {
      var querySet := find(QueryFor(indexName, keywords, context));
      count := RewriteAll(querySet, indexName, Remove(keywords));
    }
  }
}
