/**
 * The keyword manager tool of the older package
 * (Products/PloneKeywordManager/tool.py).  It works on the Subject field
 * only, which it reads and writes as a list, checks the manage-keywords
 * permission before anything else, and collects and sorts the keyword
 * union itself.
 *
 * The catalog search (`find`) and the security check (`canManage`) are
 * parameters; the objects' Subject lists are a map from object to list,
 * and the reindexing requests made are recorded in `reindexed`.
 */
module LegacyTool {
  import opened Sorting
  import opened KeywordValues
  import opened Ranking
  import opened LevDistance
  import opened KeywordTool
  import opened Wrappers

  /**
   * A result, the Unauthorized the permission check raises, an answer left
   * to difflib, or the ValueError `Levenshtein.ratio` raises on arguments
   * that are not two texts of one type.
   */
  datatype Outcome<X> = Done(value: X) | Unauthorized | Difflib | ValueError

  /** The object the permission is checked on: the tool itself or the context given. */
  datatype Target = Tool | Context(path: seq<string>)

  /** `_checkPermission`: check against the context when one is given, else against the tool. */
  function TargetOf(context: Option<seq<string>>): (t: Target)
    ensures t.Tool? <==> context.None?
    ensures context.Some? ==> t.path == context.value
  {
    if context.Some? then Context(context.value) else Tool
  }

  /** A catalog query: the Subject keywords asked for, and a path when a context is given. */
  datatype LegacyQuery = LegacyQuery(subject: Option<seq<string>>, path: Option<string>)

  function PathOf(context: Option<seq<string>>): (p: Option<string>)
    ensures p.Some? <==> context.Some?
    ensures context.Some? ==> p.value == JoinPath(context.value)
  {
    if context.Some? then Some(JoinPath(context.value)) else None
  }

  /** The reindexing that follows every rewrite: the Subject index only. */
  const SUBJECT_ONLY: seq<string> := ["Subject"]

  /*
   * Rewriting Subject lists
   */

  /** One object's Subject list after merging (overwrite, then dedupe) or deleting (no dedupe). */
  function Relisting(rw: Rewrite, items: seq<string>): seq<string>
  {
    match rw
    case Merge(olds, newKeyword) => Dedupe(Replaced(items, olds, newKeyword))
    case Remove(keywords) => Without(items, keywords)
  }

  /**
   * Merging leaves a list without duplicates in which no old keyword other
   * than the new one is left; deleting leaves no keyword asked for and
   * every other element as often as before, duplicates included.
   */
  lemma RelistingFacts(rw: Rewrite, items: seq<string>)
    ensures rw.Merge? ==> Distinct(Relisting(rw, items))
    ensures rw.Merge? ==> forall x :: x in Relisting(rw, items) <==>
      (x in items && (x !in rw.olds || x == rw.newKeyword)) || (x == rw.newKeyword && exists i :: 0 <= i < |items| && items[i] in rw.olds)
    ensures rw.Remove? ==> forall x :: x in rw.keywords ==> x !in Relisting(rw, items)
    ensures rw.Remove? ==> forall x :: x !in rw.keywords ==> multiset(Relisting(rw, items))[x] == multiset(items)[x]
  {
    match rw {
      case Merge(olds, newKeyword) => ChangeList(items, olds, newKeyword);
      case Remove(keywords) => DeleteList(items, keywords);
    }
  }

  lemma RelistingIdempotent(rw: Rewrite, items: seq<string>)
    ensures Relisting(rw, Relisting(rw, items)) == Relisting(rw, items)
  {
    match rw {
      case Merge(olds, newKeyword) => ChangeIdempotent(ListValue(items), olds, newKeyword);
      case Remove(keywords) => DeleteIdempotent(ListValue(items), keywords);
    }
  }

  /** `obj.Subject()`; an object without a recorded list has none. */
  function SubjectOf(subjects: map<nat, seq<string>>, obj: nat): seq<string>
  {
    if obj in subjects then subjects[obj] else []
  }

  /** The Subject lists after rewriting the list of each object of objs in turn. */
  function Relisted(subjects: map<nat, seq<string>>, objs: seq<nat>, rw: Rewrite): map<nat, seq<string>>
  {
    if objs == [] then subjects
    else
      var before := Relisted(subjects, objs[..|objs| - 1], rw);
      var obj := objs[|objs| - 1];
      before[obj := Relisting(rw, SubjectOf(before, obj))]
  }

  /** One Subject-only reindexing per object, in order. */
  function SubjectReindexes(objs: seq<nat>): seq<Reindex>
  {
    if objs == [] then [] else SubjectReindexes(objs[..|objs| - 1]) + [Reindex(objs[|objs| - 1], SUBJECT_ONLY)]
  }

  /** Every object found is reindexed once, in order, on the Subject index alone. */
  lemma {:induction false} SubjectReindexesFacts(objs: seq<nat>)
    ensures |SubjectReindexes(objs)| == |objs|
    ensures forall i :: 0 <= i < |objs| ==> SubjectReindexes(objs)[i] == Reindex(objs[i], ["Subject"])
  {
    if objs != [] {
      SubjectReindexesFacts(objs[..|objs| - 1]);
    }
  }

  /** After a batch, the list of each object found is rewritten once, and every other list is as before. */
  lemma {:induction false} RelistedEffect(subjects: map<nat, seq<string>>, objs: seq<nat>, rw: Rewrite, obj: nat)
    ensures SubjectOf(Relisted(subjects, objs, rw), obj)
      == if obj in objs then Relisting(rw, SubjectOf(subjects, obj)) else SubjectOf(subjects, obj)
  {
    if objs != [] {
      var init := objs[..|objs| - 1];
      RelistedEffect(subjects, init, rw, obj);
      assert objs == init + [objs[|objs| - 1]];
      if obj == objs[|objs| - 1] && obj in init {
        RelistingIdempotent(rw, SubjectOf(subjects, obj));
      }
    }
  }

  /*
   * Collecting keywords
   */

  /** The Subject metadata of the catalog results, one list after another. */
  function Collected(metadata: nat -> seq<string>, brains: seq<nat>): seq<string>
  {
    if brains == [] then [] else Collected(metadata, brains[..|brains| - 1]) + metadata(brains[|brains| - 1])
  }

  lemma {:induction false} CollectedMembers(metadata: nat -> seq<string>, brains: seq<nat>)
    ensures forall x :: x in Collected(metadata, brains) <==> exists i :: 0 <= i < |brains| && x in metadata(brains[i])
  {
    if brains != [] {
      var init := brains[..|brains| - 1];
      CollectedMembers(metadata, init);
      forall x
        ensures x in Collected(metadata, brains) <==> exists i :: 0 <= i < |brains| && x in metadata(brains[i])
      {
        if exists i :: 0 <= i < |brains| && x in metadata(brains[i]) {
          var i :| 0 <= i < |brains| && x in metadata(brains[i]);
          if i < |init| {
            assert init[i] == brains[i];
          }
        }
        if exists i :: 0 <= i < |init| && x in metadata(init[i]) {
          var i :| 0 <= i < |init| && x in metadata(init[i]);
          assert brains[i] == init[i];
        }
      }
    }
  }

  lemma DedupeAppend(s: seq<string>, x: string)
    ensures Dedupe(s + [x]) == if x in Dedupe(s) then Dedupe(s) else Dedupe(s) + [x]
  {
    assert (s + [x])[..|s|] == s;
  }

  /** The inner loop of `getKeywords`: enter the keywords of one result into the list of those seen. */
  method AddKeywords(keys: seq<string>, ghost before: seq<string>, subjects: seq<string>) returns (keys': seq<string>)
    requires keys == Dedupe(before)
    ensures keys' == Dedupe(before + subjects)
  {
    keys' := keys;
    assert before + subjects[..0] == before;
    for j := 0 to |subjects|
      invariant keys' == Dedupe(before + subjects[..j])
    {
      var subject := subjects[j];
      ghost var seen := before + subjects[..j];
      assert before + subjects[..j + 1] == seen + [subject];
      DedupeAppend(seen, subject);
      if subject !in keys' {
        keys' := keys' + [subject];
      }
    }
    assert subjects[..|subjects|] == subjects;
  }

  /** The keywords of a result set gathered into a list, each once, as the `subjects` dictionary does. */
  method CollectKeywords(metadata: nat -> seq<string>, brains: seq<nat>) returns (keys: seq<string>)
    ensures keys == Dedupe(Collected(metadata, brains))
  {
    keys := [];
    for i := 0 to |brains|
      invariant keys == Dedupe(Collected(metadata, brains[..i]))
    {
      assert brains[..i + 1][..i] == brains[..i];
      keys := AddKeywords(keys, Collected(metadata, brains[..i]), metadata(brains[i]));
    }
    assert brains[..|brains|] == brains;
  }

  /**
   * Whether `Levenshtein.ratio(word, item)` has an answer: both are texts,
   * and of one type (two Python 2 `str`, here `Bytes`, or two `unicode`,
   * here `Str`).
   */
  predicate RatioDefined(word: Candidate, item: Candidate)
  {
    word.TextValue? && item.TextValue? && SameType(word.text, item.text)
  }

  /** The scored possibilities above the threshold, in input order. */
  function ScoredAbove(word: Candidate, possibilities: seq<Candidate>, score: real): seq<Scored<Text>>
    requires forall i :: 0 <= i < |possibilities| ==> RatioDefined(word, possibilities[i])
  {
    if possibilities == [] then []
    else
      assert RatioDefined(word, possibilities[|possibilities| - 1]);
      var item := possibilities[|possibilities| - 1].text;
      ScoredAbove(word, possibilities[..|possibilities| - 1], score)
        + (if TextRatio(word.text, item) > score then [Scored(item, TextRatio(word.text, item))] else [])
  }

  /** The scored possibilities are exactly those whose ratio to the word is above the threshold, with that ratio. */
  lemma {:induction false} ScoredAboveMembers(word: Candidate, possibilities: seq<Candidate>, score: real)
    requires forall i :: 0 <= i < |possibilities| ==> RatioDefined(word, possibilities[i])
    ensures forall x :: x in ScoredAbove(word, possibilities, score) <==>
      TextValue(x.item) in possibilities && x.score == TextRatio(word.text, x.item) && x.score > score
  {
    if possibilities != [] {
      var init := possibilities[..|possibilities| - 1];
      ScoredAboveMembers(word, init, score);
      assert possibilities == init + [possibilities[|possibilities| - 1]];
    }
  }

  /** The rewrite of one Subject list, with the loops of `change` and `delete`. */
  method Relist(rw: Rewrite, items: seq<string>) returns (r: seq<string>)
    ensures r == Relisting(rw, items)
  {
    match rw {
      case Merge(olds, newKeyword) =>
        r := ReplaceKeywords(items, olds, newKeyword);
        r := Dedupe(r);
      case Remove(keywords) =>
        r := RemoveKeywords(items, keywords);
    }
  }

  class LegacyKeywordManager {
    /** The Subject list of each object. */
    var subjects: map<nat, seq<string>>
    /** The reindexing requests made, in order. */
    var reindexed: seq<Reindex>
    /** Whether the Levenshtein module could be imported. */
    const levenshtein: bool

    constructor (subjects: map<nat, seq<string>>, levenshtein: bool)
      ensures this.subjects == subjects && this.levenshtein == levenshtein && reindexed == []
    {
      this.subjects := subjects;
      this.levenshtein := levenshtein;
      reindexed := [];
    }

    /** `usingLevenshtein`: true exactly when the Levenshtein module is used instead of difflib. */
    function UsingLevenshtein(): (r: bool)
      reads this
      ensures r <==> levenshtein
    {
      levenshtein
    }

    /** The loop shared by `change` and `delete`: rewrite every object's Subject list and reindex Subject. */
    method RelistAll(querySet: seq<nat>, rw: Rewrite) returns (count: nat)
      modifies this
      ensures count == |querySet|
      ensures subjects == Relisted(old(subjects), querySet, rw)
      ensures reindexed == old(reindexed) + SubjectReindexes(querySet)
    {
      for k := 0 to |querySet|
        invariant subjects == Relisted(old(subjects), querySet[..k], rw)
        invariant reindexed == old(reindexed) + SubjectReindexes(querySet[..k])
      {
        var obj := querySet[k];
        assert querySet[..k + 1][..k] == querySet[..k];
        var subjectList := Relist(rw, SubjectOf(subjects, obj));
        subjects := subjects[obj := subjectList];
        reindexed := reindexed + [Reindex(obj, SUBJECT_ONLY)];
      }
      assert querySet[..|querySet|] == querySet;
      count := |querySet|;
    }

    /**
     * `change`: after the permission check, merge the old keywords into
     * the new one in the Subject list of every object the query finds,
     * and count them.
     */
    method Change(oldKeywords: seq<string>, newKeyword: string, context: Option<seq<string>>,
                  canManage: Target -> bool, find: LegacyQuery -> seq<nat>)
      returns (r: Outcome<nat>)
      modifies this
      ensures !canManage(TargetOf(context)) ==>
        r == Unauthorized && subjects == old(subjects) && reindexed == old(reindexed)
      ensures canManage(TargetOf(context)) ==>
        var querySet := find(LegacyQuery(Some(oldKeywords), PathOf(context)));
        && r == Done(|querySet|)
        && subjects == Relisted(old(subjects), querySet, Merge(oldKeywords, newKeyword))
        && reindexed == old(reindexed) + SubjectReindexes(querySet)
    {
      if !canManage(TargetOf(context)) {
        return Unauthorized;
      }
      var querySet := find(LegacyQuery(Some(oldKeywords), PathOf(context)));
      var count := RelistAll(querySet, Merge(oldKeywords, newKeyword));
      r := Done(count);
    }

    /**
     * `delete`: after the permission check, remove the keywords from the
     * Subject list of every object the query finds, and count them.
     */
    method Delete(keywords: seq<string>, context: Option<seq<string>>,
                  canManage: Target -> bool, find: LegacyQuery -> seq<nat>)
      returns (r: Outcome<nat>)
      modifies this
      ensures !canManage(TargetOf(context)) ==>
        r == Unauthorized && subjects == old(subjects) && reindexed == old(reindexed)
      ensures canManage(TargetOf(context)) ==>
        var querySet := find(LegacyQuery(Some(keywords), PathOf(context)));
        && r == Done(|querySet|)
        && subjects == Relisted(old(subjects), querySet, Remove(keywords))
        && reindexed == old(reindexed) + SubjectReindexes(querySet)
    {
      if !canManage(TargetOf(context)) {
        return Unauthorized;
      }
      var querySet := find(LegacyQuery(Some(keywords), PathOf(context)));
      var count := RelistAll(querySet, Remove(keywords));
      r := Done(count);
    }

    /**
     * `getKeywords`: after the permission check, every keyword in the
     * Subject metadata of the catalog results (restricted to the context's
     * path when one is given), once each, in increasing order.
     */
    method GetKeywords(context: Option<seq<string>>, canManage: Target -> bool,
                       find: LegacyQuery -> seq<nat>, metadata: nat -> seq<string>)
      returns (r: Outcome<seq<string>>)
      ensures r.Unauthorized? <==> !canManage(TargetOf(context))
      ensures !r.Difflib?
      ensures r.Done? ==> Increasing(r.value)
      ensures r.Done? ==> forall x :: x in r.value <==>
        exists i :: 0 <= i < |find(LegacyQuery(None, PathOf(context)))| && x in metadata(find(LegacyQuery(None, PathOf(context)))[i])
    {
      if !canManage(TargetOf(context)) {
        return Unauthorized;
      }
      var brains := find(LegacyQuery(None, PathOf(context)));
      var keys := CollectKeywords(metadata, brains);
      SortIncreasing(keys);
      SortMembers(keys, Id, Less);
      CollectedMembers(metadata, brains);
      r := Done(SortBy(keys, Id, Less));
    }

    /**
     * `getScoredMatches`: after the permission check, and with the
     * Levenshtein module present, the possibilities whose ratio to the
     * word is strictly above `score`, ranked by descending ratio and cut to
     * `num`.  Without the module the answer comes from difflib.  The word
     * goes to `Levenshtein.ratio` as it is, so the first possibility that is
     * not a text of the word's type raises ValueError.
     */
    method GetScoredMatches(word: Candidate, possibilities: seq<Candidate>, num: int, score: real,
                            context: Option<seq<string>>, canManage: Target -> bool)
      returns (r: Outcome<seq<Text>>)
      ensures r.Unauthorized? <==> !canManage(TargetOf(context))
      ensures r.Difflib? <==> canManage(TargetOf(context)) && !levenshtein
      ensures r.ValueError? <==>
        (canManage(TargetOf(context)) && levenshtein &&
         exists i :: 0 <= i < |possibilities| && !RatioDefined(word, possibilities[i]))
      ensures r.Done? ==>
        (forall i :: 0 <= i < |possibilities| ==> RatioDefined(word, possibilities[i])) &&
        r.value == Ranked(ScoredAbove(word, possibilities, score), num)
    {
      if !canManage(TargetOf(context)) {
        return Unauthorized;
      }
      if !levenshtein {
        return Difflib;
      }
      var res: seq<Scored<Text>> := [];
      for i := 0 to |possibilities|
        invariant forall k :: 0 <= k < i ==> RatioDefined(word, possibilities[k])
        invariant res == ScoredAbove(word, possibilities[..i], score)
      {
        assert possibilities[..i + 1][..i] == possibilities[..i];
        var item := possibilities[i];
        if !RatioDefined(word, item) {
          return Outcome.ValueError;
        }
        var lscore := RatioOf(word.text, item.text);
        if lscore > score {
          res := res + [Scored(item.text, lscore)];
        }
      }
      assert possibilities[..|possibilities|] == possibilities;
      r := Done(Ranked(res, num));
    }
  }

  /**
   * The keyword listing does not depend on the order in which the
   * dictionary hands out its keys: any increasing list of the keywords
   * found is the one returned.
   */
  lemma KeywordListingUnique(listed: seq<string>, other: seq<string>)
    requires Increasing(listed) && Increasing(other)
    requires forall x :: x in listed <==> x in other
    ensures listed == other
  {
    IncreasingUnique(listed, other);
  }
}
