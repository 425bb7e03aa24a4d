/**
 * The `importKeywords` setup step of both packages
 * (src/Products/PloneKeywordManager/setuphandlers.py and
 * Products/PloneKeywordManager/setuphandlers.py): read the data file
 * `keywords.txt`, take its non-empty lines as keywords, and store them as
 * the Subject of a document `keywords` in the site, reusing the document
 * when it exists and creating it otherwise; the document is kept out of
 * the navigation.
 *
 * The data file's content is a parameter (None when the file is missing),
 * as is the site.
 */
module SetupHandlers {
  import opened Wrappers

  /*
   * Parsing keywords.txt
   */

  /** `str.split("\n")`: the pieces between line breaks; there is always at least one. */
  function Split(s: string): (r: seq<string>)
    ensures |r| >= 1
    ensures forall i :: 0 <= i < |r| ==> '\n' !in r[i]
  {
    if s == [] then [[]]
    else
      var rest := Split(s[1..]);
      if s[0] == '\n' then [[]] + rest
      else [[s[0]] + rest[0]] + rest[1..]
  }

  /** `"\n".join(pieces)` */
  function Join(pieces: seq<string>): string
  {
    if pieces == [] then []
    else if |pieces| == 1 then pieces[0]
    else pieces[0] + "\n" + Join(pieces[1..])
  }

  /** Splitting loses nothing: joining the pieces again gives back the text. */
  lemma {:induction false} SplitJoin(s: string)
    ensures Join(Split(s)) == s
  {
    if s != [] {
      var rest := Split(s[1..]);
      SplitJoin(s[1..]);
      if s[0] == '\n' {
        assert ([[]] + rest)[1..] == rest;
        assert s == "\n" + s[1..];
      } else if |rest| == 1 {
        assert s == [s[0]] + s[1..];
      } else {
        var r := [[s[0]] + rest[0]] + rest[1..];
        assert r[1..] == rest[1..];
        assert s == [s[0]] + s[1..];
      }
    }
  }

  /** A text without line breaks is one piece. */
  lemma {:induction false} SplitLine(a: string)
    requires '\n' !in a
    ensures Split(a) == [a]
  {
    if a != [] {
      SplitLine(a[1..]);
      assert a == [a[0]] + a[1..];
    }
  }

  /** A line followed by a line break splits off as the first piece. */
  lemma {:induction false} SplitFirst(a: string, t: string)
    requires '\n' !in a
    ensures Split(a + "\n" + t) == [a] + Split(t)
  {
    if a == [] {
      assert (a + "\n" + t)[1..] == t;
    } else {
      var s := a + "\n" + t;
      assert s[0] == a[0] && s[1..] == a[1..] + "\n" + t;
      SplitFirst(a[1..], t);
      assert [a[0]] + a[1..] == a;
    }
  }

  /** Joining lines without line breaks and splitting again gives back the lines. */
  lemma {:induction false} JoinSplit(pieces: seq<string>)
    requires |pieces| >= 1
    requires forall i :: 0 <= i < |pieces| ==> '\n' !in pieces[i]
    ensures Split(Join(pieces)) == pieces
  {
    if |pieces| == 1 {
      SplitLine(pieces[0]);
    } else {
      JoinSplit(pieces[1..]);
      SplitFirst(pieces[0], Join(pieces[1..]));
      assert pieces == [pieces[0]] + pieces[1..];
    }
  }

  /** The pieces that are not empty, in order. */
  function NonEmpty(pieces: seq<string>): seq<string>
  {
    if pieces == [] then []
    else (if pieces[0] != [] then [pieces[0]] else []) + NonEmpty(pieces[1..])
  }

  /** `[i for i in keywords.split("\n") if i]` */
  function ParseKeywords(data: string): seq<string>
  {
    NonEmpty(Split(data))
  }

  /** Each keyword is a non-empty line of the text, and every non-empty line is a keyword. */
  lemma {:induction false} NonEmptyMembers(pieces: seq<string>)
    ensures forall x :: x in NonEmpty(pieces) <==> x in pieces && x != []
  {
    if pieces != [] {
      NonEmptyMembers(pieces[1..]);
      assert pieces == [pieces[0]] + pieces[1..];
    }
  }

  lemma {:induction false} NonEmptyAll(pieces: seq<string>)
    requires forall i :: 0 <= i < |pieces| ==> pieces[i] != []
    ensures NonEmpty(pieces) == pieces
  {
    if pieces != [] {
      NonEmptyAll(pieces[1..]);
      assert pieces == [pieces[0]] + pieces[1..];
    }
  }

  /**
   * The parse reads back a keyword file written one keyword per line:
   * for keywords that are non-empty and hold no line break, the keywords
   * of their lines joined are the keywords themselves, in order.
   */
  lemma ParseJoined(keywords: seq<string>)
    requires forall i :: 0 <= i < |keywords| ==> keywords[i] != [] && '\n' !in keywords[i]
    ensures ParseKeywords(Join(keywords)) == keywords
  {
    if keywords == [] {
      assert Split([]) == [[]];
    } else {
      JoinSplit(keywords);
      NonEmptyAll(keywords);
    }
  }

  /** The parse yields no keyword exactly when the text holds nothing but line breaks. */
  lemma {:induction false} ParseEmpty(data: string)
    ensures ParseKeywords(data) == [] <==> forall i :: 0 <= i < |data| ==> data[i] == '\n'
  {
    SplitJoin(data);
    NonEmptyMembers(Split(data));
    var pieces := Split(data);
    if ParseKeywords(data) == [] {
      forall i | 0 <= i < |pieces|
        ensures pieces[i] == []
      {
        assert pieces[i] in pieces;
      }
      BreaksOnly(pieces);
    } else {
      var x := ParseKeywords(data)[0];
      assert x in pieces && x != [];
      var i :| 0 <= i < |pieces| && pieces[i] == x;
      HasLine(data, x);
    }
  }

  /** Joining empty pieces gives a text of line breaks only. */
  lemma {:induction false} BreaksOnly(pieces: seq<string>)
    requires forall i :: 0 <= i < |pieces| ==> pieces[i] == []
    ensures forall i :: 0 <= i < |Join(pieces)| ==> Join(pieces)[i] == '\n'
  {
    if |pieces| > 1 {
      BreaksOnly(pieces[1..]);
      assert Join(pieces) == "\n" + Join(pieces[1..]);
    }
  }

  /** A text one of whose pieces is not empty holds a character other than a line break. */
  lemma {:induction false} HasLine(data: string, x: string)
    requires x in Split(data) && x != []
    ensures exists i :: 0 <= i < |data| && data[i] != '\n'
  {
    if data != [] {
      var rest := Split(data[1..]);
      if data[0] == '\n' {
        assert x in rest;
        HasLine(data[1..], x);
        var i :| 0 <= i < |data[1..]| && data[1..][i] != '\n';
        assert data[i + 1] != '\n';
      } else {
        assert data[0] != '\n';
      }
    }
  }

  /*
   * The site
   */

  /** The id of the document that holds the keywords, and its title. */
  const KEYWORDS_ID: string := "keywords"
  const KEYWORDS_TITLE: string := "Keywords"

  class Document {
    var title: string
    /** The keywords (`setSubject`). */
    var subject: seq<string>
    /** Hidden from the navigation (`setExcludeFromNav`, or `exclude_from_nav` on Dexterity content). */
    var excludeFromNav: bool
    /** Set while the document has just been created and not yet edited. */
    var creationFlag: bool
    /** Whether the catalog has been asked to reindex the document. */
    var reindexed: bool
    /** Dexterity content, as opposed to Archetypes content. */
    const dexterity: bool

    /** A new Document as `invokeFactory` makes it. */
    constructor (title: string, dexterity: bool)
      ensures this.title == title && this.dexterity == dexterity
      ensures subject == [] && !excludeFromNav && creationFlag && !reindexed
    {
      this.title := title;
      this.dexterity := dexterity;
      subject := [];
      excludeFromNav := false;
      creationFlag := true;
      reindexed := false;
    }
  }

  class Site {
    /** The site's content, by id. */
    var contents: map<string, Document>
    /** Whether new content is Dexterity content. */
    const dexterity: bool

    constructor (contents: map<string, Document>, dexterity: bool)
      ensures this.contents == contents && this.dexterity == dexterity
    {
      this.contents := contents;
      this.dexterity := dexterity;
    }

    /** `invokeFactory("Document", id, title=...)`: add a new document under an id not in use. */
    method InvokeFactory(id: string, title: string) returns (doc: Document)
      requires id !in contents
      modifies this
      ensures fresh(doc) && doc.title == title && doc.dexterity == dexterity
      ensures doc.subject == [] && !doc.excludeFromNav && doc.creationFlag && !doc.reindexed
      ensures contents == old(contents)[id := doc]
    {
      doc := new Document(title, dexterity);
      contents := contents[id := doc];
    }
  }

  /**
   * `importKeywords`.  No data file, or one without a non-empty line,
   * leaves the site as it is.  Otherwise the `keywords` document (the one
   * there, or a new one titled "Keywords") gets exactly the keywords as its
   * Subject, is hidden from the navigation, reindexed and no longer marked
   * as just created; nothing else changes.
   */
  method ImportKeywords(data: Option<string>, site: Site)
    modifies site, site.contents.Values
    ensures data.None? || ParseKeywords(data.value) == [] ==>
      site.contents == old(site.contents) && forall d :: d in old(site.contents).Values ==> unchanged(d)
    ensures data.Some? && ParseKeywords(data.value) != [] ==>
      && KEYWORDS_ID in site.contents
      && var doc := site.contents[KEYWORDS_ID];
      && (KEYWORDS_ID in old(site.contents) ==>
            site.contents == old(site.contents) && doc.title == old(doc.title))
      && (KEYWORDS_ID !in old(site.contents) ==>
            fresh(doc) && site.contents == old(site.contents)[KEYWORDS_ID := doc]
            && doc.title == KEYWORDS_TITLE && doc.dexterity == site.dexterity)
      && doc.subject == ParseKeywords(data.value)
      && doc.excludeFromNav && doc.reindexed && !doc.creationFlag
      && (forall d :: d in old(site.contents).Values && d != doc ==> unchanged(d))
  {
    if data.None? {
      return;
    }
    var keywordlist := ParseKeywords(data.value);
    if |keywordlist| < 1 {
      return;
    }
    var doc: Document;
    if KEYWORDS_ID in site.contents {
      doc := site.contents[KEYWORDS_ID];
    } else {
      doc := site.InvokeFactory(KEYWORDS_ID, KEYWORDS_TITLE);
    }
    doc.subject := keywordlist;
    // Dexterity content sets `exclude_from_nav`, Archetypes content calls `setExcludeFromNav`: the same flag here.
    doc.excludeFromNav := true;
    doc.reindexed := true;
    doc.creationFlag := false;
  }
}
