/** The shaping of an article's search-index document: the legacy topic string,
    the split of new-topic mappings into human-assigned and inferred ones, the
    keyword filter, the bulk-action choice, and the index as a map from article
    id to document. The search client itself is not modelled. */
module Indexing {
  import opened Entities

  // ---------------------------------------------------------------------
  // find_topics: legacy titles joined by spaces
  // ---------------------------------------------------------------------

  /** Python's str.isspace for one character. */
  predicate IsSpace(c: char)
  {
    c == ' ' || c == '\t' || c == '\n' || c == '\r' || c == '\U{000B}' || c == '\U{000C}'
    || ('\U{001C}' <= c <= '\U{001F}') || c == '\U{0085}' || c == '\U{00A0}' || c == '\U{1680}'
    || ('\U{2000}' <= c <= '\U{200A}') || c == '\U{2028}' || c == '\U{2029}' || c == '\U{202F}'
    || c == '\U{205F}' || c == '\U{3000}'
  }

  /** Python's str.rstrip() with no argument. */
  function RStrip(s: string): (r: string)
    ensures r <= s
    ensures r == [] || !IsSpace(r[|r| - 1])
    ensures forall k :: |r| <= k < |s| ==> IsSpace(s[k])
  {
    if s == [] then []
    else if IsSpace(s[|s| - 1]) then RStrip(s[..|s| - 1])
    else s
  }

  /** The string the loop of find_topics builds: every title followed by one space. */
  function Accumulated(titles: seq<string>): string
  {
    if titles == [] then "" else Accumulated(titles[..|titles| - 1]) + titles[|titles| - 1] + " "
  }

  /** The titles separated by single spaces. */
  function Joined(titles: seq<string>): string
  {
    if titles == [] then ""
    else if |titles| == 1 then titles[0]
    else Joined(titles[..|titles| - 1]) + " " + titles[|titles| - 1]
  }

  lemma {:induction false} AccumulatedIsJoinedPlusSpace(titles: seq<string>)
    requires titles != []
    ensures Accumulated(titles) == Joined(titles) + " "
    decreases |titles|
  {
    if |titles| > 1 {
      AccumulatedIsJoinedPlusSpace(titles[..|titles| - 1]);
    } else {
      assert titles[..0] == [];
    }
  }

  /** The last title is non-empty and does not end in whitespace. */
  predicate EndsInText(titles: seq<string>)
  {
    titles != [] && titles[|titles| - 1] != [] && !IsSpace(titles[|titles| - 1][|titles[|titles| - 1]| - 1])
  }

  lemma JoinedEndsInText(titles: seq<string>)
    requires EndsInText(titles)
    ensures Joined(titles) != [] && !IsSpace(Joined(titles)[|Joined(titles)| - 1])
  {
  }

  /** find_topics: the titles joined by spaces with trailing whitespace removed. */
  method FindTopics(titles: seq<string>) returns (topics: string)
    ensures topics == RStrip(Accumulated(titles))
    ensures titles == [] ==> topics == ""
    ensures EndsInText(titles) ==> topics == Joined(titles)
    ensures topics == [] || !IsSpace(topics[|topics| - 1])
  {
    topics := "";
    for i := 0 to |titles|
      invariant topics == Accumulated(titles[..i])
    {
      assert titles[..i + 1][..i] == titles[..i];
      topics := topics + titles[i] + " ";
    }
    assert titles[..|titles|] == titles;
    if EndsInText(titles) {
      AccumulatedIsJoinedPlusSpace(titles);
      JoinedEndsInText(titles);
      var j := Joined(titles);
      assert (j + " ")[..|j|] == j;
    }
    topics := RStrip(topics);
  }

  // ---------------------------------------------------------------------
  // find_new_topics: human-assigned versus inferred mappings
  // ---------------------------------------------------------------------

  /** The mapping rows whose origin is INFERRED (inferred = true) or is not (inferred = false), in order. */
  function RowsWhere(rows: seq<TopicAssignment>, inferred: bool): seq<TopicAssignment>
  {
    if rows == [] then []
    else (if (rows[0].origin == Inferred) == inferred then [rows[0]] else []) + RowsWhere(rows[1..], inferred)
  }

  /** The two lists are an exact partition of the rows: each row lands in the list its
      origin selects, and the two together hold every row exactly as often as the input. */
  lemma {:induction false} RowsWherePartition(rows: seq<TopicAssignment>)
    ensures forall x :: x in RowsWhere(rows, false) <==> x in rows && x.origin != Inferred
    ensures forall x :: x in RowsWhere(rows, true) <==> x in rows && x.origin == Inferred
    ensures multiset(RowsWhere(rows, false)) + multiset(RowsWhere(rows, true)) == multiset(rows)
    ensures |RowsWhere(rows, false)| + |RowsWhere(rows, true)| == |rows|
  {
    RowsWhereMembers(rows, false);
    RowsWhereMembers(rows, true);
    RowsWhereMultiset(rows);
  }

  lemma {:induction false} RowsWhereMembers(rows: seq<TopicAssignment>, inferred: bool)
    ensures forall x :: x in RowsWhere(rows, inferred) <==> x in rows && (x.origin == Inferred) == inferred
  {
    if rows != [] {
      RowsWhereMembers(rows[1..], inferred);
      assert forall x :: x in rows <==> x == rows[0] || x in rows[1..];
    }
  }

  lemma {:induction false} RowsWhereMultiset(rows: seq<TopicAssignment>)
    ensures multiset(RowsWhere(rows, false)) + multiset(RowsWhere(rows, true)) == multiset(rows)
    ensures |RowsWhere(rows, false)| + |RowsWhere(rows, true)| == |rows|
  {
    if rows != [] {
      RowsWhereMultiset(rows[1..]);
      assert rows == [rows[0]] + rows[1..];
    }
  }

  lemma {:induction false} TitlesOfTopics(rows: seq<TopicAssignment>)
    ensures |TitlesOf(TopicsOf(rows))| == |rows|
    ensures forall i :: 0 <= i < |rows| ==> TitlesOf(TopicsOf(rows))[i] == rows[i].topic.title
    ensures forall t :: t in TitlesOf(TopicsOf(rows)) <==> exists x :: x in rows && x.topic.title == t
  {
    if rows != [] {
      TitlesOfTopics(rows[1..]);
      assert forall x :: x in rows <==> x == rows[0] || x in rows[1..];
    }
  }

  lemma {:induction false} RowsWhereAppend(a: seq<TopicAssignment>, b: seq<TopicAssignment>, inferred: bool)
    ensures RowsWhere(a + b, inferred) == RowsWhere(a, inferred) + RowsWhere(b, inferred)
    decreases |a|
  {
    if a == [] {
      assert a + b == b;
    } else {
      assert (a + b)[0] == a[0] && (a + b)[1..] == a[1..] + b;
      RowsWhereAppend(a[1..], b, inferred);
    }
  }

  /** find_new_topics: the topics mapped with a non-inferred origin, then those mapped as INFERRED. */
  function FindNewTopics(rows: seq<TopicAssignment>): (seq<NewTopic>, seq<NewTopic>)
  {
    (TopicsOf(RowsWhere(rows, false)), TopicsOf(RowsWhere(rows, true)))
  }

  // ---------------------------------------------------------------------
  // document_from_article: the topic fields
  // ---------------------------------------------------------------------

  /** The article fields copied into the document as they are. */
  datatype ArticleFields = ArticleFields(title: string, authors: string, content: string,
                                         summary: string, language: string, url: string)

  datatype Document = Document(article: ArticleFields, topics: seq<string>, topicsInferred: seq<string>)

  /** The document for an article with the given new-topic mapping rows. Inferred labels
      go only to "topics_inferred", so "topics" carries human labels alone. */
  function DocumentFromArticle(article: ArticleFields, rows: seq<TopicAssignment>): (d: Document)
    ensures d.article == article
    ensures forall t :: t in d.topics <==> exists x :: x in rows && x.origin != Inferred && x.topic.title == t
    ensures forall t :: t in d.topicsInferred <==> exists x :: x in rows && x.origin == Inferred && x.topic.title == t
    ensures |d.topics| + |d.topicsInferred| == |rows|
    ensures |d.topics| == |RowsWhere(rows, false)| && |d.topicsInferred| == |RowsWhere(rows, true)|
    ensures forall i :: 0 <= i < |d.topics| ==> d.topics[i] == RowsWhere(rows, false)[i].topic.title
    ensures forall i :: 0 <= i < |d.topicsInferred| ==> d.topicsInferred[i] == RowsWhere(rows, true)[i].topic.title
  {
    RowsWherePartition(rows);
    TitlesOfTopics(RowsWhere(rows, false));
    TitlesOfTopics(RowsWhere(rows, true));
    var (human, inferred) := FindNewTopics(rows);
    Document(article, TitlesOf(human), TitlesOf(inferred))
  }

  /** Each mapping row contributes its title, once and in row order, to exactly the
      list its origin selects. */
  lemma DocumentFromArticleInOrder(article: ArticleFields, a: seq<TopicAssignment>, x: TopicAssignment,
                                   b: seq<TopicAssignment>)
    ensures var d := DocumentFromArticle(article, a + [x] + b);
            var da := DocumentFromArticle(article, a);
            var db := DocumentFromArticle(article, b);
            && d.topics == da.topics + (if x.origin != Inferred then [x.topic.title] else []) + db.topics
            && d.topicsInferred == da.topicsInferred + (if x.origin == Inferred then [x.topic.title] else []) + db.topicsInferred
  {
    TitlesWhereInOrder(a, x, b, false);
    TitlesWhereInOrder(a, x, b, true);
  }

  /** The titles of the rows with one kind of origin, in row order. */
  function TitlesWhere(rows: seq<TopicAssignment>, inferred: bool): seq<string>
  {
    TitlesOf(TopicsOf(RowsWhere(rows, inferred)))
  }

  lemma TitlesWhereInOrder(a: seq<TopicAssignment>, x: TopicAssignment, b: seq<TopicAssignment>, inferred: bool)
    ensures TitlesWhere(a + [x] + b, inferred)
            == TitlesWhere(a, inferred) + (if (x.origin == Inferred) == inferred then [x.topic.title] else [])
               + TitlesWhere(b, inferred)
  {
    RowsWhereAppend(a + [x], b, inferred);
    RowsWhereAppend(a, [x], inferred);
    var ra, rx, rb := RowsWhere(a, inferred), RowsWhere([x], inferred), RowsWhere(b, inferred);
    assert [x][1..] == [];
    TopicsOfAppend(ra + rx, rb);
    TopicsOfAppend(ra, rx);
    TitlesOfAppend(TopicsOf(ra + rx), TopicsOf(rb));
    TitlesOfAppend(TopicsOf(ra), TopicsOf(rx));
  }

  // ---------------------------------------------------------------------
  // find_filter_topic_keywords
  // ---------------------------------------------------------------------

  /** The keyword strings of the mapped topic keywords, minus the excluded ones, in query order. */
  function FilterTopicKeywords(keywords: seq<TopicKeyword>, excluded: set<string>): (r: seq<string>)
    ensures forall w :: w in r <==> w !in excluded && exists k :: k in keywords && k.keyword == w
  {
    if keywords == [] then []
    else
      var rest := FilterTopicKeywords(keywords[1..], excluded);
      assert forall k :: k in keywords <==> k == keywords[0] || k in keywords[1..];
      if keywords[0].keyword in excluded then rest else [keywords[0].keyword] + rest
  }

  /** The comprehension as written tests the topic-keyword record itself against the
      exclusion set of strings; a record never equals a string, so every keyword is kept. */
  function FilterTopicKeywordsAsWritten(keywords: seq<TopicKeyword>, excluded: set<string>): (r: seq<string>)
    ensures |r| == |keywords|
    ensures forall i :: 0 <= i < |r| ==> r[i] == keywords[i].keyword
  {
    if keywords == [] then [] else [keywords[0].keyword] + FilterTopicKeywordsAsWritten(keywords[1..], excluded)
  }

  lemma {:induction false} FilterTopicKeywordsAppend(a: seq<TopicKeyword>, b: seq<TopicKeyword>, excluded: set<string>)
    ensures FilterTopicKeywords(a + b, excluded) == FilterTopicKeywords(a, excluded) + FilterTopicKeywords(b, excluded)
    decreases |a|
  {
    if a == [] {
      assert a + b == b;
    } else {
      assert (a + b)[0] == a[0] && (a + b)[1..] == a[1..] + b;
      FilterTopicKeywordsAppend(a[1..], b, excluded);
    }
  }

  /** Each keyword that is not excluded contributes its string once, in query order;
      an excluded one contributes nothing. */
  lemma FilterTopicKeywordsInOrder(a: seq<TopicKeyword>, k: TopicKeyword, b: seq<TopicKeyword>, excluded: set<string>)
    ensures FilterTopicKeywords(a + [k] + b, excluded)
            == FilterTopicKeywords(a, excluded) + (if k.keyword in excluded then [] else [k.keyword])
               + FilterTopicKeywords(b, excluded)
  {
    FilterTopicKeywordsAppend(a + [k], b, excluded);
    FilterTopicKeywordsAppend(a, [k], excluded);
    assert FilterTopicKeywords([k], excluded) == (if k.keyword in excluded then [] else [k.keyword]) by {
      assert [k][1..] == [];
    }
  }

  /** An excluded keyword survives the filter as written but not the corrected one. */
  lemma ExcludedKeywordSurvivesAsWritten()
    ensures var kws := [TopicKeyword("news", "da", None)];
            FilterTopicKeywordsAsWritten(kws, {"news"}) == ["news"]
            && FilterTopicKeywords(kws, {"news"}) == []
  {
  }

  // ---------------------------------------------------------------------
  // The search index as a map from article id to document
  // ---------------------------------------------------------------------

  datatype OpType = Create | Update

  /** One action of a bulk request: _id, _index, _source and _op_type. */
  datatype BulkAction = BulkAction(id: int, index: string, source: Document, opType: OpType)

  class SearchIndex {
    const name: string
    var docs: map<int, Document>

    constructor (name: string)
      ensures this.name == name && docs == map[]
    {
      this.name := name;
      docs := map[];
    }

    /** create_or_update_bulk_docs: "update" for an id already indexed, "create" otherwise. */
    function CreateOrUpdateBulkDocs(articleId: int, article: ArticleFields, rows: seq<TopicAssignment>): (a: BulkAction)
      reads this
      ensures a.id == articleId && a.index == name && a.source == DocumentFromArticle(article, rows)
      ensures a.opType == Update <==> articleId in docs
    {
      var source := DocumentFromArticle(article, rows);
      BulkAction(articleId, name, source, if articleId in docs then Update else Create)
    }

    /** create_or_update: delete the article's document if present, then index the new one. */
    method CreateOrUpdate(articleId: int, article: ArticleFields, rows: seq<TopicAssignment>)
      modifies this
      ensures docs == old(docs)[articleId := DocumentFromArticle(article, rows)]
      ensures forall id :: id != articleId ==> (id in docs <==> id in old(docs))
      ensures forall id :: id != articleId && id in docs ==> docs[id] == old(docs)[id]
    {
      var doc := DocumentFromArticle(article, rows);
      if articleId in docs {
        docs := docs - {articleId};
      }
      docs := docs[articleId := doc];
    }

    /** remove_from_index: delete the article's document if it is there. */
    method RemoveFromIndex(articleId: int)
      modifies this
      ensures docs == old(docs) - {articleId}
      ensures articleId !in old(docs) ==> docs == old(docs)
      ensures forall id :: id != articleId && id in old(docs) ==> id in docs && docs[id] == old(docs)[id]
    {
      if articleId in docs {
        docs := docs - {articleId};
      }
    }
  }
}
