/** Records shared by the article downloader and the search-index shaping:
    topics of both taxonomies, the article-topic mapping rows and the
    URL-derived topic keywords. */
module Entities {

  datatype Option<+T> = None | Some(value: T)

  /** Why a new topic was attached to an article (TopicOriginType). */
  datatype OriginType = Hardset | UrlParsed | Inferred

  /** A language, identified by its code ("da", "fr", ...). */
  type Language = string

  /** A topic of the legacy taxonomy. */
  datatype Topic = Topic(id: int, title: string)

  /** A topic of the newer taxonomy. */
  datatype NewTopic = NewTopic(id: int, title: string)

  /** One row of the new article-topic map: a topic and its provenance. */
  datatype TopicAssignment = TopicAssignment(topic: NewTopic, origin: OriginType)

  /** A keyword found in an article URL, for one language, possibly linked to a new topic. */
  datatype TopicKeyword = TopicKeyword(keyword: string, language: Language, topic: Option<NewTopic>)

  /** A legacy topic as configured for one language; whether it matches an
      article is decided by an opaque predicate passed alongside. */
  datatype LocalizedTopic = LocalizedTopic(topic: Topic, language: Language)

  /** The topics of mapping rows, in order. */
  function TopicsOf(rows: seq<TopicAssignment>): seq<NewTopic>
  {
    if rows == [] then [] else [rows[0].topic] + TopicsOf(rows[1..])
  }

  lemma {:induction false} TopicsOfAt(rows: seq<TopicAssignment>)
    ensures |TopicsOf(rows)| == |rows|
    ensures forall i :: 0 <= i < |rows| ==> TopicsOf(rows)[i] == rows[i].topic
  {
    if rows != [] {
      TopicsOfAt(rows[1..]);
    }
  }

  /** The titles of topics, in order ([t.title for t in topics]). */
  function TitlesOf(topics: seq<NewTopic>): seq<string>
  {
    if topics == [] then [] else [topics[0].title] + TitlesOf(topics[1..])
  }

  lemma {:induction false} TopicsOfAppend(a: seq<TopicAssignment>, b: seq<TopicAssignment>)
    ensures TopicsOf(a + b) == TopicsOf(a) + TopicsOf(b)
    decreases |a|
  {
    if a == [] {
      assert a + b == b;
    } else {
      assert (a + b)[0] == a[0] && (a + b)[1..] == a[1..] + b;
      TopicsOfAppend(a[1..], b);
    }
  }

  lemma {:induction false} TitlesOfAppend(a: seq<NewTopic>, b: seq<NewTopic>)
    ensures TitlesOf(a + b) == TitlesOf(a) + TitlesOf(b)
    decreases |a|
  {
    if a == [] {
      assert a + b == b;
    } else {
      assert (a + b)[0] == a[0] && (a + b)[1..] == a[1..] + b;
      TitlesOfAppend(a[1..], b);
    }
  }
}
