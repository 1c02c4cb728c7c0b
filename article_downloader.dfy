/** The article-ingestion decisions of the feed crawler: which URLs are
    banned, how a summary is clipped, which legacy and new topics an article
    receives (and with which provenance), and the per-feed crawl bookkeeping.
    Collaborators (the database, the neighbour search, HTTP, HTML stripping)
    are replaced by the values they would produce. */
module ArticleDownloader {
  import opened Entities

  /** The parts of an article that topic assignment reads and writes. */
  class Article {
    const url: string
    const language: Language
    var topics: seq<Topic>                  // legacy topics, in the order added
    var newTopics: seq<TopicAssignment>     // new-topic mappings, in the order added
    var topicKeywords: seq<TopicKeyword>

    constructor (url: string, language: Language)
      ensures this.url == url && this.language == language
      ensures topics == [] && newTopics == [] && topicKeywords == []
    {
      this.url := url;
      this.language := language;
      topics := [];
      newTopics := [];
      topicKeywords := [];
    }
  }

  // ---------------------------------------------------------------------
  // Banned URLs
  // ---------------------------------------------------------------------

  const BANNED_URL_PREFIXES: seq<string> :=
    ["https://www.dr.dk/sporten/seneste-sport/", "https://www.dr.dk/nyheder/seneste/"]

  /** Whether url starts with one of the prefixes, tried in order. */
  function StartsWithAny(url: string, prefixes: seq<string>): (b: bool)
    ensures b <==> exists i :: 0 <= i < |prefixes| && prefixes[i] <= url
  {
    if prefixes == [] then false
    else if prefixes[0] <= url then true
    else
      var b := StartsWithAny(url, prefixes[1..]);
      assert forall i :: 1 <= i < |prefixes| ==> prefixes[i] == prefixes[1..][i - 1];
      b
  }

  function BannedUrl(url: string): (b: bool)
    ensures b <==> "https://www.dr.dk/sporten/seneste-sport/" <= url
                   || "https://www.dr.dk/nyheder/seneste/" <= url
  {
    var b := StartsWithAny(url, BANNED_URL_PREFIXES);
    assert |BANNED_URL_PREFIXES| == 2;
    assert BANNED_URL_PREFIXES[0] == "https://www.dr.dk/sporten/seneste-sport/";
    assert BANNED_URL_PREFIXES[1] == "https://www.dr.dk/nyheder/seneste/";
    b
  }

  // ---------------------------------------------------------------------
  // Summary clipping
  // ---------------------------------------------------------------------

  /** A summary shorter than this is replaced by the start of the article text. */
  const MIN_SUMMARY_LENGTH: nat := 10

  /** Python's s[:n] for a non-negative n. */
  function Take(s: string, n: nat): (r: string)
    ensures r <= s
    ensures |r| == if n < |s| then n else |s|
  {
    if n < |s| then s[..n] else s
  }

  /** The summary kept for a new article, from the summary with its HTML
      already stripped and the parsed article text. */
  function ClipSummary(strippedSummary: string, articleText: string, maxChars: nat): (r: string)
    ensures |r| <= maxChars
    ensures |Take(strippedSummary, maxChars)| >= MIN_SUMMARY_LENGTH ==> r == Take(strippedSummary, maxChars)
    ensures |Take(strippedSummary, maxChars)| < MIN_SUMMARY_LENGTH ==> r == Take(articleText, maxChars)
    ensures |r| < MIN_SUMMARY_LENGTH ==> r == Take(articleText, maxChars)
  {
    var clipped := Take(strippedSummary, maxChars);
    if |clipped| < MIN_SUMMARY_LENGTH then Take(articleText, maxChars) else clipped
  }

  // ---------------------------------------------------------------------
  // Legacy topics
  // ---------------------------------------------------------------------

  /** The test of add_topics for one catalog entry: the article's language, and the
      entry's own match against the article (short-circuited, as in the source). */
  predicate Matches(lt: LocalizedTopic, language: Language, accepts: LocalizedTopic -> bool)
  {
    lt.language == language && accepts(lt)
  }

  /** The catalog entries for the language that the predicate accepts, in catalog order. */
  function MatchingTopics(catalog: seq<LocalizedTopic>, language: Language,
                          accepts: LocalizedTopic -> bool): seq<LocalizedTopic>
  {
    if catalog == [] then []
    else
      var init := catalog[..|catalog| - 1];
      var last := catalog[|catalog| - 1];
      MatchingTopics(init, language, accepts)
        + (if Matches(last, language, accepts) then [last] else [])
  }

  function LegacyTopics(lts: seq<LocalizedTopic>): seq<Topic>
  {
    if lts == [] then [] else LegacyTopics(lts[..|lts| - 1]) + [lts[|lts| - 1].topic]
  }

  function LegacyTitles(lts: seq<LocalizedTopic>): seq<string>
  {
    if lts == [] then [] else LegacyTitles(lts[..|lts| - 1]) + [lts[|lts| - 1].topic.title]
  }

  /** An entry is matched exactly when it is in the catalog, has the article's
      language and is accepted by its predicate. */
  lemma {:induction false} MatchingTopicsMembers(catalog: seq<LocalizedTopic>, language: Language,
                                                 accepts: LocalizedTopic -> bool)
    ensures forall lt :: lt in MatchingTopics(catalog, language, accepts)
                         <==> lt in catalog && Matches(lt, language, accepts)
    ensures |MatchingTopics(catalog, language, accepts)| <= |catalog|
  {
    if catalog != [] {
      var init := catalog[..|catalog| - 1];
      assert catalog == init + [catalog[|catalog| - 1]];
      MatchingTopicsMembers(init, language, accepts);
    }
  }

  /** Matching is a filter: it distributes over concatenation, so the result keeps catalog order. */
  lemma {:induction false} MatchingTopicsAppend(a: seq<LocalizedTopic>, b: seq<LocalizedTopic>,
                                                language: Language, accepts: LocalizedTopic -> bool)
    ensures MatchingTopics(a + b, language, accepts)
            == MatchingTopics(a, language, accepts) + MatchingTopics(b, language, accepts)
    decreases |b|
  {
    if b == [] {
      assert a + b == a;
    } else {
      var init := b[..|b| - 1];
      assert (a + b)[..|a + b| - 1] == a + init;
      assert (a + b)[|a + b| - 1] == b[|b| - 1];
      MatchingTopicsAppend(a, init, language, accepts);
    }
  }

  /** The matches of one more catalog prefix extend those of the shorter one at the end. */
  lemma MatchingTopicsNext(catalog: seq<LocalizedTopic>, i: nat, language: Language,
                           accepts: LocalizedTopic -> bool)
    requires i < |catalog|
    ensures MatchingTopics(catalog[..i + 1], language, accepts)
            == MatchingTopics(catalog[..i], language, accepts)
               + (if Matches(catalog[i], language, accepts) then [catalog[i]] else [])
  {
    assert catalog[..i + 1][..i] == catalog[..i];
  }

  /** One more matched entry extends the legacy topics and titles at the end. */
  lemma LegacySnoc(m: seq<LocalizedTopic>, lt: LocalizedTopic)
    ensures LegacyTopics(m + [lt]) == LegacyTopics(m) + [lt.topic]
    ensures LegacyTitles(m + [lt]) == LegacyTitles(m) + [lt.topic.title]
  {
  }

  /** add_topics: record every matching legacy topic on the article and return their titles. */
  method AddTopics(article: Article, catalog: seq<LocalizedTopic>, accepts: LocalizedTopic -> bool)
    returns (titles: seq<string>)
    modifies article
    ensures titles == LegacyTitles(MatchingTopics(catalog, article.language, accepts))
    ensures article.topics
            == old(article.topics) + LegacyTopics(MatchingTopics(catalog, article.language, accepts))
    ensures article.newTopics == old(article.newTopics)
    ensures article.topicKeywords == old(article.topicKeywords)
  {
    var language := article.language;
    titles := [];
    ghost var matched: seq<LocalizedTopic> := [];
    for i := 0 to |catalog|
      invariant matched == MatchingTopics(catalog[..i], language, accepts)
      invariant titles == LegacyTitles(matched)
      invariant article.topics == old(article.topics) + LegacyTopics(matched)
      invariant article.newTopics == old(article.newTopics)
      invariant article.topicKeywords == old(article.topicKeywords)
    {
      var lt := catalog[i];
      MatchingTopicsNext(catalog, i, language, accepts);
      if Matches(lt, language, accepts) {
        LegacySnoc(matched, lt);
        ghost var added := LegacyTopics(matched);
        matched := matched + [lt];
        titles := titles + [lt.topic.title];
        article.topics := article.topics + [lt.topic];
        assert article.topics == old(article.topics) + (added + [lt.topic]);
      }
    }
    assert catalog[..|catalog|] == catalog;
  }

  // ---------------------------------------------------------------------
  // Topic keywords from the URL
  // ---------------------------------------------------------------------

  /** The keywords actually extracted, in extraction order (None entries dropped). */
  function PresentKeywords(extracted: seq<Option<string>>): (r: seq<string>)
    ensures forall k :: k in r <==> Some(k) in extracted
    ensures |r| <= |extracted|
    ensures None !in extracted ==> |r| == |extracted|
  {
    if extracted == [] then []
    else
      var rest := PresentKeywords(extracted[1..]);
      assert forall x :: x in extracted <==> x == extracted[0] || x in extracted[1..];
      match extracted[0]
      case None => rest
      case Some(k) => [k] + rest
  }

  lemma {:induction false} PresentKeywordsAppend(a: seq<Option<string>>, b: seq<Option<string>>)
    ensures PresentKeywords(a + b) == PresentKeywords(a) + PresentKeywords(b)
    decreases |a|
  {
    if a == [] {
      assert a + b == b;
    } else {
      assert (a + b)[0] == a[0] && (a + b)[1..] == a[1..] + b;
      PresentKeywordsAppend(a[1..], b);
    }
  }

  /** Each extracted keyword contributes itself, once and in its place, when it is
      not None, and nothing otherwise. */
  lemma PresentKeywordsInOrder(a: seq<Option<string>>, x: Option<string>, b: seq<Option<string>>)
    ensures PresentKeywords(a + [x] + b)
            == PresentKeywords(a) + (if x.Some? then [x.value] else []) + PresentKeywords(b)
  {
    PresentKeywordsAppend(a + [x], b);
    PresentKeywordsAppend(a, [x]);
    assert PresentKeywords([x]) == (if x.Some? then [x.value] else []) by {
      assert [x][1..] == [];
    }
  }

  /** TopicKeyword.find_or_create: the stored topic keyword for (keyword, language)
      if there is one, otherwise a new one linked to no topic. */
  function FindOrCreateKeyword(keyword: string, language: Language,
                               known: map<(string, Language), NewTopic>): (k: TopicKeyword)
    ensures k.keyword == keyword && k.language == language
    ensures k.topic.Some? <==> (keyword, language) in known
    ensures (keyword, language) in known ==> k.topic == Some(known[(keyword, language)])
  {
    TopicKeyword(keyword, language,
                 if (keyword, language) in known then Some(known[(keyword, language)]) else None)
  }

  /** The comprehension of add_topic_keywords: one topic keyword per extracted keyword. */
  function TopicKeywordsFor(extracted: seq<Option<string>>, language: Language,
                            known: map<(string, Language), NewTopic>): (r: seq<TopicKeyword>)
    ensures |r| == |PresentKeywords(extracted)|
    ensures forall i :: 0 <= i < |r| ==>
              r[i] == FindOrCreateKeyword(PresentKeywords(extracted)[i], language, known)
  {
    if extracted == [] then []
    else
      var rest := TopicKeywordsFor(extracted[1..], language, known);
      match extracted[0]
      case None => rest
      case Some(k) => [FindOrCreateKeyword(k, language, known)] + rest
  }

  /** add_topic_keywords: the article's keyword list is replaced by the new list, which is returned. */
  method AddTopicKeywords(article: Article, extracted: seq<Option<string>>,
                          known: map<(string, Language), NewTopic>)
    returns (keywords: seq<TopicKeyword>)
    modifies article
    ensures keywords == TopicKeywordsFor(extracted, article.language, known)
    ensures article.topicKeywords == keywords
    ensures article.topics == old(article.topics) && article.newTopics == old(article.newTopics)
  {
    keywords := TopicKeywordsFor(extracted, article.language, known);
    article.topicKeywords := keywords;
  }

  // ---------------------------------------------------------------------
  // New topics: hard-set feeds, URL keywords, semantic neighbours
  // ---------------------------------------------------------------------

  /** Feeds whose articles always receive one fixed new topic: feed id to topic id. */
  const HARDCODED_FEEDS: map<int, int> := map[102 := 8]

  /** The new topics linked to the keywords, in keyword order (keywords without a topic dropped). */
  function KeywordTopics(kws: seq<TopicKeyword>): seq<NewTopic>
  {
    if kws == [] then []
    else
      match kws[0].topic
      case None => KeywordTopics(kws[1..])
      case Some(t) => [t] + KeywordTopics(kws[1..])
  }

  /** The set of ids of the given topics. */
  function IdsOf(ts: seq<NewTopic>): set<int>
  {
    set i | 0 <= i < |ts| :: ts[i].id
  }

  /** No two of the topics share an id. */
  predicate DistinctIds(ts: seq<NewTopic>)
  {
    forall i, j :: 0 <= i < j < |ts| ==> ts[i].id != ts[j].id
  }

  /** The loop of add_new_topics over the keywords: keep each keyword topic whose
      id has not been seen yet (seen holds the ids already kept). */
  function UrlParsedTopics(kws: seq<TopicKeyword>, seen: set<int>): seq<NewTopic>
  {
    if kws == [] then []
    else
      match kws[0].topic
      case None => UrlParsedTopics(kws[1..], seen)
      case Some(t) =>
        if t.id in seen then UrlParsedTopics(kws[1..], seen)
        else [t] + UrlParsedTopics(kws[1..], seen + {t.id})
  }

  /** One step of the keyword loop at position i. */
  lemma UrlParsedTopicsStep(kws: seq<TopicKeyword>, i: nat, seen: set<int>)
    requires i < |kws|
    ensures UrlParsedTopics(kws[i..], seen)
            == match kws[i].topic
               case None => UrlParsedTopics(kws[i + 1..], seen)
               case Some(t) =>
                 if t.id in seen then UrlParsedTopics(kws[i + 1..], seen)
                 else [t] + UrlParsedTopics(kws[i + 1..], seen + {t.id})
  {
  }

  /** The kept topics are keyword topics with fresh ids, and no id is kept twice. */
  lemma {:induction false} UrlParsedTopicsDistinct(kws: seq<TopicKeyword>, seen: set<int>)
    ensures forall t :: t in UrlParsedTopics(kws, seen) ==> t.id !in seen && t in KeywordTopics(kws)
    ensures DistinctIds(UrlParsedTopics(kws, seen))
  {
    if kws != [] {
      match kws[0].topic
      case None =>
        UrlParsedTopicsDistinct(kws[1..], seen);
      case Some(t) =>
        if t.id in seen {
          UrlParsedTopicsDistinct(kws[1..], seen);
        } else {
          var rest := UrlParsedTopics(kws[1..], seen + {t.id});
          UrlParsedTopicsDistinct(kws[1..], seen + {t.id});
          assert forall j :: 0 <= j < |rest| ==> rest[j] in rest;
        }
    }
  }

  /** Reference definition of de-duplication by id: keep an element exactly
      when no earlier element carries the same id. */
  function FirstById(ts: seq<NewTopic>): seq<NewTopic>
  {
    if ts == [] then []
    else
      var init := ts[..|ts| - 1];
      var last := ts[|ts| - 1];
      FirstById(init) + (if last.id in IdsOf(init) then [] else [last])
  }

  lemma IdsOfSnoc(p: seq<NewTopic>, t: NewTopic)
    ensures IdsOf(p + [t]) == IdsOf(p) + {t.id}
  {
    assert forall i :: 0 <= i < |p| ==> (p + [t])[i] == p[i];
    assert (p + [t])[|p|] == t;
  }

  lemma FirstByIdSnoc(p: seq<NewTopic>, t: NewTopic)
    ensures FirstById(p + [t]) == FirstById(p) + (if t.id in IdsOf(p) then [] else [t])
    ensures IdsOf(p + [t]) == IdsOf(p) + {t.id}
  {
    assert (p + [t])[..|p|] == p;
    IdsOfSnoc(p, t);
  }

  /** The general form of the de-duplication lemma: after a prefix p of keyword topics,
      the loop (started with the ids of p as seen) yields what a de-duplication of the
      whole sequence adds after p. */
  lemma {:induction false} UrlParsedTopicsAfter(p: seq<NewTopic>, kws: seq<TopicKeyword>)
    ensures FirstById(p + KeywordTopics(kws)) == FirstById(p) + UrlParsedTopics(kws, IdsOf(p))
    decreases |kws|
  {
    if kws == [] {
      assert p + [] == p;
    } else {
      match kws[0].topic
      case None =>
        UrlParsedTopicsAfter(p, kws[1..]);
      case Some(t) =>
        assert p + KeywordTopics(kws) == (p + [t]) + KeywordTopics(kws[1..]);
        UrlParsedTopicsAfter(p + [t], kws[1..]);
        FirstByIdSnoc(p, t);
        if t.id in IdsOf(p) {
          assert IdsOf(p + [t]) == IdsOf(p);
          assert FirstById(p) + [] == FirstById(p);
        }
    }
  }

  /** The candidate list of add_new_topics is exactly the keyword topics
      de-duplicated by id, in first-occurrence order. */
  lemma UrlParsedTopicsAreFirstById(kws: seq<TopicKeyword>)
    ensures UrlParsedTopics(kws, {}) == FirstById(KeywordTopics(kws))
  {
    UrlParsedTopicsAfter([], kws);
    assert IdsOf([]) == {};
    assert [] + KeywordTopics(kws) == KeywordTopics(kws);
  }

  /** Every keyword topic whose id was not seen before is represented (by id) in the result. */
  lemma {:induction false} UrlParsedTopicsCover(kws: seq<TopicKeyword>, seen: set<int>, t: NewTopic)
    requires t in KeywordTopics(kws) && t.id !in seen
    ensures t.id in IdsOf(UrlParsedTopics(kws, seen))
    decreases |kws|
  {
    var r := UrlParsedTopics(kws, seen);
    match kws[0].topic
    case None =>
      UrlParsedTopicsCover(kws[1..], seen, t);
    case Some(u) =>
      if u.id in seen {
        UrlParsedTopicsCover(kws[1..], seen, t);
      } else if t.id == u.id {
        assert r[0] == u;
      } else {
        var rest := UrlParsedTopics(kws[1..], seen + {u.id});
        UrlParsedTopicsCover(kws[1..], seen + {u.id}, t);
        var j :| 0 <= j < |rest| && rest[j].id == t.id;
        assert r[j + 1] == rest[j];
      }
  }

  /** The new topics of every neighbour, neighbour by neighbour (the comprehension
      over a_found_t and a.new_topics); the origin of the neighbours' mappings is not consulted. */
  function NeighbourPool(neighbours: seq<seq<TopicAssignment>>): seq<NewTopic>
  {
    if neighbours == [] then [] else TopicsOf(neighbours[0]) + NeighbourPool(neighbours[1..])
  }

  /** A topic is in the pool exactly when some neighbour carries it. */
  lemma {:induction false} NeighbourPoolMembers(neighbours: seq<seq<TopicAssignment>>, t: NewTopic)
    ensures t in NeighbourPool(neighbours)
            <==> exists i, j :: 0 <= i < |neighbours| && 0 <= j < |neighbours[i]| && neighbours[i][j].topic == t
  {
    if neighbours != [] {
      NeighbourPoolMembers(neighbours[1..], t);
      var head := TopicsOf(neighbours[0]);
      TopicsOfAt(neighbours[0]);
      if t in head {
        var j :| 0 <= j < |head| && head[j] == t;
        assert neighbours[0][j].topic == t;
      }
      if exists i, j :: 0 <= i < |neighbours| && 0 <= j < |neighbours[i]| && neighbours[i][j].topic == t {
        var i, j :| 0 <= i < |neighbours| && 0 <= j < |neighbours[i]| && neighbours[i][j].topic == t;
        if i == 0 {
          assert head[j] == t;
        } else {
          assert neighbours[1..][i - 1][j].topic == t;
        }
      }
    }
  }

  /** How often t occurs in the pool (what collections.Counter counts). */
  function Count(pool: seq<NewTopic>, t: NewTopic): nat
  {
    multiset(pool)[t]
  }

  /** Counter(pool).most_common(1) scans the keys in first-insertion order and keeps
      the first one of maximal count; equivalently, the least position among the
      first n whose element has maximal count. */
  function MostCommonIndex(pool: seq<NewTopic>, n: nat): (k: nat)
    requires 0 < n <= |pool|
    ensures k < n
  {
    if n == 1 then 0
    else
      var k := MostCommonIndex(pool, n - 1);
      if Count(pool, pool[n - 1]) > Count(pool, pool[k]) then n - 1 else k
  }

  /** Among the first n positions, the chosen one has maximal count, and every
      earlier position has a strictly smaller count. */
  lemma {:induction false} MostCommonIndexMaximal(pool: seq<NewTopic>, n: nat)
    requires 0 < n <= |pool|
    ensures var k := MostCommonIndex(pool, n);
            && (forall i :: 0 <= i < n ==> Count(pool, pool[i]) <= Count(pool, pool[k]))
            && (forall i :: 0 <= i < k ==> Count(pool, pool[i]) < Count(pool, pool[k]))
  {
    if n > 1 {
      MostCommonIndexMaximal(pool, n - 1);
    }
  }

  function MostCommon(pool: seq<NewTopic>): NewTopic
    requires pool != []
  {
    pool[MostCommonIndex(pool, |pool|)]
  }

  /** The most common topic occurs at least as often as any topic, and it occurs
      before every other topic of the same count (ties go to the first seen). */
  lemma MostCommonIsFirstMaximal(pool: seq<NewTopic>)
    requires pool != []
    ensures MostCommon(pool) in pool
    ensures Count(pool, MostCommon(pool)) >= 1
    ensures forall t :: Count(pool, t) <= Count(pool, MostCommon(pool))
    ensures forall i :: 0 <= i < |pool| && Count(pool, pool[i]) == Count(pool, MostCommon(pool))
                        ==> MostCommonIndex(pool, |pool|) <= i
    ensures forall i :: 0 <= i < MostCommonIndex(pool, |pool|) ==> pool[i] != MostCommon(pool)
  {
    var k := MostCommonIndex(pool, |pool|);
    var r := pool[k];
    MostCommonIndexMaximal(pool, |pool|);
    forall t ensures Count(pool, t) <= Count(pool, r) {
      if t in pool {
        var i :| 0 <= i < |pool| && pool[i] == t;
      }
    }
  }

  /** The outcome of a new-topic resolution: which stage fired, or the error
      raised when the hard-set topic id is unknown. */
  datatype Decision =
    | HardsetTopic(topic: NewTopic)
    | KeywordTopicsFound(topics: seq<NewTopic>)
    | InferredTopic(topic: NewTopic)
    | NoNewTopic
    | UnknownTopicId(id: int)

  /** The decision add_new_topics takes, as a value. */
  function Decide(feedId: int, topicKeywords: seq<TopicKeyword>, neighbours: seq<seq<TopicAssignment>>,
                  topicsById: map<int, NewTopic>): Decision
  {
    if feedId in HARDCODED_FEEDS then
      var id := HARDCODED_FEEDS[feedId];
      if id in topicsById then HardsetTopic(topicsById[id]) else UnknownTopicId(id)
    else
      var topics := UrlParsedTopics(topicKeywords, {});
      if topics != [] then KeywordTopicsFound(topics) else InferFromNeighbours(neighbours)
  }

  /** The last stage: the most common topic of the neighbour pool, if the pool is not empty. */
  function InferFromNeighbours(neighbours: seq<seq<TopicAssignment>>): (d: Decision)
    ensures NeighbourPool(neighbours) != [] ==> d == InferredTopic(MostCommon(NeighbourPool(neighbours)))
    ensures NeighbourPool(neighbours) == [] ==> d == NoNewTopic
  {
    var pool := NeighbourPool(neighbours);
    if pool != [] && Count(pool, MostCommon(pool)) >= 1 then InferredTopic(MostCommon(pool))
    else if pool != [] then
      // the test count >= 1 (article_downloader.py:385) never fails on a non-empty pool
      MostCommonIsFirstMaximal(pool); NoNewTopic
    else NoNewTopic
  }

  /** The mappings recorded for the given topics, all with one origin, in order. */
  function AssignAll(ts: seq<NewTopic>, origin: OriginType): seq<TopicAssignment>
  {
    if ts == [] then [] else AssignAll(ts[..|ts| - 1], origin) + [TopicAssignment(ts[|ts| - 1], origin)]
  }

  /** AssignAll pairs each topic with the origin, position by position. */
  lemma {:induction false} AssignAllAt(ts: seq<NewTopic>, origin: OriginType)
    ensures |AssignAll(ts, origin)| == |ts|
    ensures forall i :: 0 <= i < |ts| ==> AssignAll(ts, origin)[i] == TopicAssignment(ts[i], origin)
  {
    if ts != [] {
      AssignAllAt(ts[..|ts| - 1], origin);
    }
  }

  /** One more topic extends the recorded mappings at the end. */
  lemma AssignAllSnoc(ts: seq<NewTopic>, t: NewTopic, origin: OriginType)
    ensures AssignAll(ts + [t], origin) == AssignAll(ts, origin) + [TopicAssignment(t, origin)]
  {
  }

  /** The mappings a decision records on the article. */
  function Recorded(d: Decision): seq<TopicAssignment>
  {
    match d
    case HardsetTopic(t) => [TopicAssignment(t, Hardset)]
    case KeywordTopicsFound(ts) => AssignAll(ts, UrlParsed)
    case InferredTopic(t) => [TopicAssignment(t, Inferred)]
    case NoNewTopic => []
    case UnknownTopicId(_) => []
  }

  /** What add_new_topics hands back: its (origin, titles) pair, or the exception
      raised when the hard-set topic cannot be found. */
  datatype NewTopicsResult =
    | Returned(origin: Option<OriginType>, titles: seq<string>)
    | Raised(unknownTopicId: int)

  function ResultOf(d: Decision): NewTopicsResult
  {
    match d
    case HardsetTopic(t) => Returned(Some(Hardset), [t.title])
    case KeywordTopicsFound(ts) => Returned(Some(UrlParsed), TitlesOf(ts))
    case InferredTopic(t) => Returned(Some(Inferred), [t.title])
    case NoNewTopic => Returned(None, [])
    case UnknownTopicId(id) => Raised(id)
  }

  /** The keyword loop of add_new_topics: each keyword topic not yet seen (by id)
      is kept and recorded as URL_PARSED, in keyword order. */
  method RecordKeywordTopics(article: Article, topicKeywords: seq<TopicKeyword>)
    returns (topics: seq<NewTopic>)
    modifies article
    ensures topics == UrlParsedTopics(topicKeywords, {})
    ensures article.newTopics == old(article.newTopics) + AssignAll(topics, UrlParsed)
    ensures article.topics == old(article.topics) && article.topicKeywords == old(article.topicKeywords)
  {
    topics := [];
    var topicsAdded: set<int> := {};
    assert topicKeywords[0..] == topicKeywords;
    for i := 0 to |topicKeywords|
      invariant topics + UrlParsedTopics(topicKeywords[i..], topicsAdded) == UrlParsedTopics(topicKeywords, {})
      invariant topicsAdded == IdsOf(topics)
      invariant article.newTopics == old(article.newTopics) + AssignAll(topics, UrlParsed)
      invariant article.topics == old(article.topics) && article.topicKeywords == old(article.topicKeywords)
    {
      UrlParsedTopicsStep(topicKeywords, i, topicsAdded);
      var topic := topicKeywords[i].topic;
      if topic.Some? {
        var t := topic.value;
        if t.id !in topicsAdded {
          IdsOfSnoc(topics, t);
          AssignAllSnoc(topics, t, UrlParsed);
          ghost var recorded := AssignAll(topics, UrlParsed);
          topicsAdded := topicsAdded + {t.id};
          topics := topics + [t];
          article.newTopics := article.newTopics + [TopicAssignment(t, UrlParsed)];
          assert article.newTopics == old(article.newTopics) + (recorded + [TopicAssignment(t, UrlParsed)]);
        }
      }
    }
    assert topics + [] == topics;
  }

  /** The neighbour stage of add_new_topics: the most common neighbour topic, recorded as INFERRED. */
  method RecordInferredTopic(article: Article, neighbours: seq<seq<TopicAssignment>>)
    returns (result: NewTopicsResult)
    modifies article
    ensures result == ResultOf(InferFromNeighbours(neighbours))
    ensures article.newTopics == old(article.newTopics) + Recorded(InferFromNeighbours(neighbours))
    ensures article.topics == old(article.topics) && article.topicKeywords == old(article.topicKeywords)
  {
    var pool := NeighbourPool(neighbours);
    if |pool| > 0 {
      var topTopic := MostCommon(pool);
      var count := Count(pool, topTopic);
      if count >= 1 {
        assert InferFromNeighbours(neighbours) == InferredTopic(topTopic);
        article.newTopics := article.newTopics + [TopicAssignment(topTopic, Inferred)];
        return Returned(Some(Inferred), [topTopic.title]);
      }
    }
    assert InferFromNeighbours(neighbours) == NoNewTopic;
    assert old(article.newTopics) + [] == old(article.newTopics);
    return Returned(None, []);
  }

  /** add_new_topics: the three-stage resolution, recording on the article as it goes. */
  method AddNewTopics(article: Article, feedId: int, topicKeywords: seq<TopicKeyword>,
                      neighbours: seq<seq<TopicAssignment>>, topicsById: map<int, NewTopic>)
    returns (result: NewTopicsResult)
    modifies article
    ensures result == ResultOf(Decide(feedId, topicKeywords, neighbours, topicsById))
    ensures article.newTopics
            == old(article.newTopics) + Recorded(Decide(feedId, topicKeywords, neighbours, topicsById))
    ensures article.topics == old(article.topics) && article.topicKeywords == old(article.topicKeywords)
  {
    if feedId in HARDCODED_FEEDS {
      var id := HARDCODED_FEEDS[feedId];
      if id !in topicsById {
        return Raised(id);
      }
      var topic := topicsById[id];
      article.newTopics := article.newTopics + [TopicAssignment(topic, Hardset)];
      return Returned(Some(Hardset), [topic.title]);
    }

    var topics := RecordKeywordTopics(article, topicKeywords);
    if |topics| > 0 {
      return Returned(Some(UrlParsed), TitlesOf(topics));
    }
    assert old(article.newTopics) + AssignAll(topics, UrlParsed) == old(article.newTopics);

    result := RecordInferredTopic(article, neighbours);
  }

  /** A hard-set feed gets its fixed topic, whatever the keywords and the neighbours. */
  lemma HardsetFeedWins(topicKeywords: seq<TopicKeyword>, neighbours: seq<seq<TopicAssignment>>,
                        topicsById: map<int, NewTopic>)
    requires 8 in topicsById
    ensures var d := Decide(102, topicKeywords, neighbours, topicsById);
            && ResultOf(d) == Returned(Some(Hardset), [topicsById[8].title])
            && Recorded(d) == [TopicAssignment(topicsById[8], Hardset)]
  {
  }

  /** Without a hard-set feed, any keyword topic decides, the neighbours are not
      consulted, and every candidate is recorded once, by id, with URL_PARSED. */
  lemma {:induction false} KeywordTopicsWin(feedId: int, topicKeywords: seq<TopicKeyword>,
                                            neighbours: seq<seq<TopicAssignment>>,
                                            otherNeighbours: seq<seq<TopicAssignment>>,
                                            topicsById: map<int, NewTopic>, t: NewTopic)
    requires feedId !in HARDCODED_FEEDS
    requires t in KeywordTopics(topicKeywords)
    ensures var d := Decide(feedId, topicKeywords, neighbours, topicsById);
            var candidates := FirstById(KeywordTopics(topicKeywords));
            && d == Decide(feedId, topicKeywords, otherNeighbours, topicsById)
            && ResultOf(d) == Returned(Some(UrlParsed), TitlesOf(candidates))
            && t.id in IdsOf(candidates)
            && Recorded(d) == AssignAll(candidates, UrlParsed)
            && forall i, j :: 0 <= i < j < |Recorded(d)| ==> Recorded(d)[i].topic.id != Recorded(d)[j].topic.id
  {
    var topics := UrlParsedTopics(topicKeywords, {});
    UrlParsedTopicsCover(topicKeywords, {}, t);
    assert topics != [];
    var d := Decide(feedId, topicKeywords, neighbours, topicsById);
    assert d == KeywordTopicsFound(topics);
    assert Decide(feedId, topicKeywords, otherNeighbours, topicsById) == d;
    UrlParsedTopicsAreFirstById(topicKeywords);
    UrlParsedTopicsDistinct(topicKeywords, {});
    AssignAllAt(topics, UrlParsed);
    var r := Recorded(d);
    forall i, j | 0 <= i < j < |r|
      ensures r[i].topic.id != r[j].topic.id
    {
      assert r[i].topic == topics[i] && r[j].topic == topics[j];
    }
  }

  /** Without a hard-set feed or keyword topics, a non-empty neighbour pool decides:
      its most frequent topic (first seen among equals) is recorded as INFERRED. */
  lemma NeighboursDecide(feedId: int, topicKeywords: seq<TopicKeyword>,
                         neighbours: seq<seq<TopicAssignment>>, topicsById: map<int, NewTopic>)
    requires feedId !in HARDCODED_FEEDS
    requires forall k :: k in topicKeywords ==> k.topic.None?
    requires NeighbourPool(neighbours) != []
    ensures var pool := NeighbourPool(neighbours);
            var d := Decide(feedId, topicKeywords, neighbours, topicsById);
            && d.InferredTopic?
            && d.topic in pool
            && (forall u :: Count(pool, u) <= Count(pool, d.topic))
            && (forall i :: 0 <= i < |pool| && pool[i] != d.topic && Count(pool, pool[i]) == Count(pool, d.topic)
                  ==> exists j :: 0 <= j < i && pool[j] == d.topic)
            && ResultOf(d) == Returned(Some(Inferred), [d.topic.title])
            && Recorded(d) == [TopicAssignment(d.topic, Inferred)]
  {
    var pool := NeighbourPool(neighbours);
    NoKeywordTopics(topicKeywords);
    MostCommonIsFirstMaximal(pool);
    var k := MostCommonIndex(pool, |pool|);
    forall i | 0 <= i < |pool| && pool[i] != pool[k] && Count(pool, pool[i]) == Count(pool, pool[k])
      ensures exists j :: 0 <= j < i && pool[j] == pool[k]
    {
      assert k != i;
    }
  }

  lemma {:induction false} NoKeywordTopics(topicKeywords: seq<TopicKeyword>)
    requires forall k :: k in topicKeywords ==> k.topic.None?
    ensures KeywordTopics(topicKeywords) == [] && UrlParsedTopics(topicKeywords, {}) == []
  {
    if topicKeywords != [] {
      assert topicKeywords[0] in topicKeywords;
      var rest := topicKeywords[1..];
      assert forall k :: k in rest ==> k in topicKeywords;
      NoKeywordTopics(rest);
    }
  }

  /** When no stage yields a topic the result is (None, []) and nothing is recorded. */
  lemma NothingFound(feedId: int, topicKeywords: seq<TopicKeyword>,
                     neighbours: seq<seq<TopicAssignment>>, topicsById: map<int, NewTopic>)
    requires feedId !in HARDCODED_FEEDS
    requires forall k :: k in topicKeywords ==> k.topic.None?
    requires forall n :: n in neighbours ==> n == []
    ensures var d := Decide(feedId, topicKeywords, neighbours, topicsById);
            ResultOf(d) == Returned(None, []) && Recorded(d) == []
  {
    NoKeywordTopics(topicKeywords);
    EmptyNeighbours(neighbours);
  }

  lemma {:induction false} EmptyNeighbours(neighbours: seq<seq<TopicAssignment>>)
    requires forall n :: n in neighbours ==> n == []
    ensures NeighbourPool(neighbours) == []
  {
    if neighbours != [] {
      assert neighbours[0] in neighbours;
      assert forall n :: n in neighbours[1..] ==> n in neighbours;
      EmptyNeighbours(neighbours[1..]);
    }
  }

  /** Every mapping one resolution records carries the origin it returns: at most one
      provenance per call. */
  lemma OneOriginPerCall(feedId: int, topicKeywords: seq<TopicKeyword>,
                         neighbours: seq<seq<TopicAssignment>>, topicsById: map<int, NewTopic>)
    ensures var d := Decide(feedId, topicKeywords, neighbours, topicsById);
            forall a :: a in Recorded(d) ==> ResultOf(d).Returned? && ResultOf(d).origin == Some(a.origin)
  {
    var d := Decide(feedId, topicKeywords, neighbours, topicsById);
    if d.KeywordTopicsFound? {
      AssignAllAt(d.topics, UrlParsed);
    }
  }

  /** The example of Counter's tie-break: A occurs twice in [A, B, A, C] and is chosen. */
  lemma MostCommonExample(a: NewTopic, b: NewTopic, c: NewTopic)
    requires a != b && a != c && b != c
    ensures MostCommon([a, b, a, c]) == a
  {
    var pool := [a, b, a, c];
    assert Count(pool, a) == 2;
    assert Count(pool, b) == 1;
    assert Count(pool, c) == 1;
    assert MostCommonIndex(pool, 1) == 0;
    assert MostCommonIndex(pool, 2) == 0;
    assert MostCommonIndex(pool, 3) == 0;
    assert MostCommonIndex(pool, 4) == 0;
  }

  // ---------------------------------------------------------------------
  // Per-feed crawl bookkeeping (download_from_feed)
  // ---------------------------------------------------------------------

  /** The feed fields the crawl reads and updates. */
  class Feed {
    const id: int
    var lastCrawledTime: int

    constructor (id: int, lastCrawledTime: int)
      ensures this.id == id && this.lastCrawledTime == lastCrawledTime
    {
      this.id := id;
      this.lastCrawledTime := lastCrawledTime;
    }
  }

  /** How download_feed_item ended for one item: it returned, or it raised one of these. */
  datatype DownloadOutcome =
    | Downloaded
    | SkippedForTooOld
    | SkippedForLowQuality
    | SkippedAlreadyInDB
    | FailedToParseWithReadabilityServer
    | NewspaperArticleError
    | DataError
    | RequestTimeout
    | OtherError

  /** A feed item: its publication time, the URL after redirects (None when resolving
      the redirects raised), and what downloading it would do. */
  datatype FeedItem = FeedItem(published: int, urlAfterRedirects: Option<string>, outcome: DownloadOutcome)

  /** The loop's variables: the three counters, the latest timestamp seen in this crawl,
      the feed's last crawled time, and how many items passed the limit check. */
  datatype CrawlState = CrawlState(downloaded: nat, skippedLowQuality: nat, skippedAlreadyInDb: nat,
                                   lastSeen: Option<int>, lastCrawled: int, examined: nat)

  /** The loop ran to its end (or stopped at the limit), or resolving a redirect raised out of it. */
  datatype CrawlEnd = Finished(state: CrawlState) | Aborted(state: CrawlState)

  function InitialState(lastCrawled: int): CrawlState
  {
    CrawlState(0, 0, 0, None, lastCrawled, 0)
  }

  /** The counter update for one download outcome. */
  function Tally(s: CrawlState, outcome: DownloadOutcome): CrawlState
  {
    match outcome
    case Downloaded => s.(downloaded := s.downloaded + 1)
    case SkippedForLowQuality => s.(skippedLowQuality := s.skippedLowQuality + 1)
    case SkippedAlreadyInDB => s.(skippedAlreadyInDb := s.skippedAlreadyInDb + 1)
    case _ => s
  }

  /** The state after the timestamp bookkeeping of a non-future item. */
  function SeeTimestamp(s: CrawlState, published: int): CrawlState
  {
    var seen := if s.lastSeen.None? || published > s.lastSeen.value then published else s.lastSeen.value;
    s.(lastSeen := Some(seen), lastCrawled := if seen > s.lastCrawled then seen else s.lastCrawled)
  }

  /** The crawl loop over the remaining items, as a function of the state it starts from. */
  function Crawl(items: seq<FeedItem>, now: int, limit: int, s: CrawlState): CrawlEnd
    decreases |items|
  {
    if items == [] then Finished(s)
    else
      var s0 := s.(skippedAlreadyInDb := 0);
      if s0.downloaded >= limit then Finished(s0)
      else
        var item := items[0];
        var s1 := s0.(examined := s0.examined + 1);
        if item.published > now then Crawl(items[1..], now, limit, s1)
        else
          var s2 := SeeTimestamp(s1, item.published);
          match item.urlAfterRedirects
          case None => Aborted(s2)
          case Some(url) =>
            if BannedUrl(url) then Crawl(items[1..], now, limit, s2)
            else Crawl(items[1..], now, limit, Tally(s2, item.outcome))
  }

  /** What the crawl reports (its closing log lines), or how it ended without reporting. */
  datatype CrawlReport =
    | Crawled(downloaded: nat, skippedLowQuality: nat, skippedAlreadyInDb: nat)
    | FeedItemsUnavailable
    | RedirectError

  function ReportOf(e: CrawlEnd): CrawlReport
  {
    match e
    case Finished(s) => Crawled(s.downloaded, s.skippedLowQuality, s.skippedAlreadyInDb)
    case Aborted(_) => RedirectError
  }

  /** download_from_feed over given feed items (None when fetching them raised),
      with the current time passed in. */
  method DownloadFromFeed(feed: Feed, fetchedItems: Option<seq<FeedItem>>, now: int, limit: int)
    returns (report: CrawlReport)
    modifies feed
    ensures fetchedItems.None? ==> report == FeedItemsUnavailable && feed.lastCrawledTime == old(feed.lastCrawledTime)
    ensures fetchedItems.Some? ==>
              var e := Crawl(fetchedItems.value, now, limit, InitialState(old(feed.lastCrawledTime)));
              report == ReportOf(e) && feed.lastCrawledTime == e.state.lastCrawled
    ensures feed.lastCrawledTime >= old(feed.lastCrawledTime)
  {
    if fetchedItems.None? {
      return FeedItemsUnavailable;
    }
    var items := fetchedItems.value;
    ghost var whole := Crawl(items, now, limit, InitialState(feed.lastCrawledTime));
    CrawlLastCrawledMonotone(items, now, limit, InitialState(feed.lastCrawledTime));

    var downloaded: nat := 0;
    var skippedLowQuality: nat := 0;
    var skippedAlreadyInDb: nat := 0;
    var lastSeen: Option<int> := None;
    ghost var examined: nat := 0;
    ghost var stopped := false;

    var i := 0;
    while i < |items|
      invariant 0 <= i <= |items|
      invariant !stopped ==> whole == Crawl(items[i..], now, limit,
        CrawlState(downloaded, skippedLowQuality, skippedAlreadyInDb, lastSeen, feed.lastCrawledTime, examined))
      invariant stopped ==> whole == Finished(
        CrawlState(downloaded, skippedLowQuality, skippedAlreadyInDb, lastSeen, feed.lastCrawledTime, examined))
    {
      var item := items[i];
      assert items[i..][0] == item && items[i..][1..] == items[i + 1..];
      skippedAlreadyInDb := 0;
      if downloaded >= limit {
        stopped := true;
        break;
      }
      examined := examined + 1;
      i := i + 1;

      if item.published > now {
        continue;
      }
      if lastSeen.None? || item.published > lastSeen.value {
        lastSeen := Some(item.published);
      }
      if lastSeen.value > feed.lastCrawledTime {
        feed.lastCrawledTime := lastSeen.value;
      }

      if item.urlAfterRedirects.None? {
        return RedirectError;
      }
      var url := item.urlAfterRedirects.value;
      if BannedUrl(url) {
        continue;
      }

      match item.outcome {
        case Downloaded => downloaded := downloaded + 1;
        case SkippedForLowQuality => skippedLowQuality := skippedLowQuality + 1;
        case SkippedAlreadyInDB => skippedAlreadyInDb := skippedAlreadyInDb + 1;
        case _ =>
      }
    }
    report := Crawled(downloaded, skippedLowQuality, skippedAlreadyInDb);
  }

  /** The feed's last crawled time never decreases. */
  lemma {:induction false} CrawlLastCrawledMonotone(items: seq<FeedItem>, now: int, limit: int, s: CrawlState)
    ensures Crawl(items, now, limit, s).state.lastCrawled >= s.lastCrawled
    decreases |items|
  {
    if items != [] && s.downloaded < limit {
      var item := items[0];
      var s1 := s.(skippedAlreadyInDb := 0, examined := s.examined + 1);
      if item.published > now {
        CrawlLastCrawledMonotone(items[1..], now, limit, s1);
      } else {
        var s2 := SeeTimestamp(s1, item.published);
        CrawlLastCrawledMonotone(items[1..], now, limit, s2);
        CrawlLastCrawledMonotone(items[1..], now, limit, Tally(s2, item.outcome));
      }
    }
  }

  /** The number of downloads never exceeds the limit (or the starting count, if
      that was already past it); once the limit is reached nothing more is examined. */
  lemma {:induction false} CrawlDownloadBound(items: seq<FeedItem>, now: int, limit: int, s: CrawlState)
    ensures var e := Crawl(items, now, limit, s);
            e.state.downloaded <= (if s.downloaded >= limit then s.downloaded else limit)
    ensures s.downloaded >= limit ==>
              var e := Crawl(items, now, limit, s);
              e.Finished? && e.state.downloaded == s.downloaded && e.state.examined == s.examined
              && e.state.lastCrawled == s.lastCrawled
    decreases |items|
  {
    if items != [] && s.downloaded < limit {
      var item := items[0];
      var s1 := s.(skippedAlreadyInDb := 0, examined := s.examined + 1);
      if item.published > now {
        CrawlDownloadBound(items[1..], now, limit, s1);
      } else {
        var s2 := SeeTimestamp(s1, item.published);
        CrawlDownloadBound(items[1..], now, limit, s2);
        CrawlDownloadBound(items[1..], now, limit, Tally(s2, item.outcome));
      }
    }
  }

  /** The loop leaves items unexamined only when it is aborted or the limit is reached. */
  lemma {:induction false} CrawlStopsOnlyAtLimit(items: seq<FeedItem>, now: int, limit: int, s: CrawlState)
    ensures var e := Crawl(items, now, limit, s);
            && s.examined <= e.state.examined <= s.examined + |items|
            && (e.state.examined < s.examined + |items| ==> e.Aborted? || e.state.downloaded >= limit)
    decreases |items|
  {
    if items != [] && s.downloaded < limit {
      var item := items[0];
      var s1 := s.(skippedAlreadyInDb := 0, examined := s.examined + 1);
      if item.published > now {
        CrawlStopsOnlyAtLimit(items[1..], now, limit, s1);
      } else {
        var s2 := SeeTimestamp(s1, item.published);
        CrawlStopsOnlyAtLimit(items[1..], now, limit, s2);
        CrawlStopsOnlyAtLimit(items[1..], now, limit, Tally(s2, item.outcome));
      }
    }
  }

  /** The latest timestamp seen is never ahead of the feed's last crawled time. */
  ghost predicate SeenBehindLastCrawled(s: CrawlState)
  {
    s.lastSeen.Some? ==> s.lastSeen.value <= s.lastCrawled
  }

  /** After the crawl, the feed's last crawled time is at least the timestamp of every
      examined item that is not dated in the future. */
  lemma {:induction false} CrawlCoversTimestamps(items: seq<FeedItem>, now: int, limit: int, s: CrawlState)
    requires SeenBehindLastCrawled(s)
    ensures var e := Crawl(items, now, limit, s);
            forall i :: 0 <= i < |items| && s.examined + i < e.state.examined && items[i].published <= now
                        ==> e.state.lastCrawled >= items[i].published
    decreases |items|
  {
    var e := Crawl(items, now, limit, s);
    if items != [] && s.downloaded < limit {
      var item := items[0];
      var s1 := s.(skippedAlreadyInDb := 0, examined := s.examined + 1);
      var next := if item.published > now then s1
                  else if item.urlAfterRedirects.Some? && !BannedUrl(item.urlAfterRedirects.value)
                  then Tally(SeeTimestamp(s1, item.published), item.outcome)
                  else SeeTimestamp(s1, item.published);
      if item.published > now || item.urlAfterRedirects.Some? {
        assert e == Crawl(items[1..], now, limit, next);
        CrawlCoversTimestamps(items[1..], now, limit, next);
        CrawlLastCrawledMonotone(items[1..], now, limit, next);
        forall i | 1 <= i < |items| && s.examined + i < e.state.examined && items[i].published <= now
          ensures e.state.lastCrawled >= items[i].published
        {
          assert items[1..][i - 1] == items[i];
        }
      }
    }
  }

  /** The feed's last crawled time is a running maximum: after the crawl it is either
      its starting value or the timestamp of an examined item not dated in the future. */
  lemma {:induction false} CrawlLastCrawledAttained(items: seq<FeedItem>, now: int, limit: int, s: CrawlState)
    requires SeenBehindLastCrawled(s)
    ensures var e := Crawl(items, now, limit, s);
            || e.state.lastCrawled == s.lastCrawled
            || exists i :: 0 <= i < |items| && s.examined + i < e.state.examined && items[i].published <= now
                           && e.state.lastCrawled == items[i].published
    decreases |items|
  {
    var e := Crawl(items, now, limit, s);
    if items != [] && s.downloaded < limit {
      var item := items[0];
      var s1 := s.(skippedAlreadyInDb := 0, examined := s.examined + 1);
      if item.published > now {
        CrawlLastCrawledAttained(items[1..], now, limit, s1);
        if e.state.lastCrawled != s.lastCrawled {
          ShiftAttained(items, now, s.examined, e.state.examined, e.state.lastCrawled);
        }
      } else {
        var s2 := SeeTimestamp(s1, item.published);
        assert s2.lastCrawled == s.lastCrawled || s2.lastCrawled == item.published;
        if item.urlAfterRedirects.Some? {
          var next := if BannedUrl(item.urlAfterRedirects.value) then s2 else Tally(s2, item.outcome);
          assert e == Crawl(items[1..], now, limit, next);
          CrawlLastCrawledAttained(items[1..], now, limit, next);
          CrawlStopsOnlyAtLimit(items[1..], now, limit, next);
          if e.state.lastCrawled == next.lastCrawled {
            assert s.examined + 0 < e.state.examined;
          } else {
            ShiftAttained(items, now, s.examined, e.state.examined, e.state.lastCrawled);
          }
        } else {
          assert s.examined + 0 < e.state.examined;
        }
      }
    }
  }

  /** A witness among the remaining items is a witness among all of them, one place later. */
  lemma ShiftAttained(items: seq<FeedItem>, now: int, start: int, examined: int, last: int)
    requires items != []
    requires exists i :: 0 <= i < |items| - 1 && start + 1 + i < examined && items[1..][i].published <= now
                         && last == items[1..][i].published
    ensures exists i :: 0 <= i < |items| && start + i < examined && items[i].published <= now
                        && last == items[i].published
  {
    var i :| 0 <= i < |items| - 1 && start + 1 + i < examined && items[1..][i].published <= now
             && last == items[1..][i].published;
    assert items[i + 1] == items[1..][i];
  }

  /** Whether the loop hands this item's outcome to the counters: it is not dated in the
      future, its redirects resolved, and its URL is not banned. */
  predicate Dispatched(item: FeedItem, now: int)
  {
    item.published <= now && item.urlAfterRedirects.Some? && !BannedUrl(item.urlAfterRedirects.value)
  }

  /** How many of the items are dispatched with the given outcome. */
  function CountDispatched(items: seq<FeedItem>, now: int, outcome: DownloadOutcome): nat
  {
    if items == [] then 0
    else (if Dispatched(items[0], now) && items[0].outcome == outcome then 1 else 0)
         + CountDispatched(items[1..], now, outcome)
  }

  /** downloaded counts exactly the examined items whose download returned, and
      skipped_due_to_low_quality exactly those rejected by the quality filter. */
  lemma {:induction false} CrawlCountsOutcomes(items: seq<FeedItem>, now: int, limit: int, s: CrawlState)
    ensures var e := Crawl(items, now, limit, s);
            var k := e.state.examined - s.examined;
            && 0 <= k <= |items|
            && e.state.downloaded == s.downloaded + CountDispatched(items[..k], now, Downloaded)
            && e.state.skippedLowQuality == s.skippedLowQuality + CountDispatched(items[..k], now, SkippedForLowQuality)
    decreases |items|
  {
    CrawlStopsOnlyAtLimit(items, now, limit, s);
    var e := Crawl(items, now, limit, s);
    if items != [] && s.downloaded < limit {
      var item := items[0];
      var s1 := s.(skippedAlreadyInDb := 0, examined := s.examined + 1);
      var k := e.state.examined - s.examined;
      if item.published <= now && item.urlAfterRedirects.None? {
        assert k == 1;
        assert items[..1] == [item];
        assert CountDispatched(items[..1][1..], now, Downloaded) == 0;
        assert CountDispatched(items[..1][1..], now, SkippedForLowQuality) == 0;
      } else {
        var next := if item.published > now then s1
                    else if !BannedUrl(item.urlAfterRedirects.value)
                    then Tally(SeeTimestamp(s1, item.published), item.outcome)
                    else SeeTimestamp(s1, item.published);
        assert e == Crawl(items[1..], now, limit, next);
        CrawlCountsOutcomes(items[1..], now, limit, next);
        CrawlStopsOnlyAtLimit(items[1..], now, limit, next);
        assert items[..k][1..] == items[1..][..k - 1];
      }
    }
  }

  /** skipped_already_in_db is reset at the start of every item, so the crawl ends with
      0 or 1, and with 1 only when the last item, examined and dispatched, was already stored. */
  lemma {:induction false} CrawlAlreadyInDbFlag(items: seq<FeedItem>, now: int, limit: int, s: CrawlState)
    requires items != []
    ensures var e := Crawl(items, now, limit, s);
            && e.state.skippedAlreadyInDb <= 1
            && (e.state.skippedAlreadyInDb == 1 ==>
                  && e.Finished?
                  && Dispatched(items[|items| - 1], now)
                  && items[|items| - 1].outcome == SkippedAlreadyInDB)
    decreases |items|
  {
    if s.downloaded < limit {
      var item := items[0];
      var s1 := s.(skippedAlreadyInDb := 0, examined := s.examined + 1);
      if item.published <= now && item.urlAfterRedirects.None? {
      } else {
        var next := if item.published > now then s1
                    else if !BannedUrl(item.urlAfterRedirects.value)
                    then Tally(SeeTimestamp(s1, item.published), item.outcome)
                    else SeeTimestamp(s1, item.published);
        if |items| > 1 {
          CrawlAlreadyInDbFlag(items[1..], now, limit, next);
          assert items[1..][|items| - 2] == items[|items| - 1];
        }
      }
    }
  }

  /** Two crawl ends that agree on everything but the examined count and the
      already-in-DB flag. */
  ghost predicate SameTally(a: CrawlEnd, b: CrawlEnd)
  {
    && a.Finished? == b.Finished?
    && a.state.downloaded == b.state.downloaded
    && a.state.skippedLowQuality == b.state.skippedLowQuality
    && a.state.lastSeen == b.state.lastSeen
    && a.state.lastCrawled == b.state.lastCrawled
  }

  lemma {:induction false} CrawlIgnoresFlagAndExamined(items: seq<FeedItem>, now: int, limit: int,
                                                       s: CrawlState, t: CrawlState)
    requires s.downloaded == t.downloaded && s.skippedLowQuality == t.skippedLowQuality
    requires s.lastSeen == t.lastSeen && s.lastCrawled == t.lastCrawled
    ensures SameTally(Crawl(items, now, limit, s), Crawl(items, now, limit, t))
    decreases |items|
  {
    if items != [] && s.downloaded < limit {
      var item := items[0];
      var s1 := s.(skippedAlreadyInDb := 0, examined := s.examined + 1);
      var t1 := t.(skippedAlreadyInDb := 0, examined := t.examined + 1);
      if item.published > now {
        CrawlIgnoresFlagAndExamined(items[1..], now, limit, s1, t1);
      } else if item.urlAfterRedirects.Some? {
        var s2 := SeeTimestamp(s1, item.published);
        var t2 := SeeTimestamp(t1, item.published);
        if BannedUrl(item.urlAfterRedirects.value) {
          CrawlIgnoresFlagAndExamined(items[1..], now, limit, s2, t2);
        } else {
          CrawlIgnoresFlagAndExamined(items[1..], now, limit, Tally(s2, item.outcome), Tally(t2, item.outcome));
        }
      }
    }
  }

  /** An item dated in the future changes no counter and no timestamp: removing it
      leaves the crawl's outcome as it was (up to the examined count and the
      already-in-DB flag, which every item start resets). */
  lemma {:induction false} FutureItemIgnored(p: seq<FeedItem>, f: FeedItem, q: seq<FeedItem>,
                                             now: int, limit: int, s: CrawlState)
    requires f.published > now
    ensures SameTally(Crawl(p + [f] + q, now, limit, s), Crawl(p + q, now, limit, s))
    decreases |p|
  {
    if p == [] {
      assert p + [f] + q == [f] + q && p + q == q;
      assert ([f] + q)[1..] == q;
      if s.downloaded < limit {
        var s1 := s.(skippedAlreadyInDb := 0, examined := s.examined + 1);
        CrawlIgnoresFlagAndExamined(q, now, limit, s1, s);
      } else if q != [] {
        assert Crawl(q, now, limit, s) == Finished(s.(skippedAlreadyInDb := 0));
      }
    } else {
      var item := p[0];
      assert (p + [f] + q)[0] == item && (p + q)[0] == item;
      assert (p + [f] + q)[1..] == p[1..] + [f] + q;
      assert (p + q)[1..] == p[1..] + q;
      if s.downloaded < limit {
        var s1 := s.(skippedAlreadyInDb := 0, examined := s.examined + 1);
        if item.published > now {
          FutureItemIgnored(p[1..], f, q, now, limit, s1);
        } else if item.urlAfterRedirects.Some? {
          var s2 := SeeTimestamp(s1, item.published);
          if BannedUrl(item.urlAfterRedirects.value) {
            FutureItemIgnored(p[1..], f, q, now, limit, s2);
          } else {
            FutureItemIgnored(p[1..], f, q, now, limit, Tally(s2, item.outcome));
          }
        }
      }
    }
  }
}

