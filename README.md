# Article ingestion and topic assignment: a Dafny model

This project models how the news crawler decides what happens to a fetched
article.

- It decides whether the article's URL is banned and how its summary is clipped.
- It decides which legacy topics and URL keywords the article receives.
- It decides which new-taxonomy topic(s) the article receives, and with which
  provenance: HARDSET, URL_PARSED or INFERRED.
- It keeps the per-feed crawl bookkeeping: the counters, the limit, and the
  feed's last crawled time.
- It shapes the search-index document for an article: the legacy topic
  string, the split between human-assigned and inferred new-topic labels, the
  keyword filter, and the create/update choice of a bulk action.

The modules are:

- `Entities`: the shared records.
  - `Topic` and `NewTopic` are the two taxonomies.
  - `TopicAssignment` is a row of the new article-topic map: a topic and its
    origin.
  - `TopicKeyword` is a keyword taken from a URL, possibly linked to a new
    topic.
  - `LocalizedTopic` is a legacy topic configured for one language.
- `ArticleDownloader`: the content-retriever logic.
  - The classes `Article` and `Feed` hold the fields the source updates in place.
  - `add_topics`, `add_topic_keywords`, `add_new_topics` and the crawl loop of
    `download_from_feed` are methods. Each is proved against a specification
    function: `MatchingTopics`, `TopicKeywordsFor`, `Decide` and `Crawl`.
  - The properties of the source are lemmas about those functions.
- `Indexing`: the search-index shaping.
  - The index is a `SearchIndex` class whose `docs` field is a map from
    article id to document. `create_or_update` and `remove_from_index` change
    that field.

The database, the neighbour search, HTTP, HTML stripping and the search
client are not modelled. They are replaced by the values they would produce:
- the localized-topic catalog (every `LocalizedTopic` row);
- the extracted URL keywords and the keyword table;
- the neighbours' mapping rows;
- the topic table;
- the feed items, each with its redirect result and download outcome;
- the current time.

Behaviour of the code that is easy to misread:

- In the URL_PARSED stage, every distinct keyword topic is recorded, not only
  the first one.
- `document_from_article` ignores its `topics` argument and always queries the
  mappings itself. The model's `DocumentFromArticle` therefore takes only the
  article fields and the mapping rows.
- The neighbour pool takes every mapping of every neighbour, INFERRED ones
  included. The code does not filter the pool by origin.
- `skipped_already_in_db` is reset to 0 at the start of every loop iteration.
  So the closing log line shows 0 or 1, never a running total.

## Model

| member | source | states |
|---|---|---|
| ArticleDownloader.StartsWithAny | zeeguu/core/content_retriever/article_downloader.py:56-59 | the loop returns true exactly when some listed prefix is a prefix of the URL |
| ArticleDownloader.BannedUrl | zeeguu/core/content_retriever/article_downloader.py:51-59 | a URL is banned exactly when it starts with the dr.dk "seneste-sport" or "nyheder/seneste" prefix |
| ArticleDownloader.ClipSummary | zeeguu/core/content_retriever/article_downloader.py:225-232 | the summary never exceeds the maximum length; the clipped summary is kept when it has at least 10 characters, otherwise the clipped article text replaces it; a kept summary shorter than 10 characters is always the text prefix |
| ArticleDownloader.MatchingTopics | zeeguu/core/content_retriever/article_downloader.py:340-345 | defines the selection of add_topics: the catalog entries for the article's language that match it, in catalog order (its properties are MatchingTopicsMembers and MatchingTopicsAppend) |
| ArticleDownloader.MatchingTopicsMembers | zeeguu/core/content_retriever/article_downloader.py:340-345 | a catalog entry is selected exactly when its language is the article's and it matches the article; no more entries than the catalog holds |
| ArticleDownloader.MatchingTopicsAppend | zeeguu/core/content_retriever/article_downloader.py:340-345 | the selection over a concatenated catalog is the concatenation of the selections, so catalog order is kept |
| ArticleDownloader.AddTopics | zeeguu/core/content_retriever/article_downloader.py:338-347 | the returned titles and the topics appended to the article are those of the matching entries, in catalog order; the new-topic mappings and the keywords are untouched |
| ArticleDownloader.PresentKeywords | zeeguu/core/content_retriever/article_downloader.py:398-399 | a keyword is kept exactly when it was extracted and is not None; nothing is dropped when no None was extracted |
| ArticleDownloader.PresentKeywordsInOrder | zeeguu/core/content_retriever/article_downloader.py:396-400 | each extracted keyword contributes itself once, in extraction order, when it is not None, and nothing when it is None |
| ArticleDownloader.FindOrCreateKeyword | zeeguu/core/content_retriever/article_downloader.py:397 | the record carries the keyword and the article's language, and has a topic exactly when the keyword table links one, namely the linked topic |
| ArticleDownloader.TopicKeywordsFor | zeeguu/core/content_retriever/article_downloader.py:396-400 | one record per present keyword, position by position, each found or created for the article's language |
| ArticleDownloader.AddTopicKeywords | zeeguu/core/content_retriever/article_downloader.py:395-403 | the article's topic keywords are replaced by, and the method returns, exactly those records; legacy topics and new-topic mappings are untouched |
| ArticleDownloader.UrlParsedTopics | zeeguu/core/content_retriever/article_downloader.py:360-369 | defines the keyword loop: each keyword topic whose id is not yet in the seen set is kept and its id added (its properties are the four UrlParsedTopics lemmas) |
| ArticleDownloader.UrlParsedTopicsDistinct | zeeguu/core/content_retriever/article_downloader.py:362-369 | every kept keyword topic is a keyword's topic not seen before, and no two kept topics share an id |
| ArticleDownloader.UrlParsedTopicsAreFirstById | zeeguu/core/content_retriever/article_downloader.py:360-369 | the keyword loop keeps exactly the first occurrence, by id, of each keyword topic, in keyword order |
| ArticleDownloader.UrlParsedTopicsAfter | zeeguu/core/content_retriever/article_downloader.py:362-369 | after any prefix, the loop adds the first occurrences by id of the rest that the prefix did not contain |
| ArticleDownloader.UrlParsedTopicsCover | zeeguu/core/content_retriever/article_downloader.py:362-369 | every keyword topic whose id was not seen before is represented, by id, among the kept topics |
| ArticleDownloader.NeighbourPool | zeeguu/core/content_retriever/article_downloader.py:380 | defines the pool: the topics of every mapping of every neighbour, in neighbour order (characterised by NeighbourPoolMembers) |
| ArticleDownloader.NeighbourPoolMembers | zeeguu/core/content_retriever/article_downloader.py:380 | a topic is in the pool exactly when some neighbour has a mapping to it |
| ArticleDownloader.MostCommonIndex | zeeguu/core/content_retriever/article_downloader.py:382-383 | the left-to-right scan behind most_common(1): the position it keeps lies within the scanned prefix (its maximality is MostCommonIndexMaximal) |
| ArticleDownloader.MostCommon | zeeguu/core/content_retriever/article_downloader.py:382-383 | defines the topic most_common(1) returns, the pool element at MostCommonIndex (characterised by MostCommonIsFirstMaximal) |
| ArticleDownloader.MostCommonIndexMaximal | zeeguu/core/content_retriever/article_downloader.py:382-383 | the scanned position holds a count no smaller than any earlier position's and strictly larger than every earlier position with a different topic |
| ArticleDownloader.MostCommonIsFirstMaximal | zeeguu/core/content_retriever/article_downloader.py:382-383 | the chosen topic is in the pool, occurs at least once, has the maximal count, and among topics of maximal count is the first one seen |
| ArticleDownloader.MostCommonExample | zeeguu/core/content_retriever/article_downloader.py:382-383 | in a pool A, B, A, C the topic A is chosen |
| ArticleDownloader.InferFromNeighbours | zeeguu/core/content_retriever/article_downloader.py:379-392 | a non-empty neighbour pool always yields its most common topic as INFERRED (the `count >= 1` test never fails); an empty pool yields no topic |
| ArticleDownloader.Decide | zeeguu/core/content_retriever/article_downloader.py:350-392 | defines the three-stage decision as a value: hard-set feed, else keyword topics, else the neighbour stage, and the unknown-topic error (its properties are HardsetFeedWins, KeywordTopicsWin, NeighboursDecide, NothingFound and OneOriginPerCall) |
| ArticleDownloader.AddNewTopics | zeeguu/core/content_retriever/article_downloader.py:350-392 | the result and the mappings appended to the article are those of the decision for the feed, the keywords and the neighbours; legacy topics and keywords are untouched |
| ArticleDownloader.RecordKeywordTopics | zeeguu/core/content_retriever/article_downloader.py:360-371 | the loop keeps the de-duplicated keyword topics and appends one URL_PARSED mapping for each, in order |
| ArticleDownloader.RecordInferredTopic | zeeguu/core/content_retriever/article_downloader.py:376-392 | the neighbour stage appends exactly the mapping its decision records and returns its outcome |
| ArticleDownloader.HardsetFeedWins | zeeguu/core/content_retriever/article_downloader.py:351-358 | feed 102 gets topic 8 as HARDSET, whatever the keywords and the neighbours, and only that mapping is recorded |
| ArticleDownloader.KeywordTopicsWin | zeeguu/core/content_retriever/article_downloader.py:360-374 | for any other feed with a keyword topic, the neighbours are irrelevant; the result is URL_PARSED with the titles of the first-by-id keyword topics, every keyword topic's id is among them, and the recorded mappings have distinct ids |
| ArticleDownloader.NoKeywordTopics | zeeguu/core/content_retriever/article_downloader.py:362-372 | keywords without topics yield no URL_PARSED candidate |
| ArticleDownloader.NeighboursDecide | zeeguu/core/content_retriever/article_downloader.py:376-391 | without a hard-set feed or keyword topics, a non-empty pool yields one INFERRED mapping to a most frequent topic, the first seen among equals, and returns its title |
| ArticleDownloader.NothingFound | zeeguu/core/content_retriever/article_downloader.py:360-392 | with no keyword topic and no neighbour mapping the result is (None, []) and nothing is recorded |
| ArticleDownloader.EmptyNeighbours | zeeguu/core/content_retriever/article_downloader.py:380-381 | neighbours without mappings give an empty pool |
| ArticleDownloader.OneOriginPerCall | zeeguu/core/content_retriever/article_downloader.py:350-392 | every mapping one call records carries the origin the call returns |
| ArticleDownloader.AssignAllAt | zeeguu/core/content_retriever/article_downloader.py:369-370 | each kept topic is recorded, position by position, with the URL_PARSED origin |
| ArticleDownloader.Crawl | zeeguu/core/content_retriever/article_downloader.py:97-194 | defines the crawl loop over the remaining items as a function of the loop state (its properties are the Crawl lemmas below) |
| ArticleDownloader.DownloadFromFeed | zeeguu/core/content_retriever/article_downloader.py:62-198 | when fetching the items fails, nothing changes and the crawl ends early; otherwise the report and the feed's new last crawled time are those of the crawl loop over the items; the last crawled time never decreases |
| ArticleDownloader.CrawlLastCrawledMonotone | zeeguu/core/content_retriever/article_downloader.py:110-116 | the feed's last crawled time never decreases during a crawl |
| ArticleDownloader.CrawlCoversTimestamps | zeeguu/core/content_retriever/article_downloader.py:104-116 | afterwards the last crawled time is at least the timestamp of every examined item not dated in the future |
| ArticleDownloader.CrawlLastCrawledAttained | zeeguu/core/content_retriever/article_downloader.py:104-116 | afterwards the last crawled time is its starting value or the timestamp of an examined item not dated in the future; with CrawlCoversTimestamps it is exactly the maximum of the two |
| ArticleDownloader.CrawlDownloadBound | zeeguu/core/content_retriever/article_downloader.py:97-145 | downloaded never exceeds the limit, or stays 0 when the limit is negative; once the limit is reached nothing more is examined or changed |
| ArticleDownloader.CrawlStopsOnlyAtLimit | zeeguu/core/content_retriever/article_downloader.py:97-134 | items are left unexamined only when a redirect failure aborts the loop or the limit is reached |
| ArticleDownloader.CrawlCountsOutcomes | zeeguu/core/content_retriever/article_downloader.py:136-160 | downloaded and skipped_due_to_low_quality count exactly the examined, dispatched items with those outcomes |
| ArticleDownloader.CrawlAlreadyInDbFlag | zeeguu/core/content_retriever/article_downloader.py:97-165 | skipped_already_in_db ends as 0 or 1, and as 1 only when the crawl finished and its last item was dispatched and already stored |
| ArticleDownloader.CrawlIgnoresFlagAndExamined | zeeguu/core/content_retriever/article_downloader.py:97-102 | the starting already-in-DB value and examined count do not affect the counters, timestamps or the way the crawl ends |
| ArticleDownloader.FutureItemIgnored | zeeguu/core/content_retriever/article_downloader.py:106-108 | inserting an item dated in the future anywhere changes neither downloaded, skipped_due_to_low_quality, the timestamps nor the way the crawl ends (it still resets skipped_already_in_db at line 99) |
| Indexing.RStrip | zeeguu/core/elastic/indexing.py:21 | the result is a prefix of the input, does not end in whitespace, and only whitespace was removed |
| Indexing.Accumulated | zeeguu/core/elastic/indexing.py:17-19 | defines the string the loop of find_topics builds, each title followed by one space (characterised by AccumulatedIsJoinedPlusSpace) |
| Indexing.AccumulatedIsJoinedPlusSpace | zeeguu/core/elastic/indexing.py:17-19 | the loop's string is the titles separated by single spaces plus one trailing space |
| Indexing.FindTopics | zeeguu/core/elastic/indexing.py:11-21 | the result is the accumulated string right-stripped: empty for no titles, the titles joined by single spaces when the last one ends in text, and never ending in whitespace |
| Indexing.FindNewTopics | zeeguu/core/elastic/indexing.py:24-39 | defines the pair of queries: the topics of the non-INFERRED rows, then those of the INFERRED rows (characterised by RowsWherePartition) |
| Indexing.RowsWherePartition | zeeguu/core/elastic/indexing.py:24-39 | the human and inferred lists hold exactly the non-INFERRED and INFERRED rows; together they are a permutation of the mappings |
| Indexing.TitlesOfTopics | zeeguu/core/elastic/indexing.py:65-69 | one title per row, and a title appears exactly when some row's topic has it |
| Indexing.DocumentFromArticle | zeeguu/core/elastic/indexing.py:56-77 | the article fields are copied; "topics" holds exactly the titles of the non-INFERRED mappings and "topics_inferred" those of the INFERRED ones, one title per mapping, position by position in row order |
| Indexing.DocumentFromArticleInOrder | zeeguu/core/elastic/indexing.py:65-69 | each mapping row contributes its title once, in row order, to exactly the list its origin selects |
| Indexing.FilterTopicKeywords | zeeguu/core/elastic/indexing.py:42-53 | a keyword string is returned exactly when some mapped keyword has it and it is not excluded |
| Indexing.FilterTopicKeywordsInOrder | zeeguu/core/elastic/indexing.py:48-52 | each mapped keyword that is not excluded contributes its string once, in query order; an excluded one contributes nothing |
| Indexing.FilterTopicKeywordsAsWritten | zeeguu/core/elastic/indexing.py:48-52 | the comprehension as written keeps every mapped keyword's string, one per keyword, in query order |
| Indexing.ExcludedKeywordSurvivesAsWritten | zeeguu/core/elastic/indexing.py:48-52 | the excluded keyword "news" survives the comprehension as written and not the corrected filter |
| Indexing.SearchIndex.CreateOrUpdateBulkDocs | zeeguu/core/elastic/indexing.py:93-106 | the action carries the article id, the index name and the article's document, and is "update" exactly when the id is already indexed |
| Indexing.SearchIndex.CreateOrUpdate | zeeguu/core/elastic/indexing.py:80-90 | afterwards the id maps to the new document and every other entry is unchanged |
| Indexing.SearchIndex.RemoveFromIndex | zeeguu/core/elastic/indexing.py:126-131 | the id is removed if present, a missing id changes nothing, and every other entry is unchanged |

## Left out

- tools/report_generator/generate_report.py is not part of this model. It produces reports and does not take ingestion decisions.
- Fetching feeds, resolving redirects, downloading, readability and newspaper parsing, and BeautifulSoup stripping are I/O. Each becomes a given value: `FeedItem.urlAfterRedirects`, `FeedItem.outcome`, and the stripped summary passed to `ClipSummary`.
- `download_feed_item` is represented only by the outcome it produces.
  - The quality filter (`sufficient_quality`) lives in another file and is represented only by the outcome `SkippedForLowQuality`.
  - The author joining (line 238), the article construction (lines 235-245) and the image URL (lines 247-249) are in this file but are not modelled: they build database records and take no decision the model tracks.
  - The French branch (lines 256-265) is not modelled. `DifficultyLingoRank` is not imported in this file, so for an article whose language code is "fr" line 262 raises before `retrieve_lingo_rank` runs. The handler at lines 322-331 then rolls the session back, and lines 266-306, the call of `add_new_topics` among them, are not reached. The model keeps `add_topics`, `add_topic_keywords` and `add_new_topics` as three separate methods, so it does not capture that French articles never reach the new-topic stage.
  - It downloads and parses the article twice, and builds a second article from the second parse. Only one pass is modelled.
  - Its calls of `add_topics`, `add_topic_keywords` and `add_new_topics` (lines 251-253 and 302-306) are modelled as three separate methods on an `Article`. They are not chained into one method.
- The neighbour search (`semantic_search_add_topics_based_on_neigh`) and the embeddings are remote calls. Their result enters as the mapping rows of each neighbour. A failure of that call is not modelled.
- Session add, commit and rollback, `Url.find_or_create`, sentry reporting, the mailer, logging and printing are side effects without decisions, and are left out.
- `index_in_elasticsearch` is left out. Its effect on the index is the map update of `CreateOrUpdate`, and it swallows every exception.
- How the search engine applies a bulk action is not modelled. `create_or_update_bulk_docs` only builds the action (modelled by `CreateOrUpdateBulkDocs`); the code that sends it, and the engine's create and update semantics, are outside these files.
- `ArticleDownloader.AddNewTopics`: assumes that `NewTopic.find_by_id` raises for an unknown hard-set topic id, so nothing is recorded (`UnknownTopicId`). That function is defined in zeeguu/core/model, which is not part of this model. If it returns None instead, `add_new_topic(None, ...)` would run before `topic.title` raises at line 358.
- The search-index client is a map: `es.exists`, `es.delete` and `es.index` are map membership, removal and update. The response objects are not modelled.
- The wall clock is the `now` parameter. "In the future" is `published > now`.
- `ArticleDownloader.DownloadFromFeed`: does not model a feed whose `last_crawled_time` is None. The comparison at line 115 would then fail, and the model takes an integer time.
- `MAX_CHAR_COUNT_IN_SUMMARY` and `ES_ZINDEX` are defined in zeeguu/core/model/article.py and zeeguu/core/elastic/settings.py. Those files are not part of this model, so both are parameters: `maxChars`, and `SearchIndex.name`.
- `Article.add_topic`, `add_new_topic` and `set_topic_keywords` live in zeeguu/core/model, which is not part of this model.
  - They are modelled as appending a row to, or replacing, a field of `Article`.
  - Duplicates are not suppressed across calls. Idempotence of repeated calls is therefore not a property of the model.
- `LocalizedTopic.matches_article` and `TopicKeyword.get_topic_keywords_from_url` live in zeeguu/core/model.
  - The first is an opaque predicate passed to `AddTopics`.
  - The second is the given list of extracted keywords.
  - The keyword table is a map from (keyword, language) to a topic.
- SQL row order is taken as the order of the given sequences. The mapping rows are assumed free of duplicate joins.
- `Counter.most_common(1)` is modelled as the first position in the pool whose topic has the maximal count. This is how CPython breaks ties, by first insertion.
- Topics are compared by value (id and title). Within one session, rows for the same id are the same object.
- `document_from_article` is modelled only for the fields that it copies or derives from the topic mappings.
  - `word_count`, `published_time`, `fk_difficulty`, `lr_difficulty`, `sem_vec` and `video` come from calls into other modules or are plain copies, and are not modelled.

## Findings

| source | as written | input that shows it | evidently intended | confidence | as-written member | corrected member |
|---|---|---|---|---|---|---|
| zeeguu/core/elastic/indexing.py:48-52 | the comprehension tests the topic-keyword record `t_key` against `TopicKeyword.EXCLUDE_TOPICS`; assuming that set holds keyword strings, a record is never a member, so every keyword is kept | a mapped keyword "news" with "news" in the exclusion set: the result is ["news"] | test the keyword string, `str(t_key.keyword) not in EXCLUDE_TOPICS`, so excluded keywords are dropped | medium, not executed; the contents of `EXCLUDE_TOPICS` are defined in zeeguu/core/model/topic_keyword.py, which is not part of this model | Indexing.ExcludedKeywordSurvivesAsWritten | Indexing.FilterTopicKeywords |
