# record-replay request-analysis core, in Dafny

record-replay records live API traffic and then analyses it. This project
models the part of that analysis that is decision logic over strings,
sequences and a given similarity matrix:

- the **request vectorizer** (`RequestVectorizer`). It flattens JSON-like
  bodies and query parameters into dotted or indexed keys, then builds a
  request's canonical string: the `path:`, `method:`, `body.`, `query.` and
  `header.` parts, sorted and joined by spaces. It also covers the degenerate
  return paths of `fit_transform`;
- the **request analyzer** (`RequestAnalyzer`). `_parse_status_code` parses
  statuses. The per-event loop of `_find_anomalies` applies the SQL-pattern,
  header, method, duration and status rules and the similarity threshold on
  a self-zeroed similarity row, and builds the top-3 reference list;
- the **similarity analyzer** (`SimilarityAnalyzer.find_anomalies`). It
  reports a request that has fewer than three neighbours above a threshold;
- the **two deduplicators**:
  - `APIDeduplicator.deduplicate` compares against every event that has not
    been kept yet. It is modelled as written, and a corrected first-fit
    variant sits beside it (see Findings);
  - `deduplicate_events` is a streaming first-fit filter on payload strings;
- the **bucketing step of `cluster_events`**, given the KMeans labels;
- the **chunk-accumulation loop of `TestGenerator.generate_streaming`**, and
  `_create_prompt`;
- **model selection** in `get_model_max_token_from_prompt`, over the
  `MODEL_INFO` table, with the padded token count of `get_tokens_len`.

Library numerics enter as inputs:

- the TF-IDF vectors and cosine similarity become the similarity matrix (a
  square `seq<seq<real>>`);
- KMeans becomes the labels;
- `fuzz.ratio` becomes a function `(string, string) -> 0..100`;
- the tiktoken length becomes a function `(string, model) -> nat`;
- whether `json.loads` accepts a text becomes a predicate;
- float rendering becomes a function `real -> string`.

A Python dict is a sequence of `(key, value)` pairs in insertion order. The
Python rule "`d[k] = v` overwrites in place or appends" is `Put`, and
`dict(items)` is `DictOf`.

Files, one module each:

| file | module | models |
|---|---|---|
| `text.dfy` | `Text` | ASCII lower-casing, substrings, `' '.join`, decimal rendering, `split()[0]`, code-point string order and `sorted` |
| `json_value.dfy` | `JsonValue` | JSON-like Python values, `str()`/`repr()`, `dict.get` |
| `wrappers.dfy` | `Wrappers` | `Option`, and the `Some` values of a sequence in order |
| `sequences.dfy` | `Sequences` | order-preserving subsequences |
| `fuzz.dfy` | `Fuzz` | the type of `fuzz.ratio` |
| `row_ops.dfy` | `RowOps` | `np.max`, the self-zeroed row copy, `np.argsort(row)[-3:]` |
| `vectorizer.dfy` | `Vectorizer` | src/analysis/vectorizer.py |
| `analyzer.dfy` | `Analyzer` | src/analysis/analyzer.py |
| `similarity.dfy` | `Similarity` | src/analysis/similarity.py |
| `deduplicator_v1.dfy` | `DeduplicatorV1` | src/analysis/deduplicator_v1.py |
| `deduplicator.dfy` | `Deduplicator` | src/analysis/deduplicator.py |
| `cluster.dfy` | `Cluster` | src/analysis/cluster.py |
| `test_utils.dfy` | `TestUtils` | src/generation/test_utils.py |
| `llm_utils.dfy` | `LlmUtils` | src/generation/llm_utils.py |

Each loop in the analyzer, similarity, deduplicator, cluster and
test-generation code is a `method` with a `while` or `for` loop. Its
`ensures` ties the result to a specification function, for example
`Analyzer.Anomalies`, `Similarity.Outliers`, `DeduplicatorV1.Unique`,
`Deduplicator.Deduplicated`, `Cluster.Buckets`, `TestUtils.Feed` or
`LlmUtils.Selection`. The lemmas beside it prove what the source promises
about that function. The vectorizer's loops build values that are read once
(the items of `_flatten_json`, the parts and the strings of `fit_transform`),
so they are recursive functions and sequence comprehensions: `EntryItems`,
`ListItems`, `HeaderParts` and `CanonicalStrings`. The one object whose field
the source updates in place, `RequestVectorizer.fitted`, is a class field.

### An event among its own references

The code does not remove an event from its own similarity row. It copies
the row and sets the event's own entry to 0 (src/analysis/analyzer.py:169-170)
and then takes `np.argsort(row)[-3:]` over the whole row
(src/analysis/analyzer.py:184). So when the batch has at most three events,
every event is a reference, the event itself included:
`Analyzer.ShortBatchReferencesAll` and `Analyzer.LoneEventFlagged` state
this. `SimilarityAnalyzer.find_anomalies` does the same: it zeroes the own
entry of a copy (src/analysis/similarity.py:32-33) and takes the top three
of the whole row (src/analysis/similarity.py:40), so in a batch of at most
three requests a reported request lists itself among its similar indices
(`Similarity.SmallBatchAllReported`).

## Model

| member | source | states |
|---|---|---|
| Text.JoinContains | src/analysis/vectorizer.py:75 | every part occurs as a substring of the parts joined by a separator |
| Text.StrLeTotal | src/analysis/vectorizer.py:75 | the code-point order `sorted` uses on strings is total |
| Text.StrLeAntisymmetric | src/analysis/vectorizer.py:75 | two strings that are each ≤ the other are equal |
| Text.StrLeTransitive | src/analysis/vectorizer.py:75 | the string order is transitive |
| Text.SortCorrect | src/analysis/vectorizer.py:75 | `sorted(parts)` is in order and is a permutation of `parts` |
| Text.SortedUnique | src/analysis/vectorizer.py:75 | two sorted permutations of the same multiset are equal, so the sorted order is unique |
| Text.SortPermutationInvariant | src/analysis/vectorizer.py:75 | `sorted` gives the same list for any two orderings of the same parts |
| Text.NatToString | src/analysis/vectorizer.py:44-46 | the decimal text of a list index is non-empty and all digits |
| Text.DigitsValueOfNatToString | src/analysis/analyzer.py:87 | reading back the decimal text of `n` gives `n` |
| Text.FirstWord | src/analysis/analyzer.py:87 | `split()[0]` contains no whitespace (the characters `str.isspace` accepts, Unicode spaces included), and there is no first word exactly when the text is all whitespace |
| Text.FirstWordOf | src/analysis/analyzer.py:87 | after leading whitespace, the first word is the run of non-space characters up to the next space or the end |
| Vectorizer.PutProps | src/analysis/vectorizer.py:49 | `d[k] = v` keeps keys distinct, adds `k`, gives `k` the value `v` and leaves every other key's value as it was |
| Vectorizer.PutAppends | src/analysis/vectorizer.py:49 | assigning a new key appends it at the end, as dict insertion order does |
| Vectorizer.LastValueNone | src/analysis/vectorizer.py:49 | a key has no value exactly when no item carries it |
| Vectorizer.DictOfIsDict | src/analysis/vectorizer.py:49 | `dict(items)` has distinct keys, the keys of `items`, and for each key the value of its last item: a later value wins on collision |
| Vectorizer.DictOfNoCollision | src/analysis/vectorizer.py:49 | when no key repeats, `dict(items)` keeps the items as they are, in order |
| Vectorizer.Flatten | src/analysis/vectorizer.py:20-49 | the flattened result is a dict (distinct keys), and under a non-empty prefix every key extends the prefix |
| Vectorizer.EntryItems | src/analysis/vectorizer.py:37-48 | every item a dict's entries contribute has a key extending the prefix |
| Vectorizer.ValueItems | src/analysis/vectorizer.py:39-48 | every item one dict value contributes under `new_key` has a key extending `new_key` |
| Vectorizer.ListItems | src/analysis/vectorizer.py:41-46 | every item a list contributes under `new_key` has a key extending `new_key` |
| Vectorizer.NoneInsideDict | src/analysis/vectorizer.py:47-48 | a `None` value inside a dict is kept as the string "None" under its key |
| Vectorizer.EmptyContainersVanish | src/analysis/vectorizer.py:37-46 | an empty nested dict and an empty list contribute no entries |
| Vectorizer.NestedScalar | src/analysis/vectorizer.py:37-40 | a nested dict's key is joined to the prefix with a dot: `{"b": y}` under `a` gives `a.b` |
| Vectorizer.CollisionLaterWins | src/analysis/vectorizer.py:37-49 | a literal key `a.b` and a nested `a` → `b` collide and the later value is the one kept |
| Vectorizer.IndexedKeysDistinct | src/analysis/vectorizer.py:41-46 | the keys `key.0`, `key.1`, … of a list's elements are pairwise distinct |
| Vectorizer.ListItemsOfScalars | src/analysis/vectorizer.py:41-46 | elements that are not dicts, nested lists included, give one `key.i` item each holding `str(element)`, with no recursion |
| Vectorizer.ListElementsIndexed | src/analysis/vectorizer.py:37-49 | a dict holding one list of non-dict elements flattens to exactly the indexed items, in order |
| Vectorizer.RequestParts | src/analysis/vectorizer.py:54-73 | there are 2 + \|body_flat\| + \|query_flat\| + \|headers\| parts, and the path and method parts are among them |
| Vectorizer.RequestToString | src/analysis/vectorizer.py:51-77 | the canonical string contains the `path:` and `method:` parts, so it is never empty |
| Vectorizer.PartOrderIrrelevant | src/analysis/vectorizer.py:75 | requests with the same multiset of parts have the same canonical string |
| Vectorizer.HeaderOrderIrrelevant | src/analysis/vectorizer.py:70-75 | reordering a request's headers does not change its canonical string |
| Vectorizer.FlatMapPermutation | src/analysis/vectorizer.py:37-48 | reordering the dict entries the loop visits only reorders the items it collects |
| Vectorizer.EntryItemsPermutation | src/analysis/vectorizer.py:37-48 | the items collected from a reordered dict are a permutation of those collected from the original |
| Vectorizer.PermutationKeysDistinct | src/analysis/vectorizer.py:49 | a permutation of items with distinct keys has distinct keys, so `dict(items)` keeps it unchanged too |
| Vectorizer.FlattenReordered | src/analysis/vectorizer.py:37-49 | without colliding flattened keys, `_flatten_json` of a reordered dict is a permutation of `_flatten_json` of the original |
| Vectorizer.BodyOrderIrrelevant | src/analysis/vectorizer.py:63-75 | without colliding flattened keys, reordering the body dict does not change the canonical string |
| Vectorizer.QueryOrderIrrelevant | src/analysis/vectorizer.py:67-75 | without colliding flattened keys, reordering the query-parameter dict does not change the canonical string |
| Vectorizer.MissingFieldsDefault | src/analysis/vectorizer.py:57-71 | missing path, method, body, query and headers give the same string as `''`, `''`, `{}`, `{}`, `{}` |
| Vectorizer.ZeroColumn | src/analysis/vectorizer.py:87 | definition: `np.zeros((n, 1))` has `n` rows, each the single value 0 |
| Vectorizer.CanonicalStrings | src/analysis/vectorizer.py:83 | definition: one canonical string per request |
| Vectorizer.AllEmptyOnlyForEmptyBatch | src/analysis/vectorizer.py:83-87 | every canonical string is empty exactly when the batch is empty |
| Vectorizer.RequestVectorizer.constructor | src/analysis/vectorizer.py:11-18 | a new vectorizer is not fitted |
| Vectorizer.RequestVectorizer.FitTransform | src/analysis/vectorizer.py:79-100 | the all-empty branch and a raised error both return one zero column per request and leave `fitted` alone; otherwise the TF-IDF matrix is returned and `fitted` becomes true |
| Analyzer.DropUnderscores | src/analysis/analyzer.py:87 | removing the underscores `int()` accepts leaves only digits, and a text of digits is unchanged |
| Analyzer.ParseStatusCode | src/analysis/analyzer.py:79-91 | an `int` status is returned unchanged; a text status gives the integer its first word spells when `int()` accepts that word, and 0 when it does not or when there is no word |
| Analyzer.ParseIntOfNat | src/analysis/analyzer.py:87 | `int()` of the decimal text of a natural number gives it back |
| Analyzer.ParseIntOfInt | src/analysis/analyzer.py:82-87 | `str()` of any integer is one non-empty word that `int()` reads back to the same integer |
| Analyzer.ParseIntOfNegative | src/analysis/analyzer.py:87 | `int("-" + digits)` is the negated value |
| Analyzer.ParseStatusCodeOfText | src/analysis/analyzer.py:85-88 | whitespace, an integer, then nothing or whitespace and anything: the status parses to that integer |
| Analyzer.ParseStatusCodeOfWord | src/analysis/analyzer.py:87-91 | a first word containing a letter raises `ValueError` and gives 0 |
| Analyzer.StatusWithReasonPhrase | src/analysis/analyzer.py:80-88 | "200 OK" parses to 200 |
| Analyzer.StatusWithNoBreakSpace | src/analysis/analyzer.py:85-88 | "200\u00A0OK" parses to 200: a no-break space ends the first word as `split()` does |
| Analyzer.NoneStatus | src/analysis/analyzer.py:85-91 | a `None` status, rendered "None", parses to 0 |
| Analyzer.PatternReasonsHas | src/analysis/analyzer.py:116-121 | a pattern that some value contains, ignoring case, adds its reason |
| Analyzer.PatternReasonsSound | src/analysis/analyzer.py:116-121 | at most one reason per pattern, and every reason names a pattern that some value contains, ignoring case |
| Analyzer.PatternReasonsNonEmpty | src/analysis/analyzer.py:114-133 | a pattern loop adds a reason exactly when some pattern matches some value |
| Analyzer.DropTableMatches | src/analysis/analyzer.py:114-121 | a query value containing "drop table" in any case gives the reason "Suspicious SQL pattern found: DROP TABLE" |
| Analyzer.DropTableReported | src/analysis/analyzer.py:114-121 | such an event is reported, and its description contains that reason |
| RowOps.SelfZeroedMax | src/analysis/analyzer.py:169-171 | the max of the self-zeroed row is ≥ 0, bounds every other entry, and is 0 or some other entry's similarity |
| Analyzer.MaxBelowThreshold | src/analysis/analyzer.py:169-174 | the max of the self-zeroed row is below 0.7 exactly when every other event's similarity is below 0.7 |
| Analyzer.MatchPatterns | src/analysis/analyzer.py:117-121 | the pattern loop collects the reasons of the matching patterns, in pattern order |
| Analyzer.RuleReasons | src/analysis/analyzer.py:110-166 | the query, header, method, duration and status checks add their reasons in that order, and `is_anomaly` holds exactly when one was added |
| Analyzer.RefsOf | src/analysis/analyzer.py:189-200 | one reference snapshot per index, in index-list order |
| Analyzer.BuildReferences | src/analysis/analyzer.py:184-200 | the reference loop builds the snapshots of `argsort(row)[-3:]` |
| Analyzer.ReferencesShape | src/analysis/analyzer.py:184-200 | there are min(3, n) references in ascending order of similarity, the last one at the row's max |
| Analyzer.AnalyzeEvent | src/analysis/analyzer.py:104-212 | one iteration of the event loop produces the result `Check` defines for that event |
| Analyzer.FlaggedIff | src/analysis/analyzer.py:110-180 | an event gives a result exactly when a query value holds an SQL pattern, a header value holds a scanner pattern, the method is TRACE, CONNECT or OPTIONS, the duration is over 1000, the parsed status is ≥ 400, or no other event is 0.7-similar |
| Analyzer.ResultFields | src/analysis/analyzer.py:202-208 | a result carries the event's id, the constant anomaly type, the self-zeroed max as its score whichever rule fired, and min(3, n) references in ascending similarity ending at that score |
| Analyzer.ReasonDescribed | src/analysis/analyzer.py:206 | every reason added for an event occurs in the result's description |
| Analyzer.ShortBatchReferencesAll | src/analysis/analyzer.py:184-191 | in a batch of at most three, every event, the event itself included, is among a result's references |
| Analyzer.LoneEventFlagged | src/analysis/analyzer.py:169-200 | a lone event is always reported, with score 0 and itself as its only reference |
| Analyzer.Results | src/analysis/analyzer.py:104-212 | definition: one outcome per event, each the one `Check` defines |
| Analyzer.AnomaliesAreResults | src/analysis/analyzer.py:180-212 | the output holds every event's result and nothing else, at most one per event, and each prefix of the loop's output is a prefix of it |
| Analyzer.FindAnomalies | src/analysis/analyzer.py:93-218 | the loop over events returns `Anomalies`: the results of the reported events, in event order |
| RowOps.SelfZeroed | src/analysis/similarity.py:32-33 | the copy has the same length, 0 at the event's own index and every other entry unchanged |
| RowOps.CopyZeroed | src/analysis/similarity.py:32-33 | copying the row and setting its self-entry to 0 on the copy, in place, gives `SelfZeroed` (the same step as src/analysis/analyzer.py:169-170) |
| RowOps.Max | src/analysis/similarity.py:39 | `np.max` bounds every entry and is one of them |
| RowOps.ArgSortUpTo | src/analysis/similarity.py:40 | `argsort` lists every index exactly once |
| RowOps.ArgSort | src/analysis/similarity.py:40 | `argsort` of a row lists each of its indices |
| RowOps.ArgSortOrdered | src/analysis/similarity.py:40 | `argsort` lists the indices in ascending order of value, equal values by index |
| RowOps.TopThree | src/analysis/similarity.py:40 | `argsort(row)[-3:]` holds min(3, n) indices of the row |
| RowOps.TopThreeLargest | src/analysis/similarity.py:40 | those indices are distinct, in ascending order of value, and no index left out has a larger value than one taken |
| RowOps.TopThreeOfShortRow | src/analysis/similarity.py:40 | with at most three entries, every index is taken |
| Similarity.Above | src/analysis/similarity.py:36 | `np.where(row > threshold)[0]` holds exactly the indices above the threshold, in increasing order |
| Similarity.WhereAbove | src/analysis/similarity.py:36 | the loop computes `np.where(row > threshold)[0]` |
| Similarity.CheckRequest | src/analysis/similarity.py:32-41 | one iteration reports request `i` as `OutlierAt` says |
| Similarity.Checks | src/analysis/similarity.py:30-41 | definition: one outcome per request, each the one `OutlierAt` defines |
| Similarity.SimilarityAnalyzer.constructor | src/analysis/similarity.py:7-9 | the threshold is the one given, 0.8 by default |
| Similarity.SimilarityAnalyzer.FindAnomalies | src/analysis/similarity.py:11-46 | fewer than 2 requests, or a raised error, give `[]`; otherwise the reported requests in index order |
| Similarity.AboveSelfZeroed | src/analysis/similarity.py:32-36 | the count above the threshold in the self-zeroed row is the count of other requests above it, plus 1 only when the threshold is negative |
| Similarity.AboveSelfZeroedSet | src/analysis/similarity.py:32-36 | the indices above the threshold in the self-zeroed row are the other requests above it, plus the request itself only when the threshold is negative |
| Similarity.OthersAboveBound | src/analysis/similarity.py:36 | at most n − 1 other requests are above the threshold |
| Similarity.ReportedIff | src/analysis/similarity.py:36-41 | request `i` is listed exactly when fewer than 3 indices of its self-zeroed row are strictly above the threshold |
| Similarity.OutlierAtWellFormed | src/analysis/similarity.py:38-40 | a reported tuple carries its index; its score is ≥ 0, bounds every other request's similarity and is 0 or attained by another request; its min(3, n) neighbours are the largest entries of the self-zeroed row, least similar first |
| Similarity.OutlierFields | src/analysis/similarity.py:38-41 | every tuple in the output is well formed in that sense, score attainment included |
| Similarity.OutliersInOrder | src/analysis/similarity.py:30-41 | tuples are emitted in strictly increasing index order |
| Similarity.SmallBatchReported | src/analysis/similarity.py:32-40 | with at most three requests and a threshold ≥ 0, request `i` has fewer than 3 neighbours above the threshold and appears among its own top three |
| Similarity.SmallBatchAllReported | src/analysis/similarity.py:36-41 | a batch of 2 or 3 reports every request, in order, each listing itself among its neighbours |
| DeduplicatorV1.APIDeduplicator.constructor | src/analysis/deduplicator_v1.py:7-9 | the thresholds are the ones given, 0.7 and 80 by default |
| DeduplicatorV1.FirstHit | src/analysis/deduplicator_v1.py:44-61 | the inner loop breaks exactly when some other not-yet-kept event is near, at the first such index |
| DeduplicatorV1.APIDeduplicator.Deduplicate | src/analysis/deduplicator_v1.py:23-67 | the nested loops return `Unique`, the as-written outcome |
| DeduplicatorV1.PassInvariant | src/analysis/deduplicator_v1.py:33-65 | after each outer step, `seen_event_ids` is the set of kept ids, kept ids are pairwise distinct, and the kept events are a subsequence of those looked at |
| DeduplicatorV1.UniqueIsSubsequence | src/analysis/deduplicator_v1.py:33-67 | the output is an order-preserving subsequence of the input, with distinct ids, and is no longer than the input |
| DeduplicatorV1.KeptIff | src/analysis/deduplicator_v1.py:40-65 | event `i` is kept exactly when its id is not yet kept and, for every other index `j` whose id is not kept, earlier or later, the cosine is below the semantic threshold and the fuzzy ratio below the fuzzy threshold; otherwise nothing changes |
| DeduplicatorV1.MutualPairDropped | src/analysis/deduplicator_v1.py:44-65 | two events with distinct ids that are near each other are both dropped |
| DeduplicatorV1.IdenticalPairDropped | src/analysis/deduplicator_v1.py:44-65 | two events with the same payload and ids 1 and 2 give `[]` under the default thresholds |
| DeduplicatorV1.FirstFit | src/analysis/deduplicator_v1.py:40-65 | corrected variant: the kept positions are increasing, and the first event is always kept |
| DeduplicatorV1.FirstFitCovers | src/analysis/deduplicator_v1.py:40-65 | corrected variant: every dropped event repeats the id of, or is near, a kept event before it |
| DeduplicatorV1.FirstFitSeparated | src/analysis/deduplicator_v1.py:40-65 | corrected variant: kept events have distinct ids, and no kept event is near an earlier kept one |
| DeduplicatorV1.UniqueFirstFitIsSubsequence | src/analysis/deduplicator_v1.py:33-67 | corrected variant: the output is an order-preserving subsequence of the input |
| DeduplicatorV1.FirstFitPairKeepsFirst | src/analysis/deduplicator_v1.py:44-65 | corrected variant: of two close events the first one stays |
| Deduplicator.Body | src/analysis/deduplicator.py:31 | definition: a missing `request_body` is `{}` |
| Deduplicator.CalculateSimilarity | src/analysis/deduplicator.py:9-14 | the similarity is in [0, 1], and is 1 exactly when the ratio is 100 |
| Deduplicator.AnySimilar | src/analysis/deduplicator.py:35-39 | the loop over `seen_payloads` finds a similar string exactly when one exists, whatever the set's iteration order |
| Deduplicator.DeduplicateEvents | src/analysis/deduplicator.py:16-47 | the loop returns `Deduplicated` (default threshold 0.8) |
| Deduplicator.PassInvariant | src/analysis/deduplicator.py:27-44 | after each step, `seen_payloads` is the set of payload strings of the kept events, and the kept events are a subsequence of those looked at |
| Deduplicator.DeduplicatedShape | src/analysis/deduplicator.py:27-47 | the output is an order-preserving subsequence, no longer than the input, and starts with the first event |
| Deduplicator.FirstKept | src/analysis/deduplicator.py:28-44 | the first event is always kept, since nothing has been seen yet |
| Deduplicator.DroppedIff | src/analysis/deduplicator.py:34-44 | an event is dropped exactly when its payload is at least threshold-similar to a kept one; otherwise it is appended |
| Deduplicator.ExactRepeatDropped | src/analysis/deduplicator.py:36-39 | an exact repeat of a kept payload is dropped when the ratio of a string with itself is 100 and the threshold is at most 1 |
| Deduplicator.KeptSeparated | src/analysis/deduplicator.py:35-44 | every kept payload is below the threshold in similarity to each earlier kept payload |
| Deduplicator.ExampleBody | src/analysis/deduplicator.py:51-73 | the example events' payload strings are their `request_body` dicts |
| Deduplicator.ExampleRepeatDropped | src/analysis/deduplicator.py:49-75 | in the example, the third event repeats the first and is dropped |
| Cluster.Buckets | src/analysis/cluster.py:29-31 | there are exactly `num_clusters` lists |
| Cluster.ClusterEvents | src/analysis/cluster.py:29-33 | the bucketing loop returns `Buckets` over the pairs `zip` reaches |
| Cluster.BucketIsSelection | src/analysis/cluster.py:30-31 | bucket `c` holds exactly the events labelled `c`, in input order |
| Cluster.BucketKeepsOrder | src/analysis/cluster.py:30-31 | each bucket is an order-preserving subsequence of the input |
| Cluster.EventInItsBucket | src/analysis/cluster.py:30-31 | each event is in the bucket its label indexes |
| Cluster.EmptyBuckets | src/analysis/cluster.py:29 | the initial buckets are empty |
| Cluster.BucketSizesAddUp | src/analysis/cluster.py:29-31 | the bucket sizes add up to the number of events placed |
| Cluster.BucketsPartition | src/analysis/cluster.py:29-31 | the multiset union of the buckets is the multiset of the events placed |
| TestUtils.GenerateStreaming | src/generation/test_utils.py:66-88 | the chunk loop yields what `Feed` yields over the whole stream and pulls as many chunks as it says |
| TestUtils.FeedStops | src/generation/test_utils.py:67-76 | once the sentinel is met, later chunks change nothing and are never pulled |
| TestUtils.FeedInvariant | src/generation/test_utils.py:78-88 | every yielded item parsed as JSON when yielded, and the buffer is empty or does not parse |
| TestUtils.StepDone | src/generation/test_utils.py:67-76 | at the sentinel, with a buffer that is empty or does not parse, the flush yields nothing and the loop stops |
| TestUtils.StepChunk | src/generation/test_utils.py:78-88 | any other chunk is appended to the text held so far, and the loop goes on |
| TestUtils.StopsAtFirstDone | src/generation/test_utils.py:66-76 | the loop has stopped exactly when a sentinel was among the chunks offered, and then exactly the chunks up to the first sentinel were pulled |
| TestUtils.NothingLost | src/generation/test_utils.py:78-85 | yielded items plus the buffer are exactly the concatenation of the non-sentinel chunks pulled |
| TestUtils.FieldOr | src/generation/test_utils.py:98-100 | definition: a missing `url` or `http_method` is `""`, and a present one is its `str()` |
| TestUtils.CreatePrompt | src/generation/test_utils.py:94-104 | the prompt contains the endpoint and method lines, the `"url"` and `"method"` fields and the complete-request block |
| TestUtils.MissingFieldsEmpty | src/generation/test_utils.py:98-102 | with no `url` or `http_method` the prompt holds those fields empty |
| LlmUtils.Info | src/generation/llm_utils.py:36-75 | every table row has 0 < `prompt_token_limit` < `token_limit` |
| LlmUtils.TokensLen | src/generation/llm_utils.py:181-187 | the token length is the encoded length plus 100, so it is at least 100 |
| LlmUtils.GetModelMaxTokenFromPrompt | src/generation/llm_utils.py:164-179 | the early return, the scan and the fallback return `Selection` |
| LlmUtils.ScanFirstFit | src/generation/llm_utils.py:172-179 | the scan returns the first row, in table order, that fits, and falls back only when no row fits |
| LlmUtils.ScanStopsAt | src/generation/llm_utils.py:172-178 | when row `j` is the first that fits, the scan returns it with `token_limit − token_len` |
| LlmUtils.SelectionMeets | src/generation/llm_utils.py:164-179 | a named model gets a positive budget `token_limit − token_len`, at least the requested minimum when one is given; whenever the early return for the requested model is not taken, a named model is the first fitting row of the table; the fallback returns the 16K info record with 16385 minus the length counted for the last row |
| LlmUtils.RequestedModelKept | src/generation/llm_utils.py:169-171 | when the prompt fits the requested model and no minimum is asked for, that model is returned with a positive budget |
| LlmUtils.ZeroMinimumIsNone | src/generation/llm_utils.py:170-174 | a minimum response length of 0 selects exactly as `None` does |

## Left out

- TF-IDF fitting, cosine similarity, KMeans, `fuzz.ratio` and the tiktoken
  encoding are library float numerics. The matrix, the labels, the ratio and
  the encoded length are inputs. `_compute_semantic_similarity` and
  `_compute_fuzzy_similarity` (src/analysis/deduplicator_v1.py:11-21) are
  therefore not modelled beyond their results.
- Python `str()`/`repr()` of scalars: a scalar carries its own rendered
  texts. Rendering of floats (`f"{duration}"`, `f"{x:.2f}"`) is a function
  parameter. `float(duration_ms)` is an `Option<real>`: `None` covers both a
  missing attribute and a value `float()` rejects. String escaping inside
  `repr()` of keys is not modelled.
- ParseStatusCode: `int()` also accepts non-ASCII decimal digits (Arabic-Indic,
  fullwidth and the other Unicode `Nd` digits); the model reads ASCII digits
  only, so a status word spelled in such digits parses to 0 here.
- DeduplicatorV1.APIDeduplicator.Deduplicate: the TF-IDF fit inside
  `_compute_semantic_similarity` (src/analysis/deduplicator_v1.py:19) raises
  `ValueError` on an empty batch or when no payload holds a token, and
  `deduplicate` does not catch it. The model takes the matrix as given, so it
  covers only the batches where the fit succeeds; the raising path is not
  modelled.
- Cluster.ClusterEvents: the TF-IDF fit (src/analysis/cluster.py:21-22)
  raises on an empty or token-free batch, and KMeans
  (src/analysis/cluster.py:25-26) raises when there are fewer events than
  `num_clusters`; neither is caught. The model takes the labels as given and
  covers only the calls where both library steps succeed.
- Lower-casing covers ASCII letters only; Python's full Unicode case mapping
  is not modelled.
- Analyzer.Event: every event has a `status`. The `hasattr(event, 'status')`
  guard is always true, and `int(event.id)` on a non-integer id is not
  modelled (the id is an `Option<int>`).
- RowOps.ArgSort: `np.argsort`'s default sort does not promise a tie order.
  The model breaks ties by index. `RowOps.TopThreeLargest` states what holds
  under any tie order.
- `analyze_endpoint` and `analyze_recent_traffic`, the storage, ORM and
  background-worker plumbing, the Flask layer, logging and `src/analysis/dedupe.py`
  are I/O or thin wrappers around other libraries.
- `generate_streaming` outside its chunk loop: the executor call, and the
  exception path that logs and re-raises. `TestUtils.GenerateStreaming`
  returns the pulled-chunk count as a modelling device for "later chunks
  are never consumed". The `TestGenerator` cache is never read and is
  left out.
- The OpenAI client, `@retry`, `chat_completion_streaming` and
  `calculate_cost` are network calls or float pricing on a mutable global.
  Of `MODEL_INFO`, only the integer fields that the selection reads are
  modelled.
- Deduplicator.AnySimilar visits the set in a nondeterministic order. Python
  iterates a set in hash order, and the result does not depend on that order.
- Similarity.SimilarityAnalyzer.FindAnomalies: any exception inside the
  `try` is one case, a missing matrix (`sims` is `None`). Errors while
  vectorizing are not told apart from errors in the loop.
- The two pipelines run independently: `analyze_endpoint` discards the
  deduplication result, and nothing here wires the deduplicators into the
  analyzer.

## Findings

| source | as written | input that shows it | evidently intended | confidence | as-written member | corrected member |
|---|---|---|---|---|---|---|
| src/analysis/deduplicator_v1.py:44-65 | the inner loop compares event `i` with every other event whose id is not kept yet, later events included, so two close events each see the other as a duplicate and both are dropped | two events with ids 1 and 2 and the same payload (cosine 1.0): `deduplicate` returns `[]` | keep the first event of each group of close events, comparing only with events already kept | not executed | DeduplicatorV1.IdenticalPairDropped | DeduplicatorV1.FirstFitPairKeepsFirst |
