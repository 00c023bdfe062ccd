# Volve manifest query — a Dafny model

The Volve manifest query service loads one `manifest.json` per well. The manifests form an ordered
map from well key to manifest. Each manifest holds a well id and ordered buckets, and each bucket
holds an ordered list of file or directory nodes. The service answers read-only HTTP queries over
them: well lists, per-well summaries, bucket listings, foreign references, and a case-insensitive
substring search (JSON and CSV).

The repository has two engines, and this model keeps them apart:

- **The index engine.** `index.py` builds a `ManifestIndex` object once. Its constructor sorts the
  well keys and `_build` flattens every node with a path into a list of search hits. The root
  `api.py` shapes requests over it. The search takes up to 999,999 index matches, drops
  directories, dedupes, and only then counts and paginates.
- **The direct-scan engine.** `src/volve_query/api.py` keeps the manifests in a module-level map
  and scans them on every request with `_iter_entries`. Its tag splitting, matching, well-id and
  filename handling and foreign-reference count all differ from the index engine's.

Modules, one per file:

| file | module | models |
|---|---|---|
| `wrappers.dfy` | `Wrappers` | `Option`, `Result` |
| `seqs.dfy` | `Seqs` | list comprehension with `if` (`Filter`), slices `s[offset:offset+limit]` (`Page`), subsequences |
| `strings.dfy` | `Strings` | ASCII `str.lower`/`str.strip`, `in` on strings, `split`/`join`, `replace` of one character, `sorted` on strings (lexicographic order) |
| `ordered_maps.dfy` | `OrderedMaps` | Python's insertion-ordered `dict` as a sequence of pairs |
| `models.dfy` | `Models` | the records of `src/volve_query/models.py` and the error answers |
| `index.dfy` | `Index` | the pure part of `index.py`: `_split_tags`, `_filename_from_path`, what `_build` produces, `summary`, the `hit` predicate |
| `index_object.dfy` | `IndexObject` | the `ManifestIndex` class: its constructor, the `_build` loops, and its query methods |
| `results.dfy` | `Results` | `_dedupe_results` and `_as_csv_rows`, identical in both API files |
| `api.dfy` | `Api` | the request shaping of the root `api.py` over a `ManifestIndex` |
| `legacy_api.dfy` | `LegacyApi` | `src/volve_query/api.py`: its `_split_tags`, `_foreign_ref_count`, `_iter_entries` and endpoints |

A request parameter that FastAPI validates becomes a precondition: `|q| >= 1`, `limit >= 1`, and
`dedupe_key` is one of two values. An HTTP 404 becomes `Err(UnknownWellKey)` or
`Err(UnknownBucket)`. The direct-scan engine's 500 on an empty manifest map becomes `Err(NotLoaded)`.
An index lookup that raises `KeyError` becomes `None`. The manifest map, kept as global state in
both API files, is an explicit parameter: a `ManifestIndex` or the map itself.

Details of the code that the model follows, where the two engines differ or a reader might expect otherwise:

- The index summary counts foreign references only from the manifest's `foreign_ref` list, with no
  fallback to the nodes (index.py:87). The direct-scan engine does fall back.
- The direct-scan summary ignores supplied `bucket_counts` and always counts nodes
  (src/volve_query/api.py:189).
- The direct-scan engine uses `m.well_id` and `n.name` as they are, with no fallback. It does not
  skip nodes with an empty path.
- An empty supplied `bucket_counts` map is falsy, so the index summary counts nodes then as well.

## Model

| member | source | states |
|---|---|---|
| Strings.Strip | index.py:117 | The result is trimmed, is empty exactly when the input is all whitespace, and is no longer than the input. |
| Strings.StripIdempotent | index.py:14 | Stripping twice is the same as stripping once. |
| Strings.SortStrings | index.py:47 | `sorted` on strings: the result is in lexicographic order and is a permutation (same multiset) of the input. |
| Strings.SplitJoin | api.py:89 | Joining parts that do not contain `c` with `c`, then splitting on `c`, gives the parts back. |
| Seqs.Filter | index.py:147 | A comprehension with `if` keeps exactly the elements satisfying the predicate (membership both ways), as an order-preserving subsequence. |
| Seqs.FilterCount | index.py:147 | The comprehension keeps every copy: each element satisfying the predicate occurs as often as in the input, any other not at all. |
| Seqs.Page | api.py:138 | `s[offset:offset+limit]` has length `max(0, min(limit, len(s) - offset))`, and its element `i` is `s[offset + i]`. |
| Seqs.PagesTile | api.py:209 | Two consecutive windows concatenate into the window of the summed limit, so paging drops or repeats nothing. |
| OrderedMaps.Get | index.py:82 | A lookup fails exactly when the key is absent; a found value is paired with the key in the map. |
| Index.SplitTags | index.py:10-18 | `None` gives `[]`. Every tag is non-empty and trimmed. A tag string splits on both commas and pipes, so no tag contains either. Tags are an order-preserving subsequence of the stripped pieces (or stripped list items). |
| Index.SplitTagsComplete | index.py:13-18 | No piece is lost: every non-empty stripped piece of a tag string, or stripped non-blank list item, is a tag, exactly as often as it occurs, and nothing else is. |
| Index.SplitTagsIdempotent | index.py:13-14 | Normalising an already normalised tag list changes nothing. |
| Index.SplitTagsJoinRoundTrip | index.py:15-17 | Joining the tags of a tag string with pipes, then splitting again, gives the same tags. |
| Index.SplitTagsExample | index.py:15-17 | The string X, pipe, Y splits into the tags X and Y. |
| Index.FilenameFromPath | index.py:21-25 | The result is the suffix of the path after its last `/`: it holds no `/`, and it is either the whole path or preceded by a `/`. |
| Index.ResolveWellId | index.py:55 | The manifest's well id when non-empty. Otherwise the well key with every `_` turned into `/` and every other character unchanged, so no `_` is left. |
| Index.MakeHit | index.py:62-75 | The hit carries the node's type and path, the given well key, well id and bucket, the node's name or else the path's last segment as filename, and the node's tags normalised by `_split_tags` (non-empty, trimmed). |
| Index.NodeHits | index.py:57-64 | One bucket's hits number exactly its nodes with a non-empty path. |
| Index.NodeHitsSound | index.py:59-61 | Every hit of a bucket is the hit of one of its nodes that has a path. |
| Index.NodeHitsComplete | index.py:59-75 | Every node with a path has its hit among the bucket's hits. |
| Index.PathCountAtMost | index.py:59-61 | At most every node has a path. The count is all of them exactly when no path is empty. |
| Index.BucketHitsCount | index.py:56-75 | A manifest has one hit per node with a non-empty path, over all its buckets. |
| Index.BucketHitsSound | index.py:56-57 | Every hit of a manifest comes from one of its buckets. |
| Index.BucketHitsHasBucket | index.py:56-57 | Every bucket's hits are among the manifest's hits. |
| Index.FlattenSound | index.py:53 | Every flat hit comes from one of the manifests. |
| Index.Flatten | index.py:52-76 | Defines the flat list: manifest order, then bucket order, then node order, one hit per node with a path. Its properties are the `Flatten*` lemmas. |
| Index.FlattenHitOrigin | index.py:53-75 | Every flat hit is the hit of one node of one bucket of one manifest, and that node has a path. The well id is `well_id` or the key with `_` replaced by `/`. The filename is the name or the path's last segment. The tags are split. |
| Index.FlattenPathsNonEmpty | index.py:59-61 | No flat hit has an empty path. |
| Index.FlattenHasNode | index.py:53-75 | Every node with a non-empty path of every manifest has its hit in the flat list. |
| Index.FlattenCount | index.py:52-76 | The flat list has exactly one hit per node with a non-empty path. |
| Index.NodeHitsAppend | index.py:57 | Hits of earlier nodes come first, in node order. |
| Index.BucketHitsAppend | index.py:56 | Hits of earlier buckets come first, in bucket order. |
| Index.FlattenAppend | index.py:53 | Hits of earlier wells come first: flattening a concatenated map gives the concatenated flat lists. |
| Index.NodeCounts | index.py:85 | The fallback `bucket_counts` has the manifest's bucket keys in order, each mapped to its node count. |
| Index.SumNodeCounts | index.py:86 | The sum of the per-bucket node counts is the manifest's total node count. |
| Index.PathNodesAtMostNodes | index.py:59-61 | A manifest has at most as many nodes with paths as nodes. It has exactly as many when no path is empty. |
| Index.SummaryOf | index.py:81-94 | The summary uses the well-id fallback rule of `_build`. `bucket_counts` is the supplied map when non-empty, else the per-bucket node counts. `total_files` is the sum of `bucket_counts`. `foreign_reference_count` is `len(foreign_ref or [])`. |
| Index.SummaryCountsNodes | index.py:85-86 | Without supplied counts, `total_files` is the manifest's node count. The index then holds at most that many hits for the well, and exactly that many when no node has an empty path. |
| Index.NormalizeQuery | index.py:117-119 | The normalised query is empty exactly when the raw query is all whitespace. |
| Index.TextMatch | index.py:127-145 | Defines the text test: the query in the lowercased filename, path, bucket, well key, well id or a tag, or its `_`-to-`/` variant, when different, in the well id or path. |
| Index.Hit | index.py:121-145 | Defines `hit`: the truthy well-key and bucket equality filters, then the text test. |
| Index.Matches | index.py:121-147 | The matches are exactly the flat hits passing the truthy well and bucket filters and the text test, in flat-list order. |
| Index.MatchesCount | index.py:147 | Every copy of a matching flat hit is kept, and no copy of another. |
| Index.UnderscoreMatchesSlash | index.py:140-143 | A query with `_` matches a hit whose lowercased well id or path contains the query with `_` replaced by `/`. |
| Index.UnderscoreExample | index.py:140-142 | Query `15_9-F-9A` matches a hit with well id `15/9-F-9A`. |
| IndexObject.AppendBucket | index.py:57-75 | The node loop collects exactly the bucket's hits, in node order. |
| IndexObject.AppendWell | index.py:53-75 | The well id is resolved once, then the bucket loop collects exactly the manifest's hits, in bucket order. |
| IndexObject.ManifestIndex.constructor | index.py:45-49 | The object keeps the manifests, their keys sorted, and the flat list built from them. |
| IndexObject.ManifestIndex.Build | index.py:51-76 | The well loop leaves `flat` equal to the flattening of the manifests. This is a function of the input: rebuilding gives the same list. |
| IndexObject.ManifestIndex.Wells | index.py:78-79 | The well keys are sorted and are a permutation of the manifest map's keys. |
| IndexObject.ManifestIndex.Summary | index.py:81-94 | An unknown key gives `None`; a known key gives the summary of its manifest. |
| IndexObject.ManifestIndex.Buckets | index.py:96-98 | An unknown key gives `None`. The bucket names are sorted and are a permutation of the manifest's bucket keys. |
| IndexObject.ManifestIndex.BucketFiles | index.py:100-101 | The result is always a list: the in-order subsequence of flat hits with the given well key and bucket. |
| IndexObject.BucketFilesCount | index.py:100-101 | Every copy of a flat hit of that well and bucket is listed, and no copy of another. |
| IndexObject.ManifestIndex.ForeignRefs | index.py:106-107 | An unknown key gives `None`; a known key gives its foreign-reference list, or `[]` when it has none. |
| IndexObject.ManifestIndex.Search | index.py:109-150 | A blank query gives `(0, [])`. Otherwise `total` is the number of matches and the page is their window, so it holds at most `limit` hits. Every paged hit is a flat hit passing `hit`. |
| IndexObject.ExampleFlatten | index.py:53-75 | One well with one named, tagged node flattens to one hit. The well key stands in for the empty well id, and the tags are split. |
| IndexObject.ExampleMatches | index.py:127-128 | Searching that hit's filename finds it. |
| Results.DedupedKeySet | api.py:72-81 | Dedupe keeps exactly the keys of its input. |
| Results.KeyOf | api.py:76 | Defines the dedupe key: the path, or `well_key::filename`. |
| Results.DedupedSubsequence | api.py:72-81 | The dedupe output is an order-preserving subsequence of its input. |
| Results.DedupedUnique | api.py:72-81 | No two dedupe outputs share a key (the path, or `well_key::filename`). |
| Results.DedupedKeepsFirst | api.py:75-80 | The first entry with each key is kept. |
| Results.DedupedOfUnique | api.py:72-81 | A list whose keys are already unique is left unchanged. |
| Results.DedupedIdempotent | src/volve_query/api.py:135-147 | Deduping twice is the same as deduping once. |
| Results.DedupeResults | api.py:72-81 | The `seen`-set loop computes the first-occurrence dedupe of its input. The same code is at src/volve_query/api.py:135-147. |
| Results.AsCsvRows | api.py:84-90 | The first row is the header `well_key,well_id,bucket,filename,path,tags`. Then come one row per entry, in input order, and nothing else. |
| Results.CsvRow | api.py:89 | A data row has one field per header column: well key, well id, bucket, filename, path, and the tags joined with `|`. |
| Results.CsvTagsSplitBack | src/volve_query/api.py:362 | When there are tags and none contains a pipe, the tags column splits back on the pipe into the entry's tags. |
| Results.CsvTagsRoundTrip | api.py:89 | For tags from a tag string, normalising the tags column again gives the entry's tags. |
| Api.ExcludeDirs | api.py:205 | Directory exclusion keeps exactly the non-directories (all entries with `include_dirs`), in order. |
| Api.ExcludeDirsCount | api.py:205 | Every copy of a kept entry stays, and no copy of a directory that is dropped. |
| Api.SearchResults | api.py:204-207 | The results before paging are the capped index matches with directories excluded, deduped when asked. Each is a flat hit passing `hit`; none is an excluded directory; with dedupe, keys are unique. |
| Api.Search | api.py:191-217 | `total` is the length of the filtered, deduped list, and the page is its window. The page holds at most `limit` results and at most `total`. The query and filters are echoed back. |
| Api.SearchPagesTile | api.py:208-209 | Consecutive search pages concatenate into the larger page. |
| Api.SearchComplete | api.py:204-207 | With at most 999,999 index matches, every matching, non-excluded hit is in the results. With dedupe, its key is. |
| Api.SearchInWell | api.py:220-247 | An unknown well key is an error, and only then. Otherwise it is `search` with that well as filter, so every result is from that well. |
| Api.WellSummaryOf | api.py:121-127 | An unknown well key is an error, and only then. Otherwise the answer is the index's summary of that well's manifest (well-id fallback, counts, foreign count), whose `total_files` is the sum of its bucket counts. |
| Api.WellsAreKeys | index.py:47 | Every sorted well key is a key of the manifest map. |
| Api.ListWells | api.py:106-110 | The wells list is sorted, has one entry per pair of the manifest map, holds exactly the map's keys, and `count` is its length. |
| Api.Summary | api.py:130-146 | `total` is the number of wells. `count` is `max(0, min(limit, total - offset))`. Each summary is that of the sorted key at its place in the window. |
| Api.SummarySorted | api.py:136-139 | A page's summaries come in increasing order of well key. |
| Api.BucketFiles | api.py:157-179 | As written, only an unknown well key is an error. `total` is the number of the index's hits for the bucket, and `files` is their window. Every file is a flat hit of that well and bucket. |
| Api.NoHitsForMissingBucket | index.py:100-101 | The index holds no hit for a bucket that the well's manifest lacks. |
| Api.BucketFilesMissingBucketIsEmpty | api.py:167-169 | As written, a known well asked for a bucket it lacks answers an empty listing with `total` 0, never "unknown bucket". |
| Api.BucketFilesChecked | api.py:168-169 | Corrected: an unknown well key and an unknown bucket are distinct errors, each given exactly in its case. Otherwise the answer is the as-written listing. |
| Api.ForeignReferences | api.py:182-188 | An unknown well key is an error, and only then. `count` is the length of the well's reference list. |
| Api.SearchCsv | api.py:250-264 | The CSV rows are the header, then one row per entry of the same result list as `search`, unpaginated. |
| Api.SearchInWellCsv | api.py:267-283 | An unknown well key is an error, and only then. Otherwise the rows are those of the well-filtered result list. |
| LegacyApi.SplitTagsLegacySpec | src/volve_query/api.py:35-50 | `None` and blank strings give `[]`. List items are kept when not blank, in order, untrimmed and every copy. A string with a pipe splits only on pipes; otherwise one with a comma splits on commas; otherwise it is one tag. Every non-empty stripped part is a tag, as often as it occurs, in order, and nothing else is. String tags are non-empty and trimmed. |
| LegacyApi.SplitTagsLegacy | src/volve_query/api.py:35-50 | Defines the older `_split_tags`; its contract is the lemma above. |
| LegacyApi.LegacyTagParts | src/volve_query/api.py:43-49 | Defines the parts of a stripped tag string: stripped pieces split on `|` if present, else on `,` if present, else the whole string. |
| LegacyApi.LegacyListTags | src/volve_query/api.py:38-39 | The non-blank list items are kept untrimmed, in order, every copy, and no blank one. |
| LegacyApi.LegacyTextParts | src/volve_query/api.py:40-50 | A blank string gives no tags. Otherwise the tags are exactly the non-empty parts, in order and every copy, and each is non-empty and trimmed. |
| LegacyApi.LegacySplitsOnPipeOnly | src/volve_query/api.py:44-45 | When the stripped string has a pipe, it splits only on pipes: two trimmed pipe-free parts are the two tags, commas kept. |
| LegacyApi.IndexSplitsOnBoth | index.py:16-17 | The index turns commas into pipes first, so `a,b|c` gives the three tags a, b and c. |
| LegacyApi.TagSplittersDiffer | src/volve_query/api.py:44-49 | For every such `a,b|c` this engine gives the two tags `a,b` and c, which differs from the index's answer. |
| LegacyApi.LegacyListKeepsItem | src/volve_query/api.py:38-39 | A non-blank list item is kept as it is, untrimmed. |
| LegacyApi.IndexListTrimsItem | index.py:13-14 | The index keeps a non-blank list item trimmed. |
| LegacyApi.ListItemsDiffer | src/volve_query/api.py:38-39 | On a non-blank list item with surrounding whitespace the two engines give different tags. |
| LegacyApi.BucketRefCountCovers | src/volve_query/api.py:78-83 | The per-node reference total is at least any one node's reference count. |
| LegacyApi.NodeRefCountCovers | src/volve_query/api.py:80-82 | One bucket's reference total is at least any one of its node's. |
| LegacyApi.ForeignRefCountsDiffer | src/volve_query/api.py:74-83 | With no `foreign_ref` list, a node carrying references makes this engine's count positive, where the index summary reports 0. |
| LegacyApi.AddNodeRefs | src/volve_query/api.py:80-82 | The inner loop adds the bucket's per-node reference counts to the running count. |
| LegacyApi.SumBucketRefs | src/volve_query/api.py:78-83 | The outer loop sums the per-node reference counts of all buckets. |
| LegacyApi.ForeignRefCount | src/volve_query/api.py:74-83 | A present `foreign_ref` gives its length, even when empty. Otherwise the count is the sum of `len(foreign_ref_wells)` over all nodes. |
| LegacyApi.Entries | src/volve_query/api.py:86-132 | The scan yields exactly the nodes' entries that pass the truthy well and bucket filters and the directory exclusion, and whose haystack contains the normalised query (any entry when the query is blank). They come as a subsequence of all entries in well, bucket and node order. |
| LegacyApi.EntriesCount | src/volve_query/api.py:92-132 | Every copy of a selected entry is yielded, and no copy of another. |
| LegacyApi.LegacyEntry | src/volve_query/api.py:106-132 | Defines the yielded entry: the node's type, path and raw name, the well key, the manifest's own well id, the bucket and the tags split. |
| LegacyApi.Haystack | src/volve_query/api.py:110-119 | Defines the haystack: well key, well id, bucket, filename, path and space-joined tags, joined by spaces and lowercased. |
| LegacyApi.LegacyQuery | src/volve_query/api.py:92 | Defines the normalised query: lowercased, then stripped. |
| LegacyApi.Keep | src/volve_query/api.py:95-121 | Defines the selection: the truthy well and bucket filters, directory exclusion, and the query in the haystack unless it is empty. |
| LegacyApi.NodeEntriesOrigin | src/volve_query/api.py:102-132 | Every entry of a bucket is the entry of one of its nodes, with the manifest's own well id and the raw name. |
| LegacyApi.EmptyQueryKeepsAll | src/volve_query/api.py:121 | A query that is blank after trimming selects every node passing the filters. |
| LegacyApi.EmptyQueryYieldsEverything | src/volve_query/api.py:92-132 | With no filters, directories included and a blank query, every node of every well is yielded, in order. |
| LegacyApi.FieldMatchInHaystack | src/volve_query/api.py:110-121 | A query found in a lowercased well key, well id, bucket, name or path is found in the haystack. |
| LegacyApi.SkippedBucket | src/volve_query/api.py:99-100 | A bucket other than the one asked for contributes no entry. |
| LegacyApi.SkippedWell | src/volve_query/api.py:95-96 | A well other than the one asked for contributes no entry. |
| LegacyApi.BucketEntriesStep | src/volve_query/api.py:98-100 | One bucket more adds its selected entries after those of the buckets before it. |
| LegacyApi.AllEntriesStep | src/volve_query/api.py:92-96 | One well more adds its selected entries after those of the wells before it. |
| LegacyApi.IterNodes | src/volve_query/api.py:102-132 | The node loop, with its two skip steps, collects exactly the bucket's selected entries, in node order. |
| LegacyApi.IterBuckets | src/volve_query/api.py:98-132 | The bucket loop collects exactly the selected entries of the well's buckets, in bucket order. |
| LegacyApi.IterEntries | src/volve_query/api.py:86-132 | The whole scan, collected into a list, is exactly the selected entries in order. |
| LegacyApi.LegacySummaryOf | src/volve_query/api.py:182-197 | The summary uses the manifest's own well id. `bucket_counts` maps each bucket key, in order, to its node count, with supplied counts ignored. `total_files` is their sum, which is the node count. The foreign-reference count is that of `_foreign_ref_count`. |
| LegacyApi.WellSummaryOf | src/volve_query/api.py:182-197 | An empty map gives the not-loaded error, an unknown well key the 404, and both only then. |
| LegacyApi.SortedKeysAreKeys | src/volve_query/api.py:163 | The sorted keys are exactly the keys, equally many. |
| LegacyApi.ListWells | src/volve_query/api.py:160-164 | The wells list is sorted, holds every key, and `count` is its length. It is the not-loaded error exactly when the map is empty. |
| LegacyApi.SummarizeWell | src/volve_query/api.py:209-219 | One loop step builds the summary of the well from its manifest, as the summary function defines it. |
| LegacyApi.Summary | src/volve_query/api.py:200-227 | The loop gives `total` as the number of wells, `count` as `max(0, min(limit, total - offset))`, and the summaries of the sorted keys in the window. It is the not-loaded error exactly when the map is empty. |
| LegacyApi.WellBuckets | src/volve_query/api.py:230-238 | An unknown well key is an error, and only then. The bucket names are sorted and are a permutation of the manifest's bucket keys. |
| LegacyApi.BucketFiles | src/volve_query/api.py:241-281 | Each of not loaded, unknown well key and unknown bucket is its own error, given exactly in its case. When they pass, an empty bucket is an empty listing: `total` is the node count and file `i` is the entry of node `offset + i`. |
| LegacyApi.ForeignReferences | src/volve_query/api.py:284-292 | An unknown well key is an error, and only then. The references are `foreign_ref or []` and `count` is their number. |
| LegacyApi.SearchResults | src/volve_query/api.py:308-310 | The results before paging are the scan's entries, or with dedupe their first-occurrence, order-preserving dedupe (`Deduped`), so keys are unique and every scanned key is kept. |
| LegacyApi.SearchPage | src/volve_query/api.py:312-322 | `total` is the length of the deduped scan, and the page is its window of at most `limit` entries. Every result is a node entry passing the selection. |
| LegacyApi.Search | src/volve_query/api.py:295-322 | It is the not-loaded error exactly when the map is empty, and otherwise the page above. |
| LegacyApi.SearchInWell | src/volve_query/api.py:325-354 | An unknown well key is an error, and only then. Otherwise it is the page with that well as filter, so every result is from that well. |
| LegacyApi.ResultsCsv | src/volve_query/api.py:376-379 | The rows are the header, then one row per entry of the deduped scan. |
| LegacyApi.SearchCsv | src/volve_query/api.py:366-380 | It is the not-loaded error exactly when the map is empty. Otherwise the rows are those of the scan. |
| LegacyApi.SearchInWellCsv | src/volve_query/api.py:383-399 | An unknown well key is an error, and only then. Otherwise the rows are those of the well-filtered scan. |

## Findings

| source | as written | input that shows it | evidently intended | confidence | as-written member | corrected member |
|---|---|---|---|---|---|---|
| api.py:167-169 | `bucket_files` tests `hits is None`, but the index's `bucket_files` always returns a list, so the "Unknown bucket for this well" 404 is never given. | A known well key with bucket name `nope`, which the manifest lacks: the answer is an empty listing with `total` 0. | An unknown bucket of a known well is a 404, as the older engine does at src/volve_query/api.py:253-255. | not executed | Api.BucketFilesMissingBucketIsEmpty | Api.BucketFilesChecked |

The rest of the model, including `Api.BucketFiles`, keeps the as-written behaviour, because that is
what the service answers.

## Left out

- Loading manifests from disk (`src/volve_query/loader.py`), JSON parsing and pydantic validation, including the `well`/`well_id` alias. The model starts from an already-parsed ordered map.
- FastAPI routing, the startup and lifespan hooks, and `init_app`, which replaces the global map or index. The map or index is a parameter instead.
- The root `_get_index` 500: the model's index always exists.
- Query validation beyond the preconditions `|q| >= 1`, `limit >= 1` and a two-valued `dedupe_key`. The upper bound `limit <= 5000` is not needed by any contract.
- `health`, `get_manifest` and `ManifestIndex.manifest_raw`: these dump pydantic models and report process state.
- The CSV writer's quoting and the text buffer. Rows are sequences of field strings.
- Unicode case mapping and whitespace: `Lower` maps ASCII only, and `Strip` strips ASCII whitespace only.
- `PurePosixPath` normalisation (trailing slashes, `.` segments): `Index.FilenameFromPath` returns the text after the last `/`.
- The source's `str(x)` on non-string list items and `str(tags)` on other tag types: these are values the parsed models never hold.
- `ext_norm` and `top_folder` node fields: no core operation reads them.
- `IndexObject.ManifestIndex.Build`: the three nested loops of `_build` are three methods (`Build`, `AppendWell`, `AppendBucket`), one loop each. Likewise `_iter_entries` is `IterEntries`, `IterBuckets` and `IterNodes`, and `_foreign_ref_count` is `SumBucketRefs` and `AddNodeRefs`.
- `_iter_entries` is a generator that the endpoints always drain with `list(...)`. `LegacyApi.IterEntries` returns the list.
- Api.SearchComplete: proved only when the index has at most 999,999 matches, because above that the cap truncates the result list as written.
- `OrderedMaps.Get`: the model does not require distinct keys and looks up the first pair with the key. Python dicts have distinct keys, so the two agree on every dict.
