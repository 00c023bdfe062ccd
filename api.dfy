/**
 * The request layer of api.py over a built `ManifestIndex`: the index's search is asked for
 * everything (up to a fixed cap), then directories are dropped, results deduped, and only then
 * counted and paginated; summaries and bucket listings are paginated the same way. Unknown well
 * keys are reported as `Err(UnknownWellKey)` where the source answers 404.
 */
module Api {
  import opened Wrappers
  import opened Seqs
  import opened Strings
  import opened OrderedMaps
  import opened Models
  import opened Index
  import opened IndexObject
  import opened Results

  /** The `limit` every endpoint passes to the index's search, with `offset` 0. */
  const IndexSearchCap: nat := 999_999

  /** `include_dirs or h.type != "directory"`, over a result list. */
  function ExcludeDirs(hits: seq<FileEntry>, includeDirs: bool): (r: seq<FileEntry>)
    ensures IsSubsequence(r, hits)
    ensures forall e :: e in r <==> e in hits && (includeDirs || e.kind != Directory)
  {
    Filter(hits, (e: FileEntry) => includeDirs || e.kind != Directory)
  }

  /** Every copy of a kept entry stays, and no copy of a dropped one. */
  lemma ExcludeDirsCount(hits: seq<FileEntry>, includeDirs: bool)
    ensures forall e :: multiset(ExcludeDirs(hits, includeDirs))[e] == if includeDirs || e.kind != Directory then multiset(hits)[e] else 0
  {
    FilterCount(hits, (e: FileEntry) => includeDirs || e.kind != Directory);
  }

  /** The result list before pagination: capped index matches, directories dropped unless asked for, deduped when asked. */
  function SearchResults(idx: ManifestIndex, q: string, wellKey: Option<string>, bucket: Option<string>,
                         includeDirs: bool, dedupe: bool, key: DedupeKey): (r: seq<FileEntry>)
    reads idx
    ensures forall e :: e in r ==> e in idx.flat && Hit(NormalizeQuery(q), wellKey, bucket, e)
    ensures forall e :: e in r ==> includeDirs || e.kind != Directory
    ensures dedupe ==> KeysUnique(r, key)
    ensures !dedupe ==> r == ExcludeDirs(idx.Search(q, wellKey, bucket, IndexSearchCap, 0).1, includeDirs)
    ensures dedupe ==> r == Deduped(ExcludeDirs(idx.Search(q, wellKey, bucket, IndexSearchCap, 0).1, includeDirs), key)
  {
    var kept := ExcludeDirs(idx.Search(q, wellKey, bucket, IndexSearchCap, 0).1, includeDirs);
    if dedupe then
      DedupedSubsequence(kept, key);
      SubsequenceMembers(Deduped(kept, key), kept);
      DedupedUnique(kept, key);
      Deduped(kept, key)
    else kept
  }

  /** `search`: `total` counts the filtered, deduped list; the page is its `[offset:offset+limit]` window. */
  function Search(idx: ManifestIndex, q: string, wellKey: Option<string>, bucket: Option<string>, limit: nat, offset: nat,
                  includeDirs: bool, dedupe: bool, key: DedupeKey): (r: SearchResponse)
    reads idx
    requires |q| >= 1 && limit >= 1
    ensures r.query == q && r.wellKeyFilter == wellKey && r.bucketFilter == bucket
    ensures r.offset == offset && r.limit == limit
    ensures var all := SearchResults(idx, q, wellKey, bucket, includeDirs, dedupe, key);
      r.total == |all| && r.results == Page(all, offset, limit)
    ensures |r.results| <= limit && |r.results| <= r.total
    ensures forall e :: e in r.results ==> e in idx.flat && Hit(NormalizeQuery(q), wellKey, bucket, e)
    ensures forall e :: e in r.results ==> includeDirs || e.kind != Directory
  {
    var all := SearchResults(idx, q, wellKey, bucket, includeDirs, dedupe, key);
    var page := Page(all, offset, limit);
    PageIsSubsequence(all, offset, limit);
    SubsequenceMembers(page, all);
    SearchResponse(q, wellKey, bucket, |all|, offset, limit, page)
  }

  /** Consecutive pages of a search concatenate into the larger page: pagination neither drops nor repeats a result. */
  lemma SearchPagesTile(idx: ManifestIndex, q: string, wellKey: Option<string>, bucket: Option<string>, offset: nat,
                        l1: nat, l2: nat, includeDirs: bool, dedupe: bool, key: DedupeKey)
    requires |q| >= 1 && l1 >= 1 && l2 >= 1
    ensures Search(idx, q, wellKey, bucket, l1, offset, includeDirs, dedupe, key).results
          + Search(idx, q, wellKey, bucket, l2, offset + l1, includeDirs, dedupe, key).results
         == Search(idx, q, wellKey, bucket, l1 + l2, offset, includeDirs, dedupe, key).results
  {
    PagesTile(SearchResults(idx, q, wellKey, bucket, includeDirs, dedupe, key), offset, l1, l2);
  }

  lemma PageAll<T>(s: seq<T>, limit: nat)
    requires |s| <= limit
    ensures Page(s, 0, limit) == s
  {
  }

  /**
   * When the index has no more matches than the cap, nothing is lost before dedupe: every matching
   * hit that is not an excluded directory is in the result list, or, with dedupe, its key is.
   */
  lemma SearchComplete(idx: ManifestIndex, q: string, wellKey: Option<string>, bucket: Option<string>,
                       includeDirs: bool, dedupe: bool, key: DedupeKey, h: SearchHit)
    requires !AllSpace(q)
    requires |Matches(idx.flat, NormalizeQuery(q), wellKey, bucket)| <= IndexSearchCap
    requires h in idx.flat && Hit(NormalizeQuery(q), wellKey, bucket, h)
    requires includeDirs || h.kind != Directory
    ensures !dedupe ==> h in SearchResults(idx, q, wellKey, bucket, includeDirs, dedupe, key)
    ensures dedupe ==> KeyOf(h, key) in KeySet(SearchResults(idx, q, wellKey, bucket, includeDirs, dedupe, key), key)
  {
    var ms := Matches(idx.flat, NormalizeQuery(q), wellKey, bucket);
    PageAll(ms, IndexSearchCap);
    var kept := ExcludeDirs(idx.Search(q, wellKey, bucket, IndexSearchCap, 0).1, includeDirs);
    assert h in kept;
    DedupedKeySet(kept, key);
  }

  /** `search_in_well`: an unknown well key is an error; otherwise `search` with the well key as filter. */
  function SearchInWell(idx: ManifestIndex, wellKey: string, q: string, bucket: Option<string>, limit: nat, offset: nat,
                        includeDirs: bool, dedupe: bool, key: DedupeKey): (r: Result<SearchResponse, ApiError>)
    reads idx
    requires |q| >= 1 && limit >= 1
    ensures r.Err? <==> wellKey !in Keys(idx.manifests)
    ensures r.Err? ==> r.error == UnknownWellKey
    ensures r.Ok? ==> r.value == Search(idx, q, Some(wellKey), bucket, limit, offset, includeDirs, dedupe, key)
    ensures r.Ok? && wellKey != "" ==> forall e :: e in r.value.results ==> e.wellKey == wellKey
  {
    if wellKey !in Keys(idx.manifests) then Err(UnknownWellKey)
    else Ok(Search(idx, q, Some(wellKey), bucket, limit, offset, includeDirs, dedupe, key))
  }

  /** `well_summary`: the index's summary of a known well. */
  function WellSummaryOf(idx: ManifestIndex, wellKey: string): (r: Result<WellSummary, ApiError>)
    ensures r.Err? <==> wellKey !in Keys(idx.manifests)
    ensures r.Err? ==> r.error == UnknownWellKey
    ensures r.Ok? ==> r.value.wellKey == wellKey && r.value.totalFiles == SumValues(r.value.bucketCounts)
    ensures r.Ok? ==> r.value == SummaryOf(wellKey, Get(idx.manifests, wellKey).value)
  {
    match Get(idx.manifests, wellKey)
    case None => Err(UnknownWellKey)
    case Some(m) => Ok(SummaryOf(wellKey, m))
  }

  /** Every sorted well key is a key of the manifest map. */
  lemma WellsAreKeys(idx: ManifestIndex)
    requires idx.Valid()
    ensures forall k :: k in idx.Wells() ==> k in Keys(idx.manifests)
  {
    forall k | k in idx.Wells() ensures k in Keys(idx.manifests) {
      assert k in multiset(idx.Wells());
    }
  }

  /** `list_wells`: every well key of the index once, sorted, and their number. */
  function ListWells(idx: ManifestIndex): (r: (nat, seq<string>))
    reads idx
    requires idx.Valid()
    ensures r.0 == |r.1| == |idx.manifests| && Sorted(r.1)
    ensures forall k :: k in r.1 <==> k in Keys(idx.manifests)
  {
    var wells := idx.Wells();
    forall k ensures k in wells <==> k in Keys(idx.manifests) {
      assert k in wells <==> k in multiset(wells);
      assert k in Keys(idx.manifests) <==> k in multiset(Keys(idx.manifests));
    }
    assert |wells| == |multiset(wells)| == |multiset(Keys(idx.manifests))| == |idx.manifests|;
    (|wells|, wells)
  }

  /** `summary`: the summaries of the sorted well keys in the `[offset:offset+limit]` window. */
  function Summary(idx: ManifestIndex, limit: nat, offset: nat): (r: SummaryListResponse)
    reads idx
    requires idx.Valid() && limit >= 1
    ensures r.total == |idx.manifests| && r.offset == offset && r.limit == limit
    ensures r.count == |r.wells| == Max(0, Min(limit, r.total - offset))
    ensures var keys := Page(idx.Wells(), offset, limit);
      && |keys| == r.count
      && (forall i :: 0 <= i < |keys| ==> keys[i] in Keys(idx.manifests))
      && (forall i :: 0 <= i < |keys| ==> r.wells[i] == SummaryOf(keys[i], Get(idx.manifests, keys[i]).value))
  {
    var wells := idx.Wells();
    var pageKeys := Page(wells, offset, limit);
    PageIsSubsequence(wells, offset, limit);
    SubsequenceMembers(pageKeys, wells);
    WellsAreKeys(idx);
    assert |wells| == |multiset(wells)| == |multiset(Keys(idx.manifests))| == |idx.manifests|;
    var summaries := seq(|pageKeys|, i requires 0 <= i < |pageKeys| => SummaryOf(pageKeys[i], Get(idx.manifests, pageKeys[i]).value));
    SummaryListResponse(|wells|, offset, limit, |summaries|, summaries)
  }

  /** The summaries of a page come in increasing order of well key. */
  lemma SummarySorted(idx: ManifestIndex, limit: nat, offset: nat)
    requires idx.Valid() && limit >= 1
    ensures var r := Summary(idx, limit, offset);
      forall i, j :: 0 <= i < j < r.count ==> LexLe(r.wells[i].wellKey, r.wells[j].wellKey)
  {
    var r := Summary(idx, limit, offset);
    var keys := Page(idx.Wells(), offset, limit);
    forall i, j | 0 <= i < j < r.count ensures LexLe(r.wells[i].wellKey, r.wells[j].wellKey) {
      assert r.wells[i].wellKey == keys[i] == idx.Wells()[offset + i];
      assert r.wells[j].wellKey == keys[j] == idx.Wells()[offset + j];
    }
  }

  /**
   * `bucket_files` as written: the well must be known, then the index's hit list for the bucket is
   * paginated. The index always returns a list, so the "unknown bucket" answer is never given.
   */
  function BucketFiles(idx: ManifestIndex, wellKey: string, bucket: string, limit: nat, offset: nat): (r: Result<BucketFilesResponse, ApiError>)
    reads idx
    requires limit >= 1
    ensures r.Err? <==> wellKey !in Keys(idx.manifests)
    ensures r.Err? ==> r.error == UnknownWellKey
    ensures r.Ok? ==> r.value.wellKey == wellKey && r.value.bucket == bucket && r.value.offset == offset && r.value.limit == limit
    ensures r.Ok? ==> (r.value.total == |idx.BucketFiles(wellKey, bucket)|
      && r.value.files == Page(idx.BucketFiles(wellKey, bucket), offset, limit))
    ensures r.Ok? ==> forall e :: e in r.value.files ==> e in idx.flat && e.wellKey == wellKey && e.bucket == bucket
  {
    if wellKey !in Keys(idx.manifests) then Err(UnknownWellKey)
    else
      var hits := idx.BucketFiles(wellKey, bucket);
      var page := Page(hits, offset, limit);
      PageIsSubsequence(hits, offset, limit);
      SubsequenceMembers(page, hits);
      Ok(BucketFilesResponse(wellKey, bucket, |hits|, offset, limit, page))
  }

  /** No manifest loaded under `wellKey` has a bucket called `bucket`. */
  predicate NoSuchBucket(ms: OrderedMap<string, Manifest>, wellKey: string, bucket: string)
  {
    forall i :: 0 <= i < |ms| && ms[i].0 == wellKey ==> bucket !in Keys(ms[i].1.buckets)
  }

  /** The index holds no hit for a bucket that no manifest of the well has. */
  lemma NoHitsForMissingBucket(ms: OrderedMap<string, Manifest>, wellKey: string, bucket: string, h: SearchHit)
    requires NoSuchBucket(ms, wellKey, bucket)
    requires h in Flatten(ms) && h.wellKey == wellKey
    ensures h.bucket != bucket
  {
    FlattenHitOrigin(ms, h);
    var i, j, k :| && 0 <= i < |ms| && 0 <= j < |ms[i].1.buckets| && 0 <= k < |ms[i].1.buckets[j].1|
      && HasPath(ms[i].1.buckets[j].1[k])
      && h == MakeHit(ms[i].0, ResolveWellId(ms[i].0, ms[i].1), ms[i].1.buckets[j].0, ms[i].1.buckets[j].1[k]);
    assert Keys(ms[i].1.buckets)[j] == ms[i].1.buckets[j].0;
  }

  /** As written, asking a known well for a bucket it does not have answers an empty listing, not "unknown bucket". */
  lemma BucketFilesMissingBucketIsEmpty(idx: ManifestIndex, wellKey: string, bucket: string, limit: nat, offset: nat)
    requires idx.Valid() && limit >= 1
    requires wellKey in Keys(idx.manifests) && NoSuchBucket(idx.manifests, wellKey, bucket)
    ensures BucketFiles(idx, wellKey, bucket, limit, offset) == Ok(BucketFilesResponse(wellKey, bucket, 0, offset, limit, []))
  {
    var hits := idx.BucketFiles(wellKey, bucket);
    if hits != [] {
      NoHitsForMissingBucket(idx.manifests, wellKey, bucket, hits[0]);
    }
  }

  /** `bucket_files` as the error taxonomy intends it: an unknown bucket of a known well is its own error. */
  function BucketFilesChecked(idx: ManifestIndex, wellKey: string, bucket: string, limit: nat, offset: nat): (r: Result<BucketFilesResponse, ApiError>)
    reads idx
    requires limit >= 1
    ensures r == Err(UnknownWellKey) <==> wellKey !in Keys(idx.manifests)
    ensures r == Err(UnknownBucket) <==>
      wellKey in Keys(idx.manifests) && bucket !in Keys(Get(idx.manifests, wellKey).value.buckets)
    ensures r.Ok? ==> r == BucketFiles(idx, wellKey, bucket, limit, offset)
  {
    match Get(idx.manifests, wellKey)
    case None => Err(UnknownWellKey)
    case Some(m) =>
      if bucket !in Keys(m.buckets) then Err(UnknownBucket)
      else BucketFiles(idx, wellKey, bucket, limit, offset)
  }

  /** `foreign_references`: the well's reference list and its length. */
  function ForeignReferences(idx: ManifestIndex, wellKey: string): (r: Result<ForeignReferencesResponse, ApiError>)
    ensures r.Err? <==> wellKey !in Keys(idx.manifests)
    ensures r.Err? ==> r.error == UnknownWellKey
    ensures r.Ok? ==> (r.value.wellKey == wellKey && r.value.count == |r.value.references|
      && r.value.references == idx.ForeignRefs(wellKey).value)
  {
    match idx.ForeignRefs(wellKey)
    case None => Err(UnknownWellKey)
    case Some(refs) => Ok(ForeignReferencesResponse(wellKey, |refs|, refs))
  }

  /** `search.csv`: the same result list as `search`, unpaginated, as CSV rows. */
  method SearchCsv(idx: ManifestIndex, q: string, wellKey: Option<string>, bucket: Option<string>,
                   includeDirs: bool, dedupe: bool, key: DedupeKey) returns (rows: seq<seq<string>>)
    requires |q| >= 1
    ensures var all := SearchResults(idx, q, wellKey, bucket, includeDirs, dedupe, key);
      |rows| == |all| + 1 && rows[0] == CsvHeader && forall i :: 0 <= i < |all| ==> rows[i + 1] == CsvRow(all[i])
  {
    var hits := idx.Search(q, wellKey, bucket, IndexSearchCap, 0).1;
    var results := ExcludeDirs(hits, includeDirs);
    if dedupe {
      results := DedupeResults(results, key);
    }
    rows := AsCsvRows(results);
  }

  /** `/wells/{well_key}/search.csv`: an unknown well key is an error; otherwise the well's result list as CSV rows. */
  method SearchInWellCsv(idx: ManifestIndex, wellKey: string, q: string, bucket: Option<string>,
                         includeDirs: bool, dedupe: bool, key: DedupeKey) returns (r: Result<seq<seq<string>>, ApiError>)
    requires |q| >= 1
    ensures r.Err? <==> wellKey !in Keys(idx.manifests)
    ensures r.Err? ==> r.error == UnknownWellKey
    ensures r.Ok? ==> var all := SearchResults(idx, q, Some(wellKey), bucket, includeDirs, dedupe, key);
      |r.value| == |all| + 1 && r.value[0] == CsvHeader && forall i :: 0 <= i < |all| ==> r.value[i + 1] == CsvRow(all[i])
  {
    if wellKey !in Keys(idx.manifests) {
      return Err(UnknownWellKey);
    }
    var rows := SearchCsv(idx, q, Some(wellKey), bucket, includeDirs, dedupe, key);
    r := Ok(rows);
  }
}
