/**
 * The records the engine consumes and produces (src/volve_query/models.py).
 * Manifests arrive already parsed and validated; the `well`/`well_id` alias is resolved before this point.
 */
module Models {
  import opened Wrappers
  import opened OrderedMaps

  /** `EntryType = Literal["file", "directory"]`. */
  datatype EntryType = File | Directory

  /** The three shapes a node's `tags` may take: absent, one string with separators, or a list of strings. */
  datatype RawTags = NoTags | TagText(text: string) | TagList(items: seq<string>)

  /** One node of a manifest bucket (`ManifestNode`); `ext_norm` and `top_folder` are carried by the source but never read by the engine. */
  datatype ManifestNode = ManifestNode(
    path: string,
    name: string,
    kind: EntryType,
    tags: RawTags,
    foreignRefWells: seq<string>)

  /** One well's manifest: its identifier, its buckets of nodes, and the optional precomputed counts and foreign references. */
  datatype Manifest = Manifest(
    wellId: string,
    buckets: OrderedMap<string, seq<ManifestNode>>,
    bucketCounts: Option<OrderedMap<string, int>>,
    foreignRef: Option<seq<string>>)

  /** A flattened, normalised entry (`FileEntry`; the index's `SearchHit` has exactly the same fields). */
  datatype FileEntry = FileEntry(
    kind: EntryType,
    wellKey: string,
    wellId: string,
    bucket: string,
    path: string,
    filename: string,
    tags: seq<string>)

  datatype WellSummary = WellSummary(
    wellKey: string,
    wellId: string,
    bucketCounts: OrderedMap<string, int>,
    totalFiles: int,
    foreignReferenceCount: int)

  datatype SummaryListResponse = SummaryListResponse(
    total: nat,
    offset: nat,
    limit: nat,
    count: nat,
    wells: seq<WellSummary>)

  datatype SearchResponse = SearchResponse(
    query: string,
    wellKeyFilter: Option<string>,
    bucketFilter: Option<string>,
    total: nat,
    offset: nat,
    limit: nat,
    results: seq<FileEntry>)

  datatype BucketFilesResponse = BucketFilesResponse(
    wellKey: string,
    bucket: string,
    total: nat,
    offset: nat,
    limit: nat,
    files: seq<FileEntry>)

  datatype BucketsResponse = BucketsResponse(wellKey: string, buckets: seq<string>)

  datatype ForeignReferencesResponse = ForeignReferencesResponse(wellKey: string, count: nat, references: seq<string>)

  /** The error answers a request can give: the two 404s, and the 500 of a server with no manifests loaded. */
  datatype ApiError = UnknownWellKey | UnknownBucket | NotLoaded

  /** The `dedupe_key` query parameter, restricted to `path` or `filename`. */
  datatype DedupeKey = ByPath | ByFilename

  /** Python truthiness of an optional string filter: given and non-empty. */
  predicate FilterActive(f: Option<string>)
  {
    f.Some? && f.value != ""
  }
}
