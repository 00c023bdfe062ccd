/**
 * The `ManifestIndex` object of index.py: built once from the loaded manifests, it keeps the
 * sorted well keys and the flat hit list, and answers the queries over them.
 */
module IndexObject {
  import opened Wrappers
  import opened Seqs
  import opened Strings
  import opened OrderedMaps
  import opened Models
  import opened Index

  /**
   * The innermost loop of `_build`: for every node of one bucket in order, skip it when its path is
   * empty, otherwise append its hit (the name, or the path's last segment, as filename; the tags split).
   */
  method AppendBucket(wellKey: string, wellId: string, bucketName: string, entries: seq<ManifestNode>)
    returns (r: seq<SearchHit>)
    ensures r == NodeHits(wellKey, wellId, bucketName, entries)
  {
    r := [];
    var k := 0;
    while k < |entries|
      invariant 0 <= k <= |entries|
      invariant r == NodeHits(wellKey, wellId, bucketName, entries[..k])
    {
      var e := entries[k];
      TakeSnoc(entries, k);
      NodeHitsSnoc(wellKey, wellId, bucketName, entries[..k], e);
      if e.path != "" {
        var filename := if e.name != "" then e.name else FilenameFromPath(e.path);
        var tags := SplitTags(e.tags);
        r := r + [FileEntry(e.kind, wellKey, wellId, bucketName, e.path, filename, tags)];
      }
      k := k + 1;
    }
    assert entries[..k] == entries;
  }

  /** The middle loop of `_build`: resolve the well id once, then append every bucket's hits in bucket order. */
  method AppendWell(wellKey: string, manifest: Manifest) returns (r: seq<SearchHit>)
    ensures r == ManifestHits(wellKey, manifest)
  {
    r := [];
    var wellId := if manifest.wellId != "" then manifest.wellId else ReplaceChar(wellKey, '_', '/');
    assert wellId == ResolveWellId(wellKey, manifest);
    var j := 0;
    while j < |manifest.buckets|
      invariant 0 <= j <= |manifest.buckets|
      invariant r == BucketHits(wellKey, wellId, manifest.buckets[..j])
    {
      var bucketName, entries := manifest.buckets[j].0, manifest.buckets[j].1;
      TakeSnoc(manifest.buckets, j);
      BucketHitsSnoc(wellKey, wellId, manifest.buckets[..j], manifest.buckets[j]);
      var hits := AppendBucket(wellKey, wellId, bucketName, entries);
      r := r + hits;
      j := j + 1;
    }
    assert manifest.buckets[..j] == manifest.buckets;
  }

  /** `ManifestIndex`: the manifests, their keys sorted once, and the flat hit list built from them. */
  class ManifestIndex {
    const manifests: OrderedMap<string, Manifest>
    const wellsSorted: seq<string>
    var flat: seq<SearchHit>

    ghost predicate Valid()
      reads this
    {
      && wellsSorted == SortStrings(Keys(manifests))
      && flat == Flatten(manifests)
    }

    constructor (manifests: OrderedMap<string, Manifest>)
      ensures this.manifests == manifests
      ensures Valid()
    {
      this.manifests := manifests;
      wellsSorted := SortStrings(Keys(manifests));
      flat := [];
      new;
      Build();
    }

    /** `_build`: a loop over the wells appends each well's hits to a local list, which then replaces `flat`. */
    method Build()
      modifies this
      ensures flat == Flatten(manifests)
    {
      var out: seq<SearchHit> := [];
      var i := 0;
      while i < |manifests|
        invariant 0 <= i <= |manifests|
        invariant out == Flatten(manifests[..i])
      {
        TakeSnoc(manifests, i);
        FlattenSnoc(manifests[..i], manifests[i]);
        var hits := AppendWell(manifests[i].0, manifests[i].1);
        out := out + hits;
        i := i + 1;
      }
      assert manifests[..i] == manifests;
      flat := out;
    }

    /** `wells()`: the well keys, sorted. */
    function Wells(): (r: seq<string>)
      reads this
      requires Valid()
      ensures Sorted(r)
      ensures multiset(r) == multiset(Keys(manifests))
    {
      wellsSorted
    }

    /** `summary(well_key)`: `None` where the source raises `KeyError`. */
    function Summary(wellKey: string): (r: Option<WellSummary>)
      ensures r.None? <==> wellKey !in Keys(manifests)
      ensures r.Some? ==> r.value == SummaryOf(wellKey, Get(manifests, wellKey).value)
    {
      match Get(manifests, wellKey)
      case None => None
      case Some(m) => Some(SummaryOf(wellKey, m))
    }

    /** `buckets(well_key)`: the manifest's bucket names, sorted. */
    function Buckets(wellKey: string): (r: Option<seq<string>>)
      ensures r.None? <==> wellKey !in Keys(manifests)
      ensures r.Some? ==> Sorted(r.value) && multiset(r.value) == multiset(Keys(Get(manifests, wellKey).value.buckets))
    {
      match Get(manifests, wellKey)
      case None => None
      case Some(m) => Some(SortStrings(Keys(m.buckets)))
    }

    /** `bucket_files(well_key, bucket)`: always a list, never `None`. */
    function BucketFiles(wellKey: string, bucket: string): (r: seq<SearchHit>)
      reads this
      ensures IsSubsequence(r, flat)
      ensures forall h :: h in r <==> h in flat && h.wellKey == wellKey && h.bucket == bucket
    {
      Filter(flat, (h: SearchHit) => h.wellKey == wellKey && h.bucket == bucket)
    }

    /** `foreign_refs(well_key)`: the well's raw foreign-reference list, or `[]`. */
    function ForeignRefs(wellKey: string): (r: Option<seq<string>>)
      ensures r.None? <==> wellKey !in Keys(manifests)
      ensures r.Some? ==> var m := Get(manifests, wellKey).value;
        (m.foreignRef.Some? ==> r.value == m.foreignRef.value) && (m.foreignRef.None? ==> r.value == [])
    {
      match Get(manifests, wellKey)
      case None => None
      case Some(m) => Some(if m.foreignRef.Some? then m.foreignRef.value else [])
    }

    /** `search(q, well_key, bucket, limit, offset)`: the number of matching hits and one window of them. */
    function Search(q: string, wellKey: Option<string>, bucket: Option<string>, limit: nat, offset: nat): (r: (nat, seq<SearchHit>))
      reads this
      ensures AllSpace(q) ==> r == (0, [])
      ensures !AllSpace(q) ==> var ms := Matches(flat, NormalizeQuery(q), wellKey, bucket);
        r.0 == |ms| && r.1 == Page(ms, offset, limit)
      ensures |r.1| <= limit && |r.1| <= r.0
      ensures forall h :: h in r.1 ==> h in flat && Hit(NormalizeQuery(q), wellKey, bucket, h)
    {
      var qn := NormalizeQuery(q);
      if qn == "" then (0, [])
      else
        var matches := Matches(flat, qn, wellKey, bucket);
        var page := Page(matches, offset, limit);
        PageIsSubsequence(matches, offset, limit);
        SubsequenceMembers(page, matches);
        (|matches|, page)
    }
  }

  /** Every copy of a flat hit of that well and bucket is listed, and no copy of another. */
  lemma BucketFilesCount(idx: ManifestIndex, wellKey: string, bucket: string)
    ensures forall h ::
              multiset(idx.BucketFiles(wellKey, bucket))[h]
              == if h.wellKey == wellKey && h.bucket == bucket then multiset(idx.flat)[h] else 0
  {
    FilterCount(idx.flat, (h: SearchHit) => h.wellKey == wellKey && h.bucket == bucket);
  }

  /** The worked example's node: a file with a name, a path and two `|`-separated tags. */
  function ExampleNode(): ManifestNode
  {
    ManifestNode("a/b.txt", "b.txt", File, TagText("X|Y"), [])
  }

  function ExampleManifests(): OrderedMap<string, Manifest>
  {
    [("A", Manifest("", [("docs", [ExampleNode()])], None, None))]
  }

  function ExampleHit(): SearchHit
  {
    FileEntry(File, "A", "A", "docs", "a/b.txt", "b.txt", ["X", "Y"])
  }

  /** Building the index over one well with one node gives one hit: the well key doubles as well id, the tags are split. */
  lemma ExampleFlatten()
    ensures Flatten(ExampleManifests()) == [ExampleHit()]
  {
    var node := ExampleNode();
    var m := ExampleManifests()[0].1;
    SplitTagsExample();
    assert ResolveWellId("A", m) == "A";
    assert MakeHit("A", "A", "docs", node) == ExampleHit();
    NodeHitsSnoc("A", "A", "docs", [], node);
    assert [] + [node] == [node];
    BucketHitsSnoc("A", "A", [], m.buckets[0]);
    assert [] + [m.buckets[0]] == m.buckets;
    FlattenSnoc([], ExampleManifests()[0]);
    assert [] + [ExampleManifests()[0]] == ExampleManifests();
  }

  lemma ExampleQuery()
    ensures NormalizeQuery("b.txt") == "b.txt"
  {
    StripOfTrimmed("b.txt");
    assert Lower("b.txt") == "b.txt";
  }

  lemma ExampleHitMatches()
    ensures Hit("b.txt", None, None, ExampleHit())
  {
    assert Lower("b.txt") == "b.txt";
    ContainsSelf("b.txt");
  }

  /** Searching the example's hit list for its filename finds the hit. */
  lemma ExampleMatches()
    ensures Matches([ExampleHit()], NormalizeQuery("b.txt"), None, None) == [ExampleHit()]
  {
    ExampleQuery();
    ExampleHitMatches();
    FilterKeepsAll([ExampleHit()], (x: SearchHit) => Hit("b.txt", None, None, x));
  }
}
