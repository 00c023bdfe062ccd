/**
 * The manifest index (index.py): the tag normaliser, the filename fallback, the flattening of
 * `well_key -> Manifest` into an ordered list of search hits, and the queries answered over it.
 */
module Index {
  import opened Wrappers
  import opened Seqs
  import opened Strings
  import opened OrderedMaps
  import opened Models

  /** The index's hit record has exactly the fields of `FileEntry`. */
  type SearchHit = FileEntry

  // ---------------------------------------------------------------- node normalisation

  function StripAll(xs: seq<string>): (r: seq<string>)
    ensures |r| == |xs|
    ensures forall i :: 0 <= i < |xs| ==> r[i] == Strip(xs[i])
  {
    seq(|xs|, i requires 0 <= i < |xs| => Strip(xs[i]))
  }

  /** Stripping strings that are already trimmed changes nothing. */
  lemma StripAllOfTrimmed(xs: seq<string>)
    requires forall x :: x in xs ==> IsTrimmed(x)
    ensures StripAll(xs) == xs
  {
    forall i | 0 <= i < |xs| ensures StripAll(xs)[i] == xs[i] {
      StripOfTrimmed(xs[i]);
    }
  }

  predicate NonBlank(t: string)
  {
    t != ""
  }

  lemma StripAllWithout(xs: seq<string>, c: char)
    requires forall x :: x in xs ==> c !in x
    ensures forall t :: t in StripAll(xs) ==> c !in t
  {
    forall i | 0 <= i < |xs| ensures c !in StripAll(xs)[i] {
      StripIsInfix(xs[i]);
      if c in Strip(xs[i]) {
        ContainsChar(xs[i], Strip(xs[i]), c);
      }
    }
  }

  /** The pieces `tags.replace(",", "|").split("|")` of a tag string. */
  function TagPieces(text: string): (r: seq<string>)
    ensures forall p :: p in r ==> '|' !in p && ',' !in p
  {
    var replaced := ReplaceChar(text, ',', '|');
    Split(replaced, '|')
  }

  /** `_split_tags` of index.py: every tag non-empty and trimmed, in source order; a tag string splits on both `,` and `|`. */
  function SplitTags(tags: RawTags): (r: seq<string>)
    ensures forall t :: t in r ==> t != "" && IsTrimmed(t)
    ensures tags.NoTags? ==> r == []
    ensures tags.TagText? ==> forall t :: t in r ==> '|' !in t && ',' !in t
    ensures tags.TagText? ==> IsSubsequence(r, StripAll(TagPieces(tags.text)))
    ensures tags.TagList? ==> IsSubsequence(r, StripAll(tags.items))
  {
    match tags
    case NoTags => []
    case TagList(items) => Filter(StripAll(items), NonBlank)
    case TagText(text) =>
      var pieces := TagPieces(text);
      StripAllWithout(pieces, '|');
      StripAllWithout(pieces, ',');
      Filter(StripAll(pieces), NonBlank)
  }

  /**
   * No piece is lost: every non-empty stripped piece of a tag string (every non-blank list item,
   * stripped) is a tag, as often as it occurs, and nothing else is.
   */
  lemma SplitTagsComplete(tags: RawTags)
    ensures tags.TagText? ==> var pieces := StripAll(TagPieces(tags.text));
      && (forall t :: t in SplitTags(tags) <==> t in pieces && t != "")
      && (forall t :: multiset(SplitTags(tags))[t] == if t != "" then multiset(pieces)[t] else 0)
    ensures tags.TagList? ==> var items := StripAll(tags.items);
      && (forall t :: t in SplitTags(tags) <==> t in items && t != "")
      && (forall t :: multiset(SplitTags(tags))[t] == if t != "" then multiset(items)[t] else 0)
  {
    match tags
    case NoTags =>
    case TagList(items) =>
      FilterCount(StripAll(items), NonBlank);
    case TagText(text) =>
      FilterCount(StripAll(TagPieces(text)), NonBlank);
  }

  /** Normalising tags that are already normalised changes nothing. */
  lemma SplitTagsIdempotent(tags: RawTags)
    ensures SplitTags(TagList(SplitTags(tags))) == SplitTags(tags)
  {
    var r := SplitTags(tags);
    assert StripAll(r) == r by {
      forall i | 0 <= i < |r| ensures StripAll(r)[i] == r[i] {
        StripOfTrimmed(r[i]);
      }
    }
    FilterKeepsAll(r, NonBlank);
  }

  /** The tags column of a CSV row (tags joined with `|`) parses back to the same tags. */
  lemma SplitTagsJoinRoundTrip(text: string)
    ensures SplitTags(TagText(Join(SplitTags(TagText(text)), "|"))) == SplitTags(TagText(text))
  {
    var r := SplitTags(TagText(text));
    var joined := Join(r, "|");
    JoinWithout(r, "|", ',');
    ReplaceAbsent(joined, ',', '|');
    if r == [] {
      assert TagPieces(joined) == [""];
      assert StripAll([""]) == [""];
      assert Filter([""], NonBlank) == [];
    } else {
      SplitJoin(r, '|');
      assert TagPieces(joined) == r;
      SplitTagsIdempotent(TagText(text));
    }
  }

  lemma SplitTagsExample()
    ensures SplitTags(TagText("X|Y")) == ["X", "Y"]
  {
    assert ReplaceChar("X|Y", ',', '|') == "X|Y";
    assert Split("X|Y", '|') == ["X", "Y"] by {
      assert "X|Y" == "X" + ['|'] + "Y";
      SplitAfterPart("X", "Y", '|');
      SplitWithout("Y", '|');
    }
    StripOfTrimmed("X");
    StripOfTrimmed("Y");
    assert StripAll(["X", "Y"]) == ["X", "Y"];
    FilterKeepsAll(["X", "Y"], NonBlank);
  }

  /** `_filename_from_path`: the text after the last `/` (`path.split("/")[-1]`). */
  function FilenameFromPath(path: string): (r: string)
    ensures '/' !in r
    ensures |r| <= |path| && r == path[|path| - |r|..]
    ensures |r| == |path| || path[|path| - |r| - 1] == '/'
    decreases |path|
  {
    if |path| == 0 || Last(path) == '/' then ""
    else FilenameFromPath(DropLast(path)) + [Last(path)]
  }

  /** `manifest.well_id or well_key.replace("_", "/")`. */
  function ResolveWellId(wellKey: string, m: Manifest): (r: string)
    ensures m.wellId != "" ==> r == m.wellId
    ensures m.wellId == "" ==> |r| == |wellKey| && '_' !in r
    ensures m.wellId == "" ==> forall i :: 0 <= i < |r| ==> r[i] == if wellKey[i] == '_' then '/' else wellKey[i]
  {
    if m.wellId != "" then m.wellId else ReplaceChar(wellKey, '_', '/')
  }

  predicate HasPath(n: ManifestNode)
  {
    n.path != ""
  }

  /** The hit `_build` appends for one node with a non-empty path. */
  function MakeHit(wellKey: string, wellId: string, bucket: string, n: ManifestNode): (r: SearchHit)
    ensures r.kind == n.kind && r.path == n.path
    ensures r.wellKey == wellKey && r.wellId == wellId && r.bucket == bucket
    ensures n.name != "" ==> r.filename == n.name
    ensures n.name == "" ==> r.filename == FilenameFromPath(n.path)
    ensures r.tags == SplitTags(n.tags)
    ensures forall t :: t in r.tags ==> t != "" && IsTrimmed(t)
  {
    var filename := if n.name != "" then n.name else FilenameFromPath(n.path);
    FileEntry(n.kind, wellKey, wellId, bucket, n.path, filename, SplitTags(n.tags))
  }

  // ---------------------------------------------------------------- flattening

  /** The hits of one bucket's node list, in node order, skipping nodes with an empty path. */
  function NodeHits(wellKey: string, wellId: string, bucket: string, nodes: seq<ManifestNode>): (r: seq<SearchHit>)
    ensures |r| == PathCount(nodes)
    decreases |nodes|
  {
    if nodes == [] then []
    else
      var init := NodeHits(wellKey, wellId, bucket, DropLast(nodes));
      if HasPath(Last(nodes)) then init + [MakeHit(wellKey, wellId, bucket, Last(nodes))] else init
  }

  /** Every hit of a node list is the hit of one of its nodes that has a path. */
  lemma {:induction false} NodeHitsSound(wellKey: string, wellId: string, bucket: string, nodes: seq<ManifestNode>, h: SearchHit)
    requires h in NodeHits(wellKey, wellId, bucket, nodes)
    ensures exists k :: 0 <= k < |nodes| && HasPath(nodes[k]) && h == MakeHit(wellKey, wellId, bucket, nodes[k])
    decreases |nodes|
  {
    var init := NodeHits(wellKey, wellId, bucket, DropLast(nodes));
    if h in init {
      NodeHitsSound(wellKey, wellId, bucket, DropLast(nodes), h);
      var k :| 0 <= k < |DropLast(nodes)| && HasPath(DropLast(nodes)[k]) && h == MakeHit(wellKey, wellId, bucket, DropLast(nodes)[k]);
      assert DropLast(nodes)[k] == nodes[k];
    } else {
      assert h == MakeHit(wellKey, wellId, bucket, nodes[|nodes| - 1]);
    }
  }

  /** Every node with a path has its hit in the node list's hits. */
  lemma {:induction false} NodeHitsComplete(wellKey: string, wellId: string, bucket: string, nodes: seq<ManifestNode>, k: nat)
    requires k < |nodes| && HasPath(nodes[k])
    ensures MakeHit(wellKey, wellId, bucket, nodes[k]) in NodeHits(wellKey, wellId, bucket, nodes)
    decreases |nodes|
  {
    if k < |nodes| - 1 {
      NodeHitsComplete(wellKey, wellId, bucket, DropLast(nodes), k);
      assert DropLast(nodes)[k] == nodes[k];
    }
  }

  /** The number of nodes with a non-empty path in one node list. */
  function PathCount(nodes: seq<ManifestNode>): nat
    decreases |nodes|
  {
    if nodes == [] then 0 else PathCount(DropLast(nodes)) + (if HasPath(Last(nodes)) then 1 else 0)
  }

  lemma {:induction false} PathCountAtMost(nodes: seq<ManifestNode>)
    ensures PathCount(nodes) <= |nodes|
    ensures PathCount(nodes) == |nodes| <==> forall k :: 0 <= k < |nodes| ==> HasPath(nodes[k])
    decreases |nodes|
  {
    if nodes != [] {
      PathCountAtMost(DropLast(nodes));
      assert forall k :: 0 <= k < |nodes| - 1 ==> DropLast(nodes)[k] == nodes[k];
    }
  }

  /** The number of nodes with a non-empty path, over a manifest's buckets. */
  function PathNodeCount(buckets: OrderedMap<string, seq<ManifestNode>>): nat
    decreases |buckets|
  {
    if buckets == [] then 0 else PathNodeCount(DropLast(buckets)) + PathCount(Last(buckets).1)
  }

  /** The hits of a manifest's buckets, in bucket order. */
  function BucketHits(wellKey: string, wellId: string, buckets: OrderedMap<string, seq<ManifestNode>>): seq<SearchHit>
    decreases |buckets|
  {
    if buckets == [] then []
    else BucketHits(wellKey, wellId, DropLast(buckets)) + NodeHits(wellKey, wellId, Last(buckets).0, Last(buckets).1)
  }

  /** One hit per node with a non-empty path. */
  lemma {:induction false} BucketHitsCount(wellKey: string, wellId: string, buckets: OrderedMap<string, seq<ManifestNode>>)
    ensures |BucketHits(wellKey, wellId, buckets)| == PathNodeCount(buckets)
    decreases |buckets|
  {
    if buckets != [] {
      BucketHitsCount(wellKey, wellId, DropLast(buckets));
    }
  }

  lemma {:induction false} BucketHitsSound(wellKey: string, wellId: string, buckets: OrderedMap<string, seq<ManifestNode>>, h: SearchHit)
    requires h in BucketHits(wellKey, wellId, buckets)
    ensures exists j :: 0 <= j < |buckets| && h in NodeHits(wellKey, wellId, buckets[j].0, buckets[j].1)
    decreases |buckets|
  {
    if h !in NodeHits(wellKey, wellId, Last(buckets).0, Last(buckets).1) {
      BucketHitsSound(wellKey, wellId, DropLast(buckets), h);
      var j :| 0 <= j < |DropLast(buckets)| && h in NodeHits(wellKey, wellId, DropLast(buckets)[j].0, DropLast(buckets)[j].1);
      assert DropLast(buckets)[j] == buckets[j];
    }
  }

  lemma {:induction false} BucketHitsHasBucket(wellKey: string, wellId: string, buckets: OrderedMap<string, seq<ManifestNode>>, j: nat, h: SearchHit)
    requires j < |buckets|
    requires h in NodeHits(wellKey, wellId, buckets[j].0, buckets[j].1)
    ensures h in BucketHits(wellKey, wellId, buckets)
    decreases |buckets|
  {
    if j < |buckets| - 1 {
      assert DropLast(buckets)[j] == buckets[j];
      BucketHitsHasBucket(wellKey, wellId, DropLast(buckets), j, h);
    }
  }

  function ManifestHits(wellKey: string, m: Manifest): seq<SearchHit>
  {
    BucketHits(wellKey, ResolveWellId(wellKey, m), m.buckets)
  }

  /** The flat list `_build` produces: manifest order, then bucket order, then node order. */
  function Flatten(ms: OrderedMap<string, Manifest>): seq<SearchHit>
    decreases |ms|
  {
    if ms == [] then []
    else Flatten(DropLast(ms)) + ManifestHits(Last(ms).0, Last(ms).1)
  }

  lemma {:induction false} FlattenSound(ms: OrderedMap<string, Manifest>, h: SearchHit)
    requires h in Flatten(ms)
    ensures exists i :: 0 <= i < |ms| && h in ManifestHits(ms[i].0, ms[i].1)
    decreases |ms|
  {
    if h !in ManifestHits(Last(ms).0, Last(ms).1) {
      FlattenSound(DropLast(ms), h);
      var i :| 0 <= i < |DropLast(ms)| && h in ManifestHits(DropLast(ms)[i].0, DropLast(ms)[i].1);
      assert DropLast(ms)[i] == ms[i];
    }
  }

  /**
   * Each hit is the hit of a node with a non-empty path, carrying the key the well was loaded under,
   * that manifest's resolved well id, and the node's bucket.
   */
  lemma FlattenHitOrigin(ms: OrderedMap<string, Manifest>, h: SearchHit)
    requires h in Flatten(ms)
    ensures exists i, j, k ::
      && 0 <= i < |ms| && 0 <= j < |ms[i].1.buckets| && 0 <= k < |ms[i].1.buckets[j].1|
      && HasPath(ms[i].1.buckets[j].1[k])
      && h == MakeHit(ms[i].0, ResolveWellId(ms[i].0, ms[i].1), ms[i].1.buckets[j].0, ms[i].1.buckets[j].1[k])
  {
    FlattenSound(ms, h);
    var i :| 0 <= i < |ms| && h in ManifestHits(ms[i].0, ms[i].1);
    var (wk, m) := ms[i];
    BucketHitsSound(wk, ResolveWellId(wk, m), m.buckets, h);
    var j :| 0 <= j < |m.buckets| && h in NodeHits(wk, ResolveWellId(wk, m), m.buckets[j].0, m.buckets[j].1);
    NodeHitsSound(wk, ResolveWellId(wk, m), m.buckets[j].0, m.buckets[j].1, h);
  }

  /** `_build` never emits a hit with an empty path. */
  lemma FlattenPathsNonEmpty(ms: OrderedMap<string, Manifest>)
    ensures forall h :: h in Flatten(ms) ==> h.path != ""
  {
    forall h | h in Flatten(ms) ensures h.path != "" {
      FlattenHitOrigin(ms, h);
    }
  }

  /** Every node with a non-empty path has its hit in the flat list. */
  lemma {:induction false} FlattenHasNode(ms: OrderedMap<string, Manifest>, i: nat, j: nat, k: nat)
    requires i < |ms| && j < |ms[i].1.buckets| && k < |ms[i].1.buckets[j].1|
    requires HasPath(ms[i].1.buckets[j].1[k])
    ensures MakeHit(ms[i].0, ResolveWellId(ms[i].0, ms[i].1), ms[i].1.buckets[j].0, ms[i].1.buckets[j].1[k]) in Flatten(ms)
    decreases |ms|
  {
    var (wk, m) := ms[i];
    var (b, nodes) := m.buckets[j];
    var h := MakeHit(wk, ResolveWellId(wk, m), b, nodes[k]);
    NodeHitsComplete(wk, ResolveWellId(wk, m), b, nodes, k);
    BucketHitsHasBucket(wk, ResolveWellId(wk, m), m.buckets, j, h);
    if i < |ms| - 1 {
      assert DropLast(ms)[i] == ms[i];
      FlattenHasNode(DropLast(ms), i, j, k);
    }
  }

  lemma NodeHitsSnoc(wellKey: string, wellId: string, bucket: string, nodes: seq<ManifestNode>, n: ManifestNode)
    ensures NodeHits(wellKey, wellId, bucket, nodes + [n])
      == NodeHits(wellKey, wellId, bucket, nodes) + (if HasPath(n) then [MakeHit(wellKey, wellId, bucket, n)] else [])
  {
    assert DropLast(nodes + [n]) == nodes;
  }

  lemma BucketHitsSnoc(wellKey: string, wellId: string, buckets: OrderedMap<string, seq<ManifestNode>>, b: (string, seq<ManifestNode>))
    ensures BucketHits(wellKey, wellId, buckets + [b]) == BucketHits(wellKey, wellId, buckets) + NodeHits(wellKey, wellId, b.0, b.1)
  {
    assert DropLast(buckets + [b]) == buckets;
  }

  lemma FlattenSnoc(ms: OrderedMap<string, Manifest>, x: (string, Manifest))
    ensures Flatten(ms + [x]) == Flatten(ms) + ManifestHits(x.0, x.1)
  {
    assert DropLast(ms + [x]) == ms;
  }

  /** Hits of earlier nodes come first. */
  lemma {:induction false} NodeHitsAppend(wellKey: string, wellId: string, bucket: string, a: seq<ManifestNode>, b: seq<ManifestNode>)
    ensures NodeHits(wellKey, wellId, bucket, a + b) == NodeHits(wellKey, wellId, bucket, a) + NodeHits(wellKey, wellId, bucket, b)
    decreases |b|
  {
    if b == [] {
      assert a + b == a;
    } else {
      var init, n := DropLast(b), Last(b);
      assert b == init + [n];
      assert a + b == (a + init) + [n];
      NodeHitsAppend(wellKey, wellId, bucket, a, init);
      NodeHitsSnoc(wellKey, wellId, bucket, a + init, n);
      NodeHitsSnoc(wellKey, wellId, bucket, init, n);
      var ha, hi, hn := NodeHits(wellKey, wellId, bucket, a), NodeHits(wellKey, wellId, bucket, init),
        if HasPath(n) then [MakeHit(wellKey, wellId, bucket, n)] else [];
      AppendAssoc(ha, hi, hn);
    }
  }

  /** Hits of earlier buckets come first. */
  lemma {:induction false} BucketHitsAppend(wellKey: string, wellId: string, a: OrderedMap<string, seq<ManifestNode>>, b: OrderedMap<string, seq<ManifestNode>>)
    ensures BucketHits(wellKey, wellId, a + b) == BucketHits(wellKey, wellId, a) + BucketHits(wellKey, wellId, b)
    decreases |b|
  {
    if b == [] {
      assert a + b == a;
    } else {
      var init, x := DropLast(b), Last(b);
      assert b == init + [x];
      assert a + b == (a + init) + [x];
      BucketHitsAppend(wellKey, wellId, a, init);
      BucketHitsSnoc(wellKey, wellId, a + init, x);
      BucketHitsSnoc(wellKey, wellId, init, x);
      var ha, hi, hx := BucketHits(wellKey, wellId, a), BucketHits(wellKey, wellId, init), NodeHits(wellKey, wellId, x.0, x.1);
      AppendAssoc(ha, hi, hx);
    }
  }

  /** Hits of earlier wells come first: the flat list of a concatenation of manifest maps is the concatenation of their flat lists. */
  lemma {:induction false} FlattenAppend(a: OrderedMap<string, Manifest>, b: OrderedMap<string, Manifest>)
    ensures Flatten(a + b) == Flatten(a) + Flatten(b)
    decreases |b|
  {
    if b == [] {
      assert a + b == a;
    } else {
      var init, x := DropLast(b), Last(b);
      assert b == init + [x];
      assert a + b == (a + init) + [x];
      FlattenAppend(a, init);
      FlattenSnoc(a + init, x);
      FlattenSnoc(init, x);
      var ha, hi, hx := Flatten(a), Flatten(init), ManifestHits(x.0, x.1);
      AppendAssoc(ha, hi, hx);
    }
  }

  /** The number of nodes with a non-empty path, over all manifests. */
  function AllPathNodeCount(ms: OrderedMap<string, Manifest>): nat
    decreases |ms|
  {
    if ms == [] then 0 else AllPathNodeCount(DropLast(ms)) + PathNodeCount(Last(ms).1.buckets)
  }

  /** The flat list has one hit per node with a non-empty path. */
  lemma {:induction false} FlattenCount(ms: OrderedMap<string, Manifest>)
    ensures |Flatten(ms)| == AllPathNodeCount(ms)
    decreases |ms|
  {
    if ms != [] {
      FlattenCount(DropLast(ms));
      BucketHitsCount(Last(ms).0, ResolveWellId(Last(ms).0, Last(ms).1), Last(ms).1.buckets);
    }
  }

  // ---------------------------------------------------------------- summaries

  /** The node count of every bucket: `{k: len(v) for k, v in buckets.items()}`. */
  function NodeCounts(buckets: OrderedMap<string, seq<ManifestNode>>): (r: OrderedMap<string, int>)
    ensures Keys(r) == Keys(buckets)
    ensures forall i :: 0 <= i < |r| ==> r[i].1 == |buckets[i].1|
  {
    seq(|buckets|, i requires 0 <= i < |buckets| => (buckets[i].0, |buckets[i].1|))
  }

  /** The number of nodes over a manifest's buckets, whatever their paths. */
  function TotalNodes(buckets: OrderedMap<string, seq<ManifestNode>>): nat
    decreases |buckets|
  {
    if buckets == [] then 0 else TotalNodes(DropLast(buckets)) + |Last(buckets).1|
  }

  lemma {:induction false} SumNodeCounts(buckets: OrderedMap<string, seq<ManifestNode>>)
    ensures SumValues(NodeCounts(buckets)) == TotalNodes(buckets)
    decreases |buckets|
  {
    if buckets != [] {
      SumNodeCounts(DropLast(buckets));
      assert DropLast(NodeCounts(buckets)) == NodeCounts(DropLast(buckets));
    }
  }

  predicate AllNodesHavePaths(buckets: OrderedMap<string, seq<ManifestNode>>)
  {
    forall j, k :: 0 <= j < |buckets| && 0 <= k < |buckets[j].1| ==> HasPath(buckets[j].1[k])
  }

  lemma {:induction false} PathNodesAtMostNodes(buckets: OrderedMap<string, seq<ManifestNode>>)
    ensures PathNodeCount(buckets) <= TotalNodes(buckets)
    ensures PathNodeCount(buckets) == TotalNodes(buckets) <==> AllNodesHavePaths(buckets)
    decreases |buckets|
  {
    if buckets != [] {
      var init, last := DropLast(buckets), Last(buckets);
      PathNodesAtMostNodes(init);
      PathCountAtMost(last.1);
      assert forall j :: 0 <= j < |init| ==> init[j] == buckets[j];
      assert AllNodesHavePaths(buckets) <==> AllNodesHavePaths(init) && forall k :: 0 <= k < |last.1| ==> HasPath(last.1[k]);
    }
  }

  /** index.py's `summary` for one manifest. */
  function SummaryOf(wellKey: string, m: Manifest): (r: WellSummary)
    ensures r.wellKey == wellKey && r.wellId == ResolveWellId(wellKey, m)
    ensures m.bucketCounts.Some? && m.bucketCounts.value != [] ==> r.bucketCounts == m.bucketCounts.value
    ensures !(m.bucketCounts.Some? && m.bucketCounts.value != []) ==>
      Keys(r.bucketCounts) == Keys(m.buckets) && forall i :: 0 <= i < |m.buckets| ==> r.bucketCounts[i].1 == |m.buckets[i].1|
    ensures r.totalFiles == SumValues(r.bucketCounts)
    ensures r.foreignReferenceCount == if m.foreignRef.Some? then |m.foreignRef.value| else 0
  {
    var counts := if m.bucketCounts.Some? && m.bucketCounts.value != [] then m.bucketCounts.value else NodeCounts(m.buckets);
    var foreign := if m.foreignRef.Some? then |m.foreignRef.value| else 0;
    WellSummary(wellKey, ResolveWellId(wellKey, m), counts, SumValues(counts), foreign)
  }

  /**
   * Without supplied counts, `total_files` counts every node of the manifest, and the index holds
   * at most that many hits for the well: exactly that many when no node has an empty path.
   */
  lemma SummaryCountsNodes(wellKey: string, m: Manifest)
    requires !(m.bucketCounts.Some? && m.bucketCounts.value != [])
    ensures SummaryOf(wellKey, m).totalFiles == TotalNodes(m.buckets)
    ensures |ManifestHits(wellKey, m)| <= SummaryOf(wellKey, m).totalFiles
    ensures |ManifestHits(wellKey, m)| == SummaryOf(wellKey, m).totalFiles <==> AllNodesHavePaths(m.buckets)
  {
    SumNodeCounts(m.buckets);
    PathNodesAtMostNodes(m.buckets);
    BucketHitsCount(wellKey, ResolveWellId(wellKey, m), m.buckets);
  }

  // ---------------------------------------------------------------- search

  /** The inner `hit` of `search`, text part: `qn` is the trimmed, lowercased query. */
  predicate TextMatch(qn: string, h: SearchHit)
  {
    || Contains(Lower(h.filename), qn)
    || Contains(Lower(h.path), qn)
    || Contains(Lower(h.bucket), qn)
    || Contains(Lower(h.wellKey), qn)
    || Contains(Lower(h.wellId), qn)
    || (exists t :: t in h.tags && Contains(Lower(t), qn))
    || (var qSlash := ReplaceChar(qn, '_', '/');
        qSlash != qn && (Contains(Lower(h.wellId), qSlash) || Contains(Lower(h.path), qSlash)))
  }

  /** The whole inner `hit`: the truthy `well_key` and `bucket` filters, then the text match. */
  predicate Hit(qn: string, wellKey: Option<string>, bucket: Option<string>, h: SearchHit)
  {
    && (!FilterActive(wellKey) || h.wellKey == wellKey.value)
    && (!FilterActive(bucket) || h.bucket == bucket.value)
    && TextMatch(qn, h)
  }

  /** `q.strip().lower()`. */
  function NormalizeQuery(q: string): (qn: string)
    ensures qn == "" <==> AllSpace(q)
  {
    Lower(Strip(q))
  }

  /** `[h for h in self._flat if hit(h)]`. */
  function Matches(flat: seq<SearchHit>, qn: string, wellKey: Option<string>, bucket: Option<string>): (r: seq<SearchHit>)
    ensures IsSubsequence(r, flat)
    ensures forall h :: h in r <==> h in flat && Hit(qn, wellKey, bucket, h)
  {
    Filter(flat, h => Hit(qn, wellKey, bucket, h))
  }

  /** Every copy of a matching hit is kept, in the flat list's multiplicity, and no copy of another. */
  lemma MatchesCount(flat: seq<SearchHit>, qn: string, wellKey: Option<string>, bucket: Option<string>)
    ensures forall h :: multiset(Matches(flat, qn, wellKey, bucket))[h] == if Hit(qn, wellKey, bucket, h) then multiset(flat)[h] else 0
  {
    FilterCount(flat, h => Hit(qn, wellKey, bucket, h));
  }

  /** A query containing `_` also matches a hit whose well id or path contains the query with `_` replaced by `/`. */
  lemma UnderscoreMatchesSlash(qn: string, h: SearchHit)
    requires '_' in qn
    requires Contains(Lower(h.wellId), ReplaceChar(qn, '_', '/')) || Contains(Lower(h.path), ReplaceChar(qn, '_', '/'))
    ensures TextMatch(qn, h)
  {
    assert '_' !in ReplaceChar(qn, '_', '/');
  }

  lemma UnderscoreExample(h: SearchHit)
    requires h.wellId == "15/9-F-9A"
    ensures TextMatch(NormalizeQuery("15_9-F-9A"), h)
  {
    StripOfTrimmed("15_9-F-9A");
    assert NormalizeQuery("15_9-F-9A") == "15_9-f-9a";
    assert Lower(h.wellId) == "15/9-f-9a";
    assert ReplaceChar("15_9-f-9a", '_', '/') == "15/9-f-9a";
    ContainsSelf("15/9-f-9a");
    UnderscoreMatchesSlash("15_9-f-9a", h);
  }
}
