/**
 * The older, self-contained engine (src/volve_query/api.py): no prebuilt index; every request
 * scans the manifest map directly. Its tag splitting, haystack matching, well-id handling and
 * foreign-reference count differ from the index's, and are modelled on their own here. The
 * global `_MANIFESTS` map is an explicit parameter.
 */
module LegacyApi {
  import opened Wrappers
  import opened Seqs
  import opened Strings
  import opened OrderedMaps
  import opened Models
  import opened Index
  import opened Results

  // ---------------------------------------------------------------- _split_tags

  /** A list item is kept when it is not blank; it is kept as it is, untrimmed. */
  predicate NotBlank(x: string)
  {
    Strip(x) != ""
  }

  /** The parts of a trimmed, non-blank tag string: split on `|` if it has one, else on `,` if it has one, else the whole. */
  function LegacyTagParts(s: string): seq<string>
  {
    if '|' in s then StripAll(Split(s, '|'))
    else if ',' in s then StripAll(Split(s, ','))
    else [s]
  }

  lemma LegacyTagPartsTrimmed(s: string)
    ensures IsTrimmed(s) ==> forall t :: t in LegacyTagParts(s) ==> IsTrimmed(t)
  {
  }

  /** `_split_tags` of the older engine. */
  function SplitTagsLegacy(tags: RawTags): seq<string>
  {
    match tags
    case NoTags => []
    case TagList(items) => Filter(items, NotBlank)
    case TagText(text) =>
      var s := Strip(text);
      if s == "" then [] else Filter(LegacyTagParts(s), NonBlank)
  }

  /** List items: the non-blank ones are kept, untrimmed, in order, every copy. */
  lemma LegacyListTags(items: seq<string>)
    ensures var r := SplitTagsLegacy(TagList(items));
      && IsSubsequence(r, items)
      && (forall x :: x in r <==> x in items && !AllSpace(x))
      && (forall x :: multiset(r)[x] == if !AllSpace(x) then multiset(items)[x] else 0)
  {
    assert forall x :: NotBlank(x) <==> !AllSpace(x);
    FilterCount(items, NotBlank);
  }

  /** A tag string's tags: every non-empty part of its stripped text, in order, every copy; no other tags. */
  lemma LegacyTextParts(text: string)
    ensures var r := SplitTagsLegacy(TagText(text)); var parts := LegacyTagParts(Strip(text));
      && (AllSpace(text) ==> r == [])
      && (!AllSpace(text) ==> IsSubsequence(r, parts))
      && (!AllSpace(text) ==> forall t :: t in r <==> t in parts && t != "")
      && (!AllSpace(text) ==> forall t :: multiset(r)[t] == if t != "" then multiset(parts)[t] else 0)
      && (forall t :: t in r ==> t != "" && IsTrimmed(t))
  {
    var s := Strip(text);
    if s != "" {
      LegacyTagPartsTrimmed(s);
      FilterCount(LegacyTagParts(s), NonBlank);
    }
  }

  /**
   * What `_split_tags` of the older engine promises: `None` and blank strings give no tags; list
   * items are kept in order, untrimmed, when not blank; a string splits on `|` if it has one, else
   * on `,` if it has one, else is one tag, and every non-empty stripped part is a tag; string tags
   * are non-empty and trimmed.
   */
  lemma SplitTagsLegacySpec(tags: RawTags)
    ensures tags.NoTags? ==> SplitTagsLegacy(tags) == []
    ensures tags.TagList? ==> IsSubsequence(SplitTagsLegacy(tags), tags.items)
    ensures tags.TagList? ==> forall x :: x in SplitTagsLegacy(tags) <==> x in tags.items && !AllSpace(x)
    ensures tags.TagList? ==> forall x :: multiset(SplitTagsLegacy(tags))[x] == if !AllSpace(x) then multiset(tags.items)[x] else 0
    ensures tags.TagText? && AllSpace(tags.text) ==> SplitTagsLegacy(tags) == []
    ensures tags.TagText? ==> forall t :: t in SplitTagsLegacy(tags) ==> t != "" && IsTrimmed(t)
    ensures tags.TagText? && '|' in Strip(tags.text) ==> var parts := StripAll(Split(Strip(tags.text), '|'));
      && IsSubsequence(SplitTagsLegacy(tags), parts)
      && (forall t :: multiset(SplitTagsLegacy(tags))[t] == if t != "" then multiset(parts)[t] else 0)
    ensures tags.TagText? && '|' !in Strip(tags.text) && ',' in Strip(tags.text) ==> var parts := StripAll(Split(Strip(tags.text), ','));
      && IsSubsequence(SplitTagsLegacy(tags), parts)
      && (forall t :: multiset(SplitTagsLegacy(tags))[t] == if t != "" then multiset(parts)[t] else 0)
    ensures tags.TagText? && '|' !in Strip(tags.text) && ',' !in Strip(tags.text) && !AllSpace(tags.text) ==>
      SplitTagsLegacy(tags) == [Strip(tags.text)]
  {
    match tags
    case NoTags =>
    case TagList(items) =>
      LegacyListTags(items);
    case TagText(text) =>
      LegacyTextParts(text);
      var s := Strip(text);
      if s != "" && '|' !in s && ',' !in s {
        FilterKeepsAll([s], NonBlank);
      }
  }

  /** A non-blank tag string's tags are the non-empty parts of its stripped text. */
  lemma LegacyTextTags(text: string)
    requires IsTrimmed(text) && text != ""
    ensures SplitTagsLegacy(TagText(text)) == Filter(LegacyTagParts(text), NonBlank)
  {
    StripOfTrimmed(text);
  }

  /** Two non-empty trimmed strings joined by one character make a non-empty trimmed string holding it. */
  lemma JoinedTrimmed(x: string, y: string, c: char)
    requires x != "" && y != "" && IsTrimmed(x) && IsTrimmed(y)
    ensures var s := x + [c] + y; s != "" && IsTrimmed(s) && c in s
  {
    var s := x + [c] + y;
    assert s[0] == x[0] && s[|s| - 1] == y[|y| - 1] && s[|x|] == c;
  }

  /** Splitting two separator-free parts joined by the separator gives the two parts back. */
  lemma SplitTwo(x: string, y: string, c: char)
    requires c !in x && c !in y
    ensures Split(x + [c] + y, c) == [x, y]
  {
    SplitAfterPart(x, y, c);
    SplitWithout(y, c);
  }

  /** With a `|` present, commas are not separators: two trimmed parts joined by `|` are the two tags, commas and all. */
  lemma LegacySplitsOnPipeOnly(x: string, y: string)
    requires x != "" && y != "" && IsTrimmed(x) && IsTrimmed(y)
    requires '|' !in x && '|' !in y
    ensures SplitTagsLegacy(TagText(x + "|" + y)) == [x, y]
  {
    var s := x + ['|'] + y;
    assert x + "|" + y == s;
    JoinedTrimmed(x, y, '|');
    LegacyTextTags(s);
    SplitTwo(x, y, '|');
    assert LegacyTagParts(s) == StripAll([x, y]);
    StripAllOfTrimmed([x, y]);
    FilterKeepsAll([x, y], NonBlank);
  }

  lemma ReplaceCommas(a: string, b: string, c: string)
    requires ',' !in a && ',' !in b && ',' !in c
    ensures ReplaceChar(a + "," + b + "|" + c, ',', '|') == a + "|" + b + "|" + c
  {
    ReplaceCharAppend(a + "," + b + "|", c, ',', '|');
    ReplaceCharAppend(a + "," + b, "|", ',', '|');
    ReplaceCharAppend(a + ",", b, ',', '|');
    ReplaceCharAppend(a, ",", ',', '|');
    ReplaceAbsent(a, ',', '|');
    ReplaceAbsent(b, ',', '|');
    ReplaceAbsent(c, ',', '|');
    assert ReplaceChar(",", ',', '|') == "|";
    assert ReplaceChar("|", ',', '|') == "|";
  }

  lemma JoinThree(a: string, b: string, c: string, sep: string)
    ensures Join([a, b, c], sep) == a + sep + b + sep + c
  {
    assert [a, b, c][1..] == [b, c];
    assert [b, c][1..] == [c];
    assert Join([c], sep) == c;
    assert Join([b, c], sep) == b + sep + c;
    assert Join([a, b, c], sep) == a + sep + (b + sep + c);
    AppendAssoc(a + sep, b + sep, c);
    AppendAssoc(a + sep, b, sep);
  }

  /** The index splits a string holding both separators on each of them. */
  lemma IndexSplitsOnBoth(a: string, b: string, c: string)
    requires a != "" && b != "" && c != "" && IsTrimmed(a) && IsTrimmed(b) && IsTrimmed(c)
    requires '|' !in a && '|' !in b && '|' !in c && ',' !in a && ',' !in b && ',' !in c
    ensures SplitTags(TagText(a + "," + b + "|" + c)) == [a, b, c]
  {
    ReplaceCommas(a, b, c);
    JoinThree(a, b, c, "|");
    SplitJoin([a, b, c], '|');
    assert TagPieces(a + "," + b + "|" + c) == [a, b, c];
    StripAllOfTrimmed([a, b, c]);
    FilterKeepsAll([a, b, c], NonBlank);
  }

  /** The two engines disagree on every tag string of the form `a,b|c`: two tags against three. */
  lemma TagSplittersDiffer(a: string, b: string, c: string)
    requires a != "" && b != "" && c != "" && IsTrimmed(a) && IsTrimmed(b) && IsTrimmed(c)
    requires '|' !in a && '|' !in b && '|' !in c && ',' !in a && ',' !in b && ',' !in c
    ensures SplitTagsLegacy(TagText(a + "," + b + "|" + c)) == [a + "," + b, c]
    ensures SplitTagsLegacy(TagText(a + "," + b + "|" + c)) != SplitTags(TagText(a + "," + b + "|" + c))
  {
    var x := a + "," + b;
    assert IsTrimmed(x) && x != "" by {
      assert x[0] == a[0] && x[|x| - 1] == b[|b| - 1];
    }
    assert '|' !in x;
    LegacySplitsOnPipeOnly(x, c);
    IndexSplitsOnBoth(a, b, c);
  }

  /** A non-blank list item is kept as it is. */
  lemma LegacyListKeepsItem(x: string)
    requires !AllSpace(x)
    ensures SplitTagsLegacy(TagList([x])) == [x]
  {
    FilterKeepsAll([x], NotBlank);
  }

  /** The index trims a non-blank list item. */
  lemma IndexListTrimsItem(x: string)
    requires !AllSpace(x)
    ensures SplitTags(TagList([x])) == [Strip(x)]
  {
    assert StripAll([x]) == [Strip(x)];
    FilterKeepsAll([Strip(x)], NonBlank);
  }

  /** On a list item with surrounding whitespace the two engines disagree. */
  lemma ListItemsDiffer(x: string)
    requires !AllSpace(x) && !IsTrimmed(x)
    ensures SplitTagsLegacy(TagList([x])) != SplitTags(TagList([x]))
  {
    LegacyListKeepsItem(x);
    IndexListTrimsItem(x);
  }

  // ---------------------------------------------------------------- _foreign_ref_count

  /** The number of foreign-reference wells carried by one bucket's nodes. */
  function NodeRefCount(nodes: seq<ManifestNode>): nat
    decreases |nodes|
  {
    if nodes == [] then 0 else NodeRefCount(DropLast(nodes)) + |Last(nodes).foreignRefWells|
  }

  /** The number of foreign-reference wells carried by all nodes of all buckets. */
  function BucketRefCount(buckets: OrderedMap<string, seq<ManifestNode>>): nat
    decreases |buckets|
  {
    if buckets == [] then 0 else BucketRefCount(DropLast(buckets)) + NodeRefCount(Last(buckets).1)
  }

  /** What `_foreign_ref_count` returns: the supplied list's length, even when empty, else the per-node sum. */
  function ForeignRefCountOf(m: Manifest): nat
  {
    if m.foreignRef.Some? then |m.foreignRef.value| else BucketRefCount(m.buckets)
  }

  /** Every node's references are counted: the total is at least any one node's. */
  lemma {:induction false} BucketRefCountCovers(buckets: OrderedMap<string, seq<ManifestNode>>, j: nat, k: nat)
    requires j < |buckets| && k < |buckets[j].1|
    ensures BucketRefCount(buckets) >= |buckets[j].1[k].foreignRefWells|
    decreases |buckets|
  {
    if j < |buckets| - 1 {
      assert DropLast(buckets)[j] == buckets[j];
      BucketRefCountCovers(DropLast(buckets), j, k);
    } else {
      NodeRefCountCovers(buckets[j].1, k);
    }
  }

  lemma {:induction false} NodeRefCountCovers(nodes: seq<ManifestNode>, k: nat)
    requires k < |nodes|
    ensures NodeRefCount(nodes) >= |nodes[k].foreignRefWells|
    decreases |nodes|
  {
    if k < |nodes| - 1 {
      assert DropLast(nodes)[k] == nodes[k];
      NodeRefCountCovers(DropLast(nodes), k);
    }
  }

  /** Without a supplied list, a node carrying references makes the older count positive, where the index reports 0. */
  lemma ForeignRefCountsDiffer(wellKey: string, m: Manifest, j: nat, k: nat)
    requires m.foreignRef.None?
    requires j < |m.buckets| && k < |m.buckets[j].1| && m.buckets[j].1[k].foreignRefWells != []
    ensures ForeignRefCountOf(m) > 0
    ensures SummaryOf(wellKey, m).foreignReferenceCount == 0
  {
    BucketRefCountCovers(m.buckets, j, k);
  }

  lemma NodeRefCountSnoc(nodes: seq<ManifestNode>, n: ManifestNode)
    ensures NodeRefCount(nodes + [n]) == NodeRefCount(nodes) + |n.foreignRefWells|
  {
    assert DropLast(nodes + [n]) == nodes;
  }

  lemma BucketRefCountSnoc(buckets: OrderedMap<string, seq<ManifestNode>>, b: (string, seq<ManifestNode>))
    ensures BucketRefCount(buckets + [b]) == BucketRefCount(buckets) + NodeRefCount(b.1)
  {
    assert DropLast(buckets + [b]) == buckets;
  }

  /** The per-node sum of one bucket: the inner loop of `_foreign_ref_count`. */
  method AddNodeRefs(count: nat, nodes: seq<ManifestNode>) returns (r: nat)
    ensures r == count + NodeRefCount(nodes)
  {
    r := count;
    var k := 0;
    while k < |nodes|
      invariant 0 <= k <= |nodes|
      invariant r == count + NodeRefCount(nodes[..k])
    {
      var n := nodes[k];
      if n.foreignRefWells != [] {
        r := r + |n.foreignRefWells|;
      }
      TakeSnoc(nodes, k);
      NodeRefCountSnoc(nodes[..k], n);
      k := k + 1;
    }
    assert nodes[..k] == nodes;
  }

  /** The outer loop of `_foreign_ref_count`: the buckets' node references, summed. */
  method SumBucketRefs(buckets: OrderedMap<string, seq<ManifestNode>>) returns (count: nat)
    ensures count == BucketRefCount(buckets)
  {
    count := 0;
    var j := 0;
    while j < |buckets|
      invariant 0 <= j <= |buckets|
      invariant count == BucketRefCount(buckets[..j])
    {
      count := AddNodeRefs(count, buckets[j].1);
      TakeSnoc(buckets, j);
      BucketRefCountSnoc(buckets[..j], buckets[j]);
      j := j + 1;
    }
    assert buckets[..j] == buckets;
  }

  /** `_foreign_ref_count`: the supplied list's length, else the per-node sum. */
  method ForeignRefCount(m: Manifest) returns (count: nat)
    ensures count == ForeignRefCountOf(m)
  {
    if m.foreignRef.Some? {
      count := |m.foreignRef.value|;
    } else {
      count := SumBucketRefs(m.buckets);
    }
  }

  // ---------------------------------------------------------------- _iter_entries

  /** The entry the older engine yields for a node: the manifest's own well id (no fallback), the raw name (no fallback). */
  function LegacyEntry(wellKey: string, wellId: string, bucket: string, n: ManifestNode): FileEntry
  {
    FileEntry(n.kind, wellKey, wellId, bucket, n.path, n.name, SplitTagsLegacy(n.tags))
  }

  /** The entries of one bucket's nodes, in node order, before any filtering. */
  function NodeEntries(wellKey: string, wellId: string, bucket: string, nodes: seq<ManifestNode>): seq<FileEntry>
    decreases |nodes|
  {
    if nodes == [] then []
    else NodeEntries(wellKey, wellId, bucket, DropLast(nodes)) + [LegacyEntry(wellKey, wellId, bucket, Last(nodes))]
  }

  function BucketEntries(wellKey: string, wellId: string, buckets: OrderedMap<string, seq<ManifestNode>>): seq<FileEntry>
    decreases |buckets|
  {
    if buckets == [] then []
    else BucketEntries(wellKey, wellId, DropLast(buckets)) + NodeEntries(wellKey, wellId, Last(buckets).0, Last(buckets).1)
  }

  /** Every node of every well, in well, bucket and node order, before any filtering. */
  function AllEntries(ms: OrderedMap<string, Manifest>): seq<FileEntry>
    decreases |ms|
  {
    if ms == [] then []
    else AllEntries(DropLast(ms)) + BucketEntries(Last(ms).0, Last(ms).1.wellId, Last(ms).1.buckets)
  }

  /** The lowercased text an entry is matched against: its fields and tags joined by spaces. */
  function Haystack(e: FileEntry): string
  {
    Lower(Join([e.wellKey, e.wellId, e.bucket, e.filename, e.path, Join(e.tags, " ")], " "))
  }

  /** `(q or "").lower().strip()`. */
  function LegacyQuery(q: string): string
  {
    Strip(Lower(q))
  }

  /** The selection `_iter_entries` makes: the truthy equality filters, directory exclusion, and the substring test. */
  predicate Keep(ql: string, wellKey: Option<string>, bucket: Option<string>, includeDirs: bool, e: FileEntry)
  {
    && (!FilterActive(wellKey) || e.wellKey == wellKey.value)
    && (!FilterActive(bucket) || e.bucket == bucket.value)
    && (includeDirs || e.kind != Directory)
    && (ql == "" || Contains(Haystack(e), ql))
  }

  function KeepFn(ql: string, wellKey: Option<string>, bucket: Option<string>, includeDirs: bool): FileEntry -> bool
  {
    (e: FileEntry) => Keep(ql, wellKey, bucket, includeDirs, e)
  }

  /** What `_iter_entries` yields: the entries that pass the selection, in well, bucket and node order. */
  function Entries(ms: OrderedMap<string, Manifest>, q: string, wellKey: Option<string>, bucket: Option<string>,
                   includeDirs: bool): (r: seq<FileEntry>)
    ensures IsSubsequence(r, AllEntries(ms))
    ensures forall e :: e in r <==> e in AllEntries(ms) && Keep(LegacyQuery(q), wellKey, bucket, includeDirs, e)
  {
    Filter(AllEntries(ms), KeepFn(LegacyQuery(q), wellKey, bucket, includeDirs))
  }

  /** Every copy of a selected entry is yielded, and no copy of another. */
  lemma EntriesCount(ms: OrderedMap<string, Manifest>, q: string, wellKey: Option<string>, bucket: Option<string>, includeDirs: bool)
    ensures forall e ::
              multiset(Entries(ms, q, wellKey, bucket, includeDirs))[e]
              == if Keep(LegacyQuery(q), wellKey, bucket, includeDirs, e) then multiset(AllEntries(ms))[e] else 0
  {
    FilterCount(AllEntries(ms), KeepFn(LegacyQuery(q), wellKey, bucket, includeDirs));
  }

  lemma NodeEntriesFields(wellKey: string, wellId: string, bucket: string, nodes: seq<ManifestNode>)
    ensures forall e :: e in NodeEntries(wellKey, wellId, bucket, nodes) ==> e.wellKey == wellKey && e.bucket == bucket
    decreases |nodes|
  {
    if nodes != [] {
      NodeEntriesFields(wellKey, wellId, bucket, DropLast(nodes));
    }
  }

  lemma {:induction false} BucketEntriesWell(wellKey: string, wellId: string, buckets: OrderedMap<string, seq<ManifestNode>>)
    ensures forall e :: e in BucketEntries(wellKey, wellId, buckets) ==> e.wellKey == wellKey
    decreases |buckets|
  {
    if buckets != [] {
      BucketEntriesWell(wellKey, wellId, DropLast(buckets));
      NodeEntriesFields(wellKey, wellId, Last(buckets).0, Last(buckets).1);
    }
  }

  /** Every yielded entry is the entry of one node of one bucket of one well. */
  lemma {:induction false} NodeEntriesOrigin(wellKey: string, wellId: string, bucket: string, nodes: seq<ManifestNode>, e: FileEntry)
    requires e in NodeEntries(wellKey, wellId, bucket, nodes)
    ensures exists k :: 0 <= k < |nodes| && e == LegacyEntry(wellKey, wellId, bucket, nodes[k])
    decreases |nodes|
  {
    if e != LegacyEntry(wellKey, wellId, bucket, Last(nodes)) {
      NodeEntriesOrigin(wellKey, wellId, bucket, DropLast(nodes), e);
      var k :| 0 <= k < |DropLast(nodes)| && e == LegacyEntry(wellKey, wellId, bucket, DropLast(nodes)[k]);
      assert DropLast(nodes)[k] == nodes[k];
    }
  }

  /** An empty (or blank) query selects every node that passes the filters. */
  lemma EmptyQueryKeepsAll(ms: OrderedMap<string, Manifest>, q: string, wellKey: Option<string>, bucket: Option<string>, includeDirs: bool)
    requires AllSpace(q)
    ensures forall e :: e in Entries(ms, q, wellKey, bucket, includeDirs) <==>
      e in AllEntries(ms) && (!FilterActive(wellKey) || e.wellKey == wellKey.value)
      && (!FilterActive(bucket) || e.bucket == bucket.value) && (includeDirs || e.kind != Directory)
  {
    LowerStripCommute(q);
    assert Strip(q) == [];
  }

  /** With no filters, directories included, and a blank query, every node of every well is yielded, in order. */
  lemma EmptyQueryYieldsEverything(ms: OrderedMap<string, Manifest>, q: string)
    requires AllSpace(q)
    ensures Entries(ms, q, None, None, true) == AllEntries(ms)
  {
    EmptyQueryKeepsAll(ms, q, None, None, true);
    FilterKeepsAll(AllEntries(ms), KeepFn(LegacyQuery(q), None, None, true));
  }

  /** A query found in the lowercased filename, path, bucket, well key or well id is found in the haystack. */
  lemma FieldMatchInHaystack(e: FileEntry, ql: string, k: nat)
    requires k < 5
    requires Contains(Lower([e.wellKey, e.wellId, e.bucket, e.filename, e.path][k]), ql)
    ensures Contains(Haystack(e), ql)
  {
    var fields := [e.wellKey, e.wellId, e.bucket, e.filename, e.path, Join(e.tags, " ")];
    JoinContainsPart(fields, " ", k);
    LowerContains(Join(fields, " "), fields[k]);
    ContainsTransitive(Haystack(e), Lower(fields[k]), ql);
  }

  lemma NodeEntriesSnoc(wellKey: string, wellId: string, bucket: string, nodes: seq<ManifestNode>, n: ManifestNode)
    ensures NodeEntries(wellKey, wellId, bucket, nodes + [n])
      == NodeEntries(wellKey, wellId, bucket, nodes) + [LegacyEntry(wellKey, wellId, bucket, n)]
  {
    assert DropLast(nodes + [n]) == nodes;
  }

  lemma BucketEntriesSnoc(wellKey: string, wellId: string, buckets: OrderedMap<string, seq<ManifestNode>>, b: (string, seq<ManifestNode>))
    ensures BucketEntries(wellKey, wellId, buckets + [b]) == BucketEntries(wellKey, wellId, buckets) + NodeEntries(wellKey, wellId, b.0, b.1)
  {
    assert DropLast(buckets + [b]) == buckets;
  }

  lemma AllEntriesSnoc(ms: OrderedMap<string, Manifest>, x: (string, Manifest))
    ensures AllEntries(ms + [x]) == AllEntries(ms) + BucketEntries(x.0, x.1.wellId, x.1.buckets)
  {
    assert DropLast(ms + [x]) == ms;
  }

  /**
   * The innermost loop of `_iter_entries`, for a well and bucket that passed their filters: skip
   * directories unless included, build the entry and its haystack, skip it when the query is not in it.
   */
  method IterNodes(ql: string, wellKey: Option<string>, bucket: Option<string>, includeDirs: bool,
                   wk: string, wellId: string, bname: string, nodes: seq<ManifestNode>) returns (r: seq<FileEntry>)
    requires !FilterActive(wellKey) || wk == wellKey.value
    requires !FilterActive(bucket) || bname == bucket.value
    ensures r == Filter(NodeEntries(wk, wellId, bname, nodes), KeepFn(ql, wellKey, bucket, includeDirs))
  {
    r := [];
    var k := 0;
    while k < |nodes|
      invariant 0 <= k <= |nodes|
      invariant r == Filter(NodeEntries(wk, wellId, bname, nodes[..k]), KeepFn(ql, wellKey, bucket, includeDirs))
    {
      var n := nodes[k];
      TakeSnoc(nodes, k);
      NodeEntriesSnoc(wk, wellId, bname, nodes[..k], n);
      FilterSnoc(NodeEntries(wk, wellId, bname, nodes[..k]), LegacyEntry(wk, wellId, bname, n), KeepFn(ql, wellKey, bucket, includeDirs));
      if !includeDirs && n.kind == Directory {
      } else {
        var filename := n.name;
        var path := n.path;
        var tagsList := SplitTagsLegacy(n.tags);
        var hay := Lower(Join([wk, wellId, bname, filename, path, Join(tagsList, " ")], " "));
        if ql != "" && !Contains(hay, ql) {
        } else {
          r := r + [FileEntry(n.kind, wk, wellId, bname, path, filename, tagsList)];
        }
      }
      k := k + 1;
    }
    assert nodes[..k] == nodes;
  }

  /** A bucket other than the one asked for contributes nothing. */
  lemma SkippedBucket(ql: string, wellKey: Option<string>, bucket: Option<string>, includeDirs: bool,
                      wk: string, wellId: string, bname: string, nodes: seq<ManifestNode>)
    requires FilterActive(bucket) && bname != bucket.value
    ensures Filter(NodeEntries(wk, wellId, bname, nodes), KeepFn(ql, wellKey, bucket, includeDirs)) == []
  {
    NodeEntriesFields(wk, wellId, bname, nodes);
    FilterKeepsNone(NodeEntries(wk, wellId, bname, nodes), KeepFn(ql, wellKey, bucket, includeDirs));
  }

  /** A well other than the one asked for contributes nothing. */
  lemma SkippedWell(ql: string, wellKey: Option<string>, bucket: Option<string>, includeDirs: bool,
                    wk: string, wellId: string, buckets: OrderedMap<string, seq<ManifestNode>>)
    requires FilterActive(wellKey) && wk != wellKey.value
    ensures Filter(BucketEntries(wk, wellId, buckets), KeepFn(ql, wellKey, bucket, includeDirs)) == []
  {
    BucketEntriesWell(wk, wellId, buckets);
    FilterKeepsNone(BucketEntries(wk, wellId, buckets), KeepFn(ql, wellKey, bucket, includeDirs));
  }

  /** One bucket more: its selected entries follow those of the buckets before it. */
  lemma BucketEntriesStep(wk: string, wellId: string, buckets: OrderedMap<string, seq<ManifestNode>>, j: nat, p: FileEntry -> bool)
    requires j < |buckets|
    ensures Filter(BucketEntries(wk, wellId, buckets[..j + 1]), p)
      == Filter(BucketEntries(wk, wellId, buckets[..j]), p) + Filter(NodeEntries(wk, wellId, buckets[j].0, buckets[j].1), p)
  {
    TakeSnoc(buckets, j);
    BucketEntriesSnoc(wk, wellId, buckets[..j], buckets[j]);
    FilterAppend(BucketEntries(wk, wellId, buckets[..j]), NodeEntries(wk, wellId, buckets[j].0, buckets[j].1), p);
  }

  /** One well more: its selected entries follow those of the wells before it. */
  lemma AllEntriesStep(ms: OrderedMap<string, Manifest>, i: nat, p: FileEntry -> bool)
    requires i < |ms|
    ensures Filter(AllEntries(ms[..i + 1]), p)
      == Filter(AllEntries(ms[..i]), p) + Filter(BucketEntries(ms[i].0, ms[i].1.wellId, ms[i].1.buckets), p)
  {
    TakeSnoc(ms, i);
    AllEntriesSnoc(ms[..i], ms[i]);
    FilterAppend(AllEntries(ms[..i]), BucketEntries(ms[i].0, ms[i].1.wellId, ms[i].1.buckets), p);
  }

  /** The bucket loop of `_iter_entries`, for a well that passed its filter: skip buckets other than a given one. */
  method IterBuckets(ql: string, wellKey: Option<string>, bucket: Option<string>, includeDirs: bool,
                     wk: string, wellId: string, buckets: OrderedMap<string, seq<ManifestNode>>) returns (r: seq<FileEntry>)
    requires !FilterActive(wellKey) || wk == wellKey.value
    ensures r == Filter(BucketEntries(wk, wellId, buckets), KeepFn(ql, wellKey, bucket, includeDirs))
  {
    r := [];
    var j := 0;
    while j < |buckets|
      invariant 0 <= j <= |buckets|
      invariant r == Filter(BucketEntries(wk, wellId, buckets[..j]), KeepFn(ql, wellKey, bucket, includeDirs))
    {
      var bname, nodes := buckets[j].0, buckets[j].1;
      BucketEntriesStep(wk, wellId, buckets, j, KeepFn(ql, wellKey, bucket, includeDirs));
      if FilterActive(bucket) && bname != bucket.value {
        SkippedBucket(ql, wellKey, bucket, includeDirs, wk, wellId, bname, nodes);
      } else {
        var yielded := IterNodes(ql, wellKey, bucket, includeDirs, wk, wellId, bname, nodes);
        r := r + yielded;
      }
      j := j + 1;
    }
    assert buckets[..j] == buckets;
  }

  /** `_iter_entries`: the well loop, skipping wells other than a given one; the result is collected into a list. */
  method IterEntries(ms: OrderedMap<string, Manifest>, q: string, wellKey: Option<string>, bucket: Option<string>,
                     includeDirs: bool) returns (out: seq<FileEntry>)
    ensures out == Entries(ms, q, wellKey, bucket, includeDirs)
  {
    var ql := Strip(Lower(q));
    out := [];
    var i := 0;
    while i < |ms|
      invariant 0 <= i <= |ms|
      invariant out == Filter(AllEntries(ms[..i]), KeepFn(ql, wellKey, bucket, includeDirs))
    {
      var wk, m := ms[i].0, ms[i].1;
      AllEntriesStep(ms, i, KeepFn(ql, wellKey, bucket, includeDirs));
      if FilterActive(wellKey) && wk != wellKey.value {
        SkippedWell(ql, wellKey, bucket, includeDirs, wk, m.wellId, m.buckets);
      } else {
        var yielded := IterBuckets(ql, wellKey, bucket, includeDirs, wk, m.wellId, m.buckets);
        out := out + yielded;
      }
      i := i + 1;
    }
    assert ms[..i] == ms;
  }

  // ---------------------------------------------------------------- endpoints

  /** The summary the older engine gives a well: per-bucket node counts (supplied counts are ignored), the manifest's own well id. */
  function LegacySummaryOf(wellKey: string, m: Manifest): (r: WellSummary)
    ensures r.wellKey == wellKey && r.wellId == m.wellId
    ensures Keys(r.bucketCounts) == Keys(m.buckets)
    ensures forall i :: 0 <= i < |m.buckets| ==> r.bucketCounts[i].1 == |m.buckets[i].1|
    ensures r.totalFiles == SumValues(r.bucketCounts) == TotalNodes(m.buckets)
    ensures r.foreignReferenceCount == ForeignRefCountOf(m)
  {
    var counts := NodeCounts(m.buckets);
    SumNodeCounts(m.buckets);
    WellSummary(wellKey, m.wellId, counts, SumValues(counts), ForeignRefCountOf(m))
  }

  /**
   * `_ensure_loaded`: with no manifests loaded every endpoint answers 500 before anything else.
   * Since an empty map has no keys, an endpoint keyed by a well reports `NotLoaded` in place of
   * `UnknownWellKey` in exactly that case.
   */
  predicate Loaded(ms: OrderedMap<string, Manifest>)
  {
    ms != []
  }

  /** `well_summary`. */
  function WellSummaryOf(ms: OrderedMap<string, Manifest>, wellKey: string): (r: Result<WellSummary, ApiError>)
    ensures r.Err? <==> wellKey !in Keys(ms)
    ensures r == Err(NotLoaded) <==> !Loaded(ms)
    ensures r.Err? && Loaded(ms) ==> r.error == UnknownWellKey
    ensures r.Ok? ==> r.value == LegacySummaryOf(wellKey, Get(ms, wellKey).value)
  {
    if !Loaded(ms) then Err(NotLoaded)
    else
      match Get(ms, wellKey)
      case None => Err(UnknownWellKey)
      case Some(m) => Ok(LegacySummaryOf(wellKey, m))
  }

  lemma SortedKeysAreKeys(ms: OrderedMap<string, Manifest>)
    ensures forall k :: k in SortStrings(Keys(ms)) <==> k in Keys(ms)
    ensures |SortStrings(Keys(ms))| == |ms|
  {
    var ws := SortStrings(Keys(ms));
    forall k ensures k in ws <==> k in Keys(ms) {
      assert k in ws <==> k in multiset(ws);
      assert k in Keys(ms) <==> k in multiset(Keys(ms));
    }
    assert |ws| == |multiset(ws)| == |multiset(Keys(ms))| == |ms|;
  }

  /** `list_wells`: every loaded well key once, sorted, and their number. */
  function ListWells(ms: OrderedMap<string, Manifest>): (r: Result<(nat, seq<string>), ApiError>)
    ensures r.Err? <==> !Loaded(ms)
    ensures r.Err? ==> r.error == NotLoaded
    ensures r.Ok? ==> (r.value.0 == |r.value.1| == |ms| && Sorted(r.value.1)
      && forall k :: k in r.value.1 <==> k in Keys(ms))
  {
    if !Loaded(ms) then Err(NotLoaded)
    else
      var wells := SortStrings(Keys(ms));
      SortedKeysAreKeys(ms);
      Ok((|wells|, wells))
  }

  /** The body of the `summary` loop: one well's counts, their sum, and its foreign-reference count. */
  method SummarizeWell(wk: string, m: Manifest) returns (s: WellSummary)
    ensures s == LegacySummaryOf(wk, m)
  {
    var counts := NodeCounts(m.buckets);
    var foreign := ForeignRefCount(m);
    SumNodeCounts(m.buckets);
    s := WellSummary(wk, m.wellId, counts, SumValues(counts), foreign);
  }

  /** `summary`: a loop appending the summary of each sorted well key in the `[offset:offset+limit]` window. */
  method Summary(ms: OrderedMap<string, Manifest>, limit: nat, offset: nat) returns (r: Result<SummaryListResponse, ApiError>)
    requires limit >= 1
    ensures r.Err? <==> !Loaded(ms)
    ensures r.Err? ==> r.error == NotLoaded
    ensures r.Ok? ==> (r.value.total == |ms| && r.value.offset == offset && r.value.limit == limit)
    ensures r.Ok? ==> r.value.count == |r.value.wells| == Max(0, Min(limit, |ms| - offset))
    ensures r.Ok? ==> var keys := Page(SortStrings(Keys(ms)), offset, limit);
      && |keys| == r.value.count
      && (forall i :: 0 <= i < |keys| ==> keys[i] in Keys(ms))
      && (forall i :: 0 <= i < |keys| ==> r.value.wells[i] == LegacySummaryOf(keys[i], Get(ms, keys[i]).value))
  {
    if !Loaded(ms) {
      return Err(NotLoaded);
    }
    var wells := SortStrings(Keys(ms));
    var total := |wells|;
    var pageKeys := Page(wells, offset, limit);
    SortedKeysAreKeys(ms);
    PageIsSubsequence(wells, offset, limit);
    SubsequenceMembers(pageKeys, wells);
    var summaries: seq<WellSummary> := [];
    var i := 0;
    while i < |pageKeys|
      invariant 0 <= i <= |pageKeys|
      invariant |summaries| == i
      invariant forall t :: 0 <= t < i ==> summaries[t] == LegacySummaryOf(pageKeys[t], Get(ms, pageKeys[t]).value)
    {
      var s := SummarizeWell(pageKeys[i], Get(ms, pageKeys[i]).value);
      summaries := summaries + [s];
      i := i + 1;
    }
    r := Ok(SummaryListResponse(total, offset, limit, |summaries|, summaries));
  }

  /** `well_buckets`: the well's bucket names, sorted. */
  function WellBuckets(ms: OrderedMap<string, Manifest>, wellKey: string): (r: Result<BucketsResponse, ApiError>)
    ensures r.Err? <==> wellKey !in Keys(ms)
    ensures r == Err(NotLoaded) <==> !Loaded(ms)
    ensures r.Err? && Loaded(ms) ==> r.error == UnknownWellKey
    ensures r.Ok? ==> (r.value.wellKey == wellKey && Sorted(r.value.buckets)
      && multiset(r.value.buckets) == multiset(Keys(Get(ms, wellKey).value.buckets)))
  {
    if !Loaded(ms) then Err(NotLoaded)
    else
      match Get(ms, wellKey)
      case None => Err(UnknownWellKey)
      case Some(m) => Ok(BucketsResponse(wellKey, SortStrings(Keys(m.buckets))))
  }

  /**
   * `bucket_files`: an unknown well and an unknown bucket are two errors, and an empty bucket is an
   * empty listing; `total` counts the bucket's nodes and the files are the window's nodes as entries.
   */
  function BucketFiles(ms: OrderedMap<string, Manifest>, wellKey: string, bucket: string, limit: nat, offset: nat)
    : (r: Result<BucketFilesResponse, ApiError>)
    requires limit >= 1
    ensures r == Err(NotLoaded) <==> !Loaded(ms)
    ensures r == Err(UnknownWellKey) <==> Loaded(ms) && wellKey !in Keys(ms)
    ensures r == Err(UnknownBucket) <==> wellKey in Keys(ms) && bucket !in Keys(Get(ms, wellKey).value.buckets)
    ensures r.Ok? ==> var m := Get(ms, wellKey).value; var nodes := Get(m.buckets, bucket).value;
      && r.value.wellKey == wellKey && r.value.bucket == bucket && r.value.offset == offset && r.value.limit == limit
      && r.value.total == |nodes|
      && |r.value.files| == Max(0, Min(limit, |nodes| - offset))
      && (forall i :: 0 <= i < |r.value.files| ==> r.value.files[i] == LegacyEntry(wellKey, m.wellId, bucket, nodes[offset + i]))
  {
    if !Loaded(ms) then Err(NotLoaded)
    else
      match Get(ms, wellKey)
      case None => Err(UnknownWellKey)
      case Some(m) =>
        match Get(m.buckets, bucket)
        case None => Err(UnknownBucket)
        case Some(nodes) =>
          var page := Page(nodes, offset, limit);
          var files := seq(|page|, i requires 0 <= i < |page| => LegacyEntry(wellKey, m.wellId, bucket, page[i]));
          Ok(BucketFilesResponse(wellKey, bucket, |nodes|, offset, limit, files))
  }

  /** `foreign_references`: the supplied list, or `[]`, and its length. */
  function ForeignReferences(ms: OrderedMap<string, Manifest>, wellKey: string): (r: Result<ForeignReferencesResponse, ApiError>)
    ensures r.Err? <==> wellKey !in Keys(ms)
    ensures r == Err(NotLoaded) <==> !Loaded(ms)
    ensures r.Err? && Loaded(ms) ==> r.error == UnknownWellKey
    ensures r.Ok? ==> var m := Get(ms, wellKey).value;
      && r.value.wellKey == wellKey && r.value.count == |r.value.references|
      && r.value.references == (if m.foreignRef.Some? then m.foreignRef.value else [])
  {
    if !Loaded(ms) then Err(NotLoaded)
    else
      match Get(ms, wellKey)
      case None => Err(UnknownWellKey)
      case Some(m) =>
        var refs := if m.foreignRef.Some? then m.foreignRef.value else [];
        Ok(ForeignReferencesResponse(wellKey, |refs|, refs))
  }

  /** The result list of `search` before pagination: the scan's entries, deduped when asked. */
  function SearchResults(ms: OrderedMap<string, Manifest>, q: string, wellKey: Option<string>, bucket: Option<string>,
                         includeDirs: bool, dedupe: bool, key: DedupeKey): (r: seq<FileEntry>)
    ensures forall e :: e in r ==> e in AllEntries(ms) && Keep(LegacyQuery(q), wellKey, bucket, includeDirs, e)
    ensures dedupe ==> KeysUnique(r, key) && KeySet(r, key) == KeySet(Entries(ms, q, wellKey, bucket, includeDirs), key)
    ensures !dedupe ==> r == Entries(ms, q, wellKey, bucket, includeDirs)
    ensures dedupe ==> r == Deduped(Entries(ms, q, wellKey, bucket, includeDirs), key)
  {
    var all := Entries(ms, q, wellKey, bucket, includeDirs);
    if dedupe then
      DedupedSubsequence(all, key);
      SubsequenceMembers(Deduped(all, key), all);
      DedupedUnique(all, key);
      DedupedKeySet(all, key);
      Deduped(all, key)
    else all
  }

  /** The response of `search` once loaded: `total` counts the deduped scan; the page is its `[offset:offset+limit]` window. */
  function SearchPage(ms: OrderedMap<string, Manifest>, q: string, wellKey: Option<string>, bucket: Option<string>, limit: nat,
                      offset: nat, includeDirs: bool, dedupe: bool, key: DedupeKey): (r: SearchResponse)
    requires |q| >= 1 && limit >= 1
    ensures r.query == q && r.wellKeyFilter == wellKey && r.bucketFilter == bucket
    ensures r.offset == offset && r.limit == limit
    ensures var all := SearchResults(ms, q, wellKey, bucket, includeDirs, dedupe, key);
      r.total == |all| && r.results == Page(all, offset, limit)
    ensures |r.results| <= limit && |r.results| <= r.total
    ensures forall e :: e in r.results ==> e in AllEntries(ms) && Keep(LegacyQuery(q), wellKey, bucket, includeDirs, e)
  {
    var all := SearchResults(ms, q, wellKey, bucket, includeDirs, dedupe, key);
    var page := Page(all, offset, limit);
    PageIsSubsequence(all, offset, limit);
    SubsequenceMembers(page, all);
    SearchResponse(q, wellKey, bucket, |all|, offset, limit, page)
  }

  /** `search`. */
  function Search(ms: OrderedMap<string, Manifest>, q: string, wellKey: Option<string>, bucket: Option<string>, limit: nat,
                  offset: nat, includeDirs: bool, dedupe: bool, key: DedupeKey): (r: Result<SearchResponse, ApiError>)
    requires |q| >= 1 && limit >= 1
    ensures r.Err? <==> !Loaded(ms)
    ensures r.Err? ==> r.error == NotLoaded
    ensures r.Ok? ==> r.value == SearchPage(ms, q, wellKey, bucket, limit, offset, includeDirs, dedupe, key)
  {
    if !Loaded(ms) then Err(NotLoaded)
    else Ok(SearchPage(ms, q, wellKey, bucket, limit, offset, includeDirs, dedupe, key))
  }

  /** `search_in_well`: an unknown well key is an error; otherwise `search` restricted to that well. */
  function SearchInWell(ms: OrderedMap<string, Manifest>, wellKey: string, q: string, bucket: Option<string>, limit: nat,
                        offset: nat, includeDirs: bool, dedupe: bool, key: DedupeKey): (r: Result<SearchResponse, ApiError>)
    requires |q| >= 1 && limit >= 1
    ensures r.Err? <==> wellKey !in Keys(ms)
    ensures r == Err(NotLoaded) <==> !Loaded(ms)
    ensures r.Err? && Loaded(ms) ==> r.error == UnknownWellKey
    ensures r.Ok? ==> r.value == SearchPage(ms, q, Some(wellKey), bucket, limit, offset, includeDirs, dedupe, key)
    ensures r.Ok? && wellKey != "" ==> forall e :: e in r.value.results ==> e.wellKey == wellKey
  {
    if !Loaded(ms) then Err(NotLoaded)
    else if wellKey !in Keys(ms) then Err(UnknownWellKey)
    else Ok(SearchPage(ms, q, Some(wellKey), bucket, limit, offset, includeDirs, dedupe, key))
  }

  /** The CSV body of both CSV endpoints: the scan, deduped when asked, as rows. */
  method ResultsCsv(ms: OrderedMap<string, Manifest>, q: string, wellKey: Option<string>, bucket: Option<string>,
                    includeDirs: bool, dedupe: bool, key: DedupeKey) returns (rows: seq<seq<string>>)
    ensures var all := SearchResults(ms, q, wellKey, bucket, includeDirs, dedupe, key);
      |rows| == |all| + 1 && rows[0] == CsvHeader && forall i :: 0 <= i < |all| ==> rows[i + 1] == CsvRow(all[i])
  {
    var results := IterEntries(ms, q, wellKey, bucket, includeDirs);
    if dedupe {
      results := DedupeResults(results, key);
    }
    rows := AsCsvRows(results);
  }

  /** `search.csv`. */
  method SearchCsv(ms: OrderedMap<string, Manifest>, q: string, wellKey: Option<string>, bucket: Option<string>,
                   includeDirs: bool, dedupe: bool, key: DedupeKey) returns (r: Result<seq<seq<string>>, ApiError>)
    requires |q| >= 1
    ensures r.Err? <==> !Loaded(ms)
    ensures r.Err? ==> r.error == NotLoaded
    ensures r.Ok? ==> var all := SearchResults(ms, q, wellKey, bucket, includeDirs, dedupe, key);
      |r.value| == |all| + 1 && r.value[0] == CsvHeader && forall i :: 0 <= i < |all| ==> r.value[i + 1] == CsvRow(all[i])
  {
    if !Loaded(ms) {
      return Err(NotLoaded);
    }
    var rows := ResultsCsv(ms, q, wellKey, bucket, includeDirs, dedupe, key);
    r := Ok(rows);
  }

  /** `/wells/{well_key}/search.csv`: an unknown well key is an error; otherwise the scan restricted to that well, as CSV rows. */
  method SearchInWellCsv(ms: OrderedMap<string, Manifest>, wellKey: string, q: string, bucket: Option<string>,
                         includeDirs: bool, dedupe: bool, key: DedupeKey) returns (r: Result<seq<seq<string>>, ApiError>)
    requires |q| >= 1
    ensures r.Err? <==> wellKey !in Keys(ms)
    ensures r == Err(NotLoaded) <==> !Loaded(ms)
    ensures r.Err? && Loaded(ms) ==> r.error == UnknownWellKey
    ensures r.Ok? ==> var all := SearchResults(ms, q, Some(wellKey), bucket, includeDirs, dedupe, key);
      |r.value| == |all| + 1 && r.value[0] == CsvHeader && forall i :: 0 <= i < |all| ==> r.value[i + 1] == CsvRow(all[i])
  {
    if !Loaded(ms) {
      return Err(NotLoaded);
    }
    if wellKey !in Keys(ms) {
      return Err(UnknownWellKey);
    }
    var rows := ResultsCsv(ms, q, Some(wellKey), bucket, includeDirs, dedupe, key);
    r := Ok(rows);
  }
}
