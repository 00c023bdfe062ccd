/**
 * Result shaping shared, word for word, by both API layers: first-occurrence dedupe of result
 * entries (`_dedupe_results`) and the CSV row layout (`_as_csv_rows`, rows as lists of fields).
 */
module Results {
  import opened Seqs
  import opened Strings
  import opened Models
  import opened Index

  // ---------------------------------------------------------------- dedupe

  /** The dedupe key of an entry: its path, or `well_key::filename`. */
  function KeyOf(e: FileEntry, key: DedupeKey): string
  {
    match key
    case ByPath => e.path
    case ByFilename => e.wellKey + "::" + e.filename
  }

  /** The set of keys occurring in a list. */
  function KeySet(s: seq<FileEntry>, key: DedupeKey): set<string>
  {
    set e | e in s :: KeyOf(e, key)
  }

  /** Position `i` holds the first entry of `s` with its key. */
  predicate IsFirst(s: seq<FileEntry>, key: DedupeKey, i: nat)
    requires i < |s|
  {
    forall j :: 0 <= j < i ==> KeyOf(s[j], key) != KeyOf(s[i], key)
  }

  /** No two entries of `s` share a key. */
  predicate KeysUnique(s: seq<FileEntry>, key: DedupeKey)
  {
    forall i, j :: 0 <= i < j < |s| ==> KeyOf(s[i], key) != KeyOf(s[j], key)
  }

  /** The reference definition of `_dedupe_results`: keep an entry when no earlier entry had its key. */
  function Deduped(s: seq<FileEntry>, key: DedupeKey): seq<FileEntry>
    decreases |s|
  {
    if s == [] then []
    else if KeyOf(Last(s), key) in KeySet(DropLast(s), key) then Deduped(DropLast(s), key)
    else Deduped(DropLast(s), key) + [Last(s)]
  }

  lemma KeySetSnoc(s: seq<FileEntry>, key: DedupeKey, e: FileEntry)
    ensures KeySet(s + [e], key) == KeySet(s, key) + {KeyOf(e, key)}
  {
    assert forall x :: x in s + [e] <==> x in s || x == e;
  }

  lemma DedupedSnoc(s: seq<FileEntry>, key: DedupeKey, e: FileEntry)
    ensures Deduped(s + [e], key) == if KeyOf(e, key) in KeySet(s, key) then Deduped(s, key) else Deduped(s, key) + [e]
  {
    assert DropLast(s + [e]) == s;
  }

  /** Dedupe keeps exactly the keys of its input. */
  lemma {:induction false} DedupedKeySet(s: seq<FileEntry>, key: DedupeKey)
    ensures KeySet(Deduped(s, key), key) == KeySet(s, key)
    decreases |s|
  {
    if s != [] {
      var init, e := DropLast(s), Last(s);
      assert s == init + [e];
      DedupedKeySet(init, key);
      KeySetSnoc(init, key, e);
      if KeyOf(e, key) !in KeySet(init, key) {
        KeySetSnoc(Deduped(init, key), key, e);
      }
    }
  }

  /** The output is an order-preserving subsequence of the input. */
  lemma {:induction false} DedupedSubsequence(s: seq<FileEntry>, key: DedupeKey)
    ensures IsSubsequence(Deduped(s, key), s)
    decreases |s|
  {
    if s != [] {
      var init, e := DropLast(s), Last(s);
      assert s == init + [e];
      DedupedSubsequence(init, key);
      if KeyOf(e, key) in KeySet(init, key) {
        SubsequenceSkip(Deduped(init, key), init, e);
      } else {
        SubsequenceTake(Deduped(init, key), init, e);
      }
    }
  }

  /** No two output entries share a key. */
  lemma {:induction false} DedupedUnique(s: seq<FileEntry>, key: DedupeKey)
    ensures KeysUnique(Deduped(s, key), key)
    decreases |s|
  {
    if s != [] {
      var init, e := DropLast(s), Last(s);
      assert s == init + [e];
      DedupedUnique(init, key);
      if KeyOf(e, key) !in KeySet(init, key) {
        var d := Deduped(init, key);
        DedupedKeySet(init, key);
        assert forall i :: 0 <= i < |d| ==> KeyOf(d[i], key) in KeySet(d, key);
      }
    }
  }

  /** The last entry, when it is the first with its key, has a key no earlier entry has. */
  lemma FirstLastUnseen(s: seq<FileEntry>, key: DedupeKey)
    requires s != [] && IsFirst(s, key, |s| - 1)
    ensures KeyOf(Last(s), key) !in KeySet(DropLast(s), key)
  {
    var init := DropLast(s);
    forall x | x in init ensures KeyOf(x, key) != KeyOf(Last(s), key) {
      var j :| 0 <= j < |init| && init[j] == x;
      assert s[j] == x;
    }
  }

  /** A first occurrence before the last entry is a first occurrence in the list without it. */
  lemma FirstInInit(s: seq<FileEntry>, key: DedupeKey, i: nat)
    requires i < |s| - 1 && IsFirst(s, key, i)
    ensures IsFirst(DropLast(s), key, i)
  {
    var init := DropLast(s);
    assert forall j :: 0 <= j <= i ==> init[j] == s[j];
  }

  /** Every first occurrence of a key in the input is kept. */
  lemma {:induction false} DedupedKeepsFirst(s: seq<FileEntry>, key: DedupeKey, i: nat)
    requires i < |s| && IsFirst(s, key, i)
    ensures s[i] in Deduped(s, key)
    decreases |s|
  {
    var init, e := DropLast(s), Last(s);
    if i == |s| - 1 {
      FirstLastUnseen(s, key);
    } else {
      FirstInInit(s, key, i);
      DedupedKeepsFirst(init, key, i);
      assert init[i] == s[i];
    }
  }

  /** A list whose keys are already unique is left as it is. */
  lemma {:induction false} DedupedOfUnique(s: seq<FileEntry>, key: DedupeKey)
    requires KeysUnique(s, key)
    ensures Deduped(s, key) == s
    decreases |s|
  {
    if s != [] {
      var init, e := DropLast(s), Last(s);
      assert s == init + [e];
      assert KeysUnique(init, key) by {
        assert forall i :: 0 <= i < |init| ==> init[i] == s[i];
      }
      DedupedOfUnique(init, key);
      assert KeyOf(e, key) !in KeySet(init, key) by {
        forall x | x in init ensures KeyOf(x, key) != KeyOf(e, key) {
          var j :| 0 <= j < |init| && init[j] == x;
          assert s[j] == x && s[|s| - 1] == e;
        }
      }
    }
  }

  /** Dedupe is idempotent. */
  lemma DedupedIdempotent(s: seq<FileEntry>, key: DedupeKey)
    ensures Deduped(Deduped(s, key), key) == Deduped(s, key)
  {
    DedupedUnique(s, key);
    DedupedOfUnique(Deduped(s, key), key);
  }

  /**
   * `_dedupe_results`: one pass keeping a `seen` set of keys; an entry whose key was seen is
   * skipped, otherwise its key is recorded and it is appended.
   */
  method DedupeResults(results: seq<FileEntry>, key: DedupeKey) returns (out: seq<FileEntry>)
    ensures out == Deduped(results, key)
  {
    var seen: set<string> := {};
    out := [];
    var i := 0;
    while i < |results|
      invariant 0 <= i <= |results|
      invariant seen == KeySet(results[..i], key)
      invariant out == Deduped(results[..i], key)
    {
      var r := results[i];
      var k := if key == ByPath then r.path else r.wellKey + "::" + r.filename;
      assert k == KeyOf(r, key);
      TakeSnoc(results, i);
      KeySetSnoc(results[..i], key, r);
      DedupedSnoc(results[..i], key, r);
      if k !in seen {
        seen := seen + {k};
        out := out + [r];
      }
      i := i + 1;
    }
    assert results[..i] == results;
  }

  // ---------------------------------------------------------------- CSV rows

  /** The header row of every CSV export. */
  const CsvHeader: seq<string> := ["well_key", "well_id", "bucket", "filename", "path", "tags"]

  /** One CSV data row: the fields in header order, tags joined with `|`. */
  function CsvRow(e: FileEntry): (row: seq<string>)
    ensures |row| == |CsvHeader|
  {
    [e.wellKey, e.wellId, e.bucket, e.filename, e.path, Join(e.tags, "|")]
  }

  /** `_as_csv_rows` with the CSV quoting left to the writer: the header, then one row per entry in input order. */
  method AsCsvRows(entries: seq<FileEntry>) returns (rows: seq<seq<string>>)
    ensures |rows| == |entries| + 1
    ensures rows[0] == CsvHeader
    ensures forall i :: 0 <= i < |entries| ==> rows[i + 1] == CsvRow(entries[i])
  {
    rows := [CsvHeader];
    var i := 0;
    while i < |entries|
      invariant 0 <= i <= |entries|
      invariant |rows| == i + 1
      invariant rows[0] == CsvHeader
      invariant forall j :: 0 <= j < i ==> rows[j + 1] == CsvRow(entries[j])
    {
      var e := entries[i];
      rows := rows + [[e.wellKey, e.wellId, e.bucket, e.filename, e.path, Join(e.tags, "|")]];
      i := i + 1;
    }
  }

  /** The tags column splits back on `|` into the entry's tags, when there are some and none holds `|`. */
  lemma CsvTagsSplitBack(e: FileEntry)
    requires e.tags != []
    requires forall t :: t in e.tags ==> '|' !in t
    ensures Split(CsvRow(e)[5], '|') == e.tags
  {
    SplitJoin(e.tags, '|');
  }

  /** For the index's entries (tags from a tag string), re-normalising the tags column gives the tags back. */
  lemma CsvTagsRoundTrip(e: FileEntry, text: string)
    requires e.tags == SplitTags(TagText(text))
    ensures SplitTags(TagText(CsvRow(e)[5])) == e.tags
  {
    SplitTagsJoinRoundTrip(text);
  }
}
