/** PREVIOUSPROJECTATTEMPT/rag/doc_index.py: the document catalogue
    category -> year -> [entry], derived from the `index.faiss` blobs found
    under the vector-store prefix. */
module DocIndex {
  import opened Wrappers
  import opened Text
  import opened Ordering
  import opened Grouping
  import BlobStorage

  const IndexSuffix := "/index.faiss"
  const RootBucket := "root"

  /** One catalogue entry: `{id, label, year, pdf_rel_path, vs_rel_path}`. */
  datatype DocEntry = DocEntry(id: string, docLabel: string, year: string, pdfRelPath: string, vsRelPath: string)

  function LabelOf(e: DocEntry): string {
    e.docLabel
  }

  /** `vectorstore_prefix.strip("/").rstrip("/") + "/"`. */
  function NormalizePrefix(vectorstorePrefix: string): (r: string)
    ensures r != [] && r[|r| - 1] == '/'
    ensures |r| >= 2 ==> r[0] != '/' && r[|r| - 2] != '/'
    ensures r == "/" <==> forall i :: 0 <= i < |vectorstorePrefix| ==> vectorstorePrefix[i] == '/'
  {
    var s := Strip(vectorstorePrefix, {'/'});
    assert RStrip(s, {'/'}) == s;
    s + "/"
  }

  /** `blob_name[len(prefix):-len("/index.faiss")]`. */
  function DocIdOf(name: string, prefix: string): string {
    PySlice(name, |prefix|, -|IndexSuffix|)
  }

  /** The non-empty '/'-segments of a document id. */
  function Segments(docId: string): (parts: seq<string>)
    ensures forall p :: p in parts ==> p != [] && '/' !in p
  {
    NonEmpty(Split(docId, '/'))
  }

  /** The per-key parse: the entry a listed name contributes, filed under its
      category and year, or nothing for a name that is not an index file or
      whose document id is empty. */
  function ParseKey(name: string, prefix: string): Option<Keyed<DocEntry>> {
    if !EndsWith(name, IndexSuffix) then None
    else
      var docId := DocIdOf(name, prefix);
      if docId == [] then None
      else
        var parts := Segments(docId);
        var category := if |parts| >= 1 then parts[0] else RootBucket;
        var year := if |parts| >= 2 then parts[1] else RootBucket;
        var docLabel := if |parts| > 2 then Join(parts[2..], "/")
                     else if parts != [] then parts[|parts| - 1] else docId;
        Some(Keyed(category, year, DocEntry(docId, docLabel, year, docId + ".pdf", docId)))
  }

  /** What every parsed entry satisfies: a non-empty id that is also its
      vector-store path, the PDF path beside it, and a year equal to the year
      bucket it is filed under; neither bucket key is empty. */
  predicate WellFiled(k: Keyed<DocEntry>) {
    && k.entry.id != []
    && k.entry.vsRelPath == k.entry.id
    && k.entry.pdfRelPath == k.entry.id + ".pdf"
    && k.entry.year == k.second
    && k.first != [] && k.second != []
  }

  /** A listed name yields an entry exactly when it ends in "/index.faiss" and
      leaves a non-empty id once prefix and suffix are cut off; the entry is
      well filed and its id is that cut. */
  lemma ParseKeyAccepts(name: string, prefix: string)
    ensures ParseKey(name, prefix).Some? <==> EndsWith(name, IndexSuffix) && DocIdOf(name, prefix) != []
    ensures ParseKey(name, prefix).Some? ==>
              WellFiled(ParseKey(name, prefix).value) && ParseKey(name, prefix).value.entry.id == DocIdOf(name, prefix)
  {
    var docId := DocIdOf(name, prefix);
    if EndsWith(name, IndexSuffix) && docId != [] {
      var parts := Segments(docId);
      if |parts| >= 1 { assert parts[0] in parts; }
      if |parts| >= 2 { assert parts[1] in parts; }
    }
  }

  /** For a listed name (which starts with the prefix), the entry's id puts the
      name back together. */
  lemma KeyRoundTrip(name: string, prefix: string)
    requires StartsWith(name, prefix) && ParseKey(name, prefix).Some?
    ensures prefix + ParseKey(name, prefix).value.entry.id + IndexSuffix == name
  {
    ParseKeyAccepts(name, prefix);
    var id := DocIdOf(name, prefix);
    var lo, hi := |prefix|, |name| - |IndexSuffix|;
    assert id == name[lo..hi];
    assert name[..lo] == prefix && name[hi..] == IndexSuffix;
    assert name == name[..lo] + name[lo..hi] + name[hi..];
  }

  /** Conversely, the index file of any non-empty document id under the
      prefix is accepted with exactly that id. */
  lemma KeyForDoc(docId: string, prefix: string)
    requires docId != []
    ensures var k := ParseKey(prefix + docId + IndexSuffix, prefix);
            k.Some? && k.value.entry.id == docId
  {
    var name := prefix + docId + IndexSuffix;
    assert name[|name| - |IndexSuffix|..] == IndexSuffix;
    assert name[|prefix|..|name| - |IndexSuffix|] == docId;
  }

  /** A document id made of three or more clean segments is category, year
      and label joined by '/'. */
  lemma SegmentsRebuildId(docId: string, prefix: string)
    requires ParseKey(prefix + docId + IndexSuffix, prefix).Some?
    requires forall p :: p in Split(docId, '/') ==> p != []
    requires |Split(docId, '/')| >= 3
    ensures var k := ParseKey(prefix + docId + IndexSuffix, prefix).value;
            k.first + "/" + k.second + "/" + k.entry.docLabel == docId
  {
    KeyForDoc(docId, prefix);
    var parts := Split(docId, '/');
    NonEmptyKeepsAll(parts);
    JoinSplit(docId, '/');
    assert Join(parts, "/") == parts[0] + "/" + (parts[1] + "/" + Join(parts[2..], "/")) by {
      assert parts[1..][1..] == parts[2..];
    }
  }

  lemma {:induction false} NonEmptyKeepsAll(parts: seq<string>)
    requires forall p :: p in parts ==> p != []
    ensures NonEmpty(parts) == parts
    decreases |parts|
  {
    if parts != [] {
      assert parts[0] in parts;
      assert forall p :: p in parts[1..] ==> p in parts;
      NonEmptyKeepsAll(parts[1..]);
    }
  }

  /** The parsed items of a listing, in listing order. */
  function Accepted(names: seq<string>, prefix: string): (items: seq<Keyed<DocEntry>>)
    ensures forall k :: k in items ==> WellFiled(k)
    decreases |names|
  {
    if names == [] then []
    else
      var n := names[|names| - 1];
      var p := ParseKey(n, prefix);
      ParseKeyAccepts(n, prefix);
      Accepted(names[..|names| - 1], prefix) + (if p.Some? then [p.value] else [])
  }

  lemma AcceptedSnoc(names: seq<string>, prefix: string, i: nat)
    requires i < |names|
    ensures var p := ParseKey(names[i], prefix);
            Accepted(names[..i + 1], prefix) == Accepted(names[..i], prefix) + (if p.Some? then [p.value] else [])
  {
    assert names[..i + 1][..i] == names[..i];
  }

  /** Every bucket sorted by label (the final pass of the builder). */
  function SortBuckets(g: Catalog<DocEntry>): Catalog<DocEntry> {
    map c | c in g :: SortYears(g[c])
  }

  /** The buckets of one category, each sorted by label. */
  function SortYears(years: map<string, seq<DocEntry>>): map<string, seq<DocEntry>> {
    map y | y in years :: SortBy(years[y], LabelOf)
  }

  /** The catalogue `build_doc_index_from_blob` returns for a listing. */
  function CatalogOf(names: seq<string>, prefix: string): Catalog<DocEntry> {
    SortBuckets(Group(Accepted(names, prefix)))
  }

  /** `build_doc_index_from_blob(blob, vectorstore_prefix)` over a container
      given as its blob names: file each parsed entry with
      `setdefault(...).setdefault(...).append(...)`, then replace every bucket
      by its copy sorted by label. */
  method BuildDocIndex(container: seq<string>, vectorstorePrefix: string) returns (index: Catalog<DocEntry>)
    ensures var prefix := NormalizePrefix(vectorstorePrefix);
            index == CatalogOf(BlobStorage.ListBlobs(container, prefix), prefix)
  {
    var prefix := NormalizePrefix(vectorstorePrefix);
    var names := BlobStorage.ListBlobs(container, prefix);
    index := map[];
    var i := 0;
    while i < |names|
      invariant 0 <= i <= |names|
      invariant index == Group(Accepted(names[..i], prefix))
    {
      AcceptedSnoc(names, prefix, i);
      var parsed := ParseKey(names[i], prefix);
      if parsed.Some? {
        var k := parsed.value;
        GroupSnoc(Accepted(names[..i], prefix), k);
        var inner := if k.first in index then index[k.first] else map[];
        var bucket := if k.second in inner then inner[k.second] else [];
        index := index[k.first := inner[k.second := bucket + [k.entry]]];
      } else {
        assert Accepted(names[..i + 1], prefix) == Accepted(names[..i], prefix);
      }
      i := i + 1;
    }
    assert names[..i] == names;
    index := SortEachBucket(index);
  }

  /** The final pass: `for cat in index: for year in index[cat]:
      index[cat][year] = sorted(index[cat][year], key=label)`. */
  method SortEachBucket(grouped: Catalog<DocEntry>) returns (index: Catalog<DocEntry>)
    ensures index == SortBuckets(grouped)
  {
    index := grouped;
    var cats := index.Keys;
    while cats != {}
      invariant cats <= grouped.Keys && index.Keys == grouped.Keys
      invariant forall c :: c in grouped ==> index[c] == if c in cats then grouped[c] else SortYears(grouped[c])
      decreases cats
    {
      var c :| c in cats;
      var sorted := SortEachYear(index[c]);
      index := index[c := sorted];
      cats := cats - {c};
    }
  }

  /** The inner loop of the final pass, over the years of one category. */
  method SortEachYear(years: map<string, seq<DocEntry>>) returns (sorted: map<string, seq<DocEntry>>)
    ensures sorted == SortYears(years)
  {
    sorted := years;
    var todo := years.Keys;
    while todo != {}
      invariant todo <= years.Keys && sorted.Keys == years.Keys
      invariant forall y :: y in years ==> sorted[y] == if y in todo then years[y] else SortBy(years[y], LabelOf)
      decreases todo
    {
      var y :| y in todo;
      sorted := sorted[y := SortBy(sorted[y], LabelOf)];
      todo := todo - {y};
    }
  }

  /** What the catalogue promises, for every category `c` and year `y`:
      a bucket exists exactly when some accepted key is filed there; it is
      non-empty, sorted by label and a permutation of the entries filed there
      in listing order; each of its entries is well formed and carries year
      `y`. */
  lemma CatalogBuckets(names: seq<string>, prefix: string, c: string, y: string)
    ensures var items := Accepted(names, prefix);
            var index := CatalogOf(names, prefix);
            && ((c in index && y in index[c]) <==>
                exists i :: 0 <= i < |items| && items[i].first == c && items[i].second == y)
            && (c in index && y in index[c] ==>
                && index[c][y] != []
                && SortedBy(index[c][y], LabelOf)
                && multiset(index[c][y]) == multiset(Bucket(items, c, y))
                && forall e :: e in index[c][y] ==> WellFiled(Keyed(c, y, e)))
  {
    var items := Accepted(names, prefix);
    var g := Group(items);
    GroupBuckets(items, c, y);
    if c in g && y in g[c] {
      var sorted := CatalogOf(names, prefix)[c][y];
      assert multiset(sorted) == multiset(g[c][y]);
      forall e | e in sorted ensures WellFiled(Keyed(c, y, e)) {
        assert e in multiset(sorted);
        BucketMembers(items, c, y, e);
      }
      assert g[c][y][0] in multiset(sorted);
    }
  }

  /** Every accepted key's entry is in the catalogue, in the bucket of its
      category and year. */
  lemma CatalogComplete(names: seq<string>, prefix: string, i: nat)
    requires i < |names| && ParseKey(names[i], prefix).Some?
    ensures var k := ParseKey(names[i], prefix).value;
            var index := CatalogOf(names, prefix);
            k.first in index && k.second in index[k.first] && k.entry in index[k.first][k.second]
  {
    var k := ParseKey(names[i], prefix).value;
    var items := Accepted(names, prefix);
    AcceptedHas(names, prefix, i);
    var j :| 0 <= j < |items| && items[j] == k;
    GroupBuckets(items, k.first, k.second);
    BucketMembers(items, k.first, k.second, k.entry);
    var sorted := CatalogOf(names, prefix)[k.first][k.second];
    assert k.entry in multiset(sorted);
  }

  lemma {:induction false} AcceptedHas(names: seq<string>, prefix: string, i: nat)
    requires i < |names| && ParseKey(names[i], prefix).Some?
    ensures ParseKey(names[i], prefix).value in Accepted(names, prefix)
    decreases |names|
  {
    if i < |names| - 1 {
      AcceptedHas(names[..|names| - 1], prefix, i);
    }
  }

  /** Sorting the buckets neither adds nor drops entries. */
  lemma SortBucketsCount(g: Catalog<DocEntry>)
    ensures EntryCount(SortBuckets(g)) == EntryCount(g)
  {
    var sg := SortBuckets(g);
    forall a | a in g ensures InnerCount(sg[a]) == InnerCount(g[a]) {
      forall b | b in g[a] ensures |sg[a][b]| == |g[a][b]| {
        assert |multiset(sg[a][b])| == |multiset(g[a][b])|;
      }
      assert (map b | b in sg[a] :: |sg[a][b]|) == (map b | b in g[a] :: |g[a][b]|);
    }
    assert (map a | a in sg :: InnerCount(sg[a])) == (map a | a in g :: InnerCount(g[a]));
  }

  /** Each accepted key yields exactly one entry: the catalogue holds as many
      entries as the listing has accepted keys. */
  lemma CatalogCount(names: seq<string>, prefix: string)
    ensures EntryCount(CatalogOf(names, prefix)) == |Accepted(names, prefix)|
  {
    GroupCount(Accepted(names, prefix));
    SortBucketsCount(Group(Accepted(names, prefix)));
  }
}
