/** storage/blob_service.py: the root generation's object-store access —
    the category -> year -> [pdf] hierarchy read from the "pdfs/" keys, the
    vector-store download that keeps files already on disk, and the SAS URL
    builder's `None` cases. */
module BlobService {
  import opened Wrappers
  import opened Text
  import opened LocalFs
  import opened Grouping
  import BlobStorage

  const ContainerName := "nyccodesvectorstore"
  const PdfRoot := "pdfs/"
  const VectorstoreRoot := "vectorstores_RecursiveSplitting"

  /** One hierarchy entry: `{name, blob_path, doc_id}`. */
  datatype PdfEntry = PdfEntry(name: string, blobPath: string, docId: string)

  /** The per-blob parse of `list_blobs_hierarchy`: a name is kept when it has
      at least four '/'-parts and ends in ".pdf"; it is filed under parts 1
      and 2, and its id drops any parts between the year and the file. */
  function ParsePdfKey(blobName: string): (k: Option<Keyed<PdfEntry>>)
    ensures k.Some? <==> |Split(blobName, '/')| >= 4 && EndsWith(blobName, ".pdf")
    ensures k.Some? ==> k.value.entry.blobPath == blobName && '/' !in k.value.entry.name
    ensures k.Some? ==>
              var parts := Split(blobName, '/');
              && k.value.first == parts[1] && k.value.second == parts[2]
              && k.value.entry.name == parts[|parts| - 1]
              && k.value.entry.docId == k.value.first + "/" + k.value.second + "/" + SplitExtStem(k.value.entry.name)
  {
    var parts := Split(blobName, '/');
    if |parts| >= 4 && EndsWith(blobName, ".pdf") then
      var category := parts[1];
      var year := parts[2];
      var filename := parts[|parts| - 1];
      assert filename in parts;
      Some(Keyed(category, year, PdfEntry(filename, blobName, category + "/" + year + "/" + SplitExtStem(filename))))
    else None
  }

  /** The parsed blobs of a listing, in listing order. */
  function PdfItems(names: seq<string>): seq<Keyed<PdfEntry>>
    decreases |names|
  {
    if names == [] then []
    else
      var p := ParsePdfKey(names[|names| - 1]);
      PdfItems(names[..|names| - 1]) + (if p.Some? then [p.value] else [])
  }

  lemma PdfItemsSnoc(names: seq<string>, i: nat)
    requires i < |names|
    ensures var p := ParsePdfKey(names[i]);
            PdfItems(names[..i + 1]) == PdfItems(names[..i]) + (if p.Some? then [p.value] else [])
  {
    assert names[..i + 1][..i] == names[..i];
  }

  /** `list_blobs_hierarchy()`: file every kept blob under "pdfs/" into
      `hierarchy[category][year]`, creating the levels on first use. Buckets
      keep listing order; nothing is sorted. */
  method ListBlobsHierarchy(container: seq<string>) returns (hierarchy: Catalog<PdfEntry>)
    ensures hierarchy == Group(PdfItems(BlobStorage.ListBlobs(container, PdfRoot)))
  {
    var names := BlobStorage.ListBlobs(container, PdfRoot);
    hierarchy := map[];
    var i := 0;
    while i < |names|
      invariant 0 <= i <= |names|
      invariant hierarchy == Group(PdfItems(names[..i]))
    {
      PdfItemsSnoc(names, i);
      var parsed := ParsePdfKey(names[i]);
      if parsed.Some? {
        var k := parsed.value;
        GroupSnoc(PdfItems(names[..i]), k);
        var inner := if k.first in hierarchy then hierarchy[k.first] else map[];
        var bucket := if k.second in inner then inner[k.second] else [];
        hierarchy := hierarchy[k.first := inner[k.second := bucket + [k.entry]]];
      } else {
        assert PdfItems(names[..i + 1]) == PdfItems(names[..i]);
      }
      i := i + 1;
    }
    assert names[..i] == names;
  }

  /** Each kept blob yields exactly one entry: the hierarchy holds as many
      entries as the listing has kept blobs, and each bucket lists the blobs
      filed there in listing order. */
  lemma HierarchyShape(names: seq<string>, c: string, y: string)
    ensures EntryCount(Group(PdfItems(names))) == |PdfItems(names)|
    ensures var h := Group(PdfItems(names));
            c in h && y in h[c] ==> h[c][y] == Bucket(PdfItems(names), c, y) && h[c][y] != []
  {
    GroupCount(PdfItems(names));
    GroupBuckets(PdfItems(names), c, y);
  }

  /** A file name of the form "<stem>.pdf" whose stem is not only dots. */
  predicate PlainPdfName(f: string) {
    |f| >= 4 && EndsWith(f, ".pdf") && !AllDots(f[..|f| - 4])
  }

  /** The first part of a key under "pdfs/" is "pdfs". */
  lemma PdfKeyHead(blobName: string)
    requires StartsWith(blobName, PdfRoot)
    ensures Split(blobName, '/')[0] == "pdfs"
  {
    var t := blobName[5..];
    assert blobName == "pdfs" + ['/'] + t;
    SplitCons("pdfs", '/', t);
  }

  /** A key with at least four parts is its first three parts and the join of
      the rest, separated by '/'. */
  lemma JoinFirstThree(parts: seq<string>)
    requires |parts| >= 4
    ensures Join(parts, "/") == parts[0] + "/" + parts[1] + "/" + parts[2] + "/" + Join(parts[3..], "/")
  {
    var j3 := Join(parts[3..], "/");
    var j2 := Join(parts[2..], "/");
    var j1 := Join(parts[1..], "/");
    assert j2 == parts[2] + "/" + j3 by { assert parts[2..][1..] == parts[3..]; }
    assert j1 == parts[1] + "/" + j2 by { assert parts[1..][1..] == parts[2..]; }
    assert Join(parts, "/") == parts[0] + "/" + j1;
  }

  /** The last '/'-part of a ".pdf" key ends in ".pdf". */
  lemma LastPartIsPdf(blobName: string)
    requires |Split(blobName, '/')| >= 2 && EndsWith(blobName, ".pdf")
    ensures var parts := Split(blobName, '/'); EndsWith(parts[|parts| - 1], ".pdf")
  {
    var parts := Split(blobName, '/');
    var last := parts[|parts| - 1];
    assert EndsWith(blobName, "/" + last) by {
      JoinSplit(blobName, '/');
      JoinEndsWithLast(parts, "/");
    }
    assert '/' !in last by {
      assert last in parts;
    }
    PdfAfterSlash(blobName, last);
  }

  /** A ".pdf" name whose text after its last "/" holds no "/" keeps the
      extension in that text. */
  lemma PdfAfterSlash(blobName: string, last: string)
    requires EndsWith(blobName, "/" + last) && '/' !in last && EndsWith(blobName, ".pdf")
    ensures EndsWith(last, ".pdf")
  {
    var n := |blobName|;
    var k := |last|;
    assert blobName[n - k - 1] == '/';
    assert forall j :: n - 4 <= j < n ==> blobName[j] == ".pdf"[j - (n - 4)];
    assert k >= 4;
    assert last[k - 4..] == blobName[n - 4..];
  }

  lemma PdfPathFromParts(category: string, year: string, f: string)
    requires PlainPdfName(f)
    ensures PdfRoot + (category + "/" + year + "/" + SplitExtStem(f)) + ".pdf" == "pdfs" + "/" + category + "/" + year + "/" + f
  {
    var stem := SplitExtStem(f);
    assert stem + ".pdf" == f by {
      StemOfPdf(f);
    }
    var mid := category + "/" + year + "/";
    assert PdfRoot + (mid + stem) + ".pdf" == PdfRoot + mid + (stem + ".pdf");
    assert "pdfs" + "/" + category + "/" + year + "/" + f == PdfRoot + mid + f;
  }

  /** For a key exactly "pdfs/<category>/<year>/<file>.pdf", the URL path
      `get_document_url` builds from the id is the key itself. */
  lemma PdfUrlFindsBlob(blobName: string)
    requires StartsWith(blobName, PdfRoot) && ParsePdfKey(blobName).Some?
    requires |Split(blobName, '/')| == 4 && PlainPdfName(Split(blobName, '/')[3])
    ensures PdfRoot + ParsePdfKey(blobName).value.entry.docId + ".pdf" == blobName
  {
    var parts := Split(blobName, '/');
    PdfKeyHead(blobName);
    JoinSplit(blobName, '/');
    JoinFirstThree(parts);
    assert Join(parts[3..], "/") == parts[3];
    PdfPathFromParts(parts[1], parts[2], parts[3]);
  }

  lemma PdfIdLength(k: Keyed<PdfEntry>)
    requires k.entry.docId == k.first + "/" + k.second + "/" + SplitExtStem(k.entry.name)
    requires PlainPdfName(k.entry.name)
    ensures |k.entry.docId| + 2 == |k.first| + |k.second| + |k.entry.name|
  {
    StemOfPdf(k.entry.name);
  }

  lemma NestedKeyLength(blobName: string)
    requires StartsWith(blobName, PdfRoot) && |Split(blobName, '/')| >= 5
    ensures var parts := Split(blobName, '/');
            |blobName| >= 8 + |parts[1]| + |parts[2]| + |parts[|parts| - 1]|
  {
    var parts := Split(blobName, '/');
    var last := parts[|parts| - 1];
    var rest := parts[3..];
    assert |Join(rest, "/")| >= 1 + |last| by {
      assert |rest| >= 2 && rest[|rest| - 1] == last;
      JoinEndsWithLast(rest, "/");
    }
    PdfKeyHead(blobName);
    JoinSplit(blobName, '/');
    JoinFirstThree(parts);
  }

  /** A key with folders between the year and the file is kept, but the id
      drops them, so the URL path built from the id names another blob. */
  lemma PdfUrlMissesNested(blobName: string)
    requires StartsWith(blobName, PdfRoot) && ParsePdfKey(blobName).Some?
    requires |Split(blobName, '/')| >= 5 && PlainPdfName(Split(blobName, '/')[|Split(blobName, '/')| - 1])
    ensures PdfRoot + ParsePdfKey(blobName).value.entry.docId + ".pdf" != blobName
  {
    PdfIdLength(ParsePdfKey(blobName).value);
    NestedKeyLength(blobName);
  }

  /** The vector-store download only takes FAISS artefacts. */
  predicate IsIndexFile(blobName: string) {
    EndsWith(blobName, ".faiss") || EndsWith(blobName, ".pkl")
  }

  function VectorStorePrefix(docId: string): string {
    VectorstoreRoot + "/" + docId + "/"
  }

  /** Where a listed blob lands: its last path segment under `localDir`. */
  function LocalPathFor(localDir: string, blobName: string): string {
    JoinPath(localDir, Basename(blobName))
  }

  /** The local path of each listed index file, in listing order. */
  function LocalPaths(names: seq<string>, localDir: string): (paths: seq<string>)
    ensures |paths| <= |names|
    decreases |names|
  {
    if names == [] then []
    else
      var n := names[|names| - 1];
      LocalPaths(names[..|names| - 1], localDir) + (if IsIndexFile(n) then [LocalPathFor(localDir, n)] else [])
  }

  /** The listed names that are index files, in listing order. */
  function IndexFiles(names: seq<string>): (files: seq<string>)
    ensures forall n :: n in files <==> n in names && IsIndexFile(n)
    decreases |names|
  {
    if names == [] then []
    else
      var init := names[..|names| - 1];
      var n := names[|names| - 1];
      assert names == init + [n];
      IndexFiles(init) + (if IsIndexFile(n) then [n] else [])
  }

  /** `LocalPaths` is the local path of each index file, position by
      position: one path per `.faiss`/`.pkl` blob, in listing order. */
  lemma {:induction false} LocalPathsOfIndexFiles(names: seq<string>, localDir: string)
    ensures |LocalPaths(names, localDir)| == |IndexFiles(names)|
    ensures forall i :: 0 <= i < |IndexFiles(names)| ==>
              LocalPaths(names, localDir)[i] == LocalPathFor(localDir, IndexFiles(names)[i])
    decreases |names|
  {
    if names != [] {
      LocalPathsOfIndexFiles(names[..|names| - 1], localDir);
    }
  }

  /** A path is returned exactly when it is the local path of some listed
      index file. */
  lemma LocalPathsMembers(names: seq<string>, localDir: string)
    ensures forall p :: p in LocalPaths(names, localDir) <==>
              exists n :: n in names && IsIndexFile(n) && p == LocalPathFor(localDir, n)
  {
    forall p ensures p in LocalPaths(names, localDir) <==>
                     exists n :: n in names && IsIndexFile(n) && p == LocalPathFor(localDir, n) {
      if p in LocalPaths(names, localDir) {
        LocalPathComesFromIndexFile(names, localDir, p);
      }
      if exists n :: n in names && IsIndexFile(n) && p == LocalPathFor(localDir, n) {
        var n :| n in names && IsIndexFile(n) && p == LocalPathFor(localDir, n);
        IndexFileHasLocalPath(names, localDir, n);
      }
    }
  }

  lemma LocalPathComesFromIndexFile(names: seq<string>, localDir: string, p: string)
    requires p in LocalPaths(names, localDir)
    ensures exists n :: n in names && IsIndexFile(n) && p == LocalPathFor(localDir, n)
  {
    var paths := LocalPaths(names, localDir);
    var files := IndexFiles(names);
    LocalPathsOfIndexFiles(names, localDir);
    var i :| 0 <= i < |paths| && paths[i] == p;
    assert files[i] in files;
  }

  lemma IndexFileHasLocalPath(names: seq<string>, localDir: string, n: string)
    requires n in names && IsIndexFile(n)
    ensures LocalPathFor(localDir, n) in LocalPaths(names, localDir)
  {
    var paths := LocalPaths(names, localDir);
    var files := IndexFiles(names);
    LocalPathsOfIndexFiles(names, localDir);
    assert n in files;
    var i :| 0 <= i < |files| && files[i] == n;
    assert paths[i] == LocalPathFor(localDir, n);
  }

  /** The copies actually made: an index file whose local path already
      exists, on disk or from an earlier copy of this run, is not fetched. */
  function NewTransfers(names: seq<string>, localDir: string, disk: Disk): seq<Transfer>
    decreases |names|
  {
    if names == [] then []
    else
      var n := names[|names| - 1];
      var earlier := NewTransfers(names[..|names| - 1], localDir, disk);
      var path := LocalPathFor(localDir, n);
      if IsIndexFile(n) && path !in disk + PathSet(earlier) then earlier + [Transfer(n, path)] else earlier
  }

  lemma LocalPathsStep(names: seq<string>, i: nat, localDir: string)
    requires i < |names|
    ensures IsIndexFile(names[i]) ==>
              LocalPaths(names[..i + 1], localDir) == LocalPaths(names[..i], localDir) + [LocalPathFor(localDir, names[i])]
    ensures !IsIndexFile(names[i]) ==> LocalPaths(names[..i + 1], localDir) == LocalPaths(names[..i], localDir)
  {
    assert names[..i + 1][..i] == names[..i];
    assert LocalPaths(names[..i], localDir) + [] == LocalPaths(names[..i], localDir);
  }

  lemma NewTransfersStep(names: seq<string>, i: nat, localDir: string, disk: Disk, path: string)
    requires i < |names| && path == LocalPathFor(localDir, names[i])
    ensures var earlier := NewTransfers(names[..i], localDir, disk);
            NewTransfers(names[..i + 1], localDir, disk) ==
              (if IsIndexFile(names[i]) && path !in disk + PathSet(earlier) then earlier + [Transfer(names[i], path)] else earlier)
  {
    assert names[..i + 1][..i] == names[..i];
  }

  /** `download_vector_store(doc_id, local_dir)`: list
      "vectorstores_RecursiveSplitting/<doc_id>/", and for each ".faiss" or
      ".pkl" blob fetch it to `local_dir/<basename>` unless that file exists;
      the returned list names every matching blob's local path either way. */
  method DownloadVectorStore(container: seq<string>, docId: string, localDir: string, disk: Disk)
    returns (downloaded: seq<string>, disk': Disk, trace: seq<Effect>)
    ensures var names := BlobStorage.ListBlobs(container, VectorStorePrefix(docId));
            var ts := NewTransfers(names, localDir, disk);
            && downloaded == LocalPaths(names, localDir)
            && disk' == disk + PathSet(ts)
            && trace == [ListUnder(VectorStorePrefix(docId))] + FetchAll(ts)
  {
    var prefix := VectorStorePrefix(docId);
    var names := BlobStorage.ListBlobs(container, prefix);
    var copies;
    downloaded, disk', copies := DownloadEach(names, localDir, disk);
    trace := [ListUnder(prefix)] + FetchAll(copies);
  }

  /** The loop of `download_vector_store` over the listed blobs. */
  /** One turn of the download loop, on the specification functions. */
  lemma DownloadStep(names: seq<string>, i: nat, localDir: string, disk: Disk, copies: seq<Transfer>, downloaded: seq<string>)
    requires i < |names|
    requires copies == NewTransfers(names[..i], localDir, disk)
    requires downloaded == LocalPaths(names[..i], localDir)
    ensures var path := LocalPathFor(localDir, names[i]);
            var fetch := IsIndexFile(names[i]) && path !in disk + PathSet(copies);
            && NewTransfers(names[..i + 1], localDir, disk) == (if fetch then copies + [Transfer(names[i], path)] else copies)
            && (fetch ==> disk + PathSet(copies + [Transfer(names[i], path)]) == disk + PathSet(copies) + {path})
            && LocalPaths(names[..i + 1], localDir) == (if IsIndexFile(names[i]) then downloaded + [path] else downloaded)
  {
    var path := LocalPathFor(localDir, names[i]);
    var t := Transfer(names[i], path);
    var fetch := IsIndexFile(names[i]) && path !in disk + PathSet(copies);
    assert NewTransfers(names[..i + 1], localDir, disk) == (if fetch then copies + [t] else copies) by {
      NewTransfersStep(names, i, localDir, disk, path);
    }
    assert disk + PathSet(copies + [t]) == disk + PathSet(copies) + {path} by {
      TransfersSnoc(copies, t);
    }
    assert LocalPaths(names[..i + 1], localDir) == (if IsIndexFile(names[i]) then downloaded + [path] else downloaded) by {
      LocalPathsStep(names, i, localDir);
    }
  }

  method DownloadEach(names: seq<string>, localDir: string, disk: Disk)
    returns (downloaded: seq<string>, disk': Disk, copies: seq<Transfer>)
    ensures copies == NewTransfers(names, localDir, disk)
    ensures downloaded == LocalPaths(names, localDir)
    ensures disk' == disk + PathSet(copies)
  {
    copies := [];
    downloaded, disk' := [], disk;
    var i := 0;
    while i < |names|
      invariant 0 <= i <= |names|
      invariant copies == NewTransfers(names[..i], localDir, disk)
      invariant downloaded == LocalPaths(names[..i], localDir)
      invariant disk' == disk + PathSet(copies)
    {
      var name := names[i];
      var downloadPath := LocalPathFor(localDir, name);
      DownloadStep(names, i, localDir, disk, copies, downloaded);
      if IsIndexFile(name) && downloadPath !in disk' {
        disk' := disk' + {downloadPath};
        copies := copies + [Transfer(name, downloadPath)];
      }
      if IsIndexFile(name) {
        downloaded := downloaded + [downloadPath];
      }
      i := i + 1;
    }
    assert names[..i] == names;
  }

  /** No copy lands on a file that existed before, and no two copies land
      on the same file. */
  predicate FreshAndDistinct(ts: seq<Transfer>, disk: Disk) {
    && (forall i :: 0 <= i < |ts| ==> ts[i].path !in disk)
    && (forall i, j :: 0 <= i < j < |ts| ==> ts[i].path != ts[j].path)
  }

  lemma FreshAndDistinctSnoc(ts: seq<Transfer>, disk: Disk, t: Transfer)
    requires FreshAndDistinct(ts, disk) && t.path !in disk + PathSet(ts)
    ensures FreshAndDistinct(ts + [t], disk)
  {
    var ts' := ts + [t];
    forall i | 0 <= i < |ts| ensures ts[i].path != t.path {
      assert ts[i] in ts;
    }
    forall i, j | 0 <= i < j < |ts'| ensures ts'[i].path != ts'[j].path {
      assert ts'[i] == ts[i];
      if j < |ts| { assert ts'[j] == ts[j]; }
    }
  }

  /** Skip-if-present: no copy targets a file that already existed, and no
      file is fetched twice. */
  lemma {:induction false} NewTransfersSkipExisting(names: seq<string>, localDir: string, disk: Disk)
    ensures FreshAndDistinct(NewTransfers(names, localDir, disk), disk)
    decreases |names|
  {
    if names != [] {
      var init := names[..|names| - 1];
      NewTransfersSkipExisting(init, localDir, disk);
      var earlier := NewTransfers(init, localDir, disk);
      var n := names[|names| - 1];
      var path := LocalPathFor(localDir, n);
      if IsIndexFile(n) && path !in disk + PathSet(earlier) {
        FreshAndDistinctSnoc(earlier, disk, Transfer(n, path));
      }
    }
  }

  /** After the download every returned path exists on disk. */
  lemma {:induction false} DownloadedPathsExist(names: seq<string>, localDir: string, disk: Disk)
    ensures forall p :: p in LocalPaths(names, localDir) ==> p in disk + PathSet(NewTransfers(names, localDir, disk))
    decreases |names|
  {
    if names != [] {
      var init := names[..|names| - 1];
      DownloadedPathsExist(init, localDir, disk);
      var earlier := NewTransfers(init, localDir, disk);
      var n := names[|names| - 1];
      var path := LocalPathFor(localDir, n);
      LocalPathsStep(names, |names| - 1, localDir);
      NewTransfersStep(names, |names| - 1, localDir, disk, path);
      assert names[..|names| - 1] == init;
      assert names[..|names|] == names;
      var now := disk + PathSet(NewTransfers(names, localDir, disk));
      if IsIndexFile(n) && path !in disk + PathSet(earlier) {
        TransfersSnoc(earlier, Transfer(n, path));
      }
      assert disk + PathSet(earlier) <= now;
      forall p | p in LocalPaths(names, localDir) ensures p in now {
        if p !in LocalPaths(init, localDir) {
          assert p == path;
        }
      }
    }
  }

  /** An index file lands directly inside `localDir`. */
  lemma LocalPathForUnder(localDir: string, blobName: string)
    requires localDir != [] && localDir[|localDir| - 1] != '/' && IsIndexFile(blobName)
    ensures StartsWith(LocalPathFor(localDir, blobName), localDir + "/")
  {
    var b := Basename(blobName);
    assert blobName[|blobName| - 1] != '/';
    assert b != [] && b[0] in b;
    assert LocalPathFor(localDir, blobName) == localDir + "/" + b;
  }

  /** Every returned path lies directly inside `localDir`. */
  lemma {:induction false} LocalPathsUnder(names: seq<string>, localDir: string)
    requires localDir != [] && localDir[|localDir| - 1] != '/'
    ensures forall p :: p in LocalPaths(names, localDir) ==> StartsWith(p, localDir + "/")
    decreases |names|
  {
    if names != [] {
      var n := names[|names| - 1];
      LocalPathsUnder(names[..|names| - 1], localDir);
      if IsIndexFile(n) {
        LocalPathForUnder(localDir, n);
      }
    }
  }

  /** The returned list is empty exactly when no index file is listed under
      the document's prefix (the caller's "no index found" case). */
  lemma {:induction false} NoFilesIffNoIndex(names: seq<string>, localDir: string)
    ensures LocalPaths(names, localDir) == [] <==> forall n :: n in names ==> !IsIndexFile(n)
    decreases |names|
  {
    if names != [] {
      var init := names[..|names| - 1];
      NoFilesIffNoIndex(init, localDir);
      assert names == init + [names[|names| - 1]];
      assert forall n :: n in names <==> n in init || n == names[|names| - 1];
    }
  }

  /** `get_sas_url(blob_path)` with the SAS generation (which reads the clock)
      as the token it produced, or `None` when it raised. The URL is built
      only for a non-empty path with a (truthy) connection string; without
      one the method falls through and returns `None`. */
  function GetSasUrl(connectStr: Option<string>, accountName: string, blobPath: string, sasToken: Option<string>): (url: Option<string>)
    ensures blobPath == [] ==> url == None
    ensures connectStr == None || connectStr == Some([]) ==> url == None
    ensures url.Some? <==> blobPath != [] && connectStr.Some? && connectStr.value != [] && sasToken.Some?
    ensures url.Some? ==> EndsWith(url.value, blobPath + "?" + sasToken.value)
  {
    if blobPath == [] then None
    else if connectStr.Some? && connectStr.value != [] then
      match sasToken
      case None => None
      case Some(token) =>
        var prefix := "https://" + accountName + ".blob.core.windows.net/" + ContainerName + "/";
        assert prefix + blobPath + "?" + token == prefix + (blobPath + "?" + token);
        Some(prefix + blobPath + "?" + token)
    else None
  }
}
