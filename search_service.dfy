/** rag/search_service.py: the root generation's search. The vector store of
    a document is materialised under "temp_indices/<safe id>" unless that
    directory already holds something, loaded (the load may fail), queried,
    and its hits are mapped to plain result records. The FAISS index is the
    opaque `V`, the similarity search a parameter, and scores the opaque `S`. */
module SearchService {
  import opened Wrappers
  import opened Text
  import opened LocalFs
  import BlobStorage
  import BlobService

  const CacheDir := "temp_indices"
  /** The `k` of `search(doc_id, query, k=5)`. */
  const DefaultK := 5

  /** One `(Document, score)` pair: the page content, the `page` metadata
      when present, and the score. */
  datatype Hit<S> = Hit(pageContent: string, page: Option<int>, score: S)

  /** One processed result: `{content, page, score}`. */
  datatype SearchResult<S> = SearchResult(content: string, page: int, score: S)

  /** `doc_id.replace('/', '_').replace('\\', '_')`: the id as one path
      component. */
  function SafeDocId(docId: string): (r: string)
    ensures '/' !in r && '\\' !in r
    ensures |r| == 0 <==> |docId| == 0
  {
    var slashless := Replace(docId, "/", "_");
    ReplaceCharRemoves(docId, '/', "_", '\\');
    ReplaceCharRemoves(slashless, '\\', "_", '/');
    ReplaceKeepsEmptiness(docId, '/', "_");
    ReplaceKeepsEmptiness(slashless, '\\', "_");
    Replace(slashless, "\\", "_")
  }

  lemma SafeDocIdOfSlash()
    ensures SafeDocId("a/b") == "a_b"
  {
    assert Replace("a/b", "/", "_") == "a_b" by {
      assert Replace("b", "/", "_") == "b";
      assert Replace("/b", "/", "_") == "_b";
    }
    assert Replace("a_b", "\\", "_") == "a_b" by {
      assert Replace("b", "\\", "_") == "b";
      assert Replace("_b", "\\", "_") == "_b";
    }
  }

  lemma SafeDocIdOfBackslash()
    ensures SafeDocId("a\\b") == "a_b"
  {
    assert Replace("a\\b", "/", "_") == "a\\b" by {
      assert Replace("b", "/", "_") == "b";
      assert Replace("\\b", "/", "_") == "\\b";
    }
    assert Replace("a\\b", "\\", "_") == "a_b" by {
      assert Replace("b", "\\", "_") == "b";
      assert Replace("\\b", "\\", "_") == "_b";
    }
  }

  lemma SafeDocIdOfUnderscore()
    ensures SafeDocId("a_b") == "a_b"
  {
    assert Replace("a_b", "/", "_") == "a_b" by {
      assert Replace("b", "/", "_") == "b";
      assert Replace("_b", "/", "_") == "_b";
    }
    assert Replace("a_b", "\\", "_") == "a_b" by {
      assert Replace("b", "\\", "_") == "b";
      assert Replace("_b", "\\", "_") == "_b";
    }
  }

  /** The transform is not injective: "a/b", "a\\b" and "a_b" share one
      cache directory. */
  lemma SafeDocIdCollides()
    ensures SafeDocId("a/b") == SafeDocId("a\\b") == SafeDocId("a_b") == "a_b"
  {
    SafeDocIdOfSlash();
    SafeDocIdOfBackslash();
    SafeDocIdOfUnderscore();
  }

  /** `os.path.join(self.cache_dir, safe_doc_id)`. */
  function TargetDir(docId: string): string {
    JoinPath(CacheDir, SafeDocId(docId))
  }

  /** The target directory is one level below "temp_indices" and, for a
      non-empty id, does not end in '/'. */
  lemma TargetDirShape(docId: string)
    ensures TargetDir(docId) == CacheDir + "/" + SafeDocId(docId)
    ensures docId != [] ==> TargetDir(docId)[|TargetDir(docId)| - 1] != '/'
  {
    var safe := SafeDocId(docId);
    if safe != [] {
      assert safe[0] in safe;
      assert safe[|safe| - 1] in safe;
    }
  }

  /** The processed result of one hit: page 0 when the metadata has none. */
  function ResultOf<S>(h: Hit<S>): SearchResult<S> {
    SearchResult(h.pageContent, h.page.GetOr(0), h.score)
  }

  /** The results of a hit list, one per hit and in order. */
  function MapResults<S>(hits: seq<Hit<S>>): (rs: seq<SearchResult<S>>)
    ensures |rs| == |hits|
    ensures forall i :: 0 <= i < |hits| ==>
              && rs[i].content == hits[i].pageContent
              && rs[i].score == hits[i].score
              && (hits[i].page.Some? ==> rs[i].page == hits[i].page.value)
              && (hits[i].page.None? ==> rs[i].page == 0)
    decreases |hits|
  {
    if hits == [] then []
    else MapResults(hits[..|hits| - 1]) + [ResultOf(hits[|hits| - 1])]
  }

  lemma MapResultsSnoc<S>(hits: seq<Hit<S>>, i: nat)
    requires i < |hits|
    ensures MapResults(hits[..i + 1]) == MapResults(hits[..i]) + [ResultOf(hits[i])]
  {
    assert hits[..i + 1][..i] == hits[..i];
  }

  /** The `for doc, score in results: processed_results.append(...)` loop. */
  method ProcessResults<S>(hits: seq<Hit<S>>) returns (processed: seq<SearchResult<S>>)
    ensures processed == MapResults(hits)
  {
    processed := [];
    var i := 0;
    while i < |hits|
      invariant 0 <= i <= |hits|
      invariant processed == MapResults(hits[..i])
    {
      MapResultsSnoc(hits, i);
      processed := processed + [ResultOf(hits[i])];
      i := i + 1;
    }
    assert hits[..i] == hits;
  }

  /** The outcome of one search: the results, the disk afterwards and the
      effects performed. */
  datatype Outcome<S> = Outcome(results: seq<SearchResult<S>>, disk: Disk, trace: seq<Effect>)

  /** What `search(doc_id, query, k)` yields from the container listing and
      the disk, as `Search` computes it. It follows the method's steps and
      exists to name their outcome for the lemmas. */
  function SearchOutcome<V, S>(container: seq<string>, disk: Disk, docId: string, query: string, k: int,
                               load: (string, Disk) -> Option<V>, similarity: (V, string, int) -> seq<Hit<S>>): Outcome<S>
  {
    var dir := TargetDir(docId);
    var prefix := BlobService.VectorStorePrefix(docId);
    var names := BlobStorage.ListBlobs(container, prefix);
    var ts := BlobService.NewTransfers(names, dir, disk);
    if DirHasEntries(disk, dir) then
      var vs := load(dir, disk);
      Outcome(if vs.None? then [] else MapResults(similarity(vs.value, query, k)), disk, [LoadIndex(dir)])
    else
      var disk' := disk + PathSet(ts);
      var download := [ListUnder(prefix)] + FetchAll(ts);
      if BlobService.LocalPaths(names, dir) == [] then Outcome([], disk', download)
      else
        var vs := load(dir, disk');
        Outcome(if vs.None? then [] else MapResults(similarity(vs.value, query, k)), disk', download + [LoadIndex(dir)])
  }

  /** `SearchService.search(doc_id, query, k)` over the container listing
      and the local disk. When the target directory holds nothing, the
      vector store is downloaded there first, and an empty download returns
      [] without loading. A failed load returns []. Otherwise the hits of
      the similarity search become the results, one per hit, in order. A
      directory that already holds anything, even a single artefact, is
      loaded as it is. */
  method Search<V, S>(container: seq<string>, disk: Disk, docId: string, query: string, k: int,
                      load: (string, Disk) -> Option<V>, similarity: (V, string, int) -> seq<Hit<S>>)
    returns (results: seq<SearchResult<S>>, disk': Disk, trace: seq<Effect>)
    ensures var dir := TargetDir(docId);
            var prefix := BlobService.VectorStorePrefix(docId);
            var names := BlobStorage.ListBlobs(container, prefix);
            var ts := BlobService.NewTransfers(names, dir, disk);
            var fetch := !DirHasEntries(disk, dir);
            var download := if fetch then [ListUnder(prefix)] + FetchAll(ts) else [];
            && disk' == (if fetch then disk + PathSet(ts) else disk)
            && (fetch && BlobService.LocalPaths(names, dir) == [] ==> results == [] && trace == download)
            && (!(fetch && BlobService.LocalPaths(names, dir) == []) ==>
                  && trace == download + [LoadIndex(dir)]
                  && (load(dir, disk').None? ==> results == [])
                  && (load(dir, disk').Some? ==> results == MapResults(similarity(load(dir, disk').value, query, k))))
    ensures Outcome(results, disk', trace) == SearchOutcome(container, disk, docId, query, k, load, similarity)
  {
    var dir := TargetDir(docId);
    disk' := disk;
    trace := [];
    if !DirHasEntries(disk, dir) {
      var files, fetchTrace;
      files, disk', fetchTrace := BlobService.DownloadVectorStore(container, docId, dir, disk);
      trace := fetchTrace;
      if files == [] {
        return [], disk', trace;
      }
    }
    trace := trace + [LoadIndex(dir)];
    var vectorstore := load(dir, disk');
    if vectorstore.None? {
      return [], disk', trace;
    }
    var hits := similarity(vectorstore.value, query, k);
    results := ProcessResults(hits);
  }

  /** A download that produced files leaves the directory non-empty, so the
      next search for the same id loads without downloading. */
  lemma DownloadFillsDir(container: seq<string>, docId: string, disk: Disk)
    requires docId != []
    ensures var dir := TargetDir(docId);
            var names := BlobStorage.ListBlobs(container, BlobService.VectorStorePrefix(docId));
            BlobService.LocalPaths(names, dir) != [] ==>
              DirHasEntries(disk + PathSet(BlobService.NewTransfers(names, dir, disk)), dir)
  {
    var dir := TargetDir(docId);
    var names := BlobStorage.ListBlobs(container, BlobService.VectorStorePrefix(docId));
    var paths := BlobService.LocalPaths(names, dir);
    if paths != [] {
      var p := paths[0];
      assert p in paths;
      BlobService.DownloadedPathsExist(names, dir, disk);
      TargetDirShape(docId);
      BlobService.LocalPathsUnder(names, dir);
      assert StartsWith(p, dir + "/");
      assert DirPrefix(dir) == dir + "/";
    }
  }

  /** A directory holding a single artefact counts as present: the search
      loads it without downloading the missing one. */
  lemma LoneArtefactIsTrusted(docId: string, file: string)
    requires docId != [] && file != []
    ensures DirHasEntries({TargetDir(docId) + "/" + file}, TargetDir(docId))
  {
    var dir := TargetDir(docId);
    TargetDirShape(docId);
    assert DirPrefix(dir) == dir + "/";
    assert StartsWith(dir + "/" + file, dir + "/");
  }

  /** An empty id names the cache directory itself ("temp_indices/"), so any
      other document's cached files make it count as present. */
  lemma EmptyIdSeesCache(other: string, file: string)
    ensures DirHasEntries({CacheDir + "/" + other + "/" + file}, TargetDir(""))
  {
    var dir := TargetDir("");
    TargetDirShape("");
    assert dir == CacheDir + "/";
    assert DirPrefix(dir) == dir;
    assert StartsWith(CacheDir + "/" + other + "/" + file, dir);
  }

  /** `get_document_url(doc_id)`: the SAS URL of "pdfs/<doc_id>.pdf", with
      the configuration and the token as `get_sas_url` takes them. */
  function GetDocumentUrl(connectStr: Option<string>, accountName: string, docId: string, sasToken: Option<string>): (url: Option<string>)
    ensures url.Some? <==> connectStr.Some? && connectStr.value != [] && sasToken.Some?
    ensures url.Some? ==> EndsWith(url.value, "pdfs/" + docId + ".pdf?" + sasToken.value)
  {
    var blobPath := BlobService.PdfRoot + docId + ".pdf";
    assert blobPath + "?" + sasToken.GetOr([]) == "pdfs/" + docId + ".pdf?" + sasToken.GetOr([]);
    BlobService.GetSasUrl(connectStr, accountName, blobPath, sasToken)
  }
}
