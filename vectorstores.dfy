/** PREVIOUSPROJECTATTEMPT/rag/vectorstores.py: FAISS indexes are copied from
    the object store into a local cache directory on first use and memoised
    per document id. The index itself is opaque (`V`); loading it is a
    parameter that may fail (`None`). */
module Vectorstores {
  import opened Wrappers
  import opened Text
  import opened LocalFs
  import opened BlobStorage

  const FaissFile := "index.faiss"
  const PklFile := "index.pkl"

  /** `doc_id.replace("\\", "/").replace("/", "__")`. */
  function SafeDirName(docId: string): (r: string)
    ensures '/' !in r && '\\' !in r
  {
    var slashed := Replace(docId, "\\", "/");
    ReplaceCharRemoves(docId, '\\', "/", '/');
    ReplaceCharRemoves(slashed, '/', "__", '\\');
    Replace(slashed, "/", "__")
  }

  lemma SafeDirNameOfSlash()
    ensures SafeDirName("a/b") == "a__b"
  {
    assert Replace("a/b", "\\", "/") == "a/b" by {
      assert Replace("b", "\\", "/") == "b";
      assert Replace("/b", "\\", "/") == "/b";
    }
    assert Replace("a/b", "/", "__") == "a__b" by {
      assert Replace("b", "/", "__") == "b";
      assert Replace("/b", "/", "__") == "__b";
    }
  }

  lemma SafeDirNameOfUnderscores()
    ensures SafeDirName("a__b") == "a__b"
  {
    assert Replace("a__b", "\\", "/") == "a__b" by {
      assert Replace("b", "\\", "/") == "b";
      assert Replace("_b", "\\", "/") == "_b";
      assert Replace("__b", "\\", "/") == "__b";
    }
    assert Replace("a__b", "/", "__") == "a__b" by {
      assert Replace("b", "/", "__") == "b";
      assert Replace("_b", "/", "__") == "_b";
      assert Replace("__b", "/", "__") == "__b";
    }
  }

  lemma SafeDirNameOfBackslash()
    ensures SafeDirName("a\\b") == "a__b"
  {
    assert Replace("a\\b", "\\", "/") == "a/b" by {
      assert Replace("b", "\\", "/") == "b";
      assert Replace("\\b", "\\", "/") == "/b";
    }
    assert Replace("a/b", "/", "__") == "a__b" by {
      assert Replace("b", "/", "__") == "b";
      assert Replace("/b", "/", "__") == "__b";
    }
  }

  /** The transform is not injective: distinct ids share a cache directory. */
  lemma SafeDirNameCollides()
    ensures SafeDirName("a/b") == SafeDirName("a__b") == SafeDirName("a\\b") == "a__b"
  {
    SafeDirNameOfSlash();
    SafeDirNameOfUnderscores();
    SafeDirNameOfBackslash();
  }

  /** `_local_dir_for_doc`: `cache_root / safe`. */
  function LocalDirForDoc(cacheRoot: string, docId: string): (r: string)
    ensures r == cacheRoot + SafeDirName(docId) || r == cacheRoot + "/" + SafeDirName(docId)
  {
    JoinPath(cacheRoot, SafeDirName(docId))
  }

  /** `_is_cached_on_disk`: both FAISS artefacts exist in the directory. */
  predicate IsCachedOnDisk(disk: Disk, localDir: string) {
    JoinPath(localDir, FaissFile) in disk && JoinPath(localDir, PklFile) in disk
  }

  /** Either artefact alone is not a cache hit. */
  lemma OneFileIsNotCached(localDir: string, file: string)
    requires file == FaissFile || file == PklFile
    ensures !IsCachedOnDisk({JoinPath(localDir, file)}, localDir)
  {
    assert JoinPath(localDir, FaissFile) != JoinPath(localDir, PklFile) by {
      assert FaissFile[|FaissFile| - 1] != PklFile[|PklFile| - 1];
    }
  }

  /** `f"{vectorstore_prefix.strip('/')}/{doc_id.strip('/')}/"`. */
  function DownloadPrefixFor(vectorstorePrefix: string, docId: string): string {
    DirPrefix(Strip(vectorstorePrefix, {'/'}), Strip(docId, {'/'}))
  }

  function DirPrefix(store: string, id: string): string {
    store + "/" + id + "/"
  }

  /** For an id that is not all slashes, `download_prefix`'s own
      normalisation leaves the prefix as built, so exactly the blobs under
      `<store>/<id>/` are copied. */
  lemma DownloadPrefixForKept(vectorstorePrefix: string, docId: string)
    requires Strip(docId, {'/'}) != []
    ensures DownloadRoot(DownloadPrefixFor(vectorstorePrefix, docId)) == DownloadPrefixFor(vectorstorePrefix, docId)
  {
    DirPrefixKept(Strip(vectorstorePrefix, {'/'}), Strip(docId, {'/'}));
  }

  lemma DirPrefixKept(store: string, id: string)
    requires id != [] && id[|id| - 1] != '/'
    ensures DownloadRoot(DirPrefix(store, id)) == DirPrefix(store, id)
  {
    var body := store + "/" + id;
    assert body[|body| - 1] == id[|id| - 1];
    assert DirPrefix(store, id) == body + ['/'];
    RStripDrops(body, '/', {'/'});
    RStripKeeps(body, {'/'});
  }

  /** An id made only of slashes (or empty) collapses to the store's own
      prefix: every index under the store would be copied into one
      directory. */
  lemma DownloadPrefixForBlankId(vectorstorePrefix: string, docId: string)
    requires Strip(docId, {'/'}) == [] && Strip(vectorstorePrefix, {'/'}) != []
    ensures DownloadRoot(DownloadPrefixFor(vectorstorePrefix, docId)) == Strip(vectorstorePrefix, {'/'}) + "/"
  {
    DirPrefixBlank(Strip(vectorstorePrefix, {'/'}), Strip(docId, {'/'}));
  }

  lemma DirPrefixBlank(store: string, id: string)
    requires id == [] && store != [] && store[|store| - 1] != '/'
    ensures DownloadRoot(DirPrefix(store, id)) == store + "/"
  {
    assert DirPrefix(store, id) == (store + ['/']) + ['/'];
    RStripDrops(store + ['/'], '/', {'/'});
    RStripDrops(store, '/', {'/'});
    RStripKeeps(store, {'/'});
  }

  /** When the store holds both artefacts under the document's prefix, the
      download that a cache miss triggers leaves the directory cached. */
  lemma DownloadMakesCached(container: seq<string>, vectorstorePrefix: string, docId: string, localDir: string, disk: Disk)
    requires Strip(docId, {'/'}) != []
    requires DownloadPrefixFor(vectorstorePrefix, docId) + FaissFile in container
    requires DownloadPrefixFor(vectorstorePrefix, docId) + PklFile in container
    ensures IsCachedOnDisk(disk + PathSet(DownloadPlan(container, DownloadPrefixFor(vectorstorePrefix, docId), localDir)), localDir)
  {
    var p := DownloadPrefixFor(vectorstorePrefix, docId);
    DownloadPrefixForKept(vectorstorePrefix, docId);
    DownloadPlanWrites(container, p, localDir, FaissFile);
    DownloadPlanWrites(container, p, localDir, PklFile);
  }

  /** The outcome of one vector-store request: the loaded index (None when
      the load fails), the disk afterwards and the effects performed. */
  datatype Lookup<V> = Lookup(vs: Option<V>, disk: Disk, trace: seq<Effect>)

  /** `VectorstoreManager`: the blob container (as its listing), the settings'
      vector-store prefix, the cache root and the in-memory memo. */
  class VectorstoreManager<V> {
    const container: seq<string>
    const vectorstorePrefix: string
    const cacheRoot: string
    var memCache: map<string, V>

    /** `__post_init__`: the memo starts empty. */
    constructor (container: seq<string>, settings: BlobSettings, cacheRoot: string)
      ensures this.container == container && vectorstorePrefix == settings.vectorstorePrefix
      ensures this.cacheRoot == cacheRoot
      ensures memCache == map[]
    {
      this.container := container;
      vectorstorePrefix := settings.vectorstorePrefix;
      this.cacheRoot := cacheRoot;
      memCache := map[];
    }

    /** What `get_vectorstore(doc_id)` yields from the current memo and disk:
        the index (if any), the disk afterwards and the effects. It follows
        the method's steps and exists to name their outcome for callers and
        lemmas. */
    function Resolve(docId: string, disk: Disk, load: (string, Disk) -> Option<V>): Lookup<V>
      reads this
    {
      if docId in memCache then Lookup(Some(memCache[docId]), disk, [])
      else
        var dir := LocalDirForDoc(cacheRoot, docId);
        var prefix := DownloadPrefixFor(vectorstorePrefix, docId);
        var plan := DownloadPlan(container, prefix, dir);
        var cached := IsCachedOnDisk(disk, dir);
        var disk' := if cached then disk else disk + PathSet(plan);
        var fetch := if cached then [] else [ListUnder(DownloadRoot(prefix))] + FetchAll(plan);
        Lookup(load(dir, disk'), disk', fetch + [LoadIndex(dir)])
    }

    /** `get_vectorstore(doc_id)`. A memoised id returns its object with no
        I/O. Otherwise the artefacts are downloaded unless both are already
        on disk, the index is loaded, and a successful load is memoised;
        a failed load (the source raises) memoises nothing. */
    method GetVectorstore(docId: string, disk: Disk, load: (string, Disk) -> Option<V>)
      returns (vs: Option<V>, disk': Disk, trace: seq<Effect>)
      modifies this
      ensures docId in old(memCache) ==>
                vs == Some(old(memCache)[docId]) && disk' == disk && trace == [] && memCache == old(memCache)
      ensures docId !in old(memCache) ==>
                var dir := LocalDirForDoc(cacheRoot, docId);
                var prefix := DownloadPrefixFor(vectorstorePrefix, docId);
                var plan := DownloadPlan(container, prefix, dir);
                && disk' == (if IsCachedOnDisk(disk, dir) then disk else disk + PathSet(plan))
                && trace == (if IsCachedOnDisk(disk, dir) then [] else [ListUnder(DownloadRoot(prefix))] + FetchAll(plan))
                            + [LoadIndex(dir)]
                && vs == load(dir, disk')
                && memCache == (if vs.Some? then old(memCache)[docId := vs.value] else old(memCache))
      ensures Lookup(vs, disk', trace) == old(Resolve(docId, disk, load))
    {
      if docId in memCache {
        return Some(memCache[docId]), disk, [];
      }
      var localDir := LocalDirForDoc(cacheRoot, docId);
      disk', trace := disk, [];
      if !IsCachedOnDisk(disk, localDir) {
        var prefix := DownloadPrefixFor(vectorstorePrefix, docId);
        var _, d, t := DownloadPrefix(container, prefix, localDir, disk);
        disk', trace := d, t;
      }
      vs := load(localDir, disk');
      trace := trace + [LoadIndex(localDir)];
      if vs.Some? {
        memCache := memCache[docId := vs.value];
      }
    }
  }

  /** Two consecutive requests for the same id: once the first has loaded an
      index, the second returns that same object and performs no download
      and no load; other memo entries are untouched throughout. */
  method GetTwice<V>(m: VectorstoreManager<V>, docId: string, disk: Disk, load: (string, Disk) -> Option<V>)
    returns (first: Option<V>, second: Option<V>, secondTrace: seq<Effect>)
    modifies m
    ensures first.Some? ==> second == first && secondTrace == []
    ensures forall d :: d in old(m.memCache) ==> d in m.memCache && m.memCache[d] == old(m.memCache)[d]
  {
    var disk1, disk2, trace1;
    first, disk1, trace1 := m.GetVectorstore(docId, disk, load);
    second, disk2, secondTrace := m.GetVectorstore(docId, disk1, load);
  }
}
