/** PREVIOUSPROJECTATTEMPT/storage/blob.py: settings read from the process
    environment and the "download every blob under a prefix" operation.
    The container is given as the list of its blob names; the Azure SDK calls
    themselves are not part of this model. */
module BlobStorage {
  import opened Wrappers
  import opened Text
  import opened LocalFs

  /** The process environment. */
  type Environ = map<string, string>

  const ConnectionStringVar := "AZURE_STORAGE_CONNECTION_STRING"
  const ContainerVar := "AZURE_BLOB_CONTAINER"
  const PdfPrefixVar := "AZURE_BLOB_PDF_PREFIX"
  const VectorstorePrefixVar := "AZURE_BLOB_VECTORSTORE_PREFIX"

  const DefaultContainer := "nyccodesvectorstore"
  const DefaultPdfPrefix := "pdfs"
  const DefaultVectorstorePrefix := "vectorstores_RecursiveSplitting"

  /** `_env(name, default)`: the stripped value, or `default` when the variable
      is unset or only whitespace. */
  function Env(environ: Environ, name: string, default: Option<string>): (r: Option<string>)
    ensures name !in environ ==> r == default
    ensures name in environ && Strip(environ[name], Whitespace) == [] ==> r == default
    ensures name in environ && Strip(environ[name], Whitespace) != [] ==> r == Some(Strip(environ[name], Whitespace))
  {
    if name !in environ then default
    else
      var v := Strip(environ[name], Whitespace);
      if v == [] then default else Some(v)
  }

  /** A value `_env` takes from the environment is never blank and carries no
      surrounding whitespace. */
  lemma EnvValueTrimmed(environ: Environ, name: string, default: Option<string>)
    requires Env(environ, name, default).Some? && Env(environ, name, default) != default
    ensures var v := Env(environ, name, default).value;
            v != [] && v[0] !in Whitespace && v[|v| - 1] !in Whitespace
  {
    var v := Strip(environ[name], Whitespace);
    assert v != [];
  }

  datatype BlobSettings = BlobSettings(
    connectionString: string,
    container: string,
    pdfPrefix: string,
    vectorstorePrefix: string)

  const MissingConnectionString :=
    "Missing AZURE_STORAGE_CONNECTION_STRING. Set it in Azure App Service Configuration or your local environment before starting."

  /** `BlobSettings.from_env()`; a raised `RuntimeError` is a `Failure`. */
  function SettingsFromEnv(environ: Environ): (r: Result<BlobSettings, string>)
    ensures r.Failure? <==> ConnectionStringVar !in environ || Strip(environ[ConnectionStringVar], Whitespace) == []
    ensures r.Success? ==>
      && r.value.connectionString == Strip(environ[ConnectionStringVar], Whitespace)
      && r.value.container != []
      && NoEdgeSlash(r.value.pdfPrefix)
      && NoEdgeSlash(r.value.vectorstorePrefix)
    ensures r.Success? && (ContainerVar !in environ || Strip(environ[ContainerVar], Whitespace) == []) ==>
              r.value.container == DefaultContainer
    ensures r.Success? && ContainerVar in environ && Strip(environ[ContainerVar], Whitespace) != [] ==>
              r.value.container == Strip(environ[ContainerVar], Whitespace)
    ensures r.Success? ==> r.value.pdfPrefix == PrefixSetting(environ, PdfPrefixVar, DefaultPdfPrefix)
    ensures r.Success? ==> r.value.vectorstorePrefix == PrefixSetting(environ, VectorstorePrefixVar, DefaultVectorstorePrefix)
    ensures r.Success? && PdfPrefixVar !in environ ==> r.value.pdfPrefix == DefaultPdfPrefix
    ensures r.Success? && VectorstorePrefixVar !in environ ==> r.value.vectorstorePrefix == DefaultVectorstorePrefix
  {
    var conn := Env(environ, ConnectionStringVar, None);
    if conn.None? then Failure(MissingConnectionString)
    else
      var container := Env(environ, ContainerVar, Some(DefaultContainer)).GetOr(DefaultContainer);
      var pdf := PrefixSetting(environ, PdfPrefixVar, DefaultPdfPrefix);
      var vs := PrefixSetting(environ, VectorstorePrefixVar, DefaultVectorstorePrefix);
      Success(BlobSettings(conn.value, container, pdf, vs))
  }

  /** Neither starts nor ends with '/'. */
  predicate NoEdgeSlash(s: string) {
    s == [] || (s[0] != '/' && s[|s| - 1] != '/')
  }

  /** `(_env(name, default) or default).strip("/")`. */
  function PrefixSetting(environ: Environ, name: string, default: string): (r: string)
    requires default != [] && NoEdgeSlash(default)
    ensures NoEdgeSlash(r)
    ensures name !in environ || Strip(environ[name], Whitespace) == [] ==> r == default
    ensures name in environ && Strip(environ[name], Whitespace) != [] ==>
              r == Strip(Strip(environ[name], Whitespace), {'/'})
  {
    StripKeeps(default, {'/'});
    Strip(Env(environ, name, Some(default)).GetOr(default), {'/'})
  }

  /** `list_blobs(prefix)`: the container's blob names that start with
      `prefix`, in listing order. */
  function ListBlobs(container: seq<string>, prefix: string): (r: seq<string>)
    ensures forall n :: n in r <==> n in container && StartsWith(n, prefix)
    ensures |r| <= |container|
    decreases |container|
  {
    if container == [] then []
    else
      var init := container[..|container| - 1];
      var n := container[|container| - 1];
      assert container == init + [n];
      ListBlobs(init, prefix) + (if StartsWith(n, prefix) then [n] else [])
  }

  /** A one-blob listing keeps the blob exactly when it has the prefix. */
  lemma ListBlobsOne(n: string, prefix: string)
    ensures ListBlobs([n], prefix) == (if StartsWith(n, prefix) then [n] else [])
  {
    assert [n][..0] == [];
  }

  /** Listing keeps the container's order: the listing of two stretches of
      the container is the listing of the first followed by that of the
      second. */
  lemma {:induction false} ListBlobsAppend(a: seq<string>, b: seq<string>, prefix: string)
    ensures ListBlobs(a + b, prefix) == ListBlobs(a, prefix) + ListBlobs(b, prefix)
    decreases |b|
  {
    if b == [] {
      assert a + b == a;
    } else {
      var init := b[..|b| - 1];
      var n := b[|b| - 1];
      var last := if StartsWith(n, prefix) then [n] else [];
      assert (a + b)[..|a + b| - 1] == a + init;
      assert (a + b)[|a + b| - 1] == n;
      ListBlobsAppend(a, init, prefix);
      assert ListBlobs(a + b, prefix) == ListBlobs(a, prefix) + ListBlobs(init, prefix) + last;
      assert ListBlobs(b, prefix) == ListBlobs(init, prefix) + last;
    }
  }

  /** The part of a listed name after the prefix (`blob_name[len(prefix):]`). */
  function Remainder(name: string, prefix: string): string {
    PySlice(name, |prefix|, |name|)
  }

  /** `download_prefix` skips names with nothing after the prefix and
      "directory marker" names ending in '/'. */
  predicate SkippedName(name: string, prefix: string) {
    var rel := Remainder(name, prefix);
    rel == [] || EndsWith(rel, "/")
  }

  /** The copies `download_prefix` makes, in listing order. */
  function PrefixTransfers(names: seq<string>, prefix: string, localDir: string): seq<Transfer>
    decreases |names|
  {
    if names == [] then []
    else
      var n := names[|names| - 1];
      PrefixTransfers(names[..|names| - 1], prefix, localDir) +
        (if SkippedName(n, prefix) then [] else [Transfer(n, JoinPath(localDir, Remainder(n, prefix)))])
  }

  /** The names `download_prefix` does not skip, in listing order. */
  function KeptNames(names: seq<string>, prefix: string): (r: seq<string>)
    ensures forall n :: n in r <==> n in names && !SkippedName(n, prefix)
    decreases |names|
  {
    if names == [] then []
    else
      var init := names[..|names| - 1];
      var n := names[|names| - 1];
      assert names == init + [n];
      KeptNames(init, prefix) + (if SkippedName(n, prefix) then [] else [n])
  }

  /** Exactly one copy per kept name, in order, each to `localDir` joined with
      the name's remainder after the prefix. */
  lemma {:induction false} PrefixTransfersAreKept(names: seq<string>, prefix: string, localDir: string)
    ensures var ts := PrefixTransfers(names, prefix, localDir);
            var kept := KeptNames(names, prefix);
            && |ts| == |kept|
            && forall i :: 0 <= i < |ts| ==>
                 ts[i] == Transfer(kept[i], JoinPath(localDir, Remainder(kept[i], prefix)))
    decreases |names|
  {
    if names != [] {
      PrefixTransfersAreKept(names[..|names| - 1], prefix, localDir);
    }
  }

  lemma PrefixTransfersStep(names: seq<string>, i: nat, prefix: string, localDir: string)
    requires i < |names| && StartsWith(names[i], prefix)
    ensures var n := names[i];
            var rel := n[|prefix|..];
            && Remainder(n, prefix) == rel
            && PrefixTransfers(names[..i + 1], prefix, localDir) ==
               PrefixTransfers(names[..i], prefix, localDir) +
                 (if rel == [] || EndsWith(rel, "/") then [] else [Transfer(n, JoinPath(localDir, rel))])
  {
    assert names[..i + 1][..i] == names[..i];
  }

  /** `prefix.rstrip("/") + "/"`: the listing prefix of `download_prefix`. */
  function DownloadRoot(prefix: string): (r: string)
    ensures EndsWith(r, "/") && (|r| >= 2 ==> r[|r| - 2] != '/')
  {
    RStrip(prefix, {'/'}) + "/"
  }

  /** The copies `download_prefix(prefix, local_dir)` makes. */
  function DownloadPlan(container: seq<string>, prefix: string, localDir: string): seq<Transfer> {
    var p := DownloadRoot(prefix);
    PrefixTransfers(ListBlobs(container, p), p, localDir)
  }

  /** Every blob below the prefix whose relative name is a file name (non-empty,
      not ending in '/') is copied to that relative name under `localDir`. */
  lemma DownloadPlanWrites(container: seq<string>, prefix: string, localDir: string, rel: string)
    requires rel != [] && !EndsWith(rel, "/")
    requires DownloadRoot(prefix) + rel in container
    ensures JoinPath(localDir, rel) in PathSet(DownloadPlan(container, prefix, localDir))
  {
    var p := DownloadRoot(prefix);
    var name := p + rel;
    var names := ListBlobs(container, p);
    assert name[..|p|] == p;
    assert Remainder(name, p) == rel by { assert name[|p|..] == rel; }
    var kept := KeptNames(names, p);
    PrefixTransfersAreKept(names, p, localDir);
    var i :| 0 <= i < |kept| && kept[i] == name;
    var ts := DownloadPlan(container, prefix, localDir);
    assert ts[i].path == JoinPath(localDir, rel);
    assert ts[i] in ts;
  }

  /** `download_prefix(prefix, local_dir)`: every kept blob is downloaded,
      whether or not its file already exists (an existing file is
      overwritten), and the local paths are returned in listing order. */
  method DownloadPrefix(container: seq<string>, prefix: string, localDir: string, disk: Disk)
    returns (downloaded: seq<string>, disk': Disk, trace: seq<Effect>)
    ensures var ts := DownloadPlan(container, prefix, localDir);
            && downloaded == PathsOf(ts)
            && disk' == disk + PathSet(ts)
            && trace == [ListUnder(DownloadRoot(prefix))] + FetchAll(ts)
  {
    var p := RStrip(prefix, {'/'}) + "/";
    var names := ListBlobs(container, p);
    ghost var done: seq<Transfer> := [];
    var fetched: seq<Effect> := [];
    downloaded, disk' := [], disk;
    var i := 0;
    while i < |names|
      invariant 0 <= i <= |names|
      invariant done == PrefixTransfers(names[..i], p, localDir)
      invariant downloaded == PathsOf(done)
      invariant disk' == disk + PathSet(done)
      invariant fetched == FetchAll(done)
    {
      var name := names[i];
      PrefixTransfersStep(names, i, p, localDir);
      var rel := name[|p|..];
      if !(rel == [] || EndsWith(rel, "/")) {
        var localPath := JoinPath(localDir, rel);
        TransfersSnoc(done, Transfer(name, localPath));
        disk' := disk' + {localPath};
        fetched := fetched + [Fetch(Transfer(name, localPath))];
        downloaded := downloaded + [localPath];
        done := done + [Transfer(name, localPath)];
      }
      i := i + 1;
    }
    assert names[..i] == names;
    trace := [ListUnder(p)] + fetched;
  }
}
