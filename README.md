# Retrieval-augmented Q&A over building-code PDFs — a Dafny model

The application answers questions about engineering and construction code
documents (PDFs). Each document has a FAISS vector index in an Azure Blob
container, and the app serves the PDF itself from the same container. Two
generations of the Flask app sit in the repository:

- the legacy one under `PREVIOUSPROJECTATTEMPT/`: a label-sorted catalogue
  built from the `index.faiss` keys, a vector-store manager with an
  on-disk cache and an in-memory memo, a PDF proxy with a path guard,
  LLM-streamed answers, and Entra ID (MSAL) sign-in with an e-mail-domain
  allow-list;
- the root one: a catalogue of the `pdfs/` keys, a "download if the
  directory is empty" search service, and an answer stream made of the
  retrieved snippets.

This project models the logic under the web and cloud glue:

- key parsing and catalogue building;
- the cache and download decisions;
- page normalisation and context building;
- the order of the streamed NDJSON records;
- the PDF path guard;
- the sign-in decisions over the session.

It proves what that logic guarantees.

The outside world enters as values:

- the container is the list of its blob names;
- the local disk is the set of existing file paths;
- a FAISS index is an opaque value whose load may fail;
- the retriever, the similarity search and the LLM stream are functions
  given as parameters;
- the Flask session is a map from keys to Python values;
- the token endpoint's answer is a function of the authorization code.

Operations that touch the disk or the store return what they did as an
effect trace: one listing, the fetches, the index load.

Modules, one per source file, plus shared helpers:

| file | module | models |
|---|---|---|
| blob.dfy | BlobStorage | `PREVIOUSPROJECTATTEMPT/storage/blob.py` |
| doc_index.dfy | DocIndex | `PREVIOUSPROJECTATTEMPT/rag/doc_index.py` |
| vectorstores.dfy | Vectorstores | `PREVIOUSPROJECTATTEMPT/rag/vectorstores.py` (class `VectorstoreManager`) |
| legacy_app.dfy | LegacyApp | `PREVIOUSPROJECTATTEMPT/app.py` |
| blob_service.dfy | BlobService | `storage/blob_service.py` |
| search_service.dfy | SearchService | `rag/search_service.py` |
| stream_app.dfy | StreamApp | `app.py` |
| auth_claims.dfy | AuthClaims | `PREVIOUSPROJECTATTEMPT/auth/msal_auth.py` |
| auth_config.dfy | AuthConfig | `PREVIOUSPROJECTATTEMPT/auth/config.py` |
| auth_gates.dfy | AuthGates | `PREVIOUSPROJECTATTEMPT/auth/decorators.py` |
| auth_routes.dfy | AuthRoutes | `PREVIOUSPROJECTATTEMPT/auth/routes.py` |
| values.dfy | PyValues, FlaskSession | Python values and truthiness; Flask's session as a class |
| wrappers.dfy, text.dfy, ordering.dfy, grouping.dfy, localfs.dfy, responses.dfy | helpers | Option/Result; `strip`, `split`, `join`, `replace`, `lower` and slicing; string order and sorting; the two-level `setdefault(...).append` grouping; path joins and effects; the NDJSON record type |

Where the code works step by step, the model does too:

- `BuildDocIndex`, `DownloadPrefix`, `ListBlobsHierarchy`,
  `DownloadVectorStore`, `Search`, both `Generate`s and `GetDocInfo` are
  methods with loops.
- `VectorstoreManager` is a class whose memo is a field.
- The sign-in routes and `domain_required` update a `Session` object.

Each of these methods is either proved equal to a specification function,
with the properties proved about that function, or characterised directly
by its ensures: `GetDocInfo` and `FindInYears` by what they find,
`LegacyApp.AskStream` by the reply it builds from the resolved index.

Behaviour worth knowing:

- **Pages without metadata.** In the legacy `/ask_stream` route no page
  is recovered from the chunk text and no default page 1 is given: such
  chunks are ignored. The root search gives them page 0 instead.
- **Safe directory names.** Neither transform is collision-free
  (`SafeDirNameCollides`, `SafeDocIdCollides`).
- **Root cache check.** The root search trusts any non-empty directory,
  even one holding a single artefact (`LoneArtefactIsTrusted`).
- **Legacy download.** It re-downloads every blob and overwrites existing
  files; only the root download skips files already present.
- **Root answer stream.** With no results it sends one token and no meta
  record.
- **Concurrency.** There are no locks.

## Model

| member | source | states |
|---|---|---|
| BlobStorage.Env | PREVIOUSPROJECTATTEMPT/storage/blob.py:26-31 | unset or whitespace-only gives the default, otherwise the stripped value |
| BlobStorage.EnvValueTrimmed | PREVIOUSPROJECTATTEMPT/storage/blob.py:30-31 | a value taken from the environment is non-blank and has no surrounding whitespace |
| BlobStorage.SettingsFromEnv | PREVIOUSPROJECTATTEMPT/storage/blob.py:44-61 | fails exactly when the connection string is unset or blank; otherwise holds it stripped, the container variable's stripped value when it is not blank (else "nyccodesvectorstore"), and the two prefixes as PrefixSetting reads them (defaults "pdfs" and "vectorstores_RecursiveSplitting"), neither starting nor ending with '/' |
| BlobStorage.PrefixSetting | PREVIOUSPROJECTATTEMPT/storage/blob.py:53-54 | a set, non-blank variable gives its whitespace-stripped value with every leading and trailing '/' removed; an unset or blank one gives the default; either way no '/' at either end |
| BlobStorage.ListBlobs | PREVIOUSPROJECTATTEMPT/storage/blob.py:85-88 | exactly the container's names that start with the prefix |
| BlobStorage.ListBlobsOne | PREVIOUSPROJECTATTEMPT/storage/blob.py:85-88 | a one-blob container lists that blob iff it has the prefix |
| BlobStorage.ListBlobsAppend | PREVIOUSPROJECTATTEMPT/storage/blob.py:85-88 | listing order is the container's order: the listing of a + b is the listing of a followed by that of b |
| BlobStorage.KeptNames | PREVIOUSPROJECTATTEMPT/storage/blob.py:108-111 | a listed name is kept iff its remainder after the prefix is non-empty and does not end in '/' |
| BlobStorage.PrefixTransfersAreKept | PREVIOUSPROJECTATTEMPT/storage/blob.py:108-116 | one copy per kept name, in listing order, each to local_dir joined with the name's remainder |
| BlobStorage.DownloadRoot | PREVIOUSPROJECTATTEMPT/storage/blob.py:105 | the listing prefix ends in exactly one '/' |
| BlobStorage.DownloadPlanWrites | PREVIOUSPROJECTATTEMPT/storage/blob.py:108-114 | every blob under the prefix whose relative name is a file name is written to that name under local_dir |
| BlobStorage.DownloadPrefix | PREVIOUSPROJECTATTEMPT/storage/blob.py:98-116 | returns one local path per kept name in listing order; each kept blob is fetched whether or not its file exists (no skip-if-present); the disk gains exactly those paths |
| DocIndex.NormalizePrefix | PREVIOUSPROJECTATTEMPT/rag/doc_index.py:41 | the prefix ends in exactly one '/' and does not start with '/'; it is "/" only when the input is all slashes |
| DocIndex.Segments | PREVIOUSPROJECTATTEMPT/rag/doc_index.py:52 | the kept segments are non-empty and contain no '/' |
| DocIndex.ParseKeyAccepts | PREVIOUSPROJECTATTEMPT/rag/doc_index.py:44-63 | a key yields an entry iff it ends in "/index.faiss" and the id cut from it is non-empty; that entry has id = vs_rel_path = the cut id, pdf_rel_path = id + ".pdf", a year equal to its year bucket, and non-empty bucket keys |
| DocIndex.KeyRoundTrip | PREVIOUSPROJECTATTEMPT/rag/doc_index.py:48 | prefix + id + "/index.faiss" rebuilds the listed key |
| DocIndex.KeyForDoc | PREVIOUSPROJECTATTEMPT/rag/doc_index.py:44-50 | the index key of any non-empty id is accepted with exactly that id |
| DocIndex.SegmentsRebuildId | PREVIOUSPROJECTATTEMPT/rag/doc_index.py:52-55 | for an id of three or more clean segments, category + "/" + year + "/" + label is the id |
| DocIndex.Accepted | PREVIOUSPROJECTATTEMPT/rag/doc_index.py:43-63 | every parsed entry of the listing is well filed |
| DocIndex.BuildDocIndex | PREVIOUSPROJECTATTEMPT/rag/doc_index.py:40-72 | the loop of `setdefault(...).append` followed by the sorting pass yields the catalogue of the listing under the normalised prefix |
| DocIndex.SortEachBucket | PREVIOUSPROJECTATTEMPT/rag/doc_index.py:68-70 | the in-place pass replaces every bucket by its copy sorted by label |
| DocIndex.SortEachYear | PREVIOUSPROJECTATTEMPT/rag/doc_index.py:69-70 | the inner loop sorts every year bucket of one category by label |
| DocIndex.CatalogBuckets | PREVIOUSPROJECTATTEMPT/rag/doc_index.py:65-70 | a bucket exists iff some accepted key is filed there; it is non-empty, sorted by label, a permutation of the entries filed there, and each entry carries that bucket's year |
| DocIndex.CatalogComplete | PREVIOUSPROJECTATTEMPT/rag/doc_index.py:43-65 | every accepted key's entry is in the bucket of its category and year |
| DocIndex.SortBucketsCount | PREVIOUSPROJECTATTEMPT/rag/doc_index.py:68-70 | sorting the buckets keeps the entry count |
| DocIndex.CatalogCount | PREVIOUSPROJECTATTEMPT/rag/doc_index.py:43-65 | the catalogue holds exactly as many entries as the listing has accepted keys |
| Vectorstores.SafeDirName | PREVIOUSPROJECTATTEMPT/rag/vectorstores.py:59 | the directory name contains neither '/' nor '\\' |
| Vectorstores.SafeDirNameCollides | PREVIOUSPROJECTATTEMPT/rag/vectorstores.py:59 | "a/b", "a__b" and "a\\b" share the directory "a__b" (not injective) |
| Vectorstores.LocalDirForDoc | PREVIOUSPROJECTATTEMPT/rag/vectorstores.py:57-60 | the local directory is cache_root joined with the safe name |
| Vectorstores.OneFileIsNotCached | PREVIOUSPROJECTATTEMPT/rag/vectorstores.py:62-63 | a directory holding only index.faiss or only index.pkl is not cached |
| Vectorstores.DownloadPrefixForKept | PREVIOUSPROJECTATTEMPT/rag/vectorstores.py:76-77 | for an id that is not all slashes, the prefix handed to download_prefix is used unchanged |
| Vectorstores.DownloadPrefixForBlankId | PREVIOUSPROJECTATTEMPT/rag/vectorstores.py:76-77 | an empty or all-slash id collapses the download to the whole vector-store prefix |
| Vectorstores.DownloadMakesCached | PREVIOUSPROJECTATTEMPT/rag/vectorstores.py:74-77 | when the store holds both artefacts under the document's prefix, the download leaves the directory cached |
| Vectorstores.VectorstoreManager.constructor | PREVIOUSPROJECTATTEMPT/rag/vectorstores.py:53-55 | the memo starts empty |
| Vectorstores.VectorstoreManager.GetVectorstore | PREVIOUSPROJECTATTEMPT/rag/vectorstores.py:65-87 | a memoised id returns its object with no I/O; otherwise download only when the two files are not both present, load, memoise exactly the loaded object and keep every other memo entry |
| Vectorstores.GetTwice | PREVIOUSPROJECTATTEMPT/rag/vectorstores.py:65-87 | after a successful first call, a second call for the same id returns the same object with no download or load |
| BlobService.ParsePdfKey | storage/blob_service.py:33-54 | a blob is kept iff it ends in ".pdf" and has at least four '/'-parts; it is filed under parts[1]/parts[2] with name = the last part, blob_path = the full name, and doc_id = category/year/stem |
| BlobService.ListBlobsHierarchy | storage/blob_service.py:22-57 | the loop builds the grouping of the parsed "pdfs/" blobs in listing order (buckets unsorted) |
| BlobService.HierarchyShape | storage/blob_service.py:45-55 | one entry per kept blob; every bucket is non-empty and lists the entries of the blobs filed there, in listing order |
| BlobService.PdfKeyHead | storage/blob_service.py:29-33 | the first part of a listed key is "pdfs" |
| BlobService.LastPartIsPdf | storage/blob_service.py:34-37 | the file name of a kept key ends in ".pdf" |
| BlobService.PdfUrlFindsBlob | storage/blob_service.py:50-54 | for a key exactly pdfs/category/year/file.pdf, "pdfs/" + doc_id + ".pdf" is the key again |
| BlobService.PdfUrlMissesNested | storage/blob_service.py:54 | for a key with folders between the year and the file, "pdfs/" + doc_id + ".pdf" is not the key |
| BlobService.LocalPaths | storage/blob_service.py:104-116 | at most one returned path per listed blob |
| BlobService.IndexFiles | storage/blob_service.py:103-104 | exactly the listed names ending in ".faiss" or ".pkl" |
| BlobService.LocalPathsOfIndexFiles | storage/blob_service.py:104-116 | one path per .faiss/.pkl blob, in listing order: position i holds local_dir joined with the basename of the i-th index file |
| BlobService.LocalPathsMembers | storage/blob_service.py:104-116 | a path is returned iff it is the local path of some listed .faiss/.pkl blob |
| BlobService.DownloadVectorStore | storage/blob_service.py:89-118 | lists "vectorstores_RecursiveSplitting/{doc_id}/", returns the local path of every .faiss/.pkl blob in listing order, and fetches only those whose file is absent |
| BlobService.DownloadEach | storage/blob_service.py:104-116 | the loop makes exactly the skip-if-present copies and returns every matching path |
| BlobService.NewTransfersSkipExisting | storage/blob_service.py:109-114 | no copy targets a file that existed before, and no two copies target the same file |
| BlobService.DownloadedPathsExist | storage/blob_service.py:104-116 | every returned path exists on disk afterwards |
| BlobService.LocalPathForUnder | storage/blob_service.py:106-107 | an artefact lands directly inside local_dir |
| BlobService.LocalPathsUnder | storage/blob_service.py:104-116 | every returned path lies directly inside local_dir |
| BlobService.NoFilesIffNoIndex | storage/blob_service.py:104-118 | the result is [] iff no .faiss or .pkl blob is listed |
| BlobService.GetSasUrl | storage/blob_service.py:59-87 | None for an empty path or a missing connection string; otherwise the URL of the blob path with the token appended |
| SearchService.SafeDocId | rag/search_service.py:21 | no '/' or '\\' remains; the name is empty only for an empty id |
| SearchService.SafeDocIdCollides | rag/search_service.py:21 | "a/b", "a\\b" and "a_b" share the directory "a_b" (not injective) |
| SearchService.TargetDirShape | rag/search_service.py:22 | the target is "temp_indices/" + the safe id, with no trailing '/' for a non-empty id |
| SearchService.MapResults | rag/search_service.py:51-57 | one result per hit, in order: content, the page metadata or 0 when absent, and the score |
| SearchService.ProcessResults | rag/search_service.py:51-59 | the append loop yields the mapped hits |
| SearchService.Search | rag/search_service.py:13-59 | downloads only when the directory is missing or empty (a directory written with a trailing '/' is listed as itself); an empty download gives [] without loading; a failed load gives []; otherwise the mapped hits of the similarity search |
| SearchService.DownloadFillsDir | rag/search_service.py:26-30 | a download that produced files leaves the directory non-empty, so the next search loads without downloading |
| SearchService.LoneArtefactIsTrusted | rag/search_service.py:26 | a directory with a single artefact counts as present |
| SearchService.EmptyIdSeesCache | rag/search_service.py:21-26 | for an empty doc_id the target is the cache directory itself, so any cached document makes it count as present |
| SearchService.GetDocumentUrl | rag/search_service.py:77-78 | the URL exists iff a connection string and a token exist, and it ends in "pdfs/" + doc_id + ".pdf?" + token |
| StreamApp.DocLabel | app.py:97 | the label contains no '/' |
| StreamApp.DocLabelIsLastSegment | app.py:97 | the label is the text after the last '/', or the whole id when it has none |
| StreamApp.CountLineNumber | app.py:102 | the count line carries the result count in decimal right after "Found ", and it reads back as that count |
| StreamApp.SnippetHoldsContent | app.py:106 | a snippet starts with its page header and contains the result's content whole |
| StreamApp.SnippetTokens | app.py:104-110 | one snippet token per result, in result order |
| StreamApp.ResultPages | app.py:88 | the pages of the results, position by position |
| StreamApp.StreamRecords | app.py:78-110 | no results: exactly one fixed token and no meta; otherwise N + 2 records: meta (distinct result pages strictly increasing, the URL, the label), the count token, one snippet per result in order |
| StreamApp.Generate | app.py:78-110 | the generator's loop emits exactly the specified records |
| StreamApp.AskStream | app.py:69-112 | a missing or empty doc_id or question gives 400 with no search; otherwise the stream of the search results with the document URL, and the search's disk and effects |
| LegacyApp.GetDocInfo | PREVIOUSPROJECTATTEMPT/app.py:166-173 | a found entry has the requested id and is filed in the catalogue; None iff no bucket holds that id |
| LegacyApp.FindInYears | PREVIOUSPROJECTATTEMPT/app.py:169-172 | the search over one category's years finds an entry with the id iff one exists |
| LegacyApp.FindInBucket | PREVIOUSPROJECTATTEMPT/app.py:170-172 | the first entry of the bucket with the id, or None iff there is none |
| LegacyApp.IndexedDocIsKnown | PREVIOUSPROJECTATTEMPT/app.py:166-173 | every document the catalogue builder accepted is found by get_doc_info |
| LegacyApp.GetCategories | PREVIOUSPROJECTATTEMPT/app.py:157-158 | the categories are exactly the catalogue keys, strictly sorted |
| LegacyApp.YearsForCategory | PREVIOUSPROJECTATTEMPT/app.py:186-192 | [] for a missing, empty or unknown category; otherwise exactly that category's years, strictly sorted |
| LegacyApp.CatalogCategoryHasYears | PREVIOUSPROJECTATTEMPT/app.py:189-191 | every category of a built catalogue has at least one year |
| LegacyApp.DocsForYear | PREVIOUSPROJECTATTEMPT/app.py:202-209 | [] when category or year is missing or empty; a non-empty answer is that bucket; a present bucket is returned whole |
| LegacyApp.PresentPages | PREVIOUSPROJECTATTEMPT/app.py:352 | the raw pages are exactly the pages of the chunks that carry one |
| LegacyApp.Min | PREVIOUSPROJECTATTEMPT/app.py:355 | the minimum is an element and no element is smaller |
| LegacyApp.ShiftPages | PREVIOUSPROJECTATTEMPT/app.py:355-360 | same length; strictly increasing is preserved; first_page is the head of a non-empty list and 1 for an empty one |
| LegacyApp.PageViewOf | PREVIOUSPROJECTATTEMPT/app.py:352-360 | the displayed pages are strictly increasing; first_page is their head, or 1 when there are none |
| LegacyApp.PageViewMembers | PREVIOUSPROJECTATTEMPT/app.py:352-360 | a page is displayed iff some chunk carries it (shifted by one exactly when the smallest raw page is 0) |
| LegacyApp.ShiftedPagesPositive | PREVIOUSPROJECTATTEMPT/app.py:355-357 | with non-negative pages and a 0 among them, every displayed page is at least 1 and first_page is 1 |
| LegacyApp.Contents | PREVIOUSPROJECTATTEMPT/app.py:362 | the chunk texts in retrieval order |
| LegacyApp.ContextHoldsChunks | PREVIOUSPROJECTATTEMPT/app.py:362 | each chunk's text occurs in the context at its offset, and earlier chunks come first with the blank line between |
| LegacyApp.PromptHolds | PREVIOUSPROJECTATTEMPT/app.py:364-375 | the prompt starts with the fixed instructions, contains the context and then the question at known offsets, and ends with the question and a newline |
| LegacyApp.ServePdf | PREVIOUSPROJECTATTEMPT/app.py:296-312 | rejected (400) iff the normalised path contains ".." or starts with '/'; otherwise the PDF is streamed from the prefixed blob name when it exists, else 404 naming the path |
| LegacyApp.GuardPrecedesStore | PREVIOUSPROJECTATTEMPT/app.py:297-305 | a rejected path gets the same 400 whatever the container holds (the guard runs before any lookup) |
| LegacyApp.BackslashTraversalRefused | PREVIOUSPROJECTATTEMPT/app.py:297-299 | "..\\x" is refused once backslashes become '/' |
| LegacyApp.PdfBlobNameDirect | PREVIOUSPROJECTATTEMPT/app.py:303 | without a "//" the blob name is pdf_prefix + "/" + path |
| LegacyApp.TripleSlashSurvives | PREVIOUSPROJECTATTEMPT/app.py:303 | the single non-overlapping replace turns "a///b" into "p/a//b": a "//" can survive |
| LegacyApp.TokensOf | PREVIOUSPROJECTATTEMPT/app.py:388-394 | one token per non-empty model chunk, never more tokens than chunks, none empty |
| LegacyApp.TokensKeepText | PREVIOUSPROJECTATTEMPT/app.py:388-394 | the tokens' texts concatenate to the whole model output |
| LegacyApp.AnswerRecords | PREVIOUSPROJECTATTEMPT/app.py:335-394 | meta first, with the PDF URL and label; no docs: meta with pages [] and first_page 1, then the fixed message; otherwise meta carries the page view's pages and first_page, followed by the tokens of the model's stream for the prompt |
| LegacyApp.Generate | PREVIOUSPROJECTATTEMPT/app.py:377-394 | the generator emits meta followed by the tokens of the stream |
| LegacyApp.AskStream | PREVIOUSPROJECTATTEMPT/app.py:317-396 | a question field that is present but not a string gives 500; a missing id or blank stripped question, or an unknown id, gives 400 before retrieval with the memo untouched; otherwise the vector store is resolved, a loaded index is memoised under the id, and the answer records of the retrieved chunks (k = 4) are streamed |
| AuthClaims.FirstEmail | PREVIOUSPROJECTATTEMPT/auth/msal_auth.py:56-60 | a found address is non-empty with no surrounding whitespace |
| AuthClaims.GetEmailFromClaims | PREVIOUSPROJECTATTEMPT/auth/msal_auth.py:54-60 | None for missing or empty claims; a found address is non-empty and stripped |
| AuthClaims.FirstEmailIsFirstMatch | PREVIOUSPROJECTATTEMPT/auth/msal_auth.py:56-60 | None iff no key qualifies; otherwise the stripped value of a qualifying key with no qualifying key before it |
| AuthClaims.PreferredUsernameWins | PREVIOUSPROJECTATTEMPT/auth/msal_auth.py:56-59 | a qualifying preferred_username is returned regardless of the other claims |
| AuthClaims.BlankClaimSkipped | PREVIOUSPROJECTATTEMPT/auth/msal_auth.py:57-58 | a whitespace-only preferred_username is passed over for email |
| AuthConfig.Authority | PREVIOUSPROJECTATTEMPT/auth/config.py:27-29 | the authority is the Microsoft login base followed by the tenant id |
| AuthConfig.MissingVars | PREVIOUSPROJECTATTEMPT/auth/config.py:50 | names exactly the blank required values, in the order tenant, client id, secret; empty iff none is blank |
| AuthConfig.Required | PREVIOUSPROJECTATTEMPT/auth/config.py:46-48 | a required value is empty or trimmed |
| AuthConfig.DomainSetting | PREVIOUSPROJECTATTEMPT/auth/config.py:58 | a set variable gives its stripped, lowercased value; the domain has no capital letters |
| AuthConfig.ScopesSetting | PREVIOUSPROJECTATTEMPT/auth/config.py:60-61 | the scopes are the whitespace-separated words of the stripped value, none empty and none containing whitespace |
| AuthConfig.LoadAuthSettings | PREVIOUSPROJECTATTEMPT/auth/config.py:32-69 | fails iff a required value is blank, with the message naming the blank ones in order; otherwise holds the three trimmed values, the domain and the scopes |
| AuthConfig.DefaultDomainSetting | PREVIOUSPROJECTATTEMPT/auth/config.py:58 | the domain defaults to "pvedi-ae.com" |
| AuthConfig.DefaultScopesSetting | PREVIOUSPROJECTATTEMPT/auth/config.py:60-61 | the scopes default to openid, profile, email |
| AuthConfig.DomainIsLowercase | PREVIOUSPROJECTATTEMPT/auth/config.py:58 | the stored domain is its own lowercase |
| AuthConfig.ScopesRoundTrip | PREVIOUSPROJECTATTEMPT/auth/config.py:60-61 | the scopes survive joining with spaces and splitting again |
| AuthConfig.SettingsOf | PREVIOUSPROJECTATTEMPT/auth/routes.py:27-31 | settings are found iff the config holds an AuthSettings under AUTH_SETTINGS |
| AuthConfig.InitAuth | PREVIOUSPROJECTATTEMPT/auth/config.py:72-81 | succeeds iff loading succeeds, with the same error otherwise; stores the loaded settings under AUTH_SETTINGS and returns them |
| AuthConfig.InitThenSettings | PREVIOUSPROJECTATTEMPT/auth/config.py:79-81 | what init_auth returns is what the routes read back, and every other config entry is unchanged |
| AuthGates.LoginRequired | PREVIOUSPROJECTATTEMPT/auth/decorators.py:33-35 | the view runs iff the session user is truthy; otherwise redirect to login with next = the request URL |
| AuthGates.DomainDecision | PREVIOUSPROJECTATTEMPT/auth/decorators.py:45-64 | no e-mail redirects to login; the view runs iff an e-mail exists and its lowercase ends with "@" + the allowed domain; an e-mail outside the domain gets 403 with the message naming it; a found e-mail with no settings raises |
| AuthGates.DomainRequired | PREVIOUSPROJECTATTEMPT/auth/decorators.py:43-64 | decides as above and empties the session whenever it redirects or refuses |
| AuthGates.DomainImpliesLogin | PREVIOUSPROJECTATTEMPT/auth/decorators.py:33-56 | whatever domain_required lets through, login_required lets through |
| AuthGates.DomainCaseInsensitive | PREVIOUSPROJECTATTEMPT/auth/decorators.py:55 | an address and its lowercase get the same answer |
| AuthGates.AllowedUserPasses | PREVIOUSPROJECTATTEMPT/auth/decorators.py:45-56 | a user whose preferred_username is in the allowed domain passes |
| AuthRoutes.LoginStep | PREVIOUSPROJECTATTEMPT/auth/routes.py:43-57 | stores the state token and the next target (or the index URL), leaves every other key, and redirects to Microsoft with the scopes and state |
| AuthRoutes.Login | PREVIOUSPROJECTATTEMPT/auth/routes.py:35-57 | the session updates are exactly those of LoginStep |
| AuthRoutes.Callback | PREVIOUSPROJECTATTEMPT/auth/routes.py:61-118 | the step-by-step session updates and reply are exactly the callback sequence |
| AuthRoutes.LogoutStep | PREVIOUSPROJECTATTEMPT/auth/routes.py:129-134 | with settings the session is emptied and the browser goes to the tenant's authority with the index as the return address |
| AuthRoutes.Logout | PREVIOUSPROJECTATTEMPT/auth/routes.py:122-134 | the session update is exactly that of LogoutStep |
| AuthRoutes.BadStateRefused | PREVIOUSPROJECTATTEMPT/auth/routes.py:65-69 | a missing or mismatched state gives 400, an empty session and no token exchange |
| AuthRoutes.ExchangeOnlyAfterChecks | PREVIOUSPROJECTATTEMPT/auth/routes.py:65-87 | a code reaches the token endpoint iff the state check passed, the code is non-empty and settings exist; it is the received code |
| AuthRoutes.RefusalsClearSession | PREVIOUSPROJECTATTEMPT/auth/routes.py:67-107 | every 400 or 403 of the callback leaves an empty session |
| AuthRoutes.OnlySuccessSignsIn | PREVIOUSPROJECTATTEMPT/auth/routes.py:64-118 | any outcome other than the final redirect leaves the session as it was or empty |
| AuthRoutes.SuccessSession | PREVIOUSPROJECTATTEMPT/auth/routes.py:109-118 | success stores the user, removes auth_state and post_login_redirect, keeps the rest, and redirects to the stored target or the index |
| AuthRoutes.SignedInPassesGate | PREVIOUSPROJECTATTEMPT/auth/routes.py:93-114 | a user the callback signs in passes domain_required |
| AuthRoutes.LoginThenCallback | PREVIOUSPROJECTATTEMPT/auth/routes.py:46-118 | the state stored by login passes the callback's check, and a successful callback returns to the target login stored |
| AuthRoutes.LogoutEndsSession | PREVIOUSPROJECTATTEMPT/auth/routes.py:129-134 | after logout both gates send the user to log in |

## Left out

- Azure Blob SDK: clients, `blob_exists`, `download_blob`/`readinto`/`readall` and the byte chunking of `stream_blob`. The container is its list of names; a fetch is an effect that creates the file.
- SAS generation in `get_sas_url`: it reads the clock. The token and the account name are inputs; `None` for the token stands for a failed generation.
- FAISS, embeddings and the LLM (`load_local`, `similarity_search_with_score`, `as_retriever().invoke`, `stream`, `PREVIOUSPROJECTATTEMPT/llm/azure_openai.py`). They are opaque values or function parameters, and a failed load is `None`. Scores are of an opaque type, so `float(score)` is not modelled.
- MSAL: building the client, the authorization URL, the code exchange, and the randomness of `new_state_token`. The state token and the token endpoint's answer are inputs. `AuthorizeAt` and `SignOutAt` carry what those URLs are built from; URL encoding is not modelled.
- Flask plumbing: `url_for` (the index and request URLs are inputs), `redirect`, `Response`, `jsonify` and the JSON text of each NDJSON line. Records and replies are datatype values. `PdfUrl` does not model `url_for`'s percent-encoding.
- The legacy non-streaming `/ask` route. It renders a template from the same catalogue lookup, page normalisation and context as `/ask_stream`, and those parts are modelled.
- The template and sample routes that carry no core logic: `index`, `/domain_expansion`, `/call_api`, `/result`, `inject_user`.
- The `lru_cache` singletons in `PREVIOUSPROJECTATTEMPT/app.py:90-154`, `default_cache_dir`, `mkdir`/`makedirs`, and `pathlib` normalisation. Paths are joined as `os.path.join` joins them.
- Concurrency: the code has no locks, and every operation is modelled sequentially.
- StreamApp.AskStream: the root route searches inside the generator, after the 200 status is sent. The model runs the search before building the reply, so a failure during the search is not modelled.
- LegacyApp.AskStream: the model's answer is a total function of the prompt. A failure of `get_llm().stream(prompt)` inside the generator, after the meta record has gone out with status 200, would cut the stream short; that is not modelled. A `doc_id` that is not a string is not modelled either.
- Malformed request bodies in both `/ask_stream` routes: a JSON body that is not an object makes `data.get` raise (a 500), and is not modelled. In the root route a truthy `doc_id` or `question` that is not a string passes the 400 check and fails later inside the search; the model's fields are strings, so that case is not expressed either.
- AuthConfig.DomainSetting: lowercases ASCII letters only, where Python's `lower()` also folds other alphabets. The same holds for the e-mail comparison in AuthGates.DomainDecision and AuthRoutes.Callback.
- AuthRoutes.Callback: a token error's 400 carries the `error` and `error_description` values themselves, not their f-string rendering.
- LegacyApp.GetDocInfo: visits categories and years in an unspecified order rather than dict insertion order. An id fixes its category and year (its first two segments), so at most one bucket can hold it.
- Unreadable listings and SDK exceptions while building the catalogue or downloading are not modelled; a listing is always complete.
- `PREVIOUSPROJECTATTEMPT/rag/__init__.py` and `PREVIOUSPROJECTATTEMPT/auth/__init__.py` hold docstrings only.
