/** PREVIOUSPROJECTATTEMPT/app.py: the first generation's routes over the
    document catalogue. Catalogue lookups feed the dropdowns, `serve_pdf`
    streams a PDF behind a path-traversal guard, and `ask_stream` retrieves
    chunks for a question and streams a meta record followed by the model's
    answer. The catalogue, the vector-store manager, the retriever and the
    language model are parameters. */
module LegacyApp {
  import opened Wrappers
  import opened Text
  import opened Ordering
  import opened Grouping
  import opened LocalFs
  import opened DocIndex
  import opened Vectorstores
  import opened Responses
  import PyValues

  /** `vs.as_retriever(k=4)`. */
  const RetrieverK := 4
  const ParagraphBreak := "\n\n"
  const MissingMessage := "Missing doc_id or question"
  const UnknownMessage := "Unknown document"
  const NoContextMessage := "I couldn't find relevant information in this document."

  /** A retrieved LangChain document: its text and its "page" metadata, when
      the key is present. */
  datatype Chunk = Chunk(content: string, page: Option<int>)

  // ---------------------------------------------------------------------------
  // Catalogue lookups

  /** Some bucket of the catalogue holds `d`. */
  predicate IsFiled(idx: Catalog<DocEntry>, d: DocEntry) {
    exists c, y :: c in idx && y in idx[c] && d in idx[c][y]
  }

  /** Some bucket of these years holds an entry with id `docId`. */
  predicate InYears(years: map<string, seq<DocEntry>>, docId: string) {
    exists y, i :: y in years && 0 <= i < |years[y]| && years[y][i].id == docId
  }

  /** Some bucket of the catalogue holds an entry with id `docId`. */
  predicate HasId(idx: Catalog<DocEntry>, docId: string) {
    exists c :: c in idx && InYears(idx[c], docId)
  }

  /** `get_doc_info(doc_id)`: the loops over categories, years and bucket
      entries, returning the first entry whose id is `doc_id`. */
  method GetDocInfo(idx: Catalog<DocEntry>, docId: string) returns (info: Option<DocEntry>)
    ensures info.Some? ==> info.value.id == docId && IsFiled(idx, info.value)
    ensures info.None? <==> !HasId(idx, docId)
  {
    var cats := idx.Keys;
    while cats != {}
      invariant cats <= idx.Keys
      invariant forall c :: c in idx && c !in cats ==> !InYears(idx[c], docId)
      decreases cats
    {
      var c :| c in cats;
      info := FindInYears(idx[c], docId);
      if info.Some? {
        return;
      }
      cats := cats - {c};
    }
    return None;
  }

  /** The two inner loops of `get_doc_info`, over the years of a category. */
  method FindInYears(years: map<string, seq<DocEntry>>, docId: string) returns (info: Option<DocEntry>)
    ensures info.Some? ==> info.value.id == docId && exists y :: y in years && info.value in years[y]
    ensures info.None? <==> !InYears(years, docId)
  {
    var todo := years.Keys;
    while todo != {}
      invariant todo <= years.Keys
      invariant forall y, i :: y in years && y !in todo && 0 <= i < |years[y]| ==> years[y][i].id != docId
      decreases todo
    {
      var y :| y in todo;
      info := FindInBucket(years[y], docId);
      if info.Some? {
        return;
      }
      todo := todo - {y};
    }
    return None;
  }

  /** The innermost loop of `get_doc_info`: the first entry of a bucket with
      id `doc_id`. */
  method FindInBucket(docs: seq<DocEntry>, docId: string) returns (info: Option<DocEntry>)
    ensures info.Some? ==> exists i :: 0 <= i < |docs| && docs[i] == info.value && docs[i].id == docId &&
                                       forall j :: 0 <= j < i ==> docs[j].id != docId
    ensures info.None? <==> forall i :: 0 <= i < |docs| ==> docs[i].id != docId
  {
    for i := 0 to |docs|
      invariant forall j :: 0 <= j < i ==> docs[j].id != docId
    {
      if docs[i].id == docId {
        return Some(docs[i]);
      }
    }
    return None;
  }

  /** Every document the index builder filed is found by `get_doc_info`. */
  lemma IndexedDocIsKnown(names: seq<string>, prefix: string, i: nat)
    requires i < |names| && ParseKey(names[i], prefix).Some?
    ensures HasId(CatalogOf(names, prefix), ParseKey(names[i], prefix).value.entry.id)
  {
    var k := ParseKey(names[i], prefix).value;
    var idx := CatalogOf(names, prefix);
    CatalogComplete(names, prefix, i);
    var b := idx[k.first][k.second];
    var j :| 0 <= j < |b| && b[j] == k.entry;
    assert InYears(idx[k.first], k.entry.id);
  }

  /** `get_categories()`: the catalogue's categories, sorted. */
  function GetCategories(idx: Catalog<DocEntry>): (r: seq<string>)
    ensures StrictlySorted(r)
    ensures forall c :: c in r <==> c in idx
  {
    SortedKeys(idx.Keys)
  }

  /** The `/years` route: [] for a missing, empty or unknown category,
      otherwise the category's years, sorted. */
  function YearsForCategory(idx: Catalog<DocEntry>, category: Option<string>): (r: seq<string>)
    ensures category.None? || category.value == [] || category.value !in idx ==> r == []
    ensures category.Some? && category.value != [] && category.value in idx ==>
              StrictlySorted(r) && forall y :: y in r <==> y in idx[category.value]
  {
    if category.None? || category.value == [] || category.value !in idx then []
    else SortedKeys(idx[category.value].Keys)
  }

  /** A category of a built catalogue always offers at least one year. */
  lemma CatalogCategoryHasYears(names: seq<string>, prefix: string, c: string)
    requires c != [] && c in CatalogOf(names, prefix)
    ensures YearsForCategory(CatalogOf(names, prefix), Some(c)) != []
  {
    var idx := CatalogOf(names, prefix);
    var items := Accepted(names, prefix);
    assert c in Firsts(items);
    var i :| 0 <= i < |items| && items[i].first == c;
    GroupBuckets(items, c, items[i].second);
    assert items[i].second in idx[c];
  }

  /** The `/docs` route: [] when the category or the year is missing or
      empty, or names no bucket; otherwise that bucket. */
  function DocsForYear(idx: Catalog<DocEntry>, category: Option<string>, year: Option<string>): (r: seq<DocEntry>)
    ensures category.None? || category.value == [] || year.None? || year.value == [] ==> r == []
    ensures r != [] ==> category.value in idx && year.value in idx[category.value] &&
                        r == idx[category.value][year.value]
    ensures category.Some? && category.value != [] && year.Some? && year.value != [] &&
            category.value in idx && year.value in idx[category.value] ==>
              r == idx[category.value][year.value]
  {
    if category.None? || category.value == [] || year.None? || year.value == [] then []
    else
      var years := if category.value in idx then idx[category.value] else map[];
      if year.value in years then years[year.value] else []
  }

  // ---------------------------------------------------------------------------
  // Pages and context

  /** The pages of the chunks that carry one, in retrieval order. */
  function PresentPages(chunks: seq<Chunk>): (r: seq<int>)
    ensures forall p :: p in r <==> HasPage(chunks, p)
    decreases |chunks|
  {
    if chunks == [] then []
    else
      var rest := PresentPages(chunks[1..]);
      assert forall p :: HasPage(chunks, p) <==> chunks[0].page == Some(p) || HasPage(chunks[1..], p) by {
        forall p | HasPage(chunks, p) ensures chunks[0].page == Some(p) || HasPage(chunks[1..], p) {
          var i :| 0 <= i < |chunks| && chunks[i].page == Some(p);
          if i > 0 {
            assert chunks[1..][i - 1] == chunks[i];
          }
        }
        forall p | HasPage(chunks[1..], p) ensures HasPage(chunks, p) {
          var i :| 0 <= i < |chunks[1..]| && chunks[1..][i].page == Some(p);
          assert chunks[i + 1].page == Some(p);
        }
        if chunks[0].page.Some? {
          assert HasPage(chunks, chunks[0].page.value);
        }
      }
      (if chunks[0].page.Some? then [chunks[0].page.value] else []) + rest
  }

  predicate HasPage(chunks: seq<Chunk>, p: int) {
    exists i :: 0 <= i < |chunks| && chunks[i].page == Some(p)
  }

  /** Python `min(s)`. */
  function Min(s: seq<int>): (m: int)
    requires s != []
    ensures m in s && forall x :: x in s ==> m <= x
    decreases |s|
  {
    if |s| == 1 then s[0]
    else
      var r := Min(s[1..]);
      assert forall x :: x in s ==> x == s[0] || x in s[1..];
      if s[0] <= r then s[0] else r
  }

  /** The displayed pages and the page the viewer opens at. */
  datatype PageView = PageView(pages: seq<int>, firstPage: int)

  /** The page shift: when the smallest raw page is 0 the pages are taken
      as 0-based and every one is moved up by one; otherwise they are shown
      as they are. The viewer opens at the first displayed page, or 1. */
  function ShiftPages(raw: seq<int>): (v: PageView)
    ensures |v.pages| == |raw|
    ensures StrictlyIncreasing(raw) ==> StrictlyIncreasing(v.pages)
    ensures v.pages != [] ==> v.firstPage == v.pages[0]
    ensures v.pages == [] ==> v.firstPage == 1
  {
    if raw != [] && Min(raw) == 0 then PageView(seq(|raw|, i requires 0 <= i < |raw| => raw[i] + 1), raw[0] + 1)
    else PageView(raw, if raw != [] then raw[0] else 1)
  }

  /** `unique_pages_raw = sorted(set(pages_raw))` followed by the shift. */
  function PageViewOf(chunks: seq<Chunk>): (v: PageView)
    ensures StrictlyIncreasing(v.pages)
    ensures v.pages != [] ==> v.firstPage == v.pages[0]
    ensures v.pages == [] ==> v.firstPage == 1
  {
    ShiftPages(SortedDistinct(PresentPages(chunks)))
  }

  /** The raw pages are 0-based: 0 is among them and none is negative. */
  predicate ZeroBased(chunks: seq<Chunk>) {
    HasPage(chunks, 0) && forall i :: 0 <= i < |chunks| && chunks[i].page.Some? ==> chunks[i].page.value >= 0
  }

  /** The shift happens exactly for 0-based pages, and the displayed pages
      are the pages the chunks carry, moved up by one when shifted. */
  lemma PageViewMembers(chunks: seq<Chunk>)
    ensures var v := PageViewOf(chunks);
            forall p :: p in v.pages <==> HasPage(chunks, if ZeroBased(chunks) then p - 1 else p)
  {
    var raw := SortedDistinct(PresentPages(chunks));
    var v := PageViewOf(chunks);
    var shifted := raw != [] && Min(raw) == 0;
    if shifted {
      assert HasPage(chunks, 0);
      forall i | 0 <= i < |chunks| && chunks[i].page.Some? ensures chunks[i].page.value >= 0 {
        assert HasPage(chunks, chunks[i].page.value);
      }
      forall p ensures p in v.pages <==> p - 1 in raw {
        if p in v.pages {
          var i :| 0 <= i < |v.pages| && v.pages[i] == p;
          assert raw[i] == p - 1;
        }
        if p - 1 in raw {
          var i :| 0 <= i < |raw| && raw[i] == p - 1;
          assert v.pages[i] == p;
        }
      }
    }
  }

  /** With non-negative pages and a page 0 among them, every displayed page
      is at least 1 and the viewer opens at page 1. */
  lemma ShiftedPagesPositive(chunks: seq<Chunk>)
    requires ZeroBased(chunks)
    ensures forall p :: p in PageViewOf(chunks).pages ==> p >= 1
    ensures PageViewOf(chunks).firstPage == 1
  {
    PageViewMembers(chunks);
    var v := PageViewOf(chunks);
    forall p | p in v.pages ensures p >= 1 {
      var i :| 0 <= i < |chunks| && chunks[i].page == Some(p - 1);
    }
    assert 1 in v.pages;
    assert v.firstPage == v.pages[0];
  }

  function Contents(chunks: seq<Chunk>): (r: seq<string>)
    ensures |r| == |chunks| && forall i :: 0 <= i < |chunks| ==> r[i] == chunks[i].content
  {
    seq(|chunks|, i requires 0 <= i < |chunks| => chunks[i].content)
  }

  /** `"\n\n".join(d.page_content for d in docs)`. */
  function Context(chunks: seq<Chunk>): string {
    Join(Contents(chunks), ParagraphBreak)
  }

  /** Each chunk's text appears in the context at its place, and chunks
      appear in retrieval order, a paragraph break apart at least. */
  lemma ContextHoldsChunks(chunks: seq<Chunk>, i: nat, j: nat)
    requires i < j < |chunks|
    ensures OccursAt(Context(chunks), chunks[i].content, Offset(Contents(chunks), ParagraphBreak, i))
    ensures OccursAt(Context(chunks), chunks[j].content, Offset(Contents(chunks), ParagraphBreak, j))
    ensures Offset(Contents(chunks), ParagraphBreak, i) + |chunks[i].content| + 2 <= Offset(Contents(chunks), ParagraphBreak, j)
  {
    JoinHoldsPart(Contents(chunks), ParagraphBreak, i);
    JoinHoldsPart(Contents(chunks), ParagraphBreak, j);
    JoinPartsInOrder(Contents(chunks), ParagraphBreak, i, j);
  }

  const PromptHead :=
    "\nYou are an assistant answering questions about engineering / construction codes.\n\n"
    + "Use ONLY the information in the context below.\n"
    + "If the answer is not clearly contained in the context, say you don't know.\n\n"
    + "Context:\n"
  const QuestionHead := "\n\nQuestion:\n"

  /** The RAG prompt sent to the model. */
  function Prompt(context: string, question: string): string {
    PromptHead + context + QuestionHead + question + "\n"
  }

  /** The prompt carries the context after the instructions and the question
      after the context, and ends with a newline. */
  lemma PromptHolds(context: string, question: string)
    ensures OccursAt(Prompt(context, question), context, |PromptHead|)
    ensures OccursAt(Prompt(context, question), question, |PromptHead| + |context| + |QuestionHead|)
    ensures StartsWith(Prompt(context, question), PromptHead)
    ensures EndsWith(Prompt(context, question), question + "\n")
  {
    var p := Prompt(context, question);
    var a := PromptHead + context;
    var b := a + QuestionHead;
    assert p == b + question + "\n";
    assert p[|PromptHead|..|a|] == context;
    assert p[|b|..|b| + |question|] == question;
    assert p[..|PromptHead|] == PromptHead;
    assert p[|p| - |question + "\n"|..] == question + "\n";
  }

  // ---------------------------------------------------------------------------
  // serve_pdf

  /** `doc_path.replace("\\", "/")`. */
  function NormalizePdfPath(docPath: string): string {
    Replace(docPath, "\\", "/")
  }

  /** The traversal guard: ".." anywhere, or a leading "/". */
  predicate UnsafePdfPath(norm: string) {
    Contains(norm, "..") || StartsWith(norm, "/")
  }

  /** `f"{pdf_prefix}/{norm}".replace("//", "/")`. */
  function PdfBlobName(pdfPrefix: string, norm: string): string {
    Replace(pdfPrefix + "/" + norm, "//", "/")
  }

  datatype PdfReply =
    | PdfRejected                    // 400 "Invalid PDF path."
    | PdfMissing(docPath: string)    // 404 "PDF not found: <doc_path>"
    | PdfStreamed(blobName: string)  // 200, the blob's bytes

  /** The `/pdf/<path:doc_path>` route over the container's blob names: a
      path the guard refuses is rejected, otherwise the blob under the PDF
      prefix is streamed when it exists. */
  function ServePdf(docPath: string, pdfPrefix: string, container: seq<string>): (r: PdfReply)
    ensures r == PdfRejected <==> UnsafePdfPath(NormalizePdfPath(docPath))
    ensures r.PdfStreamed? ==> r.blobName in container &&
                               r.blobName == PdfBlobName(pdfPrefix, NormalizePdfPath(docPath))
    ensures r.PdfMissing? ==> r.docPath == docPath &&
                              PdfBlobName(pdfPrefix, NormalizePdfPath(docPath)) !in container
  {
    var norm := NormalizePdfPath(docPath);
    if UnsafePdfPath(norm) then PdfRejected
    else
      var blobName := PdfBlobName(pdfPrefix, norm);
      if blobName !in container then PdfMissing(docPath) else PdfStreamed(blobName)
  }

  /** The guard decides before the store is consulted: a refused path gets
      the same answer whatever the container holds. */
  lemma GuardPrecedesStore(docPath: string, pdfPrefix: string, c1: seq<string>, c2: seq<string>)
    requires UnsafePdfPath(NormalizePdfPath(docPath))
    ensures ServePdf(docPath, pdfPrefix, c1) == ServePdf(docPath, pdfPrefix, c2) == PdfRejected
  {
  }

  /** Backslashes cannot smuggle a traversal past the guard: "..\\x" is
      refused like "../x". */
  lemma BackslashTraversalRefused()
    ensures ServePdf("..\\x", "pdfs", []) == PdfRejected
  {
    assert Contains(Replace("..\\x", "\\", "/"), "..") by {
      assert Replace("x", "\\", "/") == "x";
      assert Replace("\\x", "\\", "/") == "/x";
      assert Replace(".\\x", "\\", "/") == "./x";
      assert Replace("..\\x", "\\", "/") == "../x";
      assert ".." <= "../x";
    }
  }

  /** An accepted path whose joined name has no "//" is looked up under the
      prefix unchanged. */
  lemma PdfBlobNameDirect(pdfPrefix: string, norm: string)
    requires !Contains(pdfPrefix + "/" + norm, "//")
    ensures PdfBlobName(pdfPrefix, norm) == pdfPrefix + "/" + norm
  {
    ReplaceAbsent(pdfPrefix + "/" + norm, "//", "/");
  }

  /** The "//" collapse is a single non-overlapping pass: a run of three
      slashes in an accepted path still leaves "//" in the blob name. */
  lemma TripleSlashSurvives()
    ensures !UnsafePdfPath("a///b")
    ensures PdfBlobName("p", "a///b") == "p/a//b"
  {
    assert !Contains("a///b", "..") by {
      assert !Contains("b", "..");
      assert !Contains("/b", "..");
      assert !Contains("//b", "..");
      assert !Contains("///b", "..");
    }
    assert "p" + "/" + "a///b" == "p/a///b";
    assert Replace("p/a///b", "//", "/") == "p/a//b" by {
      assert Replace("b", "//", "/") == "b";
      assert Replace("/b", "//", "/") == "/b";
      assert Replace("///b", "//", "/") == "//b";
      assert Replace("a///b", "//", "/") == "a//b";
      assert Replace("/a///b", "//", "/") == "/a//b";
    }
  }

  // ---------------------------------------------------------------------------
  // ask_stream

  /** `url_for("serve_pdf", doc_path=pdf_rel_path)`. */
  function PdfUrl(info: DocEntry): string {
    "/pdf/" + info.pdfRelPath
  }

  /** One token record per non-empty piece of the model's stream, in order. */
  function TokensOf(pieces: seq<string>): (r: seq<Record>)
    ensures forall t :: t in r ==> t.Token? && t.content != []
    ensures |r| <= |pieces|
    decreases |pieces|
  {
    if pieces == [] then []
    else
      var last := pieces[|pieces| - 1];
      TokensOf(pieces[..|pieces| - 1]) + (if last != [] then [Token(last)] else [])
  }

  lemma TokensOfSnoc(pieces: seq<string>, i: nat)
    requires i < |pieces|
    ensures TokensOf(pieces[..i + 1]) == TokensOf(pieces[..i]) + (if pieces[i] != [] then [Token(pieces[i])] else [])
  {
    assert pieces[..i + 1][..i] == pieces[..i];
  }

  /** Dropping the empty pieces loses no text: the tokens add up to the
      model's whole answer. */
  lemma {:induction false} TokensKeepText(pieces: seq<string>)
    ensures TokenText(TokensOf(pieces)) == Concat(pieces)
    decreases |pieces|
  {
    if pieces != [] {
      var init := pieces[..|pieces| - 1];
      var last := pieces[|pieces| - 1];
      TokensKeepText(init);
      var rs := TokensOf(init);
      if last != [] {
        assert (rs + [Token(last)])[..|rs|] == rs;
      } else {
        assert rs + [] == rs;
      }
    }
  }

  /** The records `ask_stream` streams for a known document: with no chunks,
      meta with no pages and first page 1 and the fixed message; otherwise
      meta with the page view, then the model's answer to the prompt. */
  function AnswerRecords(info: DocEntry, question: string, docs: seq<Chunk>, llm: string -> seq<string>): (r: seq<Record>)
    ensures |r| >= 1 && r[0].Meta? && r[0].pdfUrl == Some(PdfUrl(info)) && r[0].docLabel == info.docLabel
    ensures docs == [] ==> r == [Meta([], Some(PdfUrl(info)), Some(1), info.docLabel), Token(NoContextMessage)]
    ensures docs != [] ==> r[0].pages == PageViewOf(docs).pages && r[0].firstPage == Some(PageViewOf(docs).firstPage)
    ensures docs != [] ==> r[1..] == TokensOf(llm(Prompt(Context(docs), question)))
    ensures forall t :: t in r[1..] ==> t.Token?
  {
    if docs == [] then [Meta([], Some(PdfUrl(info)), Some(1), info.docLabel), Token(NoContextMessage)]
    else
      var v := PageViewOf(docs);
      [Meta(v.pages, Some(PdfUrl(info)), Some(v.firstPage), info.docLabel)] + TokensOf(llm(Prompt(Context(docs), question)))
  }

  /** `generate()`: the meta record, then a token per non-empty piece. */
  method Generate(meta: Record, pieces: seq<string>) returns (records: seq<Record>)
    ensures records == [meta] + TokensOf(pieces)
  {
    records := [meta];
    for i := 0 to |pieces|
      invariant records == [meta] + TokensOf(pieces[..i])
    {
      TokensOfSnoc(pieces, i);
      if pieces[i] != [] {
        records := records + [Token(pieces[i])];
      }
    }
    assert pieces[..|pieces|] == pieces;
  }

  /** `data.get("question", "").strip()`: the stripped text, "" when the
      field is absent, and None where the source raises (and answers 500)
      because the field holds something other than a string. */
  function StrippedQuestion(question: Option<PyValues.Value>): Option<string> {
    if question.None? then Some([])
    else if question.value.Str? then Some(Strip(question.value.s, Whitespace))
    else None
  }

  /** The request fields are usable: a non-empty doc_id and a non-empty
      stripped question. */
  predicate ValidRequest(docId: Option<string>, q: string) {
    docId.Some? && docId.value != [] && q != []
  }

  /** The `/ask_stream` route. The question is stripped first (a question
      that is not a string raises), the fields are checked, the id is looked
      up, and only then is the vector store fetched and queried; a failed
      index load escapes as a server error. A loaded index is memoised. */
  method AskStream<V>(idx: Catalog<DocEntry>, manager: VectorstoreManager<V>, disk: Disk,
                      docId: Option<string>, question: Option<PyValues.Value>,
                      load: (string, Disk) -> Option<V>, retrieve: (V, string, int) -> seq<Chunk>,
                      llm: string -> seq<string>)
    returns (reply: Reply, disk': Disk, trace: seq<Effect>)
    modifies manager
    ensures StrippedQuestion(question).None? ==>
              reply == ServerError && disk' == disk && trace == [] &&
              manager.memCache == old(manager.memCache)
    ensures StrippedQuestion(question).Some? && !ValidRequest(docId, StrippedQuestion(question).value) ==>
              reply == BadRequest(MissingMessage) && disk' == disk && trace == [] &&
              manager.memCache == old(manager.memCache)
    ensures StrippedQuestion(question).Some? && ValidRequest(docId, StrippedQuestion(question).value) &&
            !HasId(idx, docId.value) ==>
              reply == BadRequest(UnknownMessage) && disk' == disk && trace == [] &&
              manager.memCache == old(manager.memCache)
    ensures StrippedQuestion(question).Some? && ValidRequest(docId, StrippedQuestion(question).value) &&
            HasId(idx, docId.value) ==>
              var q := StrippedQuestion(question).value;
              var l := old(manager.Resolve(docId.value, disk, load));
              && disk' == l.disk && trace == l.trace
              && manager.memCache == (if l.vs.Some? then old(manager.memCache)[docId.value := l.vs.value]
                                      else old(manager.memCache))
              && (l.vs.None? ==> reply == ServerError)
              && (l.vs.Some? ==> exists info :: IsFiled(idx, info) && info.id == docId.value &&
                                   reply == Stream(AnswerRecords(info, q, retrieve(l.vs.value, q, RetrieverK), llm)))
  {
    var stripped := StrippedQuestion(question);
    if stripped.None? {
      return ServerError, disk, [];
    }
    var q := stripped.value;
    if docId.None? || docId.value == [] || q == [] {
      return BadRequest(MissingMessage), disk, [];
    }
    var info := GetDocInfo(idx, docId.value);
    if info.None? {
      return BadRequest(UnknownMessage), disk, [];
    }
    var vs;
    vs, disk', trace := manager.GetVectorstore(docId.value, disk, load);
    if vs.None? {
      return ServerError, disk', trace;
    }
    var docs := retrieve(vs.value, q, RetrieverK);
    var d := info.value;
    if docs == [] {
      reply := Stream([Meta([], Some(PdfUrl(d)), Some(1), d.docLabel), Token(NoContextMessage)]);
      return;
    }
    var view := PageViewOf(docs);
    var records := Generate(Meta(view.pages, Some(PdfUrl(d)), Some(view.firstPage), d.docLabel),
                            llm(Prompt(Context(docs), q)));
    reply := Stream(records);
  }
}
