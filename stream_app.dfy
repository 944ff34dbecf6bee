/** app.py: the root generation's `/ask_stream` route. The request is
    checked, the document's vector store is searched, and the results are
    streamed as a meta record, a count line and one snippet per result. The
    search's collaborators and the SAS settings are parameters. */
module StreamApp {
  import opened Wrappers
  import opened Text
  import opened Ordering
  import opened LocalFs
  import opened Responses
  import opened SearchService

  const MissingMessage := "Missing doc_id or question"
  const NoResultsMessage := "No relevant information found."

  /** `doc_id.split('/')[-1]`. */
  function DocLabel(docId: string): (segment: string)
    ensures '/' !in segment
  {
    var parts := Split(docId, '/');
    assert parts[|parts| - 1] in parts;
    parts[|parts| - 1]
  }

  /** The label is the text after the last '/', or the whole id when it has
      none. */
  lemma DocLabelIsLastSegment(docId: string)
    ensures EndsWith(docId, DocLabel(docId))
    ensures '/' in docId ==> EndsWith(docId, "/" + DocLabel(docId))
    ensures '/' !in docId ==> DocLabel(docId) == docId
  {
    var parts := Split(docId, '/');
    var last := DocLabel(docId);
    JoinSplit(docId, '/');
    if |parts| >= 2 {
      JoinEndsWithLast(parts, "/");
      var n := |docId|;
      assert docId[n - |last| - 1..] == "/" + last;
      assert docId[n - |last|..] == docId[n - |last| - 1..][1..];
      assert docId[n - |last| - 1] == '/';
    } else {
      assert Join(parts, "/") == parts[0];
    }
  }

  /** `f"Found {len(results)} relevant snippets:\n\n"`. */
  function CountLine(n: nat): string {
    "Found " + NatToDecimal(n) + " relevant snippets:\n\n"
  }

  /** The count line carries the result count in decimal, right after
      "Found ", and it reads back as that count. */
  lemma CountLineNumber(n: nat)
    ensures OccursAt(CountLine(n), NatToDecimal(n), 6)
    ensures DecimalValue(NatToDecimal(n)) == n
  {
    var d := NatToDecimal(n);
    assert CountLine(n)[6..6 + |d|] == d;
    DecimalRoundTrip(n);
  }

  /** `f"**Page {res['page']}**:\n{res['content']}\n\n"`. */
  function Snippet<S>(r: SearchResult<S>): string {
    "**Page " + IntToDecimal(r.page) + "**:\n" + r.content + "\n\n"
  }

  /** A snippet shows the result's content whole, after its page header. */
  lemma SnippetHoldsContent<S>(r: SearchResult<S>)
    ensures OccursAt(Snippet(r), r.content, |IntToDecimal(r.page)| + 11)
    ensures StartsWith(Snippet(r), "**Page " + IntToDecimal(r.page) + "**:\n")
  {
    var head := "**Page " + IntToDecimal(r.page) + "**:\n";
    assert |head| == |IntToDecimal(r.page)| + 11;
    assert Snippet(r) == head + r.content + "\n\n";
    assert Snippet(r)[|head|..|head| + |r.content|] == r.content;
  }

  /** One snippet token per result, in order. */
  function SnippetTokens<S>(results: seq<SearchResult<S>>): (r: seq<Record>)
    ensures |r| == |results|
    ensures forall i :: 0 <= i < |results| ==> r[i] == Token(Snippet(results[i]))
    decreases |results|
  {
    if results == [] then []
    else SnippetTokens(results[..|results| - 1]) + [Token(Snippet(results[|results| - 1]))]
  }

  lemma SnippetTokensSnoc<S>(results: seq<SearchResult<S>>, i: nat)
    requires i < |results|
    ensures SnippetTokens(results[..i + 1]) == SnippetTokens(results[..i]) + [Token(Snippet(results[i]))]
  {
    assert results[..i + 1][..i] == results[..i];
  }

  function ResultPages<S>(results: seq<SearchResult<S>>): (pages: seq<int>)
    ensures |pages| == |results| && forall i :: 0 <= i < |results| ==> pages[i] == results[i].page
  {
    seq(|results|, i requires 0 <= i < |results| => results[i].page)
  }

  /** The records `generate()` streams for the search results. No results:
      the single fixed token and no meta. Otherwise N + 2 records: meta with
      the distinct result pages in increasing order, the URL and the label
      (no first page), then the count line, then one snippet per result in
      result order. */
  function StreamRecords<S>(docId: string, results: seq<SearchResult<S>>, pdfUrl: Option<string>): (r: seq<Record>)
    ensures results == [] ==> r == [Token(NoResultsMessage)]
    ensures results != [] ==>
              && |r| == |results| + 2
              && r[0].Meta? && r[0] == Meta(r[0].pages, pdfUrl, None, DocLabel(docId))
              && StrictlyIncreasing(r[0].pages)
              && (forall p :: p in r[0].pages <==> exists i :: 0 <= i < |results| && results[i].page == p)
              && r[1] == Token(CountLine(|results|))
              && forall i :: 0 <= i < |results| ==> r[i + 2] == Token(Snippet(results[i]))
  {
    if results == [] then [Token(NoResultsMessage)]
    else
      var pages := ResultPages(results);
      assert forall p :: p in pages <==> exists i :: 0 <= i < |results| && results[i].page == p by {
        forall p | p in pages ensures exists i :: 0 <= i < |results| && results[i].page == p {
          var i :| 0 <= i < |pages| && pages[i] == p;
        }
        forall i | 0 <= i < |results| ensures results[i].page in pages {
          assert pages[i] == results[i].page;
        }
      }
      [Meta(SortedDistinct(pages), pdfUrl, None, DocLabel(docId)), Token(CountLine(|results|))] + SnippetTokens(results)
  }

  /** `generate()` once the search has run: the fixed token when there are
      no results, otherwise meta, the count line and a loop over the
      results. */
  method Generate<S>(docId: string, results: seq<SearchResult<S>>, pdfUrl: Option<string>) returns (records: seq<Record>)
    ensures records == StreamRecords(docId, results, pdfUrl)
  {
    if results == [] {
      return [Token(NoResultsMessage)];
    }
    var pages := SortedDistinct(ResultPages(results));
    var head := [Meta(pages, pdfUrl, None, DocLabel(docId)), Token(CountLine(|results|))];
    records := head;
    for i := 0 to |results|
      invariant records == head + SnippetTokens(results[..i])
    {
      SnippetTokensSnoc(results, i);
      records := records + [Token(Snippet(results[i]))];
    }
    assert results[..|results|] == results;
  }

  /** The request fields are usable: both present and non-empty (the
      question is not stripped here). */
  predicate ValidRequest(docId: Option<string>, question: Option<string>) {
    docId.Some? && docId.value != [] && question.Some? && question.value != []
  }

  /** The `/ask_stream` route: a 400 before any search for an unusable
      request; otherwise the stream for the results of searching the
      document with k = 5, with the document's SAS URL in meta. */
  method AskStream<V, S>(container: seq<string>, disk: Disk, docId: Option<string>, question: Option<string>,
                         load: (string, Disk) -> Option<V>, similarity: (V, string, int) -> seq<Hit<S>>,
                         connectStr: Option<string>, accountName: string, sasToken: Option<string>)
    returns (reply: Reply, disk': Disk, trace: seq<Effect>)
    ensures !ValidRequest(docId, question) ==> reply == BadRequest(MissingMessage) && disk' == disk && trace == []
    ensures ValidRequest(docId, question) ==>
              var o := SearchOutcome(container, disk, docId.value, question.value, DefaultK, load, similarity);
              && disk' == o.disk && trace == o.trace
              && reply == Stream(StreamRecords(docId.value, o.results,
                                               GetDocumentUrl(connectStr, accountName, docId.value, sasToken)))
  {
    if docId.None? || docId.value == [] || question.None? || question.value == [] {
      return BadRequest(MissingMessage), disk, [];
    }
    var results;
    results, disk', trace := Search(container, disk, docId.value, question.value, DefaultK, load, similarity);
    var pdfUrl := GetDocumentUrl(connectStr, accountName, docId.value, sasToken);
    var records := Generate(docId.value, results, pdfUrl);
    reply := Stream(records);
  }
}
