/** What the routes hand back, in place of Flask responses: an error status
    with its message, or a stream of NDJSON records (each record one
    `json.dumps(...) + "\n"` line, kept as a value). */
module Responses {
  import opened Wrappers

  /** One NDJSON record. `meta` carries the page list, the PDF URL (None is
      JSON null), the viewer's first page where the route sends one, and
      the label; `token` carries a piece of the answer. */
  datatype Record =
    | Meta(pages: seq<int>, pdfUrl: Option<string>, firstPage: Option<int>, docLabel: string)
    | Token(content: string)

  datatype Reply =
    | BadRequest(message: string)   // status 400
    | Forbidden(message: string)    // status 403
    | NotFound(message: string)     // status 404
    | ServerError                   // an exception escaping the view: status 500
    | Stream(records: seq<Record>)  // status 200, application/x-ndjson

  /** The text the token records of a stream add up to. */
  function TokenText(records: seq<Record>): string
    decreases |records|
  {
    if records == [] then []
    else
      var last := records[|records| - 1];
      TokenText(records[..|records| - 1]) + (if last.Token? then last.content else [])
  }
}
