/** The diagnostic sink, seen only at its boundary: a report is the sequence of
    error messages recorded so far, each optionally attributed to a source span. */
module Diagn {
  import opened Util

  /** An opaque source location: a file handle and a byte range. */
  datatype Span = Span(fileHandle: nat, start: nat, end: nat)

  datatype Message = Message(descr: string, span: Option<Span>)

  /** `Report::error_span`: record `descr` at `span`. */
  function ErrorSpan(report: seq<Message>, descr: string, span: Span): (r: seq<Message>)
    ensures |r| == |report| + 1 && r[..|report|] == report
    ensures r[|report|] == Message(descr, Some(span))
  {
    report + [Message(descr, Some(span))]
  }
}
