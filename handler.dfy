/**
 * internal/server/handler.go: the error response a handler sends, with its status code
 * and message, as a status-line, the default header map and the message as the body.
 */
module Server {
  import opened Errors
  import opened Bytes
  import opened Numbers
  import opened Headers
  import opened Response
  import opened Framing
  import Request

  datatype HandlerError = HandlerError(statusCode: StatusCode, message: Bytes)

  const TextPlain: Bytes := Ascii("text/plain")

  /** The header map of the error response: the defaults for the message and "text/plain". */
  function ErrorFields(e: HandlerError): Fields {
    DefaultFields(|e.message|, TextPlain)
  }

  /** The bytes of the error response when the header block is written in the order `order`. */
  function ErrorResponse(e: HandlerError, order: seq<Bytes>): Bytes
    requires forall k | k in order :: k in ErrorFields(e)
  {
    StatusLine(e.statusCode) + HeaderBlock(ErrorFields(e), order) + e.message
  }

  /**
   * WriteErrorResponse: the status-line, the header block and the body, each sent only
   * if everything before it was; the first failure is returned at once.
   */
  method WriteErrorResponse(w: Writer, e: HandlerError) returns (err: Option<Error>, ghost order: seq<Bytes>)
    modifies w
    ensures Distinct(order) && forall k | k in order :: k in ErrorFields(e)
    ensures err.None? ==> IsEnumeration(order, ErrorFields(e))
    ensures Outcome(old(w.sink), w.sink, old(w.log), w.log, ErrorResponse(e, order), err, 6)
  {
    ghost var sink0, log0 := w.sink, w.log;
    var fields := DefaultFields(|e.message|, TextPlain);
    ghost var head := StatusLine(e.statusCode);
    err := w.WriteStatusLine(e.statusCode);
    OneWrite(log0, w.log, err.None?);
    order := [];
    if err.Some? {
      ErrorResponseStart(e);
      SentPrefix(sink0, w.sink, head, false, CRLF + e.message);
      return;
    }
    SentAll(sink0, w.sink, head);
    DefaultFieldsSize(|e.message|, TextPlain);
    err, order := WriteFieldsAndBody(w, fields, e.message, head, sink0, log0);
    assert head + HeaderBlock(fields, order) + e.message == ErrorResponse(e, order);
  }

  /** The three parts of `r`, cut where they meet. */
  lemma ThreeParts(a: Bytes, b: Bytes, c: Bytes, r: Bytes)
    requires r == a + b + c
    ensures r[..|a|] == a && r[|a|..] == b + c && r[|a| + |b|..] == c
  {
    assert r == a + (b + c);
  }

  /** The content type of an error response reads back unchanged. */
  lemma TextPlainIsPlain()
    ensures PlainValue(TextPlain)
  {
    assert Visible("text/plain");
    VisiblePlain("text/plain");
  }

  /** Before any field line: the status-line, the CRLF that ends an empty block, the body. */
  lemma ErrorResponseStart(e: HandlerError)
    ensures ErrorResponse(e, []) == StatusLine(e.statusCode) + (CRLF + e.message)
  {
  }

  /** The rest of WriteErrorResponse once the status-line `head` has gone out. */
  method WriteFieldsAndBody(w: Writer, fields: Fields, message: Bytes,
                            ghost head: Bytes, ghost sink0: Bytes, ghost log0: seq<bool>)
    returns (err: Option<Error>, ghost order: seq<Bytes>)
    requires w.sink == sink0 + head && Succeeded(log0, w.log, 1) && |fields| == 3
    modifies w
    ensures Distinct(order) && forall k | k in order :: k in fields
    ensures err.None? ==> IsEnumeration(order, fields)
    ensures Outcome(sink0, w.sink, log0, w.log, head + HeaderBlock(fields, order) + message, err, 6)
  {
    ghost var log1, sink1 := w.log, w.sink;
    err, order := w.WriteHeaders(fields);
    ghost var block := HeaderBlock(fields, order);
    Continued(sink0, head, sink1, w.sink, block, err.None?, message, log0, log1, w.log, 1, 4);
    if err.Some? {
      return;
    }
    ghost var log2, sink2 := w.log, w.sink;
    var _, bodyErr := w.WriteBody(message);
    OneWrite(log2, w.log, bodyErr.None?);
    Continued(sink0, head + block, sink2, w.sink, message, bodyErr.None?, [], log0, log2, w.log, 5, 1);
    assert head + block + message + [] == head + block + message;
    if bodyErr.None? {
      SentWhole(sink0, head + block + message);
    }
    err := bodyErr;
  }

  /**
   * What a reader of the error response finds: the status-line for the code, then a
   * header block that the header parser reads back as the default map, whose
   * Content-Length is exactly the number of bytes that follow it, the message.
   */
  lemma ErrorResponseFraming(e: HandlerError, order: seq<Bytes>)
    requires IsEnumeration(order, ErrorFields(e)) && |e.message| <= MaxInt64
    ensures var r, s, n := ErrorResponse(e, order), StatusLine(e.statusCode), |HeaderBlock(ErrorFields(e), order)|;
      |s| + n <= |r| && r[..|s|] == s
      && ParseBlock(map[], r[|s|..]) == BlockDone(ErrorFields(e), n)
      && Request.ContentLength(ErrorFields(e)) == Some(|e.message|)
      && r[|s| + n..] == e.message
  {
    var s, block := StatusLine(e.statusCode), HeaderBlock(ErrorFields(e), order);
    var r, data := ErrorResponse(e, order), block + e.message;
    ThreeParts(s, block, e.message, r);
    TextPlainIsPlain();
    DefaultBlockFraming(|e.message|, TextPlain, order, e.message, data, block);
  }

  /**
   * The request parser, once past a request-line, reads everything after the error
   * response's status-line as a complete request: the default map and the message as
   * its body, consuming all of it.
   */
  lemma ErrorResponseReadsBack(e: HandlerError, order: seq<Bytes>)
    requires IsEnumeration(order, ErrorFields(e)) && |e.message| <= MaxInt64
    ensures var r, s := ErrorResponse(e, order), StatusLine(e.statusCode);
      var start := Request.Initial.(state := Request.ParsingHeaders);
      |s| <= |r| && Request.Run(start, r[|s|..])
        == Request.StepResult(|r| - |s|, None,
                              start.(state := Request.Done, fields := ErrorFields(e), body := e.message))
  {
    var s, block := StatusLine(e.statusCode), HeaderBlock(ErrorFields(e), order);
    ThreeParts(s, block, e.message, ErrorResponse(e, order));
    TextPlainIsPlain();
    DefaultFieldsTransmissible(|e.message|, TextPlain);
    DefaultContentLength(|e.message|, TextPlain);
    RequestReadsHeaderBlock(Request.Initial.(state := Request.ParsingHeaders), ErrorFields(e), order, e.message);
  }
}
