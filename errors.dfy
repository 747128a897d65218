/** The error values the HTTP/1.1 framing code can return, and the two wrappers it returns them in. */
module Errors {

  datatype Option<+T> = None | Some(value: T)

  /** The errors of the parser, the reader and the writer; one constructor per distinct failure. */
  datatype Error =
    | MalformedHeader          // a field line with no ':'
    | InvalidHeaderToken       // a field name that is not an RFC 9110 token
    | InvalidRequestLineParts  // a request-line that does not split into exactly three parts
    | InvalidMethod            // a method with a lower-case letter
    | InvalidVersionFormat     // a version token without exactly one '/'
    | InvalidVersion           // a version other than 1.1
    | InvalidContentLength     // a content-length that is not a non-negative 64-bit integer
    | DoneState                // parsing attempted after the request is complete
    | IncompleteRequest        // end of input before the request is complete
    | ReadFailure              // the byte source failed
    | WriteFailure             // the output sink failed

  datatype Result<+T> = Ok(value: T) | Err(error: Error)
}
