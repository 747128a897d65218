# HTTP/1.1 framing over a byte stream, in Dafny

This project models the protocol core of `httpfromtcp`, an HTTP/1.1 server written
directly on top of TCP, and proves properties of the model. The core has four parts:

- **Header map** (`internal/headers/headers.go`, module `Headers`). A map from lower-cased
  field names to values. `Set` appends a repeated name's value after a comma. `Parse`
  reads one CRLF-terminated field line at a time from the front of a buffer.
- **Request parser** (`internal/request/request.go`, module `Request`). A state machine
  that moves from `Initialized` to `ParsingHeaders`, then `ParsingBody`, then `Done`.
  `parseSingle` is one step and `parse` runs the steps over a buffer.
  `RequestFromReader` reads an `io.Reader` into a growing buffer. It starts at 8 bytes
  and doubles when full. It shifts out what was parsed, until the request is done.
- **Response writer** (`internal/response`, module `Response`). This covers the
  status-line, the default header map and header blocks. It also covers the chunked
  transfer coding of section 7.1 of RFC 9112 and the trailers.
- **Error response** (`internal/server/handler.go`, module `Server`). `WriteErrorResponse`
  writes status-line, default headers and message, and stops at the first failed write.

Helper modules:

- `Errors` holds the error values and `Option`/`Result`.
- `Bytes` models the pieces of Go's `bytes`/`strings` packages the core calls, over
  bytes: `Index` of CRLF, `TrimSpace`, `Split`, `SplitN(…, 2)`, `ToLower`, `ToUpper`.
- `Numbers` models `strconv.Itoa`/`Atoi` and `%d`/`%X`.
- `Stream` is a scripted `io.Reader`.

Cross-component round trips live in three more modules:

- `Framing` shows that the writer's header block reads back through the header parser.
  It also shows that the Content-Length a response announces is the length of the bytes
  after its header block.
- `Chunked` holds a decoder for the chunked coding. That decoder is the reference the
  chunked writes are measured against.
- `HeaderExamples` states each case of `headers_test.go` as a lemma about `Parse`.

Objects that the Go code updates in place are classes. `Headers.Headers` holds a `fields`
map. `Request.Request` has a state, a request-line, a `Headers` object and a body.
`Response.Writer` has the bytes sent so far and a ghost log of the outcome of each write
call. `Stream.Reader` holds the events still to be delivered. Each method's contract ties
its new state to a pure function of the old one:

- `Headers.Parse` matches `ParseEffect`.
- `Request.ParseSingle` matches `Step`.
- `Request.Parse` matches `Run`.
- `RequestFromReader` matches `Reference`. That function runs the parser over everything
  the reader delivers.

The lemmas are then proved about those functions.

Behaviour of the code worth noting:

- The version token must be one slash-free name, a `/`, then `1.1`. The name itself is
  not checked, so `FOO/1.1` is accepted, while `A/B/1.1` is rejected as a bad version
  format. `RequestLineComplete` is stated for every such name.
- Request-line parts may be empty. For example, `GET  HTTP/1.1` has an empty target.
- `WriteChunkedBodyDone` sends `0\r\n` and `WriteTrailers` sends a full header block with
  its closing CRLF. Together they are the last-chunk, trailer section and final CRLF of
  section 7.1 of RFC 9112 (`Chunked.ChunkedRoundTrip`). The last-chunk alone leaves the
  body unterminated (`Chunked.LastChunkAloneIncomplete`).

## Model

| member | source | states |
|---|---|---|
| Headers.IsTokenChar | internal/headers/headers.go:77-90 | defines isTokenChar: an ASCII letter, a digit, or one of the fifteen listed symbols |
| Headers.ValidToken | internal/headers/headers.go:92-99 | defines validToken: every byte is a token character, so the empty name passes |
| Headers.TokenCharIsNotDelimiter | internal/headers/headers.go:77-99 | a token character is never white space, ':', ';' or CR |
| Headers.SetValue | internal/headers/headers.go:63-70 | Set adds exactly the lower-cased key; an existing value gets ",value" appended with no space, a new key gets the value; every other key is unchanged; lower-case keys stay lower-case |
| Headers.Lookup | internal/headers/headers.go:72-75 | defines Get on a map: the value under the lower-cased key, or the empty string when it is absent |
| Headers.Headers.Get | internal/headers/headers.go:72-75 | Get on the object is Lookup on its map |
| Headers.LookupIgnoresCase | internal/headers/headers.go:72-75 | Get gives the same answer for two names that differ only in letter case |
| Headers.LookupAfterSet | internal/headers/headers.go:63-75 | after Set(key, v), Get under any spelling of key is the old value + "," + v, or v when the key was absent |
| Headers.LookupOtherAfterSet | internal/headers/headers.go:63-75 | Set(key, v) does not change Get for any name that is not a spelling of key |
| Headers.SetAll | internal/headers/headers.go:52-58 | setting a list of values adds the lower-cased key only if the list is non-empty and changes no other key |
| Headers.SetAllLookup | internal/headers/headers.go:52-70 | after setting values v1..vn under a key, Get returns the old value (if any) and then v1..vn, all joined by commas |
| Headers.SetAllAppend | internal/headers/headers.go:52-58 | setting list a then list b under a key is the same as setting a followed by b |
| Headers.ValuesTrimmed | internal/headers/headers.go:52-56 | the values kept from ';' segments are never blank and have no surrounding white space, and there are no more of them than segments |
| Headers.ParseLine | internal/headers/headers.go:21-61 | no CRLF gives "need more"; CRLF at offset 0 ends the block; a field line consumes through its first CRLF, has a token name without ':' and non-blank values; the malformed-header error occurs exactly when the trimmed line has no ':'; otherwise the only error is the invalid token |
| Headers.ParseLineExtend | internal/headers/headers.go:23-60 | once a buffer holds a CRLF, appending bytes does not change what Parse does |
| Headers.ParseEffectFacts | internal/headers/headers.go:21-61 | Parse consumes at most the buffer; when it consumes nothing it changes nothing and is not done; done exactly when the buffer starts with CRLF; an error consumes nothing; the lower-case key invariant is kept |
| Headers.ParseBlock | internal/request/request.go:114-122 | defines the header block as the ParsingHeaders steps read it, field line by field line up to the blank line; a complete block consumes at least the 2 bytes of that line and no more than the buffer |
| Request.RunHeaderBlock | internal/request/request.go:84-122 | in state ParsingHeaders, parse consumes a complete block exactly as ParseBlock does and moves to ParsingBody with its fields; a rejected line is the error with nothing consumed; an unfinished block leaves the request in ParsingHeaders |
| Request.RunHeaderBlockDone | internal/request/request.go:84-122 | a complete block: parse consumes it and resumes in ParsingBody with its fields on the bytes after it |
| Request.RunHeaderBlockError | internal/request/request.go:114-118 | a rejected header line: parse reports that error and counts nothing consumed |
| Request.RunHeaderBlockIncomplete | internal/request/request.go:84-122 | an unfinished block: parse reports no error and the request stays in ParsingHeaders |
| Headers.Headers.constructor | internal/headers/headers.go:17-19 | NewHeaders: an empty map |
| Headers.Headers.Set | internal/headers/headers.go:63-70 | the map after Set is SetValue of the map before, and keys stay lower-case |
| Headers.Headers.SetSegments | internal/headers/headers.go:47-58 | the loop over the ';' segments leaves the map SetAll of the old map with the trimmed non-blank segments, in order |
| Headers.Headers.Parse | internal/headers/headers.go:21-61 | returns the bytes consumed, the done flag and the error, and leaves the map, exactly as ParseEffect says for the old map |
| Bytes.IndexCRLF | internal/headers/headers.go:23 | the offset of the first CRLF, or -1 when there is none |
| Bytes.IndexCRLFExtend | internal/headers/headers.go:23 | appending bytes does not move a CRLF already found |
| Bytes.TrimSpaceWindow | internal/headers/headers.go:34 | TrimSpace returns a window of its input, with only white space outside it |
| Bytes.TrimSpaceEnds | internal/headers/headers.go:34 | a trimmed non-empty string neither starts nor ends with white space |
| Bytes.TrimSpaceOfTrimmed | internal/headers/headers.go:53 | TrimSpace leaves a string that neither starts nor ends with white space unchanged |
| Bytes.TrimSpaceDropsSpace | internal/headers/headers.go:34 | the space after the colon is dropped from a value that has no outer white space |
| Bytes.SplitTwo | internal/headers/headers.go:35 | SplitN(s, sep, 2) gives two parts exactly when sep occurs; the first part has no sep and the parts rejoin to s |
| Bytes.Split | internal/headers/headers.go:47 | Split gives at least one piece; no piece holds the separator; the pieces rejoin to the input |
| Bytes.SplitUnique | internal/headers/headers.go:47 | Split is the only separator-free cut that rejoins to its input |
| Bytes.SplitCount | internal/request/request.go:166-167 | Split gives one more piece than there are separators |
| Bytes.ToUpperFixed | internal/request/request.go:170 | a string equals its upper-cased form exactly when it has no lower-case letter |
| Bytes.ToLowerIdempotent | internal/headers/headers.go:64 | lower-casing twice is lower-casing once |
| Numbers.Atoi | internal/request/request.go:130 | strconv.Atoi only returns values within the 64-bit range |
| Numbers.AtoiItoa | internal/response/response.go:19 | Atoi reads back every 64-bit integer that Itoa writes |
| Numbers.DecimalValueOfDecimal | internal/response/response.go:19 | the decimal digits Itoa writes for a natural number read back as that number |
| Numbers.AtoiDigits | internal/request/request.go:130 | strconv.Atoi of a digit string within the 64-bit range is its decimal value, leading zeros allowed |
| Numbers.AtoiNegative | internal/request/request.go:130 | strconv.Atoi accepts a '-' before the digits of a negative 64-bit number |
| Numbers.Hex | internal/response/writer.go:59 | %X gives at least one upper-case hexadecimal digit, with a leading zero only for 0 |
| Numbers.HexValueOfHex | internal/response/writer.go:59 | the hexadecimal size written reads back as the chunk length |
| Request.RequestLineFromString | internal/request/request.go:164-186 | wrong part count is reported exactly when the line does not have exactly two spaces; an accepted line has version 1.1 and a method with no lower-case letter and no space, and a target with no space |
| Request.RequestLineComplete | internal/request/request.go:164-186 | every method without lower-case letters or spaces, target without spaces and protocol name without '/' or spaces, written "METHOD TARGET NAME/1.1", is accepted as exactly that request-line |
| Request.RequestLineSound | internal/request/request.go:164-186 | every accepted line is such a "METHOD TARGET NAME/1.1" text for the request-line it returns |
| Request.ParseRequestLine | internal/request/request.go:149-162 | no CRLF means "need more" and nothing else does; otherwise the result is requestLineFromString of the bytes before the first CRLF: its error, or its line with the bytes through that CRLF consumed |
| Request.ContentLength | internal/request/request.go:125-136 | defines the body length the fields announce: 0 when Content-Length is absent or "0", else its Atoi value when that is a number of zero or more, else invalid |
| Request.MakeLengthAsWritten | internal/request/request.go:125-137 | defines, as written, the length the body step hands to make, or none when it returns earlier |
| Request.Step | internal/request/request.go:99-147 | parseSingle consumes at most its input; an error consumes nothing and changes nothing; it waits exactly when more input is needed; the state advances by at most one; DoneState exactly in Done; in ParsingBody it fails exactly on an invalid Content-Length and finishes with a body of exactly Content-Length bytes; each state changes only its own part of the request |
| Request.StepExtend | internal/request/request.go:99-147 | a step that does not wait for input gives the same outcome whatever bytes arrive later |
| Request.StepObeysLaws | internal/request/request.go:99-147 | parseSingle's outcome bounds and monotonicity, as laws the parse loop relies on |
| Request.RunWith | internal/request/request.go:84-97 | the parse loop consumes at most its input, consumes nothing on error, and stops only at Done or where a step would consume nothing |
| Request.Run | internal/request/request.go:84-97 | parse consumes at most its input, consumes nothing on error, and stops at Done or where more input is needed |
| Request.RunDone | internal/request/request.go:86 | parse of a finished request does nothing |
| Request.RunUnroll | internal/request/request.go:86-94 | parse is one parseSingle followed by parse of the rest |
| Request.ParseLoopStep | internal/request/request.go:86-95 | each turn of the parse loop keeps the loop's account of the total consumed, and its exits give parse's result |
| Request.RunExtendErr | internal/request/request.go:84-97 | an error from parse stays the same error whatever bytes are appended |
| Request.RunExtend | internal/request/request.go:84-97 | parsing a longer buffer is parsing the shorter one and then resuming on its unparsed rest plus the new bytes |
| Request.Reference | internal/request/request.go:40-82 | defines what RequestFromReader returns for the bytes a reader delivers: the request once parse reaches Done, the parse error, or the read failure or "incomplete request" when input ends first |
| Request.ReaderLoopStep | internal/request/request.go:57-78 | one read-and-parse turn of RequestFromReader on the unparsed bytes carries on parsing everything read so far |
| Request.ReferenceWhenStalled | internal/request/request.go:58-64 | if input ends before Done, the result is the read error, or "incomplete request" at EOF |
| Request.ReferenceWhenDone | internal/request/request.go:49-81 | once parsing reaches Done, later input does not change the request returned |
| Request.ReferenceWhenRejected | internal/request/request.go:69-72 | a parse error is returned whatever input follows |
| Request.NegativeLengthReachesMake | internal/request/request.go:130-138 | with Content-Length "-1" the body step as written reaches make([]byte, -1) for any buffer |
| Request.BodyStepAgainstAsWritten | internal/request/request.go:124-140 | where the code reaches make with a length of zero or more, the model takes exactly that many bytes as the body; where the length is negative it rejects with InvalidContentLength |
| Request.Request.constructor | internal/request/request.go:42-45 | a new request is Initialized, with an empty request-line, map and body |
| Request.Request.ParseSingle | internal/request/request.go:99-147 | updates the request in place exactly as Step says for its old contents |
| Request.Request.Parse | internal/request/request.go:84-97 | updates the request in place exactly as Run says for its old contents |
| Request.ProgressStart | internal/request/request.go:42-47 | before any read the loop invariant of RequestFromReader holds |
| Request.ProgressStep | internal/request/request.go:57-78 | a successful read and parse keeps the invariant; a parse error is the final result |
| Request.ProgressStalled | internal/request/request.go:57-65 | a read that ends or fails before Done gives the final result |
| Request.ProgressDone | internal/request/request.go:49-81 | reaching Done gives the final request |
| Request.RequestFromReader | internal/request/request.go:40-82 | returns the request exactly when parsing all delivered bytes reaches Done, with its contents; otherwise nil and the parse error, the read error, or "incomplete request" |
| Request.Round | internal/request/request.go:49-79 | one loop turn either fails with the final result or keeps the invariant and consumes some input |
| Request.Fill | internal/request/request.go:50-67 | the same buffer is kept while it has room, and a fresh one of twice the length is used exactly when it is full; a read appends the delivered bytes after the unparsed ones; EOF or a failure delivers no bytes |
| Request.Grow | internal/request/request.go:50-55 | a new buffer of twice the length, starting with the old contents |
| Request.Compact | internal/request/request.go:77-78 | the unparsed bytes are moved to the front of the buffer |
| Request.Consume | internal/request/request.go:69-78 | parse of the buffered bytes, with the unparsed rest left at the front of the buffer |
| Stream.Reader.Read | internal/request/request.go:57 | a Read fills at most the free room with the next delivered bytes, or reports EOF or a failure, and touches no other part of the buffer |
| Stream.NextRead | internal/request/request.go:57-66 | a read delivers at most the room it is given; EOF exactly when nothing is left; a failure or EOF delivers no bytes; what is read plus what remains is everything still to be delivered; a read into some room makes progress |
| Response.Reason | internal/response/writer.go:23-31 | defines the reason phrase: OK, Bad Request and Internal Server Error for 200, 400 and 500, empty for any other code |
| Response.StatusLine | internal/response/writer.go:32 | defines "HTTP/1.1 %d %s\r\n" for a code and its reason phrase |
| Response.ItoaHasNoSpace | internal/response/writer.go:32 | the decimal code holds no space |
| Response.StatusLineRoundTrip | internal/response/writer.go:22-33 | "HTTP/1.1 %d %s\r\n" reads back as the code and its reason phrase, for every 64-bit code |
| Response.ParseStatusLineOf | internal/response/writer.go:32 | a status-line with a space-free decimal code reads back as that code and that reason phrase |
| Response.StatusCodeThreeDigits | internal/response/writer.go:32 | a code from 100 to 999 is written as three digits |
| Response.DefaultFields | internal/response/response.go:17-23 | GetDefaultHeaders is exactly content-length = Itoa(n), connection = close, content-type = the given type, with lower-case keys |
| Response.DefaultFieldsSize | internal/response/response.go:17-23 | the default map has three entries |
| Response.ContentLengthLower | internal/response/response.go:19 | Set stores "Content-Length" under "content-length" |
| Response.ConnectionLower | internal/response/response.go:20 | Set stores "Connection" under "connection" |
| Response.ContentTypeLower | internal/response/response.go:21 | Set stores "Content-Type" under "content-type" |
| Response.FieldLineText | internal/response/writer.go:43 | defines "%s: %s\r\n" for one entry |
| Response.HeaderBlock | internal/response/writer.go:36-51 | defines the bytes WriteHeaders sends for one order of the keys: a field line per key, then CRLF |
| Response.EnumerationLength | internal/response/writer.go:37 | a range over the map visits each of its keys once, so there are as many lines as entries |
| Response.DistinctCard | internal/response/writer.go:37 | a key order without repeats has as many elements as it has distinct keys |
| Response.FieldLinesSnoc | internal/response/writer.go:37-46 | each visited entry appends its "%s: %s\r\n" line |
| Response.HeaderBlockEmpty | internal/response/writer.go:47 | an empty map is written as the CRLF alone |
| Response.ChunkFrame | internal/response/writer.go:58-61 | defines "%X\r\n%s\r\n" for one chunk |
| Response.Writer.constructor | internal/response/writer.go:14-16 | a new writer over an empty sink |
| Response.Writer.Write | internal/response/writer.go:18-20 | a write sends all of p, or a prefix of it and fails; the call's outcome is logged |
| Response.Writer.WriteStatusLine | internal/response/writer.go:22-33 | sends the status-line for the code, all of it unless the write fails |
| Response.Writer.WriteHeaders | internal/response/writer.go:36-51 | in some order of the map's keys, sends a line per entry and the closing CRLF with one successful write each; on a failure it stops there, having sent a prefix of that block |
| Response.Writer.WriteBlockEnd | internal/response/writer.go:47-51 | the closing CRLF after the field lines |
| Response.Writer.WriteFieldLine | internal/response/writer.go:43-45 | one "%s: %s\r\n" line, or the failure that ends WriteHeaders |
| Response.Writer.WriteBody | internal/response/writer.go:54-56 | sends the body bytes unchanged |
| Response.Writer.WriteChunkedBody | internal/response/writer.go:58-61 | sends one chunk: upper-case hex size, CRLF, data, CRLF |
| Response.Writer.WriteChunkedBodyDone | internal/response/writer.go:63-65 | sends the last-chunk "0\r\n" |
| Response.Writer.WriteTrailers | internal/response/writer.go:67-69 | sends the trailer map as a header block, exactly as WriteHeaders |
| Framing.ParseFieldLine | internal/response/writer.go:43 | a line written for a token name and a plain value parses back as that name with that one value and the whole line consumed |
| Framing.ParseLines | internal/response/writer.go:37-46 | the lines written for the map's entries, then CRLF, parse back to the map with those entries added, consuming all of them |
| Framing.HeaderBlockRoundTrip | internal/response/writer.go:36-51 | for a map with lower-case token names and values that are not blank and hold no ';', CR or outer white space, a header block written in any order of its keys parses back as exactly that map, consuming exactly the block, whatever follows it |
| Framing.RequestReadsHeaderBlock | internal/request/request.go:114-140 | the request parser, from ParsingHeaders, reads such a block followed by as many bytes as its Content-Length announces as a Done request with that map and exactly those bytes as the body, consuming all of it |
| Framing.DefaultFieldsTransmissible | internal/response/response.go:17-23 | the default map has lower-case token names and values that read back unchanged |
| Framing.DefaultNamesWritable | internal/response/response.go:19-21 | the three default names are lower-case tokens and "close" is a plain value |
| Framing.DefaultContentLength | internal/response/response.go:17-23 | the request parser reads the announced Content-Length back as the body length n |
| Framing.DefaultBlockFraming | internal/response/response.go:17-23 | a default header block followed by a body parses back as the default map, and the body is exactly the announced Content-Length of bytes after it |
| Server.ErrorResponse | internal/server/handler.go:15-33 | defines the bytes of an error response for one order of its header keys: status-line, header block of the default map for a text/plain message, the message |
| Server.WriteErrorResponse | internal/server/handler.go:15-33 | sends status-line, default header block for a text/plain message, and the message in six successful writes; or returns the write failure after a prefix of them, with no write after the failed one |
| Server.WriteFieldsAndBody | internal/server/handler.go:22-31 | the header block and then the body, each only if everything before it was sent |
| Server.ErrorResponseReadsBack | internal/server/handler.go:15-33 | after the status-line, the request parser reads the rest of the error response as a Done request with the default map and the message as body, consuming all of it |
| Server.ErrorResponseFraming | internal/server/handler.go:15-33 | the response starts with the status-line; then the header block, which parses back as the default map; its Content-Length is the message length, and the message is exactly what follows |
| Chunked.DecodeChunked | internal/response/writer.go:58-69 | defines a recipient's decoder for the chunked coding of section 7.1 of RFC 9112, without chunk extensions, the trailers read with the header-line parser; a decoded body never consumes more than its input |
| Chunked.DecodeFrame | internal/response/writer.go:59 | a recipient decodes one non-empty chunk as its data, consuming exactly the frame |
| Chunked.DecodeFrames | internal/response/writer.go:58-61 | the chunks from successive WriteChunkedBody calls decode to their data one after another |
| Chunked.DecodeEnding | internal/response/writer.go:63-69 | the last-chunk and the written trailer block end the body with exactly those trailers |
| Chunked.ChunkedRoundTrip | internal/response/writer.go:58-69 | non-empty chunks, WriteChunkedBodyDone and WriteTrailers decode to the concatenated data and the trailers, consuming exactly what was sent |
| Chunked.EmptyChunkEndsBody | internal/response/writer.go:58-61 | WriteChunkedBody of no bytes sends "0\r\n\r\n", which ends the body with no trailers |
| Chunked.EmptyChunkTruncates | internal/response/writer.go:58-61 | so an empty chunk cuts the body short, whatever is sent after it |
| Chunked.FramesIncomplete | internal/response/writer.go:58-61 | chunks followed by an unfinished ending leave the body unfinished |
| Chunked.LastChunkAloneIncomplete | internal/response/writer.go:63-65 | without WriteTrailers the last-chunk leaves the body unterminated |
| HeaderExamples.ValidSingleHeader | internal/headers/headers_test.go:11-19 | "Host: localhost:42069" CRLF CRLF: 23 bytes, host set, not done, no error |
| HeaderExamples.RejectedName | internal/headers/headers.go:33-44 | a line whose trimmed name before the colon is not a token is rejected: nothing consumed, map unchanged |
| HeaderExamples.InvalidSpacingHeader | internal/headers/headers_test.go:21-27 | spaces around "Host : localhost:42069": invalid token error, 0 bytes, not done |
| HeaderExamples.ValidTwoHeaders | internal/headers/headers_test.go:29-42 | Host then User-Agent: 22 bytes then 24, both set |
| HeaderExamples.RepeatedHeaderMerges | internal/headers/headers_test.go:44-57 | two Host lines: 22 bytes each, values merged as "localhost:1234,localhost:5678" |
| HeaderExamples.SemicolonLine | internal/headers/headers.go:47-58 | a value followed by ';' sets that one value, the blank segment being skipped |
| HeaderExamples.TrailingSemicolonsMerge | internal/headers/headers_test.go:59-72 | two Host lines ending in ';': 23 bytes each, the same merged value |
| HeaderExamples.ValidDone | internal/headers/headers_test.go:74-80 | a buffer starting with CRLF: 2 bytes, done |
| HeaderExamples.KeyIsLowerCase | internal/headers/headers_test.go:82-91 | the key is stored as "host", not "Host", and Get under "Host" finds it |
| HeaderExamples.InvalidCharacterHeader | internal/headers/headers_test.go:93-99 | "H©st" in UTF-8: invalid token error, 0 bytes, not done |

## Left out

- The TCP server loop (`internal/server/server.go`) and the demonstration programs under
  `cmd/` are not part of this model. That excludes sockets, goroutines, the closed flag
  and the example handlers.
- `io.Reader` is a script of events (`Stream`), and `io.Writer` is a sink whose every
  write may fail. A failed write sends a prefix of its bytes. Timing, partial writes that
  report success, and concurrency are not modelled.
- A reader that returns no bytes and no error forever makes the loop of `RequestFromReader`
  (request.go:49-79) spin forever. The scripted reader is finite, so this is not modelled.
- Data returned together with `io.EOF` in one `Read` call is not modelled. The scripted
  reader reports EOF only with no bytes.
- `strings.TrimSpace`, `ToLower` and `ToUpper` are modelled for ASCII only. The Unicode
  white space and case mappings of multi-byte characters are not.
- Go map iteration order is unspecified. `WriteHeaders` takes an arbitrary order of the
  keys, returned as a ghost sequence, and every property holds for every order.
- The check `len(values) == 0` (headers.go:48-50) cannot succeed, because `strings.Split`
  never returns an empty list, so that branch is not modelled.
- The `break` after the EOF check (request.go:63) and the `default` branch of
  `parseSingle` (request.go:144-145) cannot be reached, so they are not modelled.
- Errors are values of one `Error` datatype, not Go error strings. A parse error carries
  the kind of failure only.
- `Request.Step`: a negative Content-Length makes Go panic in `make` (request.go:137).
  The model reports `InvalidContentLength` instead (see Findings).
- The chunk decoder in `Chunked` covers what the writer emits only. It reads no chunk
  extensions.
- `Response.StatusLineRoundTrip` is stated for 64-bit status codes, the range of Go's `int`.

## Findings

| source | as written | input that shows it | evidently intended | confidence | as-written member | corrected member |
|---|---|---|---|---|---|---|
| internal/request/request.go:130-138 | a negative Content-Length passes the `len(data) < length` guard and reaches `make([]byte, length)`, which panics; nothing recovers, so the server process ends | a request whose header block carries `Content-Length: -1` | reject a negative length like any other invalid Content-Length | not executed; high, from the Go rule that make panics on a negative length | Request.NegativeLengthReachesMake | Request.BodyStepAgainstAsWritten |
