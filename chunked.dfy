/**
 * The chunked transfer coding of section 7.1 of RFC 9112 as the response writer emits it:
 * WriteChunkedBody sends one chunk per call, WriteChunkedBodyDone the last-chunk and
 * WriteTrailers the trailer section with its closing CRLF. A decoder for the coding, as a
 * recipient reads it, is the reference the writer's output is measured against.
 */
module Chunked {
  import opened Bytes
  import opened Numbers
  import opened Headers
  import opened Response
  import opened Framing

  datatype ChunkedResult =
    | ChunkedIncomplete
    | ChunkedMalformed
    | ChunkedDone(payload: Bytes, trailers: Fields, consumed: nat)

  /**
   * Section 7.1 of RFC 9112, without chunk extensions: a size line of hexadecimal digits,
   * then that many bytes of data and a CRLF; a size of zero is the last-chunk, which the
   * trailer section follows, read with the header-line parser up to its blank line.
   */
  function DecodeChunked(data: Bytes): (r: ChunkedResult)
    ensures r.ChunkedDone? ==> r.consumed <= |data| && |r.payload| <= r.consumed
    decreases |data|, 1
  {
    var i := IndexCRLF(data);
    if i < 0 then ChunkedIncomplete
    else if data[..i] == [] || !AllHex(data[..i]) then ChunkedMalformed
    else if HexValue(data[..i]) == 0 then DecodeTrailers(data[i + 2..], i + 2)
    else DecodeChunkData(data[i + 2..], HexValue(data[..i]), i + 2)
  }

  /** After the last-chunk: the trailer section, read as a header block. */
  function DecodeTrailers(rest: Bytes, used: nat): (r: ChunkedResult)
    ensures r.ChunkedDone? ==> r.consumed <= |rest| + used && r.payload == []
  {
    match ParseBlock(map[], rest)
    case BlockDone(m, c) => ChunkedDone([], m, used + c)
    case BlockIncomplete => ChunkedIncomplete
    case BlockError(_) => ChunkedMalformed
  }

  /** After a size line for `n` > 0: the data, its CRLF, and the chunks that follow. */
  function DecodeChunkData(rest: Bytes, n: nat, used: nat): (r: ChunkedResult)
    requires n > 0
    ensures r.ChunkedDone? ==> r.consumed <= |rest| + used && |r.payload| <= r.consumed
    decreases |rest|, 0
  {
    if |rest| < n + 2 then ChunkedIncomplete
    else if rest[n..n + 2] != CRLF then ChunkedMalformed
    else
      match DecodeChunked(rest[n + 2..])
      case ChunkedDone(p, m, c) => ChunkedDone(rest[..n] + p, m, used + n + 2 + c)
      case other => other
  }

  /** What successive WriteChunkedBody calls send for `chunks`. */
  function Frames(chunks: seq<Bytes>): Bytes
    decreases |chunks|
  {
    if chunks == [] then [] else ChunkFrame(chunks[0]) + Frames(chunks[1..])
  }

  /** The payload the chunks carry, one after another. */
  function Flatten(chunks: seq<Bytes>): Bytes
    decreases |chunks|
  {
    if chunks == [] then [] else chunks[0] + Flatten(chunks[1..])
  }

  /** What WriteChunkedBodyDone and then WriteTrailers send. */
  function Ending(trailers: Fields, order: seq<Bytes>): Bytes
    requires forall k | k in order :: k in trailers
  {
    LastChunk + HeaderBlock(trailers, order)
  }

  /** Upper-case hexadecimal digits hold no CR. */
  lemma HexHasNoCR(n: nat)
    ensures CR !in Hex(n)
  {
    var h := Hex(n);
    forall i | 0 <= i < |h| ensures h[i] != CR {
      assert IsHexDigit(h[i]);
    }
  }

  /** A size line for `n` > 0 ending at `i` hands the rest over to the chunk's data. */
  lemma DecodeSizeLine(data: Bytes, i: nat, n: nat)
    requires IndexCRLF(data) == i && data[..i] != [] && AllHex(data[..i]) && HexValue(data[..i]) == n != 0
    ensures DecodeChunked(data) == DecodeChunkData(data[i + 2..], n, i + 2)
  {
  }

  /** The data of a chunk, its CRLF, then bytes that decode. */
  lemma DecodeChunkDataIs(rest: Bytes, n: nat, used: nat, later: Bytes, payload: Bytes, m: Fields, c: nat)
    requires n > 0 && |rest| >= n + 2 && rest[n..n + 2] == CRLF && rest[n + 2..] == later
    requires DecodeChunked(later) == ChunkedDone(payload, m, c)
    ensures DecodeChunkData(rest, n, used) == ChunkedDone(rest[..n] + payload, m, used + n + 2 + c)
  {
  }

  /** Where the parts of `h` CRLF `p` CRLF `later` sit. */
  lemma FramedParts(h: Bytes, p: Bytes, later: Bytes, data: Bytes, i: nat, n: nat)
    requires data == h + CRLF + p + CRLF + later && i == |h| && n == |p|
    ensures |data| >= i + n + 4 && data[..i] == h && CRLFAt(data, i)
    ensures var q := data[i + 2..]; q[..n] == p && q[n..n + 2] == CRLF && q[n + 2..] == later
  {
    assert data == h + (CRLF + (p + (CRLF + later)));
    assert data[..i] == h;
    assert data[i..] == CRLF + (p + (CRLF + later));
    var q := data[i + 2..];
    assert q == p + (CRLF + later);
    assert q[..n] == p && q[n..] == CRLF + later;
  }

  /** Where the parts of a chunk sit in the bytes that start with it. */
  lemma FrameLayout(p: Bytes, later: Bytes, data: Bytes, i: nat, n: nat)
    requires p != [] && data == ChunkFrame(p) + later && i == |Hex(|p|)| && n == |p|
    ensures IndexCRLF(data) == i && data[..i] != [] && AllHex(data[..i]) && HexValue(data[..i]) == n != 0
    ensures |data| >= i + n + 4
    ensures var q := data[i + 2..]; q[..n] == p && q[n..n + 2] == CRLF && q[n + 2..] == later
    ensures |ChunkFrame(p)| == i + n + 4
  {
    var h := Hex(n);
    FramedParts(h, p, later, data, i, n);
    HexHasNoCR(n);
    IndexCRLFAfterNoCR(data, i);
    HexValueOfHex(n);
  }

  /** One non-empty chunk, followed by bytes that decode, decodes to its data and theirs. */
  lemma DecodeFrame(p: Bytes, later: Bytes, data: Bytes, payload: Bytes, m: Fields, c: nat)
    requires p != [] && data == ChunkFrame(p) + later
    requires DecodeChunked(later) == ChunkedDone(payload, m, c)
    ensures DecodeChunked(data) == ChunkedDone(p + payload, m, |ChunkFrame(p)| + c)
  {
    var i, n := |Hex(|p|)|, |p|;
    FrameLayout(p, later, data, i, n);
    DecodeSizeLine(data, i, n);
    DecodeChunkDataIs(data[i + 2..], n, i + 2, later, payload, m, c);
  }

  /** The bytes of the chunks, followed by bytes that decode, decode to all the data. */
  lemma {:induction false} DecodeFrames(chunks: seq<Bytes>, tail: Bytes, payload: Bytes, m: Fields, c: nat)
    requires forall j | 0 <= j < |chunks| :: chunks[j] != []
    requires DecodeChunked(tail) == ChunkedDone(payload, m, c)
    ensures DecodeChunked(Frames(chunks) + tail) == ChunkedDone(Flatten(chunks) + payload, m, |Frames(chunks)| + c)
    decreases |chunks|
  {
    if chunks == [] {
      assert Frames(chunks) + tail == tail;
    } else {
      var p, others := chunks[0], chunks[1..];
      assert forall j | 0 <= j < |others| :: others[j] == chunks[j + 1];
      DecodeFrames(others, tail, payload, m, c);
      var later := Frames(others) + tail;
      FramesCons(chunks, tail, later, payload);
      DecodeFrame(p, later, Frames(chunks) + tail, Flatten(others) + payload, m, |Frames(others)| + c);
    }
  }

  /** The first chunk's frame and data come first. */
  lemma FramesCons(chunks: seq<Bytes>, tail: Bytes, later: Bytes, payload: Bytes)
    requires chunks != [] && later == Frames(chunks[1..]) + tail
    ensures Frames(chunks) + tail == ChunkFrame(chunks[0]) + later
    ensures Flatten(chunks) + payload == chunks[0] + (Flatten(chunks[1..]) + payload)
    ensures |Frames(chunks)| == |ChunkFrame(chunks[0])| + |Frames(chunks[1..])|
  {
  }

  /** The size line "0" alone. */
  lemma LastChunkLine(data: Bytes)
    requires |data| >= 3 && data[..3] == LastChunk
    ensures IndexCRLF(data) == 1 && data[..1] == [Zero] && AllHex([Zero]) && HexValue([Zero]) == 0
  {
    assert data[0] == Zero && data[1] == CR && data[2] == LF;
    IndexCRLFAfterNoCR(data, 1);
    var z: Bytes := [Zero];
    assert z[..0] == [];
  }

  /** The last-chunk and a trailer block the header parser reads back end the body. */
  lemma DecodeEnding(trailers: Fields, order: seq<Bytes>, rest: Bytes, data: Bytes)
    requires Transmissible(trailers) && IsEnumeration(order, trailers)
    requires data == Ending(trailers, order) + rest
    ensures DecodeChunked(data) == ChunkedDone([], trailers, |Ending(trailers, order)|)
  {
    var block := HeaderBlock(trailers, order);
    assert data == LastChunk + (block + rest);
    assert data[..3] == LastChunk;
    LastChunkLine(data);
    assert data[3..] == block + rest;
    HeaderBlockRoundTrip(trailers, order, rest);
  }

  /**
   * Round trip: the non-empty chunks sent by WriteChunkedBody, then WriteChunkedBodyDone
   * and WriteTrailers, decode to the chunks' data one after another and the trailers,
   * consuming exactly what was sent.
   */
  lemma ChunkedRoundTrip(chunks: seq<Bytes>, trailers: Fields, order: seq<Bytes>, rest: Bytes)
    requires forall j | 0 <= j < |chunks| :: chunks[j] != []
    requires Transmissible(trailers) && IsEnumeration(order, trailers)
    ensures DecodeChunked(Frames(chunks) + Ending(trailers, order) + rest)
         == ChunkedDone(Flatten(chunks), trailers, |Frames(chunks) + Ending(trailers, order)|)
  {
    var ending := Ending(trailers, order);
    DecodeEnding(trailers, order, rest, ending + rest);
    DecodeFrames(chunks, ending + rest, [], trailers, |ending|);
    assert Frames(chunks) + ending + rest == Frames(chunks) + (ending + rest);
    assert Flatten(chunks) + [] == Flatten(chunks);
  }

  /**
   * Why the chunks must not be empty: WriteChunkedBody of no bytes sends "0\r\n\r\n",
   * which a recipient reads as the last-chunk and an empty trailer section.
   */
  lemma EmptyChunkEndsBody(rest: Bytes)
    ensures DecodeChunked(ChunkFrame([]) + rest) == ChunkedDone([], map[], 5)
  {
    var data := ChunkFrame([]) + rest;
    assert Hex(0) == [Zero];
    assert data == LastChunk + (CRLF + rest);
    assert data[..3] == LastChunk;
    LastChunkLine(data);
    assert data[3..] == CRLF + rest;
    ParseBlockEnd(map[], CRLF + rest);
  }

  /** So an empty chunk among the writes cuts the body short, whatever is sent after it. */
  lemma EmptyChunkTruncates(chunks: seq<Bytes>, later: Bytes)
    requires forall j | 0 <= j < |chunks| :: chunks[j] != []
    ensures DecodeChunked(Frames(chunks) + ChunkFrame([]) + later)
         == ChunkedDone(Flatten(chunks), map[], |Frames(chunks)| + 5)
  {
    EmptyChunkEndsBody(later);
    DecodeFrames(chunks, ChunkFrame([]) + later, [], map[], 5);
    assert Frames(chunks) + ChunkFrame([]) + later == Frames(chunks) + (ChunkFrame([]) + later);
    assert Flatten(chunks) + [] == Flatten(chunks);
  }

  /** One non-empty chunk before bytes that do not yet decode leaves the body incomplete. */
  lemma DecodeFrameIncomplete(p: Bytes, later: Bytes, data: Bytes)
    requires p != [] && data == ChunkFrame(p) + later && DecodeChunked(later) == ChunkedIncomplete
    ensures DecodeChunked(data) == ChunkedIncomplete
  {
    var i, n := |Hex(|p|)|, |p|;
    FrameLayout(p, later, data, i, n);
    DecodeSizeLine(data, i, n);
  }

  /** The same for the bytes of any number of non-empty chunks. */
  lemma {:induction false} FramesIncomplete(chunks: seq<Bytes>, tail: Bytes)
    requires forall j | 0 <= j < |chunks| :: chunks[j] != []
    requires DecodeChunked(tail) == ChunkedIncomplete
    ensures DecodeChunked(Frames(chunks) + tail) == ChunkedIncomplete
    decreases |chunks|
  {
    if chunks == [] {
      assert Frames(chunks) + tail == tail;
    } else {
      var others := chunks[1..];
      assert forall j | 0 <= j < |others| :: others[j] == chunks[j + 1];
      FramesIncomplete(others, tail);
      var later := Frames(others) + tail;
      FramesCons(chunks, tail, later, []);
      DecodeFrameIncomplete(chunks[0], later, Frames(chunks) + tail);
    }
  }

  /**
   * Why WriteTrailers must follow WriteChunkedBodyDone even with no trailers: the
   * last-chunk "0\r\n" alone leaves the trailer section without its closing CRLF, and a
   * recipient keeps waiting for it.
   */
  lemma LastChunkAloneIncomplete(chunks: seq<Bytes>)
    requires forall j | 0 <= j < |chunks| :: chunks[j] != []
    ensures DecodeChunked(Frames(chunks) + LastChunk) == ChunkedIncomplete
  {
    LastChunkLine(LastChunk);
    assert LastChunk[3..] == [];
    FramesIncomplete(chunks, LastChunk);
  }
}
