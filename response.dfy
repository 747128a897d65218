/**
 * The response side of internal/response: the status codes, the status-line, the default
 * header map, the wire forms of a header block and of chunked transfer coding, and the
 * Writer that sends them to an io.Writer.
 */
module Response {
  import opened Errors
  import opened Bytes
  import opened Numbers
  import opened Headers

  type StatusCode = int

  const StatusOK: StatusCode := 200
  const StatusBadRequest: StatusCode := 400
  const StatusInternalServerError: StatusCode := 500

  // ---------------------------------------------------------------------------
  // The status-line (section 4 of RFC 9112)

  /** The reason phrase WriteStatusLine writes: one for each known code, none for the others. */
  function Reason(code: StatusCode): Bytes {
    if code == StatusOK then Ascii("OK")
    else if code == StatusBadRequest then Ascii("Bad Request")
    else if code == StatusInternalServerError then Ascii("Internal Server Error")
    else []
  }

  const VersionPrefix: Bytes := Ascii("HTTP/1.1 ")

  /** "HTTP/1.1 %d %s\r\n" */
  function StatusLine(code: StatusCode): Bytes {
    VersionPrefix + Itoa(code) + [SP] + Reason(code) + CRLF
  }

  /**
   * A reader of status-lines: "HTTP/1.1 ", a decimal code up to the next space, and the
   * reason phrase up to the closing CRLF.
   */
  function ParseStatusLine(s: Bytes): Option<(StatusCode, Bytes)> {
    var p := |VersionPrefix|;
    if |s| < p + 2 || s[..p] != VersionPrefix || s[|s| - 2..] != CRLF then None
    else
      var middle := s[p..|s| - 2];
      if SP !in middle then None
      else
        var i := IndexOf(middle, SP);
        match Atoi(middle[..i])
        case None => None
        case Some(code) => Some((code, middle[i + 1..]))
  }

  /** The decimal rendering of a number holds digits and at most a '-': never a space. */
  lemma ItoaHasNoSpace(n: int)
    ensures SP !in Itoa(n)
  {
    var d := Decimal(if n < 0 then -n else n);
    assert forall i | 0 <= i < |d| :: IsDigit(d[i]);
    if n < 0 {
      assert forall i | 0 <= i < |Itoa(n)| :: Itoa(n)[i] == Minus || IsDigit(Itoa(n)[i]);
    }
  }

  /** The status-line reads back as the code written and its reason phrase. */
  lemma StatusLineRoundTrip(code: StatusCode)
    requires MinInt64 <= code <= MaxInt64
    ensures ParseStatusLine(StatusLine(code)) == Some((code, Reason(code)))
  {
    ItoaHasNoSpace(code);
    AtoiItoa(code);
    ParseStatusLineOf(Itoa(code), Reason(code), StatusLine(code));
  }

  /** A line of the status-line's shape splits at the first space after the prefix. */
  lemma ParseStatusLineOf(d: Bytes, reason: Bytes, s: Bytes)
    requires SP !in d && Atoi(d).Some? && s == VersionPrefix + d + [SP] + reason + CRLF
    ensures ParseStatusLine(s) == Some((Atoi(d).value, reason))
  {
    var p := |VersionPrefix|;
    var middle := d + [SP] + reason;
    assert s == VersionPrefix + middle + CRLF;
    assert s[..p] == VersionPrefix && s[|s| - 2..] == CRLF && s[p..|s| - 2] == middle;
    assert middle[..|d|] == d;
    IndexOfIs(middle, SP, |d|);
    assert middle[|d| + 1..] == reason;
  }

  /** For the codes from 100 to 999 the status-code is the three digits section 4 of RFC 9112 asks for. */
  lemma StatusCodeThreeDigits(code: StatusCode)
    requires 100 <= code <= 999
    ensures |Itoa(code)| == 3 && AllDigits(Itoa(code))
  {
    assert Decimal(code) == Decimal(code / 10) + [Zero + code % 10];
    assert Decimal(code / 10) == Decimal(code / 100) + [Zero + code / 10 % 10];
  }

  // ---------------------------------------------------------------------------
  // Header blocks

  /** "%s: %s\r\n": the field line for one entry. */
  function FieldLineText(name: Bytes, value: Bytes): Bytes {
    name + [Colon, SP] + value + CRLF
  }

  /** The field lines for the entries of `m` named by `order`, in that order. */
  function FieldLines(m: Fields, order: seq<Bytes>): Bytes
    requires forall k | k in order :: k in m
  {
    if order == [] then [] else FieldLineText(order[0], m[order[0]]) + FieldLines(m, order[1..])
  }

  /** One more entry at the end adds its line at the end. */
  lemma {:induction false} FieldLinesSnoc(m: Fields, order: seq<Bytes>, k: Bytes)
    requires forall j | j in order :: j in m
    requires k in m
    ensures FieldLines(m, order + [k]) == FieldLines(m, order) + FieldLineText(k, m[k])
    decreases |order|
  {
    if order == [] {
      assert [k][1..] == order;
    } else {
      assert (order + [k])[1..] == order[1..] + [k];
      FieldLinesSnoc(m, order[1..], k);
    }
  }

  /** The header block: the field lines and the CRLF that ends them. */
  function HeaderBlock(m: Fields, order: seq<Bytes>): Bytes
    requires forall k | k in order :: k in m
  {
    FieldLines(m, order) + CRLF
  }

  predicate Distinct(order: seq<Bytes>) {
    forall i, j | 0 <= i < j < |order| :: order[i] != order[j]
  }

  /** `order` names every key of `m` exactly once: an order a range loop over the map may take. */
  predicate IsEnumeration(order: seq<Bytes>, m: Fields) {
    Distinct(order) && (forall k | k in order :: k in m) && (forall k | k in m :: k in order)
  }

  /** An enumeration has one element per key. */
  lemma EnumerationLength(order: seq<Bytes>, m: Fields)
    requires IsEnumeration(order, m)
    ensures |order| == |m|
  {
    DistinctCard(order);
    assert (set k | k in order) == m.Keys;
  }

  lemma {:induction false} DistinctCard(order: seq<Bytes>)
    requires Distinct(order)
    ensures |set k | k in order| == |order|
    decreases |order|
  {
    if order != [] {
      var init := order[..|order| - 1];
      var last := order[|order| - 1];
      assert Distinct(init);
      DistinctCard(init);
      assert (set k | k in order) == (set k | k in init) + {last};
      assert last !in init;
    }
  }

  /** The header block of an empty map is the CRLF alone. */
  lemma HeaderBlockEmpty(order: seq<Bytes>)
    requires IsEnumeration(order, map[])
    ensures HeaderBlock(map[], order) == CRLF
  {
    EnumerationLength(order, map[]);
  }

  // ---------------------------------------------------------------------------
  // The default header map

  const ContentLengthName: Bytes := Ascii("content-length")
  const ConnectionName: Bytes := Ascii("connection")
  const ContentTypeName: Bytes := Ascii("content-type")
  const Close: Bytes := Ascii("close")

  /**
   * GetDefaultHeaders: Set of Content-Length to the decimal length, Connection to "close"
   * and Content-Type to the given type, on a fresh map; the three names differ, so
   * nothing is merged and each keeps its value verbatim.
   */
  function DefaultFields(contentLength: int, contentType: Bytes): (r: Fields)
    ensures r == map[ContentLengthName := Itoa(contentLength), ConnectionName := Close,
                     ContentTypeName := contentType]
    ensures LowerKeys(r)
  {
    ContentLengthLower();
    ConnectionLower();
    ContentTypeLower();
    var h := SetValue(map[], Ascii("Content-Length"), Itoa(contentLength));
    var h' := SetValue(h, Ascii("Connection"), Close);
    SetValue(h', Ascii("Content-Type"), contentType)
  }

  lemma ContentLengthLower()
    ensures ToLower(Ascii("Content-Length")) == ContentLengthName
  {
  }

  lemma ConnectionLower()
    ensures ToLower(Ascii("Connection")) == ConnectionName
  {
  }

  lemma ContentTypeLower()
    ensures ToLower(Ascii("Content-Type")) == ContentTypeName
  {
  }

  // ---------------------------------------------------------------------------
  // Chunked transfer coding (section 7.1 of RFC 9112)

  /** "%X\r\n%s\r\n": a chunk carrying `p`, its size in upper-case hexadecimal. */
  function ChunkFrame(p: Bytes): Bytes {
    Hex(|p|) + CRLF + p + CRLF
  }

  /** "0\r\n": the last-chunk. */
  const LastChunk: Bytes := [Zero] + CRLF

  // ---------------------------------------------------------------------------
  // The Writer

  /** `after` is `before` followed by a prefix of `intended`: all of it when `complete`. */
  predicate Sent(before: Bytes, after: Bytes, intended: Bytes, complete: bool) {
    |before| <= |after| <= |before| + |intended|
    && after == before + intended[..|after| - |before|]
    && (complete ==> |after| == |before| + |intended|)
  }

  /** The writes recorded from `before` to `after` are `count` successes. */
  predicate Succeeded(before: seq<bool>, after: seq<bool>, count: nat) {
    |after| == |before| + count && after[..|before|] == before
    && forall i | |before| <= i < |after| :: after[i]
  }

  /** The writes recorded from `before` to `after` are successes and then one failure, the last. */
  predicate StoppedAtFailure(before: seq<bool>, after: seq<bool>) {
    |before| < |after| && after[..|before|] == before && !after[|after| - 1]
    && forall i | |before| <= i < |after| - 1 :: after[i]
  }

  /**
   * The outcome of a sequence of writes meant to send `intended` in `count` calls: all of
   * it and `count` successes, or the write failure after a prefix of it, with the failed
   * call the last one made.
   */
  predicate Outcome(before: Bytes, after: Bytes, logBefore: seq<bool>, logAfter: seq<bool>,
                    intended: Bytes, err: Option<Error>, count: nat) {
    (err.None? ==> Sent(before, after, intended, true) && Succeeded(logBefore, logAfter, count))
    && (err.Some? ==> err == Some(WriteFailure) && Sent(before, after, intended, false)
                      && StoppedAtFailure(logBefore, logAfter))
  }

  /** A prefix of the lines followed by part of the next write is a prefix of everything intended. */
  lemma SentAfter(before: Bytes, done: Bytes, after: Bytes, p: Bytes, ok: bool, rest: Bytes)
    requires Sent(before + done, after, p, ok)
    ensures Sent(before, after, done + p + rest, false)
    ensures ok ==> Sent(before, after, done + p, true)
  {
    var k := |after| - |before + done|;
    assert (done + p + rest)[..|done| + k] == done + p[..k];
    assert (done + p)[..|done| + k] == done + p[..k];
  }

  /** A write that stops `intended` part-way is also part-way through anything `intended` begins. */
  lemma SentPrefix(before: Bytes, after: Bytes, p: Bytes, ok: bool, rest: Bytes)
    requires Sent(before, after, p, ok)
    ensures Sent(before, after, p + rest, false)
  {
    assert (p + rest)[..|after| - |before|] == p[..|after| - |before|];
  }

  /** A complete write appended all it was given. */
  lemma SentAll(before: Bytes, after: Bytes, p: Bytes)
    requires Sent(before, after, p, true)
    ensures after == before + p
  {
    assert p[..|p|] == p;
  }

  /** Appending all of `p` is a complete write of it. */
  lemma SentWhole(before: Bytes, p: Bytes)
    ensures Sent(before, before + p, p, true)
  {
    assert p[..|p|] == p;
  }

  /** Successes followed by successes. */
  lemma SucceededThen(a: seq<bool>, b: seq<bool>, c: seq<bool>, n: nat, m: nat)
    requires Succeeded(a, b, n) && Succeeded(b, c, m)
    ensures Succeeded(a, c, n + m)
  {
    assert c[..|a|] == c[..|b|][..|a|];
  }

  /** Successes followed by successes and a failure. */
  lemma SucceededThenStopped(a: seq<bool>, b: seq<bool>, c: seq<bool>, n: nat)
    requires Succeeded(a, b, n) && StoppedAtFailure(b, c)
    ensures StoppedAtFailure(a, c)
  {
    assert c[..|a|] == c[..|b|][..|a|];
  }

  /** One write recorded: a success or the failure that stops. */
  lemma OneWrite(a: seq<bool>, b: seq<bool>, ok: bool)
    requires b == a + [ok]
    ensures ok ==> Succeeded(a, b, 1)
    ensures !ok ==> StoppedAtFailure(a, b)
  {
    assert b[..|a|] == a;
  }

  /**
   * One more stage of a sequence of writes: after `done` went out with `n` successes, a
   * stage that sends `p` either completes, adding its `m` successes, or stops the whole
   * sequence part-way through everything intended, `done + p + rest`.
   */
  lemma Continued(sink0: Bytes, done: Bytes, mid: Bytes, after: Bytes, p: Bytes, ok: bool, rest: Bytes,
                  log0: seq<bool>, logMid: seq<bool>, logAfter: seq<bool>, n: nat, m: nat)
    requires mid == sink0 + done && Sent(mid, after, p, ok) && Succeeded(log0, logMid, n)
    requires ok ==> Succeeded(logMid, logAfter, m)
    requires !ok ==> StoppedAtFailure(logMid, logAfter)
    ensures ok ==> after == sink0 + done + p && Succeeded(log0, logAfter, n + m)
    ensures !ok ==> Sent(sink0, after, done + p + rest, false) && StoppedAtFailure(log0, logAfter)
  {
    SentAfter(sink0, done, after, p, ok, rest);
    if ok {
      SentAll(sink0, after, done + p);
      SucceededThen(log0, logMid, logAfter, n, m);
    } else {
      SucceededThenStopped(log0, logMid, logAfter, n);
    }
  }

  /** GetDefaultHeaders' map has three entries. */
  lemma DefaultFieldsSize(n: int, contentType: Bytes)
    ensures |DefaultFields(n, contentType)| == 3
  {
    var m0: Fields := map[];
    var m1 := m0[ContentLengthName := Itoa(n)];
    var m2 := m1[ConnectionName := Close];
    assert |ContentLengthName| == 14 && |ConnectionName| == 10 && |ContentTypeName| == 12;
    assert ConnectionName !in m1;
    assert ContentTypeName !in m2;
    assert DefaultFields(n, contentType) == m2[ContentTypeName := contentType];
  }

  class Writer {
    /** Everything the underlying io.Writer has accepted. */
    var sink: Bytes
    /** The outcome of each call on the underlying io.Writer, in order: true for success. */
    ghost var log: seq<bool>

    /** NewWriter over a connection that has received nothing yet. */
    constructor ()
      ensures sink == [] && log == []
    {
      sink := [];
      log := [];
    }

    /**
     * Write: one call on the underlying io.Writer, which either takes all of `p` or fails
     * after taking a prefix of it; which happens is up to the connection.
     */
    method Write(p: Bytes) returns (n: nat, err: Option<Error>)
      modifies this
      ensures Sent(old(sink), sink, p, err.None?) && n == |sink| - |old(sink)|
      ensures err.Some? ==> err == Some(WriteFailure)
      ensures log == old(log) + [err.None?]
    {
      var ok: bool :| true;
      if ok {
        sink := sink + p;
        log := log + [true];
        return |p|, None;
      }
      var taken: nat :| taken <= |p|;
      sink := sink + p[..taken];
      log := log + [false];
      return taken, Some(WriteFailure);
    }

    /** WriteStatusLine: the status-line in one write. */
    method WriteStatusLine(code: StatusCode) returns (err: Option<Error>)
      modifies this
      ensures Sent(old(sink), sink, StatusLine(code), err.None?)
      ensures err.Some? ==> err == Some(WriteFailure)
      ensures log == old(log) + [err.None?]
    {
      var _, e := Write(StatusLine(code));
      return e;
    }

    /**
     * WriteHeaders: one write per entry, in the order the map is ranged over, then one
     * write of the closing CRLF; the first failed write ends it.
     */
    method WriteHeaders(h: Fields) returns (err: Option<Error>, ghost order: seq<Bytes>)
      modifies this
      ensures Distinct(order) && forall k | k in order :: k in h
      ensures err.None? ==> IsEnumeration(order, h) && Sent(old(sink), sink, HeaderBlock(h, order), true)
                            && Succeeded(old(log), log, |h| + 1)
      ensures err.Some? ==> err == Some(WriteFailure) && Sent(old(sink), sink, HeaderBlock(h, order), false)
                            && StoppedAtFailure(old(log), log)
    {
      ghost var sink0, log0 := sink, log;
      var remaining := h.Keys;
      order := [];
      while remaining != {}
        invariant remaining <= h.Keys && Distinct(order)
        invariant forall k | k in order :: k in h && k !in remaining
        invariant forall k | k in h :: k in order || k in remaining
        invariant sink == sink0 + FieldLines(h, order)
        invariant Succeeded(log0, log, |order|)
        decreases |remaining|
      {
        var k :| k in remaining;
        ghost var order' := order + [k];
        var e := WriteFieldLine(h, k, order, order', sink0, log0);
        order := order';
        remaining := remaining - {k};
        if e.Some? {
          return e, order;
        }
      }
      EnumerationLength(order, h);
      err := WriteBlockEnd(h, order, sink0, log0);
    }

    /** The end of WriteHeaders: the CRLF after the lines for `order`. */
    method WriteBlockEnd(h: Fields, ghost order: seq<Bytes>, ghost sink0: Bytes, ghost log0: seq<bool>)
      returns (err: Option<Error>)
      requires forall j | j in order :: j in h
      requires sink == sink0 + FieldLines(h, order) && Succeeded(log0, log, |order|)
      modifies this
      ensures err.None? ==> Sent(sink0, sink, HeaderBlock(h, order), true) && Succeeded(log0, log, |order| + 1)
      ensures err.Some? ==> err == Some(WriteFailure) && Sent(sink0, sink, HeaderBlock(h, order), false)
                            && StoppedAtFailure(log0, log)
    {
      ghost var done := FieldLines(h, order);
      var _, e := Write(CRLF);
      SentAfter(sink0, done, sink, CRLF, e.None?, []);
      assert done + CRLF + [] == HeaderBlock(h, order);
      return e;
    }

    /** One turn of WriteHeaders: the line for `k` after the lines for `order`. */
    method WriteFieldLine(h: Fields, k: Bytes, ghost order: seq<Bytes>, ghost order': seq<Bytes>,
                          ghost sink0: Bytes, ghost log0: seq<bool>) returns (err: Option<Error>)
      requires k in h && (forall j | j in order :: j in h) && order' == order + [k]
      requires sink == sink0 + FieldLines(h, order) && Succeeded(log0, log, |order|)
      modifies this
      ensures forall j | j in order' :: j in h
      ensures err.None? ==> sink == sink0 + FieldLines(h, order') && Succeeded(log0, log, |order'|)
      ensures err.Some? ==> err == Some(WriteFailure) && Sent(sink0, sink, HeaderBlock(h, order'), false)
                            && StoppedAtFailure(log0, log)
    {
      var line := FieldLineText(k, h[k]);
      ghost var done := FieldLines(h, order);
      FieldLinesSnoc(h, order, k);
      var _, e := Write(line);
      SentAfter(sink0, done, sink, line, e.None?, CRLF);
      return e;
    }

    /** WriteBody: `p` in one write. */
    method WriteBody(p: Bytes) returns (n: nat, err: Option<Error>)
      modifies this
      ensures Sent(old(sink), sink, p, err.None?) && n == |sink| - |old(sink)|
      ensures err.Some? ==> err == Some(WriteFailure)
      ensures log == old(log) + [err.None?]
    {
      n, err := Write(p);
    }

    /** WriteChunkedBody: the chunk carrying `p`, in one write. */
    method WriteChunkedBody(p: Bytes) returns (n: nat, err: Option<Error>)
      modifies this
      ensures Sent(old(sink), sink, ChunkFrame(p), err.None?) && n == |sink| - |old(sink)|
      ensures err.Some? ==> err == Some(WriteFailure)
      ensures log == old(log) + [err.None?]
    {
      n, err := Write(ChunkFrame(p));
    }

    /** WriteChunkedBodyDone: the last-chunk, in one write. */
    method WriteChunkedBodyDone() returns (n: nat, err: Option<Error>)
      modifies this
      ensures Sent(old(sink), sink, LastChunk, err.None?) && n == |sink| - |old(sink)|
      ensures err.Some? ==> err == Some(WriteFailure)
      ensures log == old(log) + [err.None?]
    {
      n, err := Write(LastChunk);
    }

    /** WriteTrailers: the trailer section is written exactly as a header block. */
    method WriteTrailers(h: Fields) returns (err: Option<Error>, ghost order: seq<Bytes>)
      modifies this
      ensures Distinct(order) && forall k | k in order :: k in h
      ensures err.None? ==> IsEnumeration(order, h) && Sent(old(sink), sink, HeaderBlock(h, order), true)
                            && Succeeded(old(log), log, |h| + 1)
      ensures err.Some? ==> err == Some(WriteFailure) && Sent(old(sink), sink, HeaderBlock(h, order), false)
                            && StoppedAtFailure(old(log), log)
    {
      err, order := WriteHeaders(h);
    }
  }
}
