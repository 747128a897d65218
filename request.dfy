/**
 * The incremental HTTP/1.1 request parser of internal/request/request.go: a state machine
 * that parses the request-line, then one field line at a time, then a body whose length
 * the content-length field gives, from a buffer that a reader fills piece by piece.
 */
module Request {
  import opened Errors
  import opened Bytes
  import opened Numbers
  import opened Headers
  import opened Stream

  /** The initial size of the read buffer, which doubles whenever it is full. */
  const BufferSize: nat := 8

  const Version11: Bytes := Ascii("1.1")
  const ContentLengthKey: Bytes := Ascii("content-length")

  datatype State = Initialized | ParsingHeaders | ParsingBody | Done

  /** The position of a state in the fixed order the parser moves through. */
  function Rank(s: State): nat {
    match s
    case Initialized => 0
    case ParsingHeaders => 1
    case ParsingBody => 2
    case Done => 3
  }

  datatype RequestLine = RequestLine(httpVersion: Bytes, requestTarget: Bytes, requestMethod: Bytes)

  /** Everything a Request holds: its state, request-line, header map and body. */
  datatype RequestView = RequestView(state: State, line: RequestLine, fields: Fields, body: Bytes)

  /** A fresh request: no request-line, no fields, no body. */
  const Initial: RequestView := RequestView(Initialized, RequestLine([], [], []), map[], [])

  // ---------------------------------------------------------------------------
  // The request-line

  predicate NoLower(s: Bytes) {
    forall i | 0 <= i < |s| :: !IsLowerLetter(s[i])
  }

  /** The text of a request-line: method SP request-target SP protocol "/" version. */
  function LineText(line: RequestLine, protocol: Bytes): Bytes {
    line.requestMethod + [SP] + line.requestTarget + [SP] + protocol + [Slash] + line.httpVersion
  }

  /**
   * The request-lines the parser accepts: no space inside the three parts, a method
   * without lower-case letters, a protocol name without '/' and version 1.1.
   */
  predicate Acceptable(line: RequestLine, protocol: Bytes) {
    SP !in line.requestMethod && NoLower(line.requestMethod) && SP !in line.requestTarget
    && SP !in protocol && Slash !in protocol && line.httpVersion == Version11
  }

  /**
   * requestLineFromString: exactly three space-separated parts, an upper-case method and a
   * version token that splits at '/' into two parts, the second being "1.1".
   */
  function RequestLineFromString(s: Bytes): (r: Result<RequestLine>)
    ensures r == Err(InvalidRequestLineParts) <==> Count(s, SP) != 2
    ensures r.Ok? ==> r.value.httpVersion == Version11 && NoLower(r.value.requestMethod)
    ensures r.Ok? ==> SP !in r.value.requestMethod && SP !in r.value.requestTarget
  {
    SplitCount(s, SP);
    var parts := Split(s, SP);
    if |parts| != 3 then Err(InvalidRequestLineParts)
    else if parts[0] != ToUpper(parts[0]) then Err(InvalidMethod)
    else
      var versionParts := Split(parts[2], Slash);
      if |versionParts| != 2 then Err(InvalidVersionFormat)
      else if versionParts[1] != Version11 then Err(InvalidVersion)
      else
        ToUpperFixed(parts[0]);
        Ok(RequestLine(versionParts[1], parts[1], parts[0]))
  }

  lemma Version11Clean()
    ensures SP !in Version11 && Slash !in Version11
  {
    assert Version11 == [49, 46, 49];
  }

  /** Every acceptable request-line is parsed back into its parts. */
  lemma RequestLineComplete(line: RequestLine, protocol: Bytes)
    requires Acceptable(line, protocol)
    ensures RequestLineFromString(LineText(line, protocol)) == Ok(line)
  {
    var version := protocol + [Slash] + line.httpVersion;
    SplitLineText(line, protocol, version);
    SplitVersion(protocol, line.httpVersion, version);
    ToUpperFixed(line.requestMethod);
  }

  /** The text of an acceptable request-line splits at its two spaces. */
  lemma SplitLineText(line: RequestLine, protocol: Bytes, version: Bytes)
    requires Acceptable(line, protocol) && version == protocol + [Slash] + line.httpVersion
    ensures Split(LineText(line, protocol), SP) == [line.requestMethod, line.requestTarget, version]
  {
    Version11Clean();
    var parts := [line.requestMethod, line.requestTarget, version];
    assert Join(parts, SP) == LineText(line, protocol) by {
      assert parts[1..][1..] == [version];
      assert Join(parts[1..], SP) == line.requestTarget + [SP] + version;
    }
    assert SP !in version;
    SplitUnique(parts, SP);
  }

  /** The version token of an acceptable request-line splits at its one '/'. */
  lemma SplitVersion(protocol: Bytes, v: Bytes, version: Bytes)
    requires Slash !in protocol && v == Version11 && version == protocol + [Slash] + v
    ensures Split(version, Slash) == [protocol, v]
  {
    Version11Clean();
    var versionParts := [protocol, v];
    assert Join(versionParts, Slash) == version by {
      assert versionParts[1..] == [v];
    }
    SplitUnique(versionParts, Slash);
  }

  /** Every request-line the parser accepts has the acceptable shape. */
  lemma RequestLineSound(s: Bytes)
    requires RequestLineFromString(s).Ok?
    ensures exists protocol :: Acceptable(RequestLineFromString(s).value, protocol)
                            && s == LineText(RequestLineFromString(s).value, protocol)
  {
    var line := RequestLineFromString(s).value;
    var parts := Split(s, SP);
    var versionParts := Split(parts[2], Slash);
    var protocol := versionParts[0];
    assert parts[1..][1..] == [parts[2]];
    assert versionParts[1..] == [versionParts[1]];
    assert parts[2] == protocol + [Slash] + line.httpVersion;
    assert Join(parts[1..], SP) == parts[1] + [SP] + Join(parts[1..][1..], SP);
    assert s == parts[0] + [SP] + Join(parts[1..], SP);
    LineTextAssociates(parts[0], parts[1], protocol, line.httpVersion);
    assert Acceptable(line, protocol);
  }

  lemma LineTextAssociates(m: Bytes, t: Bytes, protocol: Bytes, v: Bytes)
    ensures m + [SP] + (t + [SP] + (protocol + [Slash] + v))
         == LineText(RequestLine(v, t, m), protocol)
  {
  }

  /** parseRequestLine: Ok(None) while no CRLF has arrived, else the line and the bytes it took. */
  function ParseRequestLine(data: Bytes): (r: Result<Option<(RequestLine, nat)>>)
    ensures r == Ok(None) <==> IndexCRLF(data) == -1
    ensures r.Ok? && r.value.Some? ==> r.value.value.1 == IndexCRLF(data) + 2 <= |data|
    ensures IndexCRLF(data) >= 0 ==>
              match RequestLineFromString(data[..IndexCRLF(data)])
              case Err(e) => r == Err(e)
              case Ok(line) => r == Ok(Some((line, IndexCRLF(data) + 2)))
  {
    var n := IndexCRLF(data);
    if n == -1 then Ok(None)
    else match RequestLineFromString(data[..n])
      case Err(e) => Err(e)
      case Ok(line) => Ok(Some((line, n + 2)))
  }

  // ---------------------------------------------------------------------------
  // One parsing step

  /**
   * The body length the fields announce: none or "0" means 0; anything else must be
   * a non-negative 64-bit decimal integer.
   */
  function ContentLength(fields: Fields): Option<nat> {
    var ls := Lookup(fields, ContentLengthKey);
    if ls == [] || ls == Ascii("0") then Some(0)
    else match Atoi(ls)
      case None => None
      case Some(v) => if v < 0 then None else Some(v)
  }

  /** The outcome of a parsing call: bytes consumed, error, and the request after it. */
  datatype StepResult = StepResult(n: nat, err: Option<Error>, next: RequestView)

  /** The request is waiting for more input: a step would consume nothing and change nothing. */
  predicate NeedsMoreInput(s: RequestView, data: Bytes) {
    match s.state
    case Initialized => IndexCRLF(data) == -1
    case ParsingHeaders => IndexCRLF(data) == -1
    case ParsingBody => ContentLength(s.fields).Some? && |data| < ContentLength(s.fields).value
    case Done => false
  }

  /** parseSingle: one step of the state machine on the unparsed bytes `data`. */
  function Step(s: RequestView, data: Bytes): (r: StepResult)
    ensures r.n <= |data|
    ensures r.err.Some? ==> r.n == 0 && r.next == s
    ensures (r.n == 0 && r.err.None? && r.next == s) <==> NeedsMoreInput(s, data)
    ensures r.n == 0 && r.err.None? ==> r.next == s || r.next.state == Done
    ensures r.err.None? ==> Rank(s.state) <= Rank(r.next.state) <= Rank(s.state) + 1
    ensures s.state == Done <==> r.err == Some(DoneState)
    ensures s.state == ParsingBody ==> (r.err.Some? <==> ContentLength(s.fields).None?)
    ensures s.state == ParsingBody && r.next.state == Done ==>
              ContentLength(s.fields) == Some(r.n) && (r.n == 0 || r.next.body == data[..r.n])
    ensures r.next.line != s.line ==> s.state == Initialized
    ensures r.next.fields != s.fields ==> s.state == ParsingHeaders
    ensures r.next.body != s.body ==> s.state == ParsingBody
  {
    match s.state
    case Initialized =>
      (match ParseRequestLine(data)
       case Err(e) => StepResult(0, Some(e), s)
       case Ok(None) => StepResult(0, None, s)
       case Ok(Some(p)) => StepResult(p.1, None, s.(state := ParsingHeaders, line := p.0)))
    case ParsingHeaders =>
      var h := ParseEffect(s.fields, data);
      ParseEffectFacts(s.fields, data);
      if h.err.Some? then StepResult(0, h.err, s)
      else StepResult(h.n, None, s.(state := if h.done then ParsingBody else ParsingHeaders, fields := h.fields))
    case ParsingBody =>
      var ls := Lookup(s.fields, ContentLengthKey);
      if ls == [] || ls == Ascii("0") then StepResult(0, None, s.(state := Done))
      else
        (match Atoi(ls)
         case None => StepResult(0, Some(InvalidContentLength), s)
         case Some(length) =>
           // Go's make([]byte, length) panics on a negative length; this model reports it.
           if length < 0 then StepResult(0, Some(InvalidContentLength), s)
           else if |data| < length then StepResult(0, None, s)
           else StepResult(length, None, s.(state := Done, body := data[..length])))
    case Done => StepResult(0, Some(DoneState), s)
  }

  /**
   * The length the body step of request.go hands to make([]byte, length) at line 137, as
   * written, or None when it returns before reaching it. The guard at line 134 only waits
   * while the buffer is shorter than the length, so a negative Content-Length passes it.
   */
  function MakeLengthAsWritten(fields: Fields, data: Bytes): Option<int> {
    var ls := Lookup(fields, ContentLengthKey);
    if ls == [] || ls == Ascii("0") then None
    else match Atoi(ls)
      case None => None
      case Some(length) => if |data| < length then None else Some(length)
  }

  lemma ContentLengthKeyLower()
    ensures ToLower(ContentLengthKey) == ContentLengthKey
  {
    forall i | 0 <= i < |ContentLengthKey| ensures !IsUpperLetter(ContentLengthKey[i]) {
    }
    ToLowerFixed(ContentLengthKey);
  }

  /** "Content-Length: -1" reaches make([]byte, -1), which panics, whatever the buffer holds. */
  lemma NegativeLengthReachesMake(data: Bytes)
    ensures MakeLengthAsWritten(map[ContentLengthKey := Itoa(-1)], data) == Some(-1)
  {
    ContentLengthKeyLower();
    AtoiItoa(-1);
    assert Itoa(-1) != [] && Itoa(-1) != Ascii("0") by {
      assert Itoa(-1)[0] == Minus;
    }
  }

  /**
   * The body step as modelled, against the code as written: where the source reaches
   * make with a length of zero or more, the step takes exactly that many bytes as the
   * body; where it would reach make with a negative length, the step rejects the
   * request with InvalidContentLength and leaves it unchanged instead of panicking.
   */
  lemma BodyStepAgainstAsWritten(s: RequestView, data: Bytes)
    requires s.state == ParsingBody
    ensures match MakeLengthAsWritten(s.fields, data)
      case Some(length) =>
        if length < 0 then Step(s, data) == StepResult(0, Some(InvalidContentLength), s)
        else Step(s, data) == StepResult(length, None, s.(state := Done, body := data[..length]))
      case None => Step(s, data).n == 0
  {
  }

  /** A step that does not wait for input gives the same outcome whatever bytes arrive later. */
  lemma StepExtend(s: RequestView, data: Bytes, more: Bytes)
    requires !NeedsMoreInput(s, data)
    ensures Step(s, data + more) == Step(s, data)
  {
    match s.state
    case Initialized =>
      var n := IndexCRLF(data);
      IndexCRLFExtend(data, more);
      assert (data + more)[..n] == data[..n];
    case ParsingHeaders =>
      ParseLineExtend(data, more);
    case ParsingBody =>
      if ContentLength(s.fields).Some? {
        var length := ContentLength(s.fields).value;
        assert (data + more)[..length] == data[..length];
      }
    case Done =>
  }

  // ---------------------------------------------------------------------------
  // Repeated steps over one buffer

  /** `k` bytes consumed before `r`: an error keeps its zero count, otherwise the counts add. */
  function Then(k: nat, r: StepResult): StepResult {
    if r.err.Some? then r else StepResult(k + r.n, None, r.next)
  }

  /** A parsing step on a request and the unparsed bytes, such as Step. */
  type StepFunction = (RequestView, Bytes) -> StepResult

  /**
   * What the parse loop relies on in a step: it consumes at most what it is given; an
   * error consumes nothing and changes nothing; a step that consumes nothing either
   * changes nothing or finishes the request; and a step that does not wait for input
   * gives the same outcome whatever bytes arrive later.
   */
  ghost predicate StepLaws(f: StepFunction) {
    (forall s, d :: f(s, d).n <= |d|)
    && (forall s, d :: f(s, d).err.Some? ==> f(s, d).n == 0 && f(s, d).next == s)
    && (forall s, d :: f(s, d).n == 0 && f(s, d).err.None? ==> f(s, d).next == s || f(s, d).next.state == Done)
    && (forall s, d, m :: f(s, d) != StepResult(0, None, s) ==> f(s, d + m) == f(s, d))
  }

  /** Step obeys the laws. */
  lemma StepObeysLaws()
    ensures StepLaws(Step)
  {
    forall s, d, m | Step(s, d) != StepResult(0, None, s) ensures Step(s, d + m) == Step(s, d) {
      StepExtend(s, d, m);
    }
  }

  /**
   * The parse loop over the step `f`: steps until the request is done, a step consumes
   * nothing, or a step fails; on failure nothing counts as consumed and the request
   * keeps the earlier steps.
   */
  function RunWith(f: StepFunction, s: RequestView, data: Bytes): (r: StepResult)
    requires StepLaws(f)
    ensures r.n <= |data|
    ensures r.err.Some? ==> r.n == 0
    ensures r.err.None? ==> r.next.state == Done || f(r.next, data[r.n..]) == StepResult(0, None, r.next)
    decreases |data|
  {
    if s.state == Done then
      assert data[0..] == data;
      StepResult(0, None, s)
    else
      var st := f(s, data);
      if st.err.Some? then StepResult(0, st.err, s)
      else if st.n == 0 then
        assert data[0..] == data;
        StepResult(0, None, st.next)
      else
        var rest := RunWith(f, st.next, data[st.n..]);
        assert data[st.n..][rest.n..] == data[st.n + rest.n..];
        Then(st.n, rest)
  }

  lemma {:induction false} RunWithExtendErr(f: StepFunction, s: RequestView, data: Bytes, more: Bytes)
    requires StepLaws(f)
    requires RunWith(f, s, data).err.Some?
    ensures RunWith(f, s, data + more) == RunWith(f, s, data)
    decreases |data|
  {
    var st := f(s, data);
    assert st != StepResult(0, None, s);
    assert f(s, data + more) == st;
    if st.err.None? {
      assert (data + more)[st.n..] == data[st.n..] + more;
      RunWithExtendErr(f, st.next, data[st.n..], more);
    }
  }

  lemma {:induction false} RunWithExtend(f: StepFunction, s: RequestView, data: Bytes, more: Bytes,
                                          k: nat, v: RequestView)
    requires StepLaws(f)
    requires RunWith(f, s, data) == StepResult(k, None, v)
    ensures k <= |data| && RunWith(f, s, data + more) == Then(k, RunWith(f, v, data[k..] + more))
    decreases |data|
  {
    assert data[0..] + more == data + more;
    if s.state != Done {
      var st := f(s, data);
      if st.err.None? && st.n == 0 {
        if st != StepResult(0, None, s) {
          assert f(s, data + more) == st;
        }
      } else if st.err.None? {
        assert st.n != StepResult(0, None, s).n;
        assert f(s, data + more) == st;
        var rest := RunWith(f, st.next, data[st.n..]);
        assert (data + more)[st.n..] == data[st.n..] + more;
        assert data[st.n..][rest.n..] == data[k..];
        RunWithExtend(f, st.next, data[st.n..], more, rest.n, v);
      }
    }
  }

  /** parse: the parse loop over Step; it stops only when the request is done or needs more input. */
  function Run(s: RequestView, data: Bytes): (r: StepResult)
    ensures r.n <= |data|
    ensures r.err.Some? ==> r.n == 0
    ensures r.err.None? ==> r.next.state == Done || NeedsMoreInput(r.next, data[r.n..])
  {
    StepObeysLaws();
    RunWith(Step, s, data)
  }

  /** parse on a request that is already done changes nothing. */
  lemma RunDone(s: RequestView, data: Bytes)
    requires s.state == Done
    ensures Run(s, data) == StepResult(0, None, s)
  {
    StepObeysLaws();
  }

  /** The parse loop after the first step's outcome `st` on a request that is not done. */
  function AfterStep(s: RequestView, data: Bytes, st: StepResult): StepResult
    requires st.n <= |data|
  {
    if st.err.Some? then StepResult(0, st.err, s)
    else if st.n == 0 then StepResult(0, None, st.next)
    else Then(st.n, Run(st.next, data[st.n..]))
  }

  /** Unrolling parse by one step. */
  lemma RunUnroll(s: RequestView, data: Bytes)
    requires s.state != Done
    ensures Run(s, data) == AfterStep(s, data, Step(s, data))
  {
    StepObeysLaws();
  }

  /** One turn of the parse loop: how the outcome of the step `st` settles or advances it. */
  /** Parsing `data` from `start` amounts to `total` bytes consumed and then parsing the rest from `v`. */
  predicate Resumes(start: RequestView, data: Bytes, total: nat, v: RequestView)
    requires total <= |data|
  {
    Run(start, data) == Then(total, Run(v, data[total..]))
  }

  lemma ParseLoopStep(start: RequestView, data: Bytes, total: nat, before: RequestView,
                      k: nat, e: Option<Error>, after: RequestView, next: nat)
    requires total <= |data| && before.state != Done && Resumes(start, data, total, before)
    requires StepResult(k, e, after) == Step(before, data[total..]) && next == total + k
    ensures e.Some? ==> Run(start, data) == StepResult(0, e, after)
    ensures e.None? && k == 0 ==> Run(start, data) == StepResult(total, None, after)
    ensures next <= |data|
    ensures e.None? && k > 0 ==> Resumes(start, data, next, after)
  {
    RunUnroll(before, data[total..]);
    assert data[total..][k..] == data[next..];
  }

  /** An error that parse reports is not undone by bytes arriving later. */
  lemma RunExtendErr(s: RequestView, data: Bytes, more: Bytes)
    requires Run(s, data).err.Some?
    ensures Run(s, data + more) == Run(s, data)
  {
    StepObeysLaws();
    RunWithExtendErr(Step, s, data, more);
  }

  /**
   * Parsing a buffer that has grown continues from where parsing the shorter buffer
   * stopped: the `k` bytes it consumed stay consumed and the rest is parsed afresh from
   * the request `v` it left.
   */
  lemma RunExtend(s: RequestView, data: Bytes, more: Bytes, k: nat, v: RequestView)
    requires Run(s, data) == StepResult(k, None, v)
    ensures k <= |data| && Run(s, data + more) == Then(k, Run(v, data[k..] + more))
  {
    StepObeysLaws();
    RunWithExtend(Step, s, data, more, k, v);
  }

  /**
   * In state ParsingHeaders, parse reads the header block exactly as ParseBlock does:
   * a complete block is consumed whole and leaves the request in ParsingBody with the
   * block's fields, parsing going on from the bytes after it; a rejected line is
   * reported with nothing consumed; an unfinished block leaves the request waiting
   * in ParsingHeaders.
   */
  lemma {:induction false} RunHeaderBlock(s: RequestView, data: Bytes)
    requires s.state == ParsingHeaders
    ensures match ParseBlock(s.fields, data)
      case BlockDone(m, c) =>
        c <= |data| && Run(s, data) == Then(c, Run(s.(state := ParsingBody, fields := m), data[c..]))
      case BlockError(e) => Run(s, data) == StepResult(0, Some(e), Run(s, data).next)
      case BlockIncomplete => Run(s, data).err.None? && Run(s, data).next.state == ParsingHeaders
  {
    var b := ParseBlock(s.fields, data);
    if b.BlockDone? {
      RunHeaderBlockDone(s, data, b.fields, b.consumed);
    } else if b.BlockError? {
      RunHeaderBlockError(s, data, b.error);
    } else {
      RunHeaderBlockIncomplete(s, data);
    }
  }

  lemma {:induction false} RunHeaderBlockDone(s: RequestView, data: Bytes, m: Fields, c: nat)
    requires s.state == ParsingHeaders && ParseBlock(s.fields, data) == BlockDone(m, c)
    ensures c <= |data| && Run(s, data) == Then(c, Run(s.(state := ParsingBody, fields := m), data[c..]))
    decreases |data|
  {
    RunHeaderLine(s, data);
    if ParseLine(data).EndOfBlock? {
      assert s.(state := ParsingBody, fields := s.fields) == s.(state := ParsingBody);
    } else {
      var k := ParseLine(data).consumed;
      var s1 := s.(fields := SetAll(s.fields, ParseLine(data).name, ParseLine(data).values));
      var rest := data[k..];
      var c' := ParseBlock(s1.fields, rest).consumed;
      RunHeaderBlockDone(s1, rest, m, c');
      var v := s.(state := ParsingBody, fields := m);
      assert s1.(state := ParsingBody, fields := m) == v;
      assert rest[c'..] == data[c..];
      ThenThen(k, c', Run(v, data[c..]));
    }
  }

  lemma {:induction false} RunHeaderBlockError(s: RequestView, data: Bytes, e: Error)
    requires s.state == ParsingHeaders && ParseBlock(s.fields, data) == BlockError(e)
    ensures Run(s, data).n == 0 && Run(s, data).err == Some(e)
    decreases |data|
  {
    RunHeaderLine(s, data);
    if ParseLine(data).FieldLine? {
      var k := ParseLine(data).consumed;
      var s1 := s.(fields := SetAll(s.fields, ParseLine(data).name, ParseLine(data).values));
      RunHeaderBlockError(s1, data[k..], e);
    }
  }

  lemma {:induction false} RunHeaderBlockIncomplete(s: RequestView, data: Bytes)
    requires s.state == ParsingHeaders && ParseBlock(s.fields, data) == BlockIncomplete
    ensures Run(s, data).err.None? && Run(s, data).next.state == ParsingHeaders
    decreases |data|
  {
    RunHeaderLine(s, data);
    if ParseLine(data).FieldLine? {
      var k := ParseLine(data).consumed;
      var s1 := s.(fields := SetAll(s.fields, ParseLine(data).name, ParseLine(data).values));
      RunHeaderBlockIncomplete(s1, data[k..]);
    }
  }

  /** Counting `a` bytes and then `b` more is counting `a + b`. */
  lemma ThenThen(a: nat, b: nat, r: StepResult)
    ensures Then(a, Then(b, r)) == Then(a + b, r)
  {
  }

  /** The first turn of parse in state ParsingHeaders, by the header line it meets. */
  lemma RunHeaderLine(s: RequestView, data: Bytes)
    requires s.state == ParsingHeaders
    ensures ParseLine(data).NeedMore? ==> Run(s, data) == StepResult(0, None, s)
    ensures ParseLine(data).EndOfBlock? ==> Run(s, data) == Then(2, Run(s.(state := ParsingBody), data[2..]))
    ensures ParseLine(data).Malformed? ==> Run(s, data) == StepResult(0, Some(ParseLine(data).error), s)
    ensures ParseLine(data).FieldLine? ==>
              ParseLine(data).consumed <= |data|
              && Run(s, data) == Then(ParseLine(data).consumed,
                                      Run(s.(fields := SetAll(s.fields, ParseLine(data).name, ParseLine(data).values)),
                                          data[ParseLine(data).consumed..]))
  {
    RunUnroll(s, data);
    ParseEffectFacts(s.fields, data);
  }


  /**
   * What reading a whole request from a reader yields when the reader hands out `input`
   * and then fails (`failed`) or ends: the request once parsing reaches Done, the parse
   * error, or the read failure or an incomplete request when input runs out first.
   */
  function Reference(input: Bytes, failed: bool): Result<RequestView> {
    var r := Run(Initial, input);
    if r.err.Some? then Err(r.err.value)
    else if r.next.state == Done then Ok(r.next)
    else Err(if failed then ReadFailure else IncompleteRequest)
  }

  /**
   * One turn of the reading loop: after `consumed` bytes of `seen` were parsed into `v`,
   * parsing the unparsed rest together with the `arrived` bytes continues parsing
   * everything read so far, `seen'`.
   */
  lemma ReaderLoopStep(seen: Bytes, consumed: nat, v: RequestView, arrived: Bytes, chunk: Bytes,
                       n: nat, e: Option<Error>, next: RequestView, seen': Bytes, consumed': nat)
    requires consumed <= |seen| && Run(Initial, seen) == StepResult(consumed, None, v)
    requires chunk == seen[consumed..] + arrived && StepResult(n, e, next) == Run(v, chunk)
    requires seen' == seen + arrived && consumed' == consumed + n
    ensures e.Some? ==> Run(Initial, seen').err == e
    ensures e.None? ==> Run(Initial, seen') == StepResult(consumed', None, next)
    ensures consumed' <= |seen'| && n <= |chunk| && chunk[n..] == seen'[consumed'..]
  {
    RunExtend(Initial, seen, arrived, consumed, v);
    SliceAfterAppend(seen, arrived, consumed, n, seen', consumed');
  }

  lemma SliceAfterAppend(a: Bytes, b: Bytes, c: nat, n: nat, ab: Bytes, cn: nat)
    requires ab == a + b && cn == c + n && c <= |a| && cn <= |ab|
    ensures a[c..] + b == ab[c..]
    ensures (a[c..] + b)[n..] == ab[cn..]
  {
  }

  /** Input that leaves the request neither done nor failed ends in the read failure or as incomplete. */
  lemma ReferenceWhenStalled(seen: Bytes, consumed: nat, v: RequestView, failed: bool)
    requires Run(Initial, seen) == StepResult(consumed, None, v) && v.state != Done
    ensures Reference(seen, failed) == Err(if failed then ReadFailure else IncompleteRequest)
  {
  }

  /** Once a prefix of the input completes the request, later input is never looked at. */
  lemma ReferenceWhenDone(seen: Bytes, rest: Bytes, failed: bool, consumed: nat, v: RequestView)
    requires Run(Initial, seen) == StepResult(consumed, None, v) && v.state == Done
    ensures Reference(seen + rest, failed) == Ok(v)
  {
    RunExtend(Initial, seen, rest, consumed, v);
  }

  /** Once a prefix of the input is rejected, later input does not change the error. */
  lemma ReferenceWhenRejected(seen: Bytes, rest: Bytes, failed: bool, e: Error)
    requires Run(Initial, seen).err == Some(e)
    ensures Reference(seen + rest, failed) == Err(e)
  {
    RunExtendErr(Initial, seen, rest);
  }

  // ---------------------------------------------------------------------------
  // The Request object

  class Request {
    var state: State
    var requestLine: RequestLine
    const headers: Headers
    var body: Bytes

    ghost predicate Valid()
      reads this, headers
    {
      headers.Valid()
    }

    /** The request's contents as a value. */
    function View(): RequestView
      reads this, headers
    {
      RequestView(state, requestLine, headers.fields, body)
    }

    constructor ()
      ensures Valid() && fresh(headers)
      ensures View() == Initial
    {
      state := Initialized;
      requestLine := RequestLine([], [], []);
      headers := new Headers();
      body := [];
    }

    /** parseSingle, updating the request in place. */
    method ParseSingle(data: Bytes) returns (n: nat, err: Option<Error>)
      requires Valid()
      modifies this, headers
      ensures Valid()
      ensures StepResult(n, err, View()) == Step(old(View()), data)
    {
      match state
      case Initialized =>
        var line := ParseRequestLine(data);
        if line.Err? {
          return 0, Some(line.error);
        }
        if line.value.None? {
          return 0, None;
        }
        requestLine := line.value.value.0;
        state := ParsingHeaders;
        return line.value.value.1, None;
      case ParsingHeaders =>
        var k, done, e := headers.Parse(data);
        if e.Some? {
          return 0, e;
        }
        if done {
          state := ParsingBody;
        }
        return k, None;
      case ParsingBody =>
        var lengthString := headers.Get(ContentLengthKey);
        if lengthString == [] || lengthString == Ascii("0") {
          state := Done;
          return 0, None;
        }
        var length := Atoi(lengthString);
        if length.None? || length.value < 0 {
          return 0, Some(InvalidContentLength);
        }
        if |data| < length.value {
          return 0, None;
        }
        body := data[..length.value];
        state := Done;
        return length.value, None;
      case Done =>
        return 0, Some(DoneState);
    }

    /** parse: parseSingle on the unparsed rest of `data` until done, stalled or failed. */
    method Parse(data: Bytes) returns (n: nat, err: Option<Error>)
      requires Valid()
      modifies this, headers
      ensures Valid()
      ensures StepResult(n, err, View()) == Run(old(View()), data)
    {
      ghost var start := View();
      var total := 0;
      while state != Done
        invariant Valid() && total <= |data| && Resumes(start, data, total, View())
        decreases |data| - total
      {
        ghost var before, at := View(), total;
        var k, e := ParseSingle(data[total..]);
        total := total + k;
        ParseLoopStep(start, data, at, before, k, e, View(), total);
        if e.Some? {
          return 0, e;
        }
        if k == 0 {
          break;
        }
      }
      if state == Done {
        RunDone(View(), data[total..]);
        assert Resumes(start, data, total, View());
      }
      return total, None;
    }
  }

  /**
   * What the reading loop knows after every turn: `seen` is what the reader handed out
   * so far, `events` what it has left, parsing `seen` consumed `consumed` bytes and
   * produced `v`, and `unparsed` is the rest of `seen`.
   */
  ghost predicate Progress(script: seq<Event>, events: seq<Event>, seen: Bytes, consumed: nat, v: RequestView, unparsed: Bytes) {
    consumed <= |seen| && unparsed == seen[consumed..]
    && seen + Delivered(events) == Delivered(script) && Fails(events) == Fails(script)
    && Run(Initial, seen) == StepResult(consumed, None, v)
  }

  /** Before the first read nothing is seen and nothing parsed. */
  lemma ProgressStart(script: seq<Event>)
    ensures Progress(script, script, [], 0, Initial, [])
  {
    RunUnroll(Initial, []);
  }

  /** One turn of the reading loop: the parse outcome settles the request or keeps the loop going. */
  lemma ProgressStep(script: seq<Event>, before: seq<Event>, after: seq<Event>, seen: Bytes, consumed: nat,
                     v: RequestView, unparsed: Bytes, arrived: Bytes, chunk: Bytes,
                     n: nat, e: Option<Error>, next: RequestView, seen': Bytes, consumed': nat)
    requires Progress(script, before, seen, consumed, v, unparsed)
    requires Delivered(before) == arrived + Delivered(after) && Fails(after) == Fails(before)
    requires chunk == unparsed + arrived && StepResult(n, e, next) == Run(v, chunk)
    requires seen' == seen + arrived && consumed' == consumed + n
    ensures n <= |chunk|
    ensures e.Some? ==> Reference(Delivered(script), Fails(script)) == Err(e.value)
    ensures e.None? ==> Progress(script, after, seen', consumed', next, chunk[n..])
  {
    ReaderLoopStep(seen, consumed, v, arrived, chunk, n, e, next, seen', consumed');
    AppendAssociative(seen, arrived, Delivered(after));
    if e.Some? {
      ReferenceWhenRejected(seen', Delivered(after), Fails(after), e.value);
    }
  }

  /** Input that runs out before the request is done ends in the read failure or as incomplete. */
  lemma ProgressStalled(script: seq<Event>, events: seq<Event>, seen: Bytes, consumed: nat, v: RequestView, unparsed: Bytes)
    requires Progress(script, events, seen, consumed, v, unparsed)
    requires Delivered(events) == [] && v.state != Done
    ensures Reference(Delivered(script), Fails(script)) == Err(if Fails(events) then ReadFailure else IncompleteRequest)
  {
    AppendEmpty(seen);
    ReferenceWhenStalled(seen, consumed, v, Fails(events));
  }

  /** Once parsing what was read completes the request, the rest of the input is never looked at. */
  lemma ProgressDone(script: seq<Event>, events: seq<Event>, seen: Bytes, consumed: nat, v: RequestView, unparsed: Bytes)
    requires Progress(script, events, seen, consumed, v, unparsed) && v.state == Done
    ensures Reference(Delivered(script), Fails(script)) == Ok(v)
  {
    ReferenceWhenDone(seen, Delivered(events), Fails(events), consumed, v);
  }

  /**
   * RequestFromReader: read into a buffer that starts at BufferSize bytes and doubles when
   * full, parse after every read, and shift the unparsed bytes to the front. The outcome
   * is the reference outcome of everything the reader hands out, however it is split up.
   */
  method RequestFromReader(reader: Reader) returns (req: Request?, err: Option<Error>)
    modifies reader
    ensures match Reference(Delivered(old(reader.events)), Fails(old(reader.events)))
      case Ok(v) => err.None? && req != null && req.View() == v
      case Err(e) => err == Some(e) && req == null
  {
    ghost var script := reader.events;
    var r := new Request();
    var buf := new Byte[BufferSize];
    var readToIndex := 0;
    ghost var seen: Bytes := [];
    ghost var consumed: nat := 0;
    ProgressStart(script);
    while r.state != Done
      invariant fresh(r) && fresh(r.headers) && fresh(buf) && r.Valid()
      invariant 0 <= readToIndex <= buf.Length && buf.Length >= 1
      invariant Progress(script, reader.events, seen, consumed, r.View(), buf[..readToIndex])
      decreases Size(reader.events)
    {
      var e;
      buf, readToIndex, e, seen, consumed := Round(reader, r, buf, readToIndex, script, seen, consumed);
      if e.Some? {
        return null, e;
      }
    }
    ProgressDone(script, reader.events, seen, consumed, r.View(), buf[..readToIndex]);
    return r, None;
  }

  /**
   * One turn of the reading loop: read more bytes, parse what is buffered and keep the
   * unparsed rest; or stop with the error the whole input leads to.
   */
  method Round(reader: Reader, r: Request, buf: array<Byte>, len: nat,
               ghost script: seq<Event>, ghost seen: Bytes, ghost consumed: nat)
      returns (grown: array<Byte>, left: nat, err: Option<Error>, ghost seen': Bytes, ghost consumed': nat)
    requires r.Valid() && r.state != Done && len <= buf.Length && buf.Length >= 1
    requires Progress(script, reader.events, seen, consumed, r.View(), buf[..len])
    modifies reader, r, r.headers, buf
    ensures r.Valid() && (grown == buf || fresh(grown))
    ensures left <= grown.Length && grown.Length >= 1
    ensures err.None? ==> Size(reader.events) < Size(old(reader.events))
    ensures err.None? ==> Progress(script, reader.events, seen', consumed', r.View(), grown[..left])
    ensures err.Some? ==> Reference(Delivered(script), Fails(script)) == Err(err.value)
  {
    ghost var before := reader.events;
    ghost var unparsed := buf[..len];
    var k, status;
    ghost var arrived;
    grown, k, status, arrived := Fill(reader, buf, len);
    if status != ReadOk {
      ProgressStalled(script, before, seen, consumed, r.View(), unparsed);
      return grown, len, Some(if status == ReadError then ReadFailure else IncompleteRequest), seen, consumed;
    }
    ghost var v := r.View();
    ghost var chunk := unparsed + arrived;
    var n;
    left, n, err := Consume(r, grown, len + k, chunk);
    seen', consumed' := seen + arrived, consumed + n;
    ProgressStep(script, before, reader.events, seen, consumed, v, unparsed, arrived, chunk, n, err, r.View(), seen', consumed');
  }

  /**
   * One read into the buffer after the `len` unparsed bytes, first moving them to a
   * buffer twice as large when the buffer is full.
   */
  method Fill(reader: Reader, buf: array<Byte>, len: nat)
      returns (grown: array<Byte>, k: nat, status: ReadStatus, ghost arrived: Bytes)
    requires len <= buf.Length && buf.Length >= 1
    modifies reader, buf
    ensures len < buf.Length ==> grown == buf
    ensures len >= buf.Length ==> fresh(grown) && grown.Length == 2 * buf.Length
    ensures len + k <= grown.Length
    ensures grown[..len + k] == old(buf[..len]) + arrived
    ensures status == ReadOk ==> Delivered(old(reader.events)) == arrived + Delivered(reader.events)
    ensures status == ReadOk ==> Fails(reader.events) == Fails(old(reader.events))
    ensures status == ReadOk ==> Size(reader.events) < Size(old(reader.events))
    ensures status != ReadOk ==> k == 0 && Delivered(old(reader.events)) == []
    ensures status != ReadOk ==> (status == ReadError <==> Fails(old(reader.events)))
  {
    grown := buf;
    if len >= buf.Length {
      // The buffer is full: continue in one twice as large.
      grown := Grow(buf, len);
    }
    ghost var unparsed := grown[..len];
    k, status := reader.Read(grown, len);
    arrived := grown[len..len + k];
    ReadAppends(grown[..], unparsed, len, k);
  }

  /** A buffer twice as large holding the first `len` bytes of `buf`. */
  method Grow(buf: array<Byte>, len: nat) returns (bigger: array<Byte>)
    requires len <= buf.Length
    ensures fresh(bigger) && bigger.Length == buf.Length * 2
    ensures bigger[..len] == buf[..len]
  {
    bigger := new Byte[buf.Length * 2];
    forall i | 0 <= i < buf.Length {
      bigger[i] := buf[i];
    }
  }

  /** copy(buf, buf[n:]): the bytes from n up to len move to the front. */
  method Compact(buf: array<Byte>, n: nat, len: nat, ghost unparsed: Bytes)
    requires n <= len <= buf.Length && buf[..len] == unparsed
    modifies buf
    ensures buf[..len - n] == unparsed[n..]
  {
    forall i | 0 <= i < buf.Length - n {
      buf[i] := buf[i + n];
    }
  }

  /**
   * Parse the `len` buffered bytes into `r`, then shift the bytes left unparsed to the
   * front of the buffer (Go's copy(buf, buf[n:])).
   */
  method Consume(r: Request, buf: array<Byte>, len: nat, ghost chunk: Bytes)
      returns (left: nat, n: nat, err: Option<Error>)
    requires r.Valid() && len <= buf.Length && buf[..len] == chunk
    modifies r, r.headers, buf
    ensures r.Valid()
    ensures StepResult(n, err, r.View()) == Run(old(r.View()), chunk)
    ensures left <= len
    ensures err.None? ==> left == len - n && buf[..left] == chunk[n..]
  {
    n, err := r.Parse(buf[..len]);
    if err.Some? {
      return len, n, err;
    }
    left := len;
    if n > 0 {
      Compact(buf, n, len, chunk);
      left := len - n;
    } else {
      assert chunk[0..] == chunk;
    }
  }

  lemma AppendEmpty(s: Bytes)
    ensures s + [] == s
  {
  }

  lemma AppendAssociative(a: Bytes, b: Bytes, c: Bytes)
    ensures a + b + c == a + (b + c)
  {
  }

  /** The buffer after a read: the old unparsed bytes followed by the `k` bytes read. */
  lemma ReadAppends(buf: Bytes, unparsed: Bytes, off: nat, k: nat)
    requires off + k <= |buf| && buf[..off] == unparsed
    ensures buf[..off + k] == unparsed + buf[off..off + k]
  {
  }
}
