/**
 * How the two halves of the framing code fit together: what the response writer sends
 * as a header block, the header parser of the request side reads back as the same map,
 * and the Content-Length it announces is the length of the body that follows.
 */
module Framing {
  import opened Errors
  import opened Bytes
  import opened Numbers
  import opened Headers
  import opened Response
  import Request

  /**
   * A field value the header parser reads back unchanged: not blank, no white space at
   * either end, no ';' (which the parser splits at) and no CR (which could end the line).
   */
  predicate PlainValue(v: Bytes) {
    v != [] && !IsSpace(v[0]) && !IsSpace(v[|v| - 1]) && Semicolon !in v && CR !in v
  }

  /** An entry whose field line reads back as itself: a lower-case token name and a plain value. */
  predicate Writable(name: Bytes, value: Bytes) {
    ValidToken(name) && ToLower(name) == name && PlainValue(value)
  }

  /** A map whose header block reads back as itself. */
  predicate Transmissible(m: Fields) {
    forall k | k in m :: Writable(k, m[k])
  }

  /** `order` names keys of `m` once each, none of them already in `acc`. */
  predicate FreshOrder(acc: Fields, m: Fields, order: seq<Bytes>) {
    Distinct(order) && forall k | k in order :: k in m && k !in acc
  }

  /** SplitTwo cuts at the first separator, so a head without one is the first part. */
  lemma SplitTwoAt(s: Bytes, sep: Byte, a: Bytes, b: Bytes)
    requires sep !in a && s == a + [sep] + b
    ensures SplitTwo(s, sep) == [a, b]
  {
    assert s[..|a|] == a;
    IndexOfIs(s, sep, |a|);
    assert s[|a| + 1..] == b;
  }

  /** A token holds no CR, no colon and no white space. */
  lemma TokenHasNoDelimiter(name: Bytes)
    requires ValidToken(name)
    ensures CR !in name && Colon !in name
    ensures name != [] ==> !IsSpace(name[0])
  {
    forall i | 0 <= i < |name|
      ensures name[i] != CR && name[i] != Colon && !IsSpace(name[i])
    {
      TokenCharIsNotDelimiter(name[i]);
    }
  }

  /** The line WriteHeaders writes for one entry parses as that entry, whatever follows it. */
  lemma ParseFieldLine(name: Bytes, value: Bytes, tail: Bytes)
    requires ValidToken(name) && PlainValue(value)
    ensures ParseLine(FieldLineText(name, value) + tail) == FieldLine(name, [value], |FieldLineText(name, value)|)
  {
    var line := name + [Colon, SP] + value;
    var s := FieldLineText(name, value) + tail;
    assert s == line + CRLF + tail;
    LineEndsAtCRLF(name, value, line, s);
    LineIsTrimmed(name, value, line);
    TokenHasNoDelimiter(name);
    SplitTwoAt(line, Colon, name, [SP] + value);
    SingleValue(value);
  }

  lemma LineEndsAtCRLF(name: Bytes, value: Bytes, line: Bytes, s: Bytes)
    requires ValidToken(name) && CR !in value && line == name + [Colon, SP] + value
    requires |s| >= |line| + 2 && s[..|line| + 2] == line + CRLF
    ensures IndexCRLF(s) == |line| && s[..|line|] == line
  {
    TokenHasNoDelimiter(name);
    assert s[..|line|] == line;
    assert CR !in line;
    assert s[|line|] == CR && s[|line| + 1] == LF;
    IndexCRLFAfterNoCR(s, |line|);
  }

  lemma LineIsTrimmed(name: Bytes, value: Bytes, line: Bytes)
    requires ValidToken(name) && PlainValue(value) && line == name + [Colon, SP] + value
    ensures TrimSpace(line) == line
  {
    TokenHasNoDelimiter(name);
    assert line[0] == if name == [] then Colon else name[0];
    assert line[|line| - 1] == value[|value| - 1];
    TrimSpaceOfTrimmed(line);
  }

  /** The value part of the line, " " then a plain value, is that one value. */
  lemma SingleValue(value: Bytes)
    requires PlainValue(value)
    ensures Values(Split([SP] + value, Semicolon)) == [value]
  {
    var seg := [SP] + value;
    assert Semicolon !in seg;
    SplitUnique([seg], Semicolon);
    assert Split(seg, Semicolon) == [seg];
    TrimSpaceDropsSpace(value);
    var segs: seq<Bytes> := [seg];
    assert segs[..0] == [];
  }

  /** The map `acc` with the entries of `m` named by `order` added. */
  function Extended(acc: Fields, m: Fields, order: seq<Bytes>): Fields
    requires forall k | k in order :: k in m
    decreases |order|
  {
    if order == [] then acc else Extended(acc[order[0] := m[order[0]]], m, order[1..])
  }

  /** The header parser reads the lines for `order` one by one into `acc`, then stops at the CRLF. */
  lemma {:induction false} ParseLines(acc: Fields, m: Fields, order: seq<Bytes>, rest: Bytes)
    requires Transmissible(m) && FreshOrder(acc, m, order)
    ensures ParseBlock(acc, FieldLines(m, order) + CRLF + rest)
         == BlockDone(Extended(acc, m, order), |FieldLines(m, order)| + 2)
    decreases |order|
  {
    if order == [] {
      ParseBlockEnd(acc, CRLF + rest);
    } else {
      var k := order[0];
      TailOfOrder(acc, m, order);
      var acc', tail := acc[k := m[k]], order[1..];
      ParseLines(acc', m, tail, rest);
      var line, lines := FieldLineText(k, m[k]), FieldLines(m, tail);
      assert FieldLines(m, order) == line + lines;
      AppendFour(line, lines, CRLF, rest);
      ParseBlockLine(acc, k, m[k], lines + CRLF + rest, FieldLines(m, order) + CRLF + rest,
                     Extended(acc', m, tail), |lines| + 2);
    }
  }

  /** The header parser on a buffer that starts with CRLF: the end of the block. */
  lemma ParseBlockEnd(acc: Fields, data: Bytes)
    requires |data| >= 2 && data[..2] == CRLF
    ensures ParseBlock(acc, data) == BlockDone(acc, 2)
  {
    IndexCRLFIs(data, 0);
  }

  /** The header parser on a buffer that starts with a written field line. */
  lemma ParseBlockLine(acc: Fields, k: Bytes, v: Bytes, later: Bytes, data: Bytes, done: Fields, c: nat)
    requires Writable(k, v) && k !in acc
    requires data == FieldLineText(k, v) + later && ParseBlock(acc[k := v], later) == BlockDone(done, c)
    ensures ParseBlock(acc, data) == BlockDone(done, |FieldLineText(k, v)| + c)
  {
    ParseFieldLine(k, v, later);
    assert data[|FieldLineText(k, v)|..] == later;
    SetAllOne(acc, k, v);
  }

  /** Setting one value under a lower-case name not yet present stores it as it is. */
  lemma SetAllOne(acc: Fields, k: Bytes, v: Bytes)
    requires ToLower(k) == k && k !in acc
    ensures SetAll(acc, k, [v]) == acc[k := v]
  {
    var single: seq<Bytes> := [v];
    assert single[..0] == [];
  }

  /** What ParseLines needs of the rest of the order. */
  lemma TailOfOrder(acc: Fields, m: Fields, order: seq<Bytes>)
    requires order != [] && FreshOrder(acc, m, order)
    ensures order[0] in m && order[0] !in acc
    ensures FreshOrder(acc[order[0] := m[order[0]]], m, order[1..])
  {
    var k := order[0];
    assert order[0] in order;
    forall i, j | 0 <= i < j < |order[1..]| ensures order[1..][i] != order[1..][j] {
      assert order[1..][i] == order[i + 1] && order[1..][j] == order[j + 1];
    }
    forall j | j in order[1..] ensures j in m && j !in acc[k := m[k]] {
      var i :| 0 <= i < |order[1..]| && order[1..][i] == j;
      assert order[i + 1] == j && order[0] == k;
    }
  }

  /** Adding every entry of `m`, named once each, to an empty map gives back `m`. */
  lemma {:induction false} ExtendedAll(acc: Fields, m: Fields, order: seq<Bytes>)
    requires Distinct(order) && (forall k | k in order :: k in m && k !in acc)
    requires forall k | k in acc :: k in m && acc[k] == m[k]
    requires forall k | k in m :: k in acc || k in order
    ensures Extended(acc, m, order) == m
    decreases |order|
  {
    if order == [] {
      assert acc == m;
    } else {
      var k := order[0];
      forall j | j in order[1..] ensures j in m && j !in acc[k := m[k]] {
        var i :| 0 <= i < |order[1..]| && order[1..][i] == j;
        assert order[i + 1] == j;
      }
      forall j | j in m ensures j in acc[k := m[k]] || j in order[1..] {
        if j !in acc && j != k {
          var i :| 0 <= i < |order| && order[i] == j;
          assert order[1..][i - 1] == j;
        }
      }
      assert Distinct(order[1..]) by {
        forall i, j | 0 <= i < j < |order[1..]| ensures order[1..][i] != order[1..][j] {
          assert order[1..][i] == order[i + 1] && order[1..][j] == order[j + 1];
        }
      }
      ExtendedAll(acc[k := m[k]], m, order[1..]);
    }
  }

  /**
   * What WriteHeaders sends, in any order a range over the map may take, the header
   * parser reads back as the same map, consuming exactly the block.
   */
  lemma HeaderBlockRoundTrip(m: Fields, order: seq<Bytes>, rest: Bytes)
    requires Transmissible(m) && IsEnumeration(order, m)
    ensures ParseBlock(map[], HeaderBlock(m, order) + rest) == BlockDone(m, |HeaderBlock(m, order)|)
  {
    assert FreshOrder(map[], m, order);
    ParseLines(map[], m, order, rest);
    ExtendedAll(map[], m, order);
    assert HeaderBlock(m, order) + rest == FieldLines(m, order) + CRLF + rest;
  }

  /** A non-negative decimal number is a plain value. */
  lemma DecimalIsPlain(n: nat)
    ensures PlainValue(Itoa(n))
  {
    var d := Itoa(n);
    assert forall i | 0 <= i < |d| :: IsDigit(d[i]);
  }

  /** Lower-case letters and '-' only. */
  predicate LowerDash(s: string) {
    forall i | 0 <= i < |s| :: 'a' <= s[i] <= 'z' || s[i] == '-'
  }

  /** Visible characters other than ';'. */
  predicate Visible(s: string) {
    forall i | 0 <= i < |s| :: '!' <= s[i] <= '~' && s[i] != ';'
  }

  /** A name of lower-case letters and '-' is a lower-case token. */
  lemma LowerDashToken(s: string)
    requires LowerDash(s)
    ensures ValidToken(Ascii(s)) && ToLower(Ascii(s)) == Ascii(s)
  {
    assert TokenPunctuation[8] == 45;
    forall i | 0 <= i < |s| ensures IsTokenChar(Ascii(s)[i]) && !IsUpperLetter(Ascii(s)[i]) {
      assert Ascii(s)[i] == s[i] as int;
    }
    ToLowerFixed(Ascii(s));
  }

  /** A non-empty string of visible characters other than ';' is a plain value. */
  lemma VisiblePlain(s: string)
    requires s != [] && Visible(s)
    ensures PlainValue(Ascii(s))
  {
    forall i | 0 <= i < |s| ensures Ascii(s)[i] == s[i] as int {
    }
  }

  /** The map of GetDefaultHeaders, for a plain content type, reads back through its header block. */
  lemma DefaultFieldsTransmissible(n: nat, contentType: Bytes)
    requires PlainValue(contentType)
    ensures Transmissible(DefaultFields(n, contentType))
  {
    DecimalIsPlain(n);
    DefaultNamesWritable();
  }

  /** The names GetDefaultHeaders sets are lower-case tokens, and "close" is a plain value. */
  lemma DefaultNamesWritable()
    ensures ValidToken(ContentLengthName) && ToLower(ContentLengthName) == ContentLengthName
    ensures ValidToken(ConnectionName) && ToLower(ConnectionName) == ConnectionName
    ensures ValidToken(ContentTypeName) && ToLower(ContentTypeName) == ContentTypeName
    ensures PlainValue(Close)
  {
    LowerDashToken("content-length");
    LowerDashToken("connection");
    LowerDashToken("content-type");
    VisiblePlain("close");
  }

  /** The Content-Length GetDefaultHeaders announces is read back as the same length. */
  lemma DefaultContentLength(n: nat, contentType: Bytes)
    requires n <= MaxInt64
    ensures Request.ContentLength(DefaultFields(n, contentType)) == Some(n)
  {
    var m := DefaultFields(n, contentType);
    assert Request.ContentLengthKey == ContentLengthName && ContentLengthName in m;
    assert Lookup(m, ContentLengthName) == Itoa(n);
    AtoiItoa(n);
  }

  /**
   * A response whose header block is the default map for a body: the block reads back
   * as that map, its Content-Length is the body's length and the body follows the block.
   */
  lemma DefaultBlockFraming(n: nat, contentType: Bytes, order: seq<Bytes>, body: Bytes, data: Bytes, block: Bytes)
    requires PlainValue(contentType) && IsEnumeration(order, DefaultFields(n, contentType))
    requires n == |body| <= MaxInt64
    requires block == HeaderBlock(DefaultFields(n, contentType), order) && data == block + body
    ensures ParseBlock(map[], data) == BlockDone(DefaultFields(n, contentType), |block|)
    ensures Request.ContentLength(DefaultFields(n, contentType)) == Some(|body|)
    ensures data[|block|..] == body
  {
    DefaultFieldsTransmissible(n, contentType);
    HeaderBlockRoundTrip(DefaultFields(n, contentType), order, body);
    DefaultContentLength(n, contentType);
  }

  /**
   * The request parser itself reads such a response's framing: from ParsingHeaders with
   * no fields and no body yet, a header block of a transmissible map that announces
   * the length of the bytes after it is consumed whole, together with exactly those
   * bytes as the body, and the request is Done with that map and that body.
   */
  lemma RequestReadsHeaderBlock(s: Request.RequestView, m: Fields, order: seq<Bytes>, body: Bytes)
    requires s.state == Request.ParsingHeaders && s.fields == map[] && s.body == []
    requires Transmissible(m) && IsEnumeration(order, m) && Request.ContentLength(m) == Some(|body|)
    ensures Request.Run(s, HeaderBlock(m, order) + body)
         == Request.StepResult(|HeaderBlock(m, order)| + |body|, None,
                               s.(state := Request.Done, fields := m, body := body))
  {
    var block := HeaderBlock(m, order);
    var data := block + body;
    HeaderBlockRoundTrip(m, order, body);
    Request.RunHeaderBlock(s, data);
    assert data[|block|..] == body;
    var v := s.(state := Request.ParsingBody, fields := m);
    Request.RunUnroll(v, body);
    if |body| > 0 {
      assert body[..|body|] == body;
      assert body[|body|..] == [];
      Request.RunDone(v.(state := Request.Done, body := body), []);
    }
  }
}
