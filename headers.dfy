/**
 * The header map of internal/headers/headers.go: a map from lower-cased field names to
 * values, where setting a name that is already present appends the new value after a
 * comma, and the parser of one CRLF-terminated field line.
 */
module Headers {
  import opened Errors
  import opened Bytes

  type Fields = map<Bytes, Bytes>

  /** The map invariant: every key is stored lower-cased. */
  predicate LowerKeys(m: Fields) {
    forall k | k in m :: ToLower(k) == k
  }

  // ---------------------------------------------------------------------------
  // Field names: the token rule of RFC 9110 section 5.6.2

  /** The fifteen punctuation marks a token may contain besides letters and digits. */
  const TokenPunctuation: Bytes := Ascii("!#$%&'*+-.^_`|~")

  predicate IsTokenChar(c: Byte) {
    (97 <= c <= 122) || (65 <= c <= 90) || (48 <= c <= 57) || c in TokenPunctuation
  }

  /** Every byte is a token character; the empty name passes. */
  predicate ValidToken(data: Bytes) {
    forall i | 0 <= i < |data| :: IsTokenChar(data[i])
  }

  /** No token character is white space, a colon, a semicolon or a CR. */
  lemma TokenCharIsNotDelimiter(c: Byte)
    requires IsTokenChar(c)
    ensures !IsSpace(c) && c != Colon && c != Semicolon && c != CR
  {
    assert TokenPunctuation == [33, 35, 36, 37, 38, 39, 42, 43, 45, 46, 94, 95, 96, 124, 126];
  }

  // ---------------------------------------------------------------------------
  // Set and Get on map values

  /**
   * Set: the value is stored under the lower-cased key; a value already there is kept and
   * the new one appended after a comma, with no space. No other key changes.
   */
  function SetValue(m: Fields, key: Bytes, value: Bytes): (r: Fields)
    ensures r.Keys == m.Keys + {ToLower(key)}
    ensures r[ToLower(key)] == if ToLower(key) in m then m[ToLower(key)] + [Comma] + value else value
    ensures forall k | k in m && k != ToLower(key) :: r[k] == m[k]
    ensures LowerKeys(m) ==> LowerKeys(r)
  {
    var k := ToLower(key);
    ToLowerIdempotent(key);
    if k in m then m[k := m[k] + [Comma] + value] else m[k := value]
  }

  /** Get: the value under the lower-cased key, or the empty string when it is absent. */
  function Lookup(m: Fields, key: Bytes): Bytes {
    var k := ToLower(key);
    if k in m then m[k] else []
  }

  /** Get ignores case: any two spellings of a name that lower-case alike see the same value. */
  lemma LookupIgnoresCase(m: Fields, a: Bytes, b: Bytes)
    requires ToLower(a) == ToLower(b)
    ensures Lookup(m, a) == Lookup(m, b)
  {
  }

  /** After Set(key, value), Get with any spelling of key sees the merged value. */
  lemma LookupAfterSet(m: Fields, key: Bytes, value: Bytes, probe: Bytes)
    requires ToLower(probe) == ToLower(key)
    ensures Lookup(SetValue(m, key, value), probe)
         == if ToLower(key) in m then m[ToLower(key)] + [Comma] + value else value
  {
  }

  /** Set touches one key only: Get of any other name is unchanged. */
  lemma LookupOtherAfterSet(m: Fields, key: Bytes, value: Bytes, probe: Bytes)
    requires ToLower(probe) != ToLower(key)
    ensures Lookup(SetValue(m, key, value), probe) == Lookup(m, probe)
  {
  }

  /** Set applied to each of `values` in turn, under one key. */
  function SetAll(m: Fields, key: Bytes, values: seq<Bytes>): (r: Fields)
    ensures r.Keys == m.Keys + (if values == [] then {} else {ToLower(key)})
    ensures forall k | k in m && k != ToLower(key) :: r[k] == m[k]
    ensures LowerKeys(m) ==> LowerKeys(r)
    decreases |values|
  {
    if values == [] then m
    else SetValue(SetAll(m, key, values[..|values| - 1]), key, values[|values| - 1])
  }

  lemma {:induction false} JoinSnoc(vs: seq<Bytes>, v: Bytes, sep: Byte)
    requires |vs| >= 1
    ensures Join(vs + [v], sep) == Join(vs, sep) + [sep] + v
    decreases |vs|
  {
    if |vs| > 1 {
      assert (vs + [v])[1..] == vs[1..] + [v];
      JoinSnoc(vs[1..], v, sep);
    }
  }

  /**
   * Repeated Set merges: setting a, b, c in turn under one key leaves "a,b,c" appended,
   * after a comma, to what was there before.
   */
  lemma {:induction false} SetAllLookup(m: Fields, key: Bytes, values: seq<Bytes>)
    requires |values| >= 1
    ensures Lookup(SetAll(m, key, values), key)
         == (if ToLower(key) in m then m[ToLower(key)] + [Comma] else []) + Join(values, Comma)
    decreases |values|
  {
    var init, last := values[..|values| - 1], values[|values| - 1];
    if |values| > 1 {
      var prefix := if ToLower(key) in m then m[ToLower(key)] + [Comma] else [];
      SetAllLookup(m, key, init);
      SetAllLookupStep(m, key, values, init, last, SetAll(m, key, init), prefix);
    }
  }

  /** One more value merged after those already set. */
  lemma SetAllLookupStep(m: Fields, key: Bytes, values: seq<Bytes>, init: seq<Bytes>, last: Bytes,
                         before: Fields, prefix: Bytes)
    requires |values| > 1 && init == values[..|values| - 1] && last == values[|values| - 1]
    requires before == SetAll(m, key, init) && Lookup(before, key) == prefix + Join(init, Comma)
    ensures Lookup(SetAll(m, key, values), key) == prefix + Join(values, Comma)
  {
    assert ToLower(key) in before;
    assert SetAll(m, key, values) == SetValue(before, key, last);
    LookupAfterSet(before, key, last, key);
    JoinSnoc(init, last, Comma);
    SnocSplit(values);
    AppendFour(prefix, Join(init, Comma), [Comma], last);
  }

  lemma SnocSplit(values: seq<Bytes>)
    requires values != []
    ensures values[..|values| - 1] + [values[|values| - 1]] == values
  {
  }

  lemma AppendFour(a: Bytes, b: Bytes, c: Bytes, d: Bytes)
    ensures a + b + c + d == a + (b + c + d)
  {
  }

  /** How the values are grouped into calls does not matter. */
  lemma {:induction false} SetAllAppend(m: Fields, key: Bytes, a: seq<Bytes>, b: seq<Bytes>)
    ensures SetAll(SetAll(m, key, a), key, b) == SetAll(m, key, a + b)
    decreases |b|
  {
    if b == [] {
      assert a + b == a;
    } else {
      SetAllAppend(m, key, a, b[..|b| - 1]);
      assert (a + b)[..|a + b| - 1] == a + b[..|b| - 1];
    }
  }

  // ---------------------------------------------------------------------------
  // Parse: one field line from the front of a buffer

  /** The trimmed, non-blank segments of a value, in order. */
  function Values(segments: seq<Bytes>): seq<Bytes> {
    if segments == [] then []
    else
      var last := TrimSpace(segments[|segments| - 1]);
      Values(segments[..|segments| - 1]) + (if last == [] then [] else [last])
  }

  /** No value is blank or starts or ends with white space, and there are no more values than segments. */
  lemma {:induction false} ValuesTrimmed(segments: seq<Bytes>)
    ensures var vs := Values(segments);
      |vs| <= |segments|
      && forall i | 0 <= i < |vs| :: vs[i] != [] && !IsSpace(vs[i][0]) && !IsSpace(vs[i][|vs[i]| - 1])
    decreases |segments|
  {
    if segments != [] {
      ValuesTrimmed(segments[..|segments| - 1]);
      TrimSpaceEnds(segments[|segments| - 1]);
    }
  }

  lemma ValuesSnoc(segments: seq<Bytes>, i: nat)
    requires i < |segments|
    ensures Values(segments[..i + 1])
         == Values(segments[..i]) + (if TrimSpace(segments[i]) == [] then [] else [TrimSpace(segments[i])])
  {
    assert segments[..i + 1][..i] == segments[..i];
  }

  lemma SetAllSnoc(m: Fields, key: Bytes, values: seq<Bytes>, v: Bytes)
    ensures SetAll(m, key, values + [v]) == SetValue(SetAll(m, key, values), key, v)
  {
    assert (values + [v])[..|values|] == values;
  }

  /** One more segment: Set is called for it exactly when it is not blank once trimmed. */
  lemma SetAllValuesSnoc(m: Fields, key: Bytes, segments: seq<Bytes>, i: nat, t: Bytes, next: nat)
    requires i < |segments| && t == TrimSpace(segments[i]) && next == i + 1
    ensures t == [] ==> SetAll(m, key, Values(segments[..next])) == SetAll(m, key, Values(segments[..i]))
    ensures t != [] ==> SetAll(m, key, Values(segments[..next]))
                        == SetValue(SetAll(m, key, Values(segments[..i])), key, t)
  {
    var pre := Values(segments[..i]);
    ValuesSnoc(segments, i);
    if t == [] {
      assert Values(segments[..i + 1]) == pre + [] == pre;
    } else {
      SetAllSnoc(m, key, pre, t);
    }
  }

  /** What Parse makes of the front of a buffer. */
  datatype LineResult =
    | NeedMore
    | EndOfBlock
    | FieldLine(name: Bytes, values: seq<Bytes>, consumed: nat)
    | Malformed(error: Error)

  /**
   * The field line up to the first CRLF: no CRLF means more data is needed, a CRLF at
   * offset 0 ends the header block; otherwise the white-space-trimmed line splits at its
   * first ':' into a name that must be a token and a value whose ';'-separated segments,
   * trimmed and without the blank ones, are the values to set. A consumed line takes
   * exactly the bytes through its CRLF.
   */
  function ParseLine(data: Bytes): (r: LineResult)
    ensures r.NeedMore? <==> IndexCRLF(data) == -1
    ensures r.EndOfBlock? <==> IndexCRLF(data) == 0
    ensures r.FieldLine? ==> r.consumed == IndexCRLF(data) + 2 && 3 <= r.consumed <= |data|
    ensures r.FieldLine? ==> ValidToken(r.name) && Colon !in r.name
    ensures r.FieldLine? ==> forall i | 0 <= i < |r.values| :: r.values[i] != []
    ensures r.Malformed? ==> r.error == MalformedHeader || r.error == InvalidHeaderToken
    ensures r == Malformed(MalformedHeader) <==> IndexCRLF(data) > 0 && Colon !in TrimSpace(data[..IndexCRLF(data)])
  {
    var i := IndexCRLF(data);
    if i == -1 then NeedMore
    else if i == 0 then EndOfBlock
    else
      var parts := SplitTwo(TrimSpace(data[..i]), Colon);
      if |parts| != 2 then Malformed(MalformedHeader)
      else if !ValidToken(parts[0]) then Malformed(InvalidHeaderToken)
      else
        ValuesTrimmed(Split(parts[1], Semicolon));
        FieldLine(parts[0], Values(Split(parts[1], Semicolon)), i + 2)
  }

  /** A field line already complete in `data` parses the same whatever bytes follow it. */
  lemma ParseLineExtend(data: Bytes, more: Bytes)
    requires !ParseLine(data).NeedMore?
    ensures ParseLine(data + more) == ParseLine(data)
  {
    var i := IndexCRLF(data);
    IndexCRLFExtend(data, more);
    assert (data + more)[..i] == data[..i];
  }

  /** The outcome of one Parse call: bytes consumed, end-of-block flag, error, new map. */
  datatype HeaderStep = HeaderStep(n: nat, done: bool, err: Option<Error>, fields: Fields)

  function ParseEffect(m: Fields, data: Bytes): HeaderStep {
    match ParseLine(data)
    case NeedMore => HeaderStep(0, false, None, m)
    case EndOfBlock => HeaderStep(2, true, None, m)
    case FieldLine(name, values, c) => HeaderStep(c, false, None, SetAll(m, name, values))
    case Malformed(e) => HeaderStep(0, false, Some(e), m)
  }

  /** Parse leaves the map alone unless it consumed a field line, and never consumes more than it has. */
  lemma ParseEffectFacts(m: Fields, data: Bytes)
    ensures ParseEffect(m, data).n <= |data|
    ensures ParseEffect(m, data).n == 0 ==> ParseEffect(m, data).fields == m && !ParseEffect(m, data).done
    ensures ParseEffect(m, data).done <==> IndexCRLF(data) == 0
    ensures ParseEffect(m, data).err.Some? ==> ParseEffect(m, data).n == 0
    ensures LowerKeys(m) ==> LowerKeys(ParseEffect(m, data).fields)
  {
  }

  // ---------------------------------------------------------------------------
  // A whole header block

  datatype BlockResult = BlockIncomplete | BlockDone(fields: Fields, consumed: nat) | BlockError(error: Error)

  /** Field lines parsed one after another from the front of `data` until the blank line. */
  function ParseBlock(m: Fields, data: Bytes): (r: BlockResult)
    ensures r.BlockDone? ==> 2 <= r.consumed <= |data|
    decreases |data|
  {
    match ParseLine(data)
    case NeedMore => BlockIncomplete
    case EndOfBlock => BlockDone(m, 2)
    case Malformed(e) => BlockError(e)
    case FieldLine(name, values, c) =>
      match ParseBlock(SetAll(m, name, values), data[c..])
      case BlockDone(m', c') => BlockDone(m', c + c')
      case other => other
  }

  // ---------------------------------------------------------------------------
  // The Headers object

  class Headers {
    var fields: Fields

    ghost predicate Valid()
      reads this
    {
      LowerKeys(fields)
    }

    /** NewHeaders: an empty map. */
    constructor ()
      ensures Valid() && fields == map[]
    {
      fields := map[];
    }

    method Set(key: Bytes, value: Bytes)
      requires Valid()
      modifies this
      ensures Valid()
      ensures fields == SetValue(old(fields), key, value)
    {
      var k := ToLower(key);
      if k in fields {
        fields := fields[k := fields[k] + [Comma] + value];
        return;
      }
      fields := fields[k := value];
    }

    function Get(key: Bytes): Bytes
      reads this
    {
      Lookup(fields, key)
    }

    /** The loop of Parse: Set for each ';'-separated segment that is not blank once trimmed. */
    method SetSegments(key: Bytes, segments: seq<Bytes>)
      requires Valid()
      modifies this
      ensures Valid()
      ensures fields == SetAll(old(fields), key, Values(segments))
    {
      ghost var start := fields;
      var i := 0;
      while i < |segments|
        invariant 0 <= i <= |segments|
        invariant Valid()
        invariant fields == SetAll(start, key, Values(segments[..i]))
      {
        var trimmed := TrimSpace(segments[i]);
        if trimmed != [] {
          Set(key, trimmed);
        }
        var next := i + 1;
        SetAllValuesSnoc(start, key, segments, i, trimmed, next);
        i := next;
      }
      assert segments[..i] == segments;
    }

    /** Parse one field line from the front of `data`, updating the map in place. */
    method Parse(data: Bytes) returns (n: nat, done: bool, err: Option<Error>)
      requires Valid()
      modifies this
      ensures Valid()
      ensures HeaderStep(n, done, err, fields) == ParseEffect(old(fields), data)
    {
      var newLineIndex := IndexCRLF(data);
      if newLineIndex == -1 {
        return 0, false, None;
      }
      if newLineIndex == 0 {
        return 2, true, None;
      }
      var s := TrimSpace(data[..newLineIndex]);
      var parts := SplitTwo(s, Colon);
      if |parts| != 2 {
        return 0, false, Some(MalformedHeader);
      }
      var key := parts[0];
      if !ValidToken(key) {
        return 0, false, Some(InvalidHeaderToken);
      }
      // Split never returns an empty list, so the source's check for no values is dead.
      var values := Split(parts[1], Semicolon);
      SetSegments(key, values);
      return newLineIndex + 2, false, None;
    }
  }
}
