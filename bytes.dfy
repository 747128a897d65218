/**
 * Byte strings and the few string operations of Go's standard library that the framing
 * code relies on: searching for CRLF, trimming white space, splitting on one separator
 * byte and ASCII case mapping. Go strings and byte slices are both modelled as `Bytes`.
 */
module Bytes {

  type Byte = x: int | 0 <= x < 0x100
  type Bytes = seq<Byte>

  const CR: Byte := 13
  const LF: Byte := 10
  const SP: Byte := 32
  const Comma: Byte := 44
  const Slash: Byte := 47
  const Colon: Byte := 58
  const Semicolon: Byte := 59
  const CRLF: Bytes := [CR, LF]

  /** The bytes of an ASCII string literal. */
  function Ascii(s: string): (r: Bytes)
    ensures |r| == |s|
  {
    seq(|s|, i requires 0 <= i < |s| => (s[i] as int) % 0x100)
  }

  // ---------------------------------------------------------------------------
  // bytes.Index(data, "\r\n")

  predicate CRLFAt(data: Bytes, i: int) {
    0 <= i && i + 1 < |data| && data[i] == CR && data[i + 1] == LF
  }

  /** The offset of the first CRLF in `data`, or -1 when there is none. */
  function IndexCRLF(data: Bytes): (r: int)
    ensures r == -1 || (0 <= r && r + 2 <= |data|)
    ensures r >= 0 ==> CRLFAt(data, r)
    ensures forall j | 0 <= j && (r == -1 || j < r) :: !CRLFAt(data, j)
  {
    IndexCRLFFrom(data, 0)
  }

  function IndexCRLFFrom(data: Bytes, from: nat): (r: int)
    requires from <= |data|
    ensures r == -1 || (from <= r && r + 2 <= |data|)
    ensures r >= 0 ==> CRLFAt(data, r)
    ensures forall j | from <= j && (r == -1 || j < r) :: !CRLFAt(data, j)
    decreases |data| - from
  {
    if from + 2 > |data| then -1
    else if CRLFAt(data, from) then from
    else IndexCRLFFrom(data, from + 1)
  }

  /** The first CRLF is determined by where it is and that none comes before it. */
  lemma IndexCRLFIs(data: Bytes, i: nat)
    requires CRLFAt(data, i)
    requires forall j | 0 <= j < i :: !CRLFAt(data, j)
    ensures IndexCRLF(data) == i
  {
  }

  /** Bytes that arrive after a CRLF never move the first CRLF. */
  lemma IndexCRLFExtend(data: Bytes, more: Bytes)
    requires IndexCRLF(data) >= 0
    ensures IndexCRLF(data + more) == IndexCRLF(data)
  {
    var i := IndexCRLF(data);
    forall j | 0 <= j < i ensures !CRLFAt(data + more, j) {
      assert !CRLFAt(data, j);
    }
    IndexCRLFIs(data + more, i);
  }

  /** A CRLF cannot start inside a stretch of bytes free of CR. */
  lemma IndexCRLFAfterNoCR(data: Bytes, i: nat)
    requires CRLFAt(data, i)
    requires CR !in data[..i]
    ensures IndexCRLF(data) == i
  {
    forall j | 0 <= j < i ensures !CRLFAt(data, j) {
      assert data[..i][j] == data[j];
    }
    IndexCRLFIs(data, i);
  }

  // ---------------------------------------------------------------------------
  // strings.TrimSpace, over ASCII

  /** Go's unicode.IsSpace restricted to single bytes: TAB, LF, VT, FF, CR and SP. */
  predicate IsSpace(b: Byte) {
    b == SP || 9 <= b <= 13
  }

  /** strings.TrimSpace: drop white space from both ends. */
  function TrimSpace(s: Bytes): Bytes
    decreases |s|
  {
    if s == [] then []
    else if IsSpace(s[0]) then TrimSpace(s[1..])
    else if IsSpace(s[|s| - 1]) then TrimSpace(s[..|s| - 1])
    else s
  }

  /** The trimmed string neither starts nor ends with white space. */
  lemma {:induction false} TrimSpaceEnds(s: Bytes)
    ensures TrimSpace(s) != [] ==> !IsSpace(TrimSpace(s)[0]) && !IsSpace(TrimSpace(s)[|TrimSpace(s)| - 1])
    decreases |s|
  {
    if s != [] && IsSpace(s[0]) {
      TrimSpaceEnds(s[1..]);
    } else if s != [] && IsSpace(s[|s| - 1]) {
      TrimSpaceEnds(s[..|s| - 1]);
    }
  }

  /** The trimmed string is the window s[a..b] of `s`, and everything outside it is white space. */
  lemma {:induction false} TrimSpaceWindow(s: Bytes) returns (a: nat, b: nat)
    ensures a <= b <= |s| && TrimSpace(s) == s[a..b]
    ensures forall i | 0 <= i < a :: IsSpace(s[i])
    ensures forall i | b <= i < |s| :: IsSpace(s[i])
    decreases |s|
  {
    if s == [] {
      a, b := 0, 0;
    } else if IsSpace(s[0]) {
      var a', b' := TrimSpaceWindow(s[1..]);
      a, b := a' + 1, b' + 1;
      assert s[1..][a'..b'] == s[a..b];
      forall i | 1 <= i < |s| ensures s[i] == s[1..][i - 1] { }
    } else if IsSpace(s[|s| - 1]) {
      a, b := TrimSpaceWindow(s[..|s| - 1]);
      assert s[..|s| - 1][a..b] == s[a..b];
      forall i | 0 <= i < |s| - 1 ensures s[i] == s[..|s| - 1][i] { }
    } else {
      a, b := 0, |s|;
    }
  }

  /** A string already free of surrounding white space is its own trim. */
  lemma TrimSpaceOfTrimmed(s: Bytes)
    requires s != [] ==> !IsSpace(s[0]) && !IsSpace(s[|s| - 1])
    ensures TrimSpace(s) == s
  {
  }

  /** Trimming removes one leading space from a string free of surrounding white space. */
  lemma TrimSpaceDropsSpace(v: Bytes)
    requires v != [] && !IsSpace(v[0]) && !IsSpace(v[|v| - 1])
    ensures TrimSpace([SP] + v) == v
  {
    var s := [SP] + v;
    assert s[1..] == v;
    TrimSpaceOfTrimmed(v);
  }

  // ---------------------------------------------------------------------------
  // strings.Split and strings.Join, for a one-byte separator

  /** The offset of the first `b` in `s`. */
  function IndexOf(s: Bytes, b: Byte): (i: nat)
    requires b in s
    ensures i < |s| && s[i] == b && b !in s[..i]
  {
    if s[0] == b then 0
    else
      var i := 1 + IndexOf(s[1..], b);
      assert s[..i] == [s[0]] + s[1..][..i - 1];
      i
  }

  /** The first `b` is determined by where it is and that none comes before it. */
  lemma {:induction false} IndexOfIs(s: Bytes, b: Byte, i: nat)
    requires i < |s| && s[i] == b && b !in s[..i]
    ensures IndexOf(s, b) == i
  {
    if i > 0 {
      assert s[..i][0] == s[0];
      assert s[1..][..i - 1] == s[..i][1..];
      IndexOfIs(s[1..], b, i - 1);
    }
  }

  /** strings.Join(parts, string(sep)). */
  function Join(parts: seq<Bytes>, sep: Byte): Bytes {
    if |parts| == 0 then []
    else if |parts| == 1 then parts[0]
    else parts[0] + [sep] + Join(parts[1..], sep)
  }

  /** strings.Split(s, string(sep)): the pieces between the separators, always at least one. */
  function Split(s: Bytes, sep: Byte): (parts: seq<Bytes>)
    ensures |parts| >= 1
    ensures Join(parts, sep) == s
    ensures forall i | 0 <= i < |parts| :: sep !in parts[i]
    decreases |s|
  {
    if sep !in s then [s]
    else
      var i := IndexOf(s, sep);
      var rest := Split(s[i + 1..], sep);
      var parts := [s[..i]] + rest;
      assert parts[1..] == rest;
      assert s == s[..i] + [sep] + s[i + 1..];
      parts
  }

  /** Split is the only way of cutting `s` into separator-free pieces that join back to `s`. */
  lemma {:induction false} SplitUnique(parts: seq<Bytes>, sep: Byte)
    requires |parts| >= 1
    requires forall i | 0 <= i < |parts| :: sep !in parts[i]
    ensures Split(Join(parts, sep), sep) == parts
    decreases |parts|
  {
    var s := Join(parts, sep);
    if |parts| > 1 {
      var p := parts[0];
      var tail := parts[1..];
      assert s == p + [sep] + Join(tail, sep);
      assert s[|p|] == sep;
      assert s[..|p|] == p;
      IndexOfIs(s, sep, |p|);
      assert s[|p| + 1..] == Join(tail, sep);
      SplitUnique(tail, sep);
    }
  }

  /** Number of occurrences of `b` in `s`. */
  function Count(s: Bytes, b: Byte): nat {
    if s == [] then 0 else (if s[0] == b then 1 else 0) + Count(s[1..], b)
  }

  lemma {:induction false} CountAppend(a: Bytes, c: Bytes, b: Byte)
    ensures Count(a + c, b) == Count(a, b) + Count(c, b)
    decreases |a|
  {
    if a != [] {
      assert (a + c)[0] == a[0];
      assert (a + c)[1..] == a[1..] + c;
      CountAppend(a[1..], c, b);
    } else {
      assert a + c == c;
    }
  }

  lemma {:induction false} CountAbsent(s: Bytes, b: Byte)
    requires b !in s
    ensures Count(s, b) == 0
    decreases |s|
  {
    if s != [] {
      CountAbsent(s[1..], b);
    }
  }

  /** Split cuts at every separator: the number of pieces is one more than the number of separators. */
  lemma {:induction false} SplitCount(s: Bytes, sep: Byte)
    ensures |Split(s, sep)| == Count(s, sep) + 1
    decreases |s|
  {
    if sep !in s {
      CountAbsent(s, sep);
    } else {
      var i := IndexOf(s, sep);
      assert s == s[..i] + ([sep] + s[i + 1..]);
      CountAppend(s[..i], [sep] + s[i + 1..], sep);
      CountAbsent(s[..i], sep);
      assert ([sep] + s[i + 1..])[1..] == s[i + 1..];
      SplitCount(s[i + 1..], sep);
    }
  }

  /**
   * strings.SplitN(s, string(sep), 2): the whole of `s` when it has no separator,
   * otherwise the part before the first separator and everything after it.
   */
  function SplitTwo(s: Bytes, sep: Byte): (parts: seq<Bytes>)
    ensures |parts| == 1 || |parts| == 2
    ensures |parts| == 2 <==> sep in s
    ensures |parts| == 1 ==> parts[0] == s
    ensures |parts| == 2 ==> sep !in parts[0] && parts[0] + [sep] + parts[1] == s
  {
    if sep !in s then [s]
    else
      var i := IndexOf(s, sep);
      assert s == s[..i] + [sep] + s[i + 1..];
      [s[..i], s[i + 1..]]
  }

  // ---------------------------------------------------------------------------
  // strings.ToLower and strings.ToUpper, over ASCII

  predicate IsUpperLetter(b: Byte) { 65 <= b <= 90 }
  predicate IsLowerLetter(b: Byte) { 97 <= b <= 122 }

  function LowerByte(b: Byte): Byte { if IsUpperLetter(b) then b + 32 else b }
  function UpperByte(b: Byte): Byte { if IsLowerLetter(b) then b - 32 else b }

  function ToLower(s: Bytes): (r: Bytes)
    ensures |r| == |s|
    ensures forall i {:trigger IsUpperLetter(r[i])} | 0 <= i < |r| :: !IsUpperLetter(r[i])
  {
    seq(|s|, i requires 0 <= i < |s| => LowerByte(s[i]))
  }

  function ToUpper(s: Bytes): (r: Bytes)
    ensures |r| == |s|
    ensures forall i {:trigger IsLowerLetter(r[i])} | 0 <= i < |r| :: !IsLowerLetter(r[i])
  {
    seq(|s|, i requires 0 <= i < |s| => UpperByte(s[i]))
  }

  /** A string equals its upper-cased form exactly when it holds no lower-case letter. */
  lemma ToUpperFixed(s: Bytes)
    ensures ToUpper(s) == s <==> forall i | 0 <= i < |s| :: !IsLowerLetter(s[i])
  {
    if forall i | 0 <= i < |s| :: !IsLowerLetter(s[i]) {
      assert forall i | 0 <= i < |s| :: ToUpper(s)[i] == s[i];
    }
  }

  /** A string with no upper-case letter is its own lower-cased form. */
  lemma ToLowerFixed(s: Bytes)
    requires forall i | 0 <= i < |s| :: !IsUpperLetter(s[i])
    ensures ToLower(s) == s
  {
    assert forall i | 0 <= i < |s| :: ToLower(s)[i] == s[i];
  }

  lemma ToLowerIdempotent(s: Bytes)
    ensures ToLower(ToLower(s)) == ToLower(s)
  {
    ToLowerFixed(ToLower(s));
  }
}
