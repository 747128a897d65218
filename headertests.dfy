/**
 * The cases of internal/headers/headers_test.go, stated about the model: what one Parse
 * call consumes from each test buffer, whether it reports an error, and the map it leaves.
 * A buffer "Name: value" CRLF is written FieldLineText(Name, value), the line format the
 * response writer uses too.
 */
module HeaderExamples {
  import opened Errors
  import opened Bytes
  import opened Headers
  import opened Framing
  import opened Response

  /** `n` spaces. */
  function Spaces(n: nat): (r: Bytes)
    ensures |r| == n && forall i | 0 <= i < n :: r[i] == SP
  {
    seq(n, _ => SP)
  }

  /** The name of lines 93-99, "H©st", in UTF-8: the copyright sign is the two bytes C2 A9. */
  const CopyrightHost: Bytes := [72, 0xC2, 0xA9, 115, 116]

  /** The characters of the example field names: letters and '-'. */
  predicate NameChars(s: string) {
    forall i | 0 <= i < |s| :: 'a' <= s[i] <= 'z' || 'A' <= s[i] <= 'Z' || s[i] == '-'
  }

  /** A name of letters and '-' is a token. */
  lemma NameCharsToken(s: string)
    requires NameChars(s)
    ensures ValidToken(Ascii(s))
  {
    assert 45 in TokenPunctuation by {
      assert TokenPunctuation[8] == 45;
    }
    forall i | 0 <= i < |s| ensures IsTokenChar(Ascii(s)[i]) {
      assert Ascii(s)[i] == s[i] as int;
    }
  }

  /** Bytes outside the printable range of ASCII are not token characters. */
  lemma NotTokenChar(c: Byte)
    requires c <= 32 || c >= 127
    ensures !IsTokenChar(c)
  {
    assert TokenPunctuation == [33, 35, 36, 37, 38, 39, 42, 43, 45, 46, 94, 95, 96, 124, 126];
  }

  lemma HostLower()
    ensures ToLower(Ascii("Host")) == Ascii("host") && Ascii("Host") != Ascii("host")
  {
    assert Ascii("Host")[0] == 72;
  }

  lemma UserAgentLower()
    ensures ToLower(Ascii("User-Agent")) == Ascii("user-agent") && Ascii("user-agent") != Ascii("host")
  {
    forall i | 0 <= i < 10 ensures ToLower(Ascii("User-Agent"))[i] == Ascii("user-agent")[i] {
    }
    assert Ascii("user-agent")[0] == 117;
  }

  /** The line name ": " v CRLF, whatever follows it: one value, and the whole line consumed. */
  lemma NamedLine(name: string, v: string, tail: Bytes)
    requires NameChars(name) && v != [] && Visible(v)
    ensures ParseLine(FieldLineText(Ascii(name), Ascii(v)) + tail) == FieldLine(Ascii(name), [Ascii(v)], |name| + |v| + 4)
  {
    NameCharsToken(name);
    VisiblePlain(v);
    ParseFieldLine(Ascii(name), Ascii(v), tail);
  }

  /** Setting one value under a name whose lower-cased form is not yet in the map. */
  lemma SetNew(m: Fields, name: Bytes, lower: Bytes, v: Bytes)
    requires ToLower(name) == lower && lower !in m
    ensures SetAll(m, name, [v]) == m[lower := v]
  {
    var single: seq<Bytes> := [v];
    assert single[..0] == [];
  }

  /** The map after a Host line with value `v`, from an empty map. */
  lemma FirstHost(v: string, tail: Bytes)
    requires v != [] && Visible(v)
    ensures ParseEffect(map[], FieldLineText(Ascii("Host"), Ascii(v)) + tail)
         == HeaderStep(|v| + 8, false, None, map[Ascii("host") := Ascii(v)])
  {
    assert NameChars("Host");
    NamedLine("Host", v, tail);
    HostLower();
    SetNew(map[], Ascii("Host"), Ascii("host"), Ascii(v));
  }

  /** Lines 11-19: "Host: localhost:42069" CRLF CRLF consumes 23 bytes and sets host, not done. */
  lemma ValidSingleHeader()
    ensures ParseEffect(map[], FieldLineText(Ascii("Host"), Ascii("localhost:42069")) + CRLF)
         == HeaderStep(23, false, None, map[Ascii("host") := Ascii("localhost:42069")])
  {
    assert Visible("localhost:42069");
    FirstHost("localhost:42069", CRLF);
  }

  /** The cut points of a field line between white space, `j` spaces before and `k` after. */
  lemma {:induction false} TrimPadded(j: nat, s: Bytes, k: nat)
    requires s != [] && !IsSpace(s[0]) && !IsSpace(s[|s| - 1])
    ensures TrimSpace(Spaces(j) + s + Spaces(k)) == s
    decreases j + k
  {
    var padded := Spaces(j) + s + Spaces(k);
    if j > 0 {
      assert padded[0] == SP;
      assert padded[1..] == Spaces(j - 1) + s + Spaces(k);
      TrimPadded(j - 1, s, k);
    } else if k > 0 {
      assert padded[0] == s[0] && padded[|padded| - 1] == SP;
      assert padded[..|padded| - 1] == Spaces(0) + s + Spaces(k - 1);
      TrimPadded(0, s, k - 1);
    } else {
      assert padded == s;
      TrimSpaceOfTrimmed(s);
    }
  }

  /**
   * A line name ": " value between runs of spaces, where the name is not a token: Parse
   * trims the spaces, cuts at the colon, rejects the name, consumes nothing and leaves
   * the map alone.
   */
  lemma RejectedName(m: Fields, j: nat, name: Bytes, value: Bytes, k: nat, tail: Bytes)
    requires name != [] && !IsSpace(name[0]) && Colon !in name && CR !in name && !ValidToken(name)
    requires PlainValue(value)
    ensures ParseEffect(m, Spaces(j) + name + [Colon, SP] + value + Spaces(k) + CRLF + tail)
         == HeaderStep(0, false, Some(InvalidHeaderToken), m)
  {
    var text := name + [Colon, SP] + value;
    var line := Spaces(j) + text + Spaces(k);
    var data := Spaces(j) + name + [Colon, SP] + value + Spaces(k) + CRLF + tail;
    assert data == line + CRLF + tail;
    assert data[..|line|] == line && CRLFAt(data, |line|);
    assert CR !in line;
    IndexCRLFAfterNoCR(data, |line|);
    assert text[0] == name[0] && text[|text| - 1] == value[|value| - 1];
    TrimPadded(j, text, k);
    SplitTwoAt(text, Colon, name, [SP] + value);
  }

  /**
   * Lines 21-27: seven spaces, "Host : localhost:42069", seven spaces, CRLF CRLF. The
   * outer spaces are trimmed, but the space before the colon stays in the name, which is
   * then not a token: an error, nothing consumed, not done.
   */
  lemma InvalidSpacingHeader()
    ensures ParseEffect(map[], Spaces(7) + Ascii("Host ") + [Colon, SP] + Ascii("localhost:42069") + Spaces(7) + CRLF + CRLF)
         == HeaderStep(0, false, Some(InvalidHeaderToken), map[])
  {
    var name := Ascii("Host ");
    forall i | 0 <= i < 5 ensures name[i] != Colon && name[i] != CR { }
    assert name[0] == 72;
    NotTokenChar(name[4]);
    assert Visible("localhost:42069");
    VisiblePlain("localhost:42069");
    RejectedName(map[], 7, name, Ascii("localhost:42069"), 7, CRLF);
  }

  lemma CopyrightName()
    ensures CopyrightHost != [] && !IsSpace(CopyrightHost[0]) && Colon !in CopyrightHost && CR !in CopyrightHost
    ensures !ValidToken(CopyrightHost)
  {
    var name := CopyrightHost;
    forall i | 0 <= i < 5 ensures name[i] != Colon && name[i] != CR { }
    NotTokenChar(name[1]);
  }

  /**
   * Lines 93-99: "H©st: localhost:1234" CRLF: the name holds the two bytes of the
   * copyright sign, which are not token characters: an error, nothing consumed, not done.
   */
  lemma InvalidCharacterHeader()
    ensures ParseEffect(map[], FieldLineText(CopyrightHost, Ascii("localhost:1234")))
         == HeaderStep(0, false, Some(InvalidHeaderToken), map[])
  {
    var name := CopyrightHost;
    CopyrightName();
    assert Visible("localhost:1234");
    VisiblePlain("localhost:1234");
    var value := Ascii("localhost:1234");
    RejectedName(map[], 0, name, value, 0, []);
    Unpadded(name, value);
  }

  lemma Unpadded(name: Bytes, value: Bytes)
    ensures Spaces(0) + name + [Colon, SP] + value + Spaces(0) + CRLF + [] == FieldLineText(name, value)
  {
    assert Spaces(0) == [];
  }

  /** The second value of lines 44-57 and 59-72 is merged after the first. */
  lemma MergeHost()
    ensures SetAll(map[Ascii("host") := Ascii("localhost:1234")], Ascii("Host"), [Ascii("localhost:5678")])
         == map[Ascii("host") := Ascii("localhost:1234") + [Comma] + Ascii("localhost:5678")]
  {
    HostLower();
    var m := map[Ascii("host") := Ascii("localhost:1234")];
    var two: seq<Bytes> := [Ascii("localhost:5678")];
    assert two[..0] == [];
    assert SetAll(m, Ascii("Host"), two) == SetValue(m, Ascii("Host"), Ascii("localhost:5678"));
  }

  /** The comma-joined value of lines 55 and 70. */
  lemma MergedText()
    ensures Ascii("localhost:1234") + [Comma] + Ascii("localhost:5678") == Ascii("localhost:1234,localhost:5678")
  {
    var a, b := "localhost:1234", "localhost:5678";
    assert "localhost:1234,localhost:5678" == a + "," + b;
    assert Ascii(a + "," + b) == Ascii(a) + Ascii(",") + Ascii(b);
  }

  /** The second Parse call of lines 29-42 adds user-agent beside host. */
  lemma UserAgentLine()
    ensures ParseEffect(map[Ascii("host") := Ascii("localhost:1234")], FieldLineText(Ascii("User-Agent"), Ascii("curl/8.7.1")) + CRLF)
         == HeaderStep(24, false, None, map[Ascii("host") := Ascii("localhost:1234"), Ascii("user-agent") := Ascii("curl/8.7.1")])
  {
    UserAgentParse();
    UserAgentLower();
    SetNew(map[Ascii("host") := Ascii("localhost:1234")], Ascii("User-Agent"), Ascii("user-agent"), Ascii("curl/8.7.1"));
  }

  lemma UserAgentParse()
    ensures ParseLine(FieldLineText(Ascii("User-Agent"), Ascii("curl/8.7.1")) + CRLF)
         == FieldLine(Ascii("User-Agent"), [Ascii("curl/8.7.1")], 24)
  {
    assert Visible("curl/8.7.1") && NameChars("User-Agent");
    NamedLine("User-Agent", "curl/8.7.1", CRLF);
  }

  /**
   * Lines 29-42: "Host: localhost:1234" CRLF "User-Agent: curl/8.7.1" CRLF CRLF: the first
   * call consumes 22 bytes and sets host, the second, on the rest, 24 bytes and sets user-agent.
   */
  lemma ValidTwoHeaders()
    ensures var later := FieldLineText(Ascii("User-Agent"), Ascii("curl/8.7.1")) + CRLF;
      var first := ParseEffect(map[], FieldLineText(Ascii("Host"), Ascii("localhost:1234")) + later);
      first == HeaderStep(22, false, None, map[Ascii("host") := Ascii("localhost:1234")])
      && ParseEffect(first.fields, later)
         == HeaderStep(24, false, None, map[Ascii("host") := Ascii("localhost:1234"), Ascii("user-agent") := Ascii("curl/8.7.1")])
  {
    assert Visible("localhost:1234");
    FirstHost("localhost:1234", FieldLineText(Ascii("User-Agent"), Ascii("curl/8.7.1")) + CRLF);
    UserAgentLine();
  }

  /** The second Parse call of lines 44-57 merges the second value. */
  lemma SecondHostLine()
    ensures ParseEffect(map[Ascii("host") := Ascii("localhost:1234")], FieldLineText(Ascii("Host"), Ascii("localhost:5678")) + CRLF)
         == HeaderStep(22, false, None, map[Ascii("host") := Ascii("localhost:1234,localhost:5678")])
  {
    var b := "localhost:5678";
    assert Visible(b) && NameChars("Host");
    NamedLine("Host", b, CRLF);
    MergeHost();
    MergedText();
  }

  /**
   * Lines 44-57: "Host: localhost:1234" CRLF "Host: localhost:5678" CRLF CRLF: each call
   * consumes one 22-byte line, and the second value is merged after a comma, with no space.
   */
  lemma RepeatedHeaderMerges()
    ensures var later := FieldLineText(Ascii("Host"), Ascii("localhost:5678")) + CRLF;
      var first := ParseEffect(map[], FieldLineText(Ascii("Host"), Ascii("localhost:1234")) + later);
      first == HeaderStep(22, false, None, map[Ascii("host") := Ascii("localhost:1234")])
      && ParseEffect(first.fields, later)
         == HeaderStep(22, false, None, map[Ascii("host") := Ascii("localhost:1234,localhost:5678")])
  {
    assert Visible("localhost:1234");
    FirstHost("localhost:1234", FieldLineText(Ascii("Host"), Ascii("localhost:5678")) + CRLF);
    SecondHostLine();
  }

  /** Split at ';' of " " value ";": the segment before the ';' and an empty one after it. */
  lemma SplitSemicolonEnd(value: Bytes)
    requires PlainValue(value)
    ensures Split([SP] + (value + [Semicolon]), Semicolon) == [[SP] + value, []]
  {
    var segments: seq<Bytes> := [[SP] + value, []];
    assert Join(segments, Semicolon) == [SP] + (value + [Semicolon]);
    SplitUnique(segments, Semicolon);
  }

  /** The empty segment is dropped, the other trimmed. */
  lemma ValuesDropBlank(value: Bytes)
    requires PlainValue(value)
    ensures Values([[SP] + value, []]) == [value]
  {
    var first: seq<Bytes> := [[SP] + value];
    var segments: seq<Bytes> := [[SP] + value, []];
    assert segments[..1] == first && first[..0] == [];
    TrimSpaceDropsSpace(value);
    assert Values(first) == [value];
  }

  /** A value ending in ';' leaves a blank last segment, which is not set. */
  lemma SemicolonValue(value: Bytes)
    requires PlainValue(value)
    ensures Values(Split([SP] + (value + [Semicolon]), Semicolon)) == [value]
  {
    SplitSemicolonEnd(value);
    ValuesDropBlank(value);
  }

  /** The line name ": " value ";" CRLF ends at its CRLF and is its own trim. */
  lemma SemicolonLineText(name: Bytes, value: Bytes, line: Bytes, data: Bytes, tail: Bytes)
    requires ValidToken(name) && name != [] && PlainValue(value)
    requires line == name + [Colon, SP] + (value + [Semicolon]) && data == FieldLineText(name, value + [Semicolon]) + tail
    ensures IndexCRLF(data) == |line| && data[..|line|] == line && TrimSpace(line) == line
  {
    TokenHasNoDelimiter(name);
    assert data == line + CRLF + tail && data[..|line|] == line;
    assert CR !in line;
    IndexCRLFAfterNoCR(data, |line|);
    assert line[0] == name[0] && line[|line| - 1] == Semicolon;
    TrimSpaceOfTrimmed(line);
  }

  /** The line name ": " value ";" CRLF: the same single value, one byte more consumed. */
  lemma SemicolonLine(name: Bytes, value: Bytes, tail: Bytes)
    requires ValidToken(name) && name != [] && PlainValue(value)
    ensures ParseLine(FieldLineText(name, value + [Semicolon]) + tail) == FieldLine(name, [value], |name| + |value| + 5)
  {
    var line := name + [Colon, SP] + (value + [Semicolon]);
    SemicolonLineText(name, value, line, FieldLineText(name, value + [Semicolon]) + tail, tail);
    TokenHasNoDelimiter(name);
    SplitTwoAt(line, Colon, name, [SP] + (value + [Semicolon]));
    SemicolonValue(value);
  }

  /** A Host line whose value `v` is followed by ';'. */
  lemma HostSemicolonLine(v: string, tail: Bytes)
    requires v != [] && Visible(v)
    ensures ParseLine(FieldLineText(Ascii("Host"), Ascii(v) + [Semicolon]) + tail) == FieldLine(Ascii("Host"), [Ascii(v)], |v| + 9)
  {
    assert NameChars("Host");
    NameCharsToken("Host");
    VisiblePlain(v);
    SemicolonLine(Ascii("Host"), Ascii(v), tail);
  }

  /** The first Parse call of lines 59-72: the ';' leaves an empty segment, skipped. */
  lemma FirstSemicolonLine(later: Bytes)
    ensures ParseEffect(map[], FieldLineText(Ascii("Host"), Ascii("localhost:1234") + [Semicolon]) + later)
         == HeaderStep(23, false, None, map[Ascii("host") := Ascii("localhost:1234")])
  {
    assert Visible("localhost:1234");
    HostSemicolonLine("localhost:1234", later);
    HostLower();
    SetNew(map[], Ascii("Host"), Ascii("host"), Ascii("localhost:1234"));
  }

  /** The second Parse call of lines 59-72. */
  lemma SecondSemicolonLine()
    ensures ParseEffect(map[Ascii("host") := Ascii("localhost:1234")], FieldLineText(Ascii("Host"), Ascii("localhost:5678") + [Semicolon]) + CRLF)
         == HeaderStep(23, false, None, map[Ascii("host") := Ascii("localhost:1234,localhost:5678")])
  {
    assert Visible("localhost:5678");
    HostSemicolonLine("localhost:5678", CRLF);
    MergeHost();
    MergedText();
  }

  /**
   * Lines 59-72: the same two lines, each value followed by ';': 23 bytes each, and the
   * same merged value as without the ';'.
   */
  lemma TrailingSemicolonsMerge()
    ensures var later := FieldLineText(Ascii("Host"), Ascii("localhost:5678") + [Semicolon]) + CRLF;
      var first := ParseEffect(map[], FieldLineText(Ascii("Host"), Ascii("localhost:1234") + [Semicolon]) + later);
      first == HeaderStep(23, false, None, map[Ascii("host") := Ascii("localhost:1234")])
      && ParseEffect(first.fields, later)
         == HeaderStep(23, false, None, map[Ascii("host") := Ascii("localhost:1234,localhost:5678")])
  {
    FirstSemicolonLine(FieldLineText(Ascii("Host"), Ascii("localhost:5678") + [Semicolon]) + CRLF);
    SecondSemicolonLine();
  }

  /** Lines 74-80: a buffer that starts with CRLF ends the block: 2 bytes, done, map unchanged. */
  lemma ValidDone(m: Fields)
    ensures ParseEffect(m, CRLF) == HeaderStep(2, true, None, m)
  {
    IndexCRLFIs(CRLF, 0);
  }

  /**
   * Lines 82-91: the name is stored lower-cased: 22 bytes, host set, not done; the map has
   * no entry under "Host" as written, while Get under "Host" finds the value.
   */
  lemma KeyIsLowerCase()
    ensures var r := ParseEffect(map[], FieldLineText(Ascii("Host"), Ascii("localhost:1234")));
      r == HeaderStep(22, false, None, map[Ascii("host") := Ascii("localhost:1234")])
      && Ascii("Host") !in r.fields && Lookup(r.fields, Ascii("Host")) == Ascii("localhost:1234")
  {
    var data := FieldLineText(Ascii("Host"), Ascii("localhost:1234"));
    assert data + [] == data;
    assert Visible("localhost:1234");
    FirstHost("localhost:1234", []);
    HostLower();
  }
}
