/** The base64 decoding of MimeDecoder.cc, against the encoding of section 6.8 of RFC 2045. */
module Base64 {
  import opened Options
  import opened ByteStrings
  import opened Characters
  import opened CharReaders

  /** The six bits of a character of the alphabet; the table of the decoder, by its ranges. */
  function Value64(c: char): (v: Option<byte>)
    ensures v.Some? ==> v.value < 64
  {
    if 'A' <= c <= 'Z' then Some(c as int - 'A' as int)
    else if 'a' <= c <= 'z' then Some(c as int - 'a' as int + 26)
    else if '0' <= c <= '9' then Some(c as int - '0' as int + 52)
    else if c == '+' then Some(62)
    else if c == '/' then Some(63)
    else None
  }

  /** Whether the decoder looks at a character at all. */
  predicate Counts(c: char) {
    c == '=' || Value64(c).Some?
  }

  function Filtered(s: string): string {
    if s == "" then "" else (if Counts(s[0]) then [s[0]] else "") + Filtered(s[1..])
  }

  /** Padding has the value zero. */
  function ValueOf(c: char): (v: byte)
    requires Counts(c)
    ensures v < 64
  {
    if c == '=' then 0 else Value64(c).value
  }

  // The three octets of a group of four. The shifted parts have no bits in common, so that their
  // bitwise or is a sum.

  function Octet1(u1: byte, u2: byte): byte
    requires u1 < 64 && u2 < 64
  {
    u1 * 4 + u2 / 16
  }

  function Octet2(u2: byte, u3: byte): byte
    requires u2 < 64 && u3 < 64
  {
    u2 % 16 * 16 + u3 / 4
  }

  function Octet3(u3: byte, u4: byte): byte
    requires u3 < 64 && u4 < 64
  {
    u3 % 4 * 64 + u4
  }

  function Group(c1: char, c2: char, c3: char, c4: char): seq<byte>
    requires Counts(c1) && Counts(c2) && Counts(c3) && Counts(c4)
  {
    var u1, u2, u3, u4 := ValueOf(c1), ValueOf(c2), ValueOf(c3), ValueOf(c4);
    if c3 == '=' then [Octet1(u1, u2)]
    else if c4 == '=' then [Octet1(u1, u2), Octet2(u2, u3)]
    else [Octet1(u1, u2), Octet2(u2, u3), Octet3(u3, u4)]
  }

  ghost predicate AllCount(s: string) {
    forall i :: 0 <= i < |s| ==> Counts(s[i])
  }

  /** The octets of all whole groups; up to three characters at the end are dropped. */
  function Decoded(s: string): seq<byte>
    requires AllCount(s)
  {
    if |s| < 4 then [] else Group(s[0], s[1], s[2], s[3]) + Decoded(s[4..])
  }

  // ---- the decoder ----

  lemma {:induction false} FilteredCounts(s: string)
    ensures AllCount(Filtered(s))
  {
    if s != "" {
      FilteredCounts(s[1..]);
    }
  }

  /** What a reader has not gone past, once it has been moved to the first character. */
  ghost function Left(reader: CharReader): string
    requires reader.Offset() >= 0
    reads reader, reader.position
  {
    After(reader.Text(), reader.Offset() - 1)
  }

  lemma LeftNext(text: string, offset: nat)
    ensures offset < |text| ==> After(text, offset - 1) == [text[offset]] + After(text, offset)
    ensures offset >= |text| ==> After(text, offset - 1) == ""
  {
  }

  /** Reads up to and over the next character that counts. */
  method NextChar64(reader: CharReader) returns (found: bool, c: char, value: byte)
    requires reader.Valid() && reader.position.charIndex >= 0 && reader.Offset() >= 0
    modifies reader, reader.position
    ensures reader.Valid() && reader.position.charIndex >= 0 && reader.Offset() >= 0
    ensures reader.Text() == old(reader.Text())
    ensures found == (Filtered(old(Left(reader))) != "")
    ensures found ==> Filtered(old(Left(reader))) == [c] + Filtered(Left(reader)) && Counts(c) && value == ValueOf(c)
    ensures found ==> reader.Offset() > old(reader.Offset())
    ensures !found ==> Filtered(Left(reader)) == ""
  {
    hide Value64, Filtered, Joined, After, CharReader.Valid, Position.Valid;
    ghost var text := reader.Text();
    var atEnd := reader.AtEnd();
    while !atEnd
      invariant reader.Valid() && reader.position.charIndex >= 0 && reader.Text() == text
      invariant reader.Offset() >= old(reader.Offset())
      invariant atEnd == (reader.Offset() >= |text|)
      invariant !atEnd ==> reader.currentChar == text[reader.Offset()]
      invariant Filtered(Left(reader)) == Filtered(old(Left(reader)))
      decreases |text| - reader.Offset()
    {
      LeftNext(text, reader.Offset());
      FilteredNext(text[reader.Offset()], After(text, reader.Offset()));
      c := reader.currentChar;
      if c == '=' {
        value := 0;
        var _ := reader.Forward();
        return true, c, value;
      }
      if Value64(c).Some? {
        value := Value64(c).value;
        var _ := reader.Forward();
        return true, c, value;
      }
      var _ := reader.Forward();
      atEnd := reader.AtEnd();
    }
    LeftNext(text, reader.Offset());
    FilteredNext(' ', "");
    return false, ' ', 0;
  }

  lemma FilteredNext(c: char, s: string)
    ensures Filtered([c] + s) == if Counts(c) then [c] + Filtered(s) else Filtered(s)
    ensures Filtered("") == ""
  {
  }

  lemma DecodedGroup(c1: char, c2: char, c3: char, c4: char, s: string)
    requires Counts(c1) && Counts(c2) && Counts(c3) && Counts(c4) && AllCount(s)
    ensures
      var whole := [c1, c2, c3, c4] + s;
      AllCount(whole) && Decoded(whole) == Group(c1, c2, c3, c4) + Decoded(s)
  {
  }

  function DecodedText(s: string): seq<byte> {
    FilteredCounts(s);
    Decoded(Filtered(s))
  }

  lemma TextGroup(s: string, c1: char, c2: char, c3: char, c4: char, rest: string)
    requires Counts(c1) && Counts(c2) && Counts(c3) && Counts(c4)
    requires Filtered(s) == [c1, c2, c3, c4] + Filtered(rest)
    ensures DecodedText(s) == Group(c1, c2, c3, c4) + DecodedText(rest)
  {
  }

  lemma TextShort(s: string)
    requires |Filtered(s)| < 4
    ensures DecodedText(s) == []
  {
  }

  /** Four characters that count, as long as there are so many. */
  method NextGroup(reader: CharReader)
    returns (found: bool, c1: char, c2: char, c3: char, c4: char, u1: byte, u2: byte, u3: byte, u4: byte)
    requires reader.Valid() && reader.position.charIndex >= 0 && reader.Offset() >= 0
    modifies reader, reader.position
    ensures reader.Valid() && reader.position.charIndex >= 0 && reader.Offset() >= 0
    ensures reader.Text() == old(reader.Text())
    ensures found ==> reader.Offset() > old(reader.Offset())
    ensures found ==> Filtered(old(Left(reader))) == [c1, c2, c3, c4] + Filtered(Left(reader))
    ensures found ==> Counts(c1) && Counts(c2) && Counts(c3) && Counts(c4)
    ensures found ==> u1 == ValueOf(c1) && u2 == ValueOf(c2) && u3 == ValueOf(c3) && u4 == ValueOf(c4)
    ensures !found ==> |Filtered(old(Left(reader)))| < 4
  {
    hide Filtered, Counts, ValueOf, Joined, After, CharReader.Valid, Position.Valid;
    c2, c3, c4 := ' ', ' ', ' ';
    u2, u3, u4 := 0, 0, 0;
    found, c1, u1 := NextChar64(reader);
    if found {
      found, c2, u2 := NextChar64(reader);
    }
    if found {
      found, c3, u3 := NextChar64(reader);
    }
    if found {
      found, c4, u4 := NextChar64(reader);
    }
  }

  /** The octets of one group: as many as its padding leaves. */
  method AppendGroup(buffer: seq<byte>, c1: char, c2: char, c3: char, c4: char, u1: byte, u2: byte, u3: byte, u4: byte)
    returns (decoded: seq<byte>)
    requires Counts(c1) && Counts(c2) && Counts(c3) && Counts(c4)
    requires u1 == ValueOf(c1) && u2 == ValueOf(c2) && u3 == ValueOf(c3) && u4 == ValueOf(c4)
    ensures decoded == buffer + Group(c1, c2, c3, c4)
  {
    hide Octet1, Octet2, Octet3;
    decoded := buffer;
    if c3 != '=' && c4 != '=' {
      decoded := decoded + [Octet1(u1, u2)];
      decoded := decoded + [Octet2(u2, u3)];
      decoded := decoded + [Octet3(u3, u4)];
    } else if c3 == '=' {
      decoded := decoded + [Octet1(u1, u2)];
    } else {
      decoded := decoded + [Octet1(u1, u2)];
      decoded := decoded + [Octet2(u2, u3)];
    }
  }

  /** Appends the octets of the whole groups in what the reader has left. */
  method DecodeData(reader: CharReader, buffer: seq<byte>) returns (decoded: seq<byte>)
    requires reader.Valid()
    modifies reader, reader.position
    ensures reader.Valid() && reader.Text() == old(reader.Text())
    ensures decoded == buffer + DecodedText(old(After(reader.Text(), reader.Offset())))
  {
    hide Filtered, Counts, DecodedText, Group, ValueOf, Joined, After, CharReader.Valid, Position.Valid;
    decoded := buffer;
    reader.Started();
    ghost var whole := DecodedText(After(reader.Text(), reader.Offset()));
    var _ := reader.Forward();
    ghost var left := Left(reader);
    var found, c1, c2, c3, c4, u1, u2, u3, u4 := NextGroup(reader);
    while found
      invariant reader.Valid() && reader.position.charIndex >= 0 && reader.Offset() >= 0
      invariant reader.Text() == old(reader.Text())
      invariant decoded + DecodedText(left) == buffer + whole
      invariant found ==> Filtered(left) == [c1, c2, c3, c4] + Filtered(Left(reader))
      invariant found ==> Counts(c1) && Counts(c2) && Counts(c3) && Counts(c4)
      invariant found ==> u1 == ValueOf(c1) && u2 == ValueOf(c2) && u3 == ValueOf(c3) && u4 == ValueOf(c4)
      invariant !found ==> |Filtered(left)| < 4
      decreases |Filtered(left)|
    {
      ghost var before := decoded;
      decoded := AppendGroup(decoded, c1, c2, c3, c4, u1, u2, u3, u4);
      TextGroup(left, c1, c2, c3, c4, Left(reader));
      assert before + (Group(c1, c2, c3, c4) + DecodedText(Left(reader))) == decoded + DecodedText(Left(reader));
      left := Left(reader);
      found, c1, c2, c3, c4, u1, u2, u3, u4 := NextGroup(reader);
    }
    TextShort(left);
  }

  // ---- the encoding of the standard ----

  /** The alphabet, by value. */
  function Char64(v: byte): (c: char)
    requires v < 64
    ensures Value64(c) == Some(v) && c != '='
  {
    if v < 26 then ('A' as int + v) as char
    else if v < 52 then ('a' as int + v - 26) as char
    else if v < 62 then ('0' as int + v - 52) as char
    else if v == 62 then '+'
    else '/'
  }

  /** The alphabet of table 1 of RFC 2045. */
  function Table1(v: byte): char
    requires v < 64
  {
    if v < 26 then Capital(v) else if v < 52 then Small(v - 26) else "0123456789+/"[v - 52]
  }

  /** Reading and writing agree with that table, and nothing else is read. */
  lemma Alphabet(v: byte, c: char)
    requires v < 64
    ensures Char64(v) == Table1(v)
    ensures Value64(c) == Some(v) <==> c == Table1(v)
  {
    Value64Back(c);
    Alphabetical(v);
  }

  lemma Value64Back(c: char)
    ensures Value64(c).Some? ==> Char64(Value64(c).value) == c
  {
  }

  lemma Alphabetical(v: byte)
    requires v < 64
    ensures Char64(v) == Table1(v)
  {
    hide Value64, Capital, Small;
    if v < 26 {
      LetterCodes(v);
    } else if v < 52 {
      LetterCodes(v - 26);
    }
  }

  // The six-bit values of three octets.

  function Sextet1(b1: byte): (v: byte)
    ensures v < 64
  {
    b1 / 4
  }

  function Sextet2(b1: byte, b2: byte): (v: byte)
    ensures v < 64
  {
    b1 % 4 * 16 + b2 / 16
  }

  function Sextet3(b2: byte, b3: byte): (v: byte)
    ensures v < 64
  {
    b2 % 16 * 4 + b3 / 64
  }

  function Sextet4(b3: byte): (v: byte)
    ensures v < 64
  {
    b3 % 64
  }

  /** A number of 24 bits, by its octets. */
  function OfOctets(b1: nat, b2: nat, b3: nat): nat {
    0x1_0000 * b1 + 0x100 * b2 + b3
  }

  /** A number of 24 bits, by its digits to the base 64. */
  function OfSextets(u1: nat, u2: nat, u3: nat, u4: nat): nat {
    0x4_0000 * u1 + 0x1000 * u2 + 0x40 * u3 + u4
  }

  /** A group stands for one such number: what is decoded and what is encoded are its digits. */
  lemma OneNumber(u1: byte, u2: byte, u3: byte, u4: byte, b1: byte, b2: byte, b3: byte)
    requires u1 < 64 && u2 < 64 && u3 < 64 && u4 < 64
    ensures b1 == Octet1(u1, u2) && b2 == Octet2(u2, u3) && b3 == Octet3(u3, u4) <==>
      OfOctets(b1, b2, b3) == OfSextets(u1, u2, u3, u4)
    ensures u1 == Sextet1(b1) && u2 == Sextet2(b1, b2) && u3 == Sextet3(b2, b3) && u4 == Sextet4(b3) <==>
      OfOctets(b1, b2, b3) == OfSextets(u1, u2, u3, u4)
  {
    hide Octet1, Octet2, Octet3, Sextet1, Sextet2, Sextet3, Sextet4, OfOctets, OfSextets;
    OctetsSum(u1, u2, u3, u4);
    SextetsSum(b1, b2, b3);
    OctetsUnique(b1, b2, b3, Octet1(u1, u2), Octet2(u2, u3), Octet3(u3, u4));
    SextetsUnique(u1, u2, u3, u4, Sextet1(b1), Sextet2(b1, b2), Sextet3(b2, b3), Sextet4(b3));
  }

  lemma OctetsSum(u1: byte, u2: byte, u3: byte, u4: byte)
    requires u1 < 64 && u2 < 64 && u3 < 64 && u4 < 64
    ensures OfOctets(Octet1(u1, u2), Octet2(u2, u3), Octet3(u3, u4)) == OfSextets(u1, u2, u3, u4)
  {
    assert u2 == 16 * (u2 / 16) + u2 % 16;
    assert u3 == 4 * (u3 / 4) + u3 % 4;
  }

  lemma SextetsSum(b1: byte, b2: byte, b3: byte)
    ensures OfSextets(Sextet1(b1), Sextet2(b1, b2), Sextet3(b2, b3), Sextet4(b3)) == OfOctets(b1, b2, b3)
  {
    assert b1 == 4 * (b1 / 4) + b1 % 4;
    assert b2 == 16 * (b2 / 16) + b2 % 16;
    assert b3 == 64 * (b3 / 64) + b3 % 64;
  }

  lemma OctetsUnique(b1: byte, b2: byte, b3: byte, c1: byte, c2: byte, c3: byte)
    ensures OfOctets(b1, b2, b3) == OfOctets(c1, c2, c3) <==> b1 == c1 && b2 == c2 && b3 == c3
  {
    if OfOctets(b1, b2, b3) == OfOctets(c1, c2, c3) {
      LastOctet(0x100 * (b1 as int) + b2, b3, 0x100 * (c1 as int) + c2, c3);
      LastOctet(b1, b2, c1, c2);
    }
  }

  lemma LastOctet(n: nat, b: nat, m: nat, c: nat)
    requires b < 0x100 && c < 0x100 && 0x100 * n + b == 0x100 * m + c
    ensures n == m && b == c
  {
  }

  lemma SextetsUnique(u1: byte, u2: byte, u3: byte, u4: byte, v1: byte, v2: byte, v3: byte, v4: byte)
    requires u1 < 64 && u2 < 64 && u3 < 64 && u4 < 64 && v1 < 64 && v2 < 64 && v3 < 64 && v4 < 64
    ensures OfSextets(u1, u2, u3, u4) == OfSextets(v1, v2, v3, v4) <==> u1 == v1 && u2 == v2 && u3 == v3 && u4 == v4
  {
    if OfSextets(u1, u2, u3, u4) == OfSextets(v1, v2, v3, v4) {
      LastSextet(0x1000 * u1 + 0x40 * u2 + u3, u4, 0x1000 * v1 + 0x40 * v2 + v3, v4);
      LastSextet(0x40 * u1 + u2, u3, 0x40 * v1 + v2, v3);
      LastSextet(u1, u2, v1, v2);
    }
  }

  lemma LastSextet(n: nat, u: nat, m: nat, v: nat)
    requires u < 64 && v < 64 && 0x40 * n + u == 0x40 * m + v
    ensures n == m && u == v
  {
  }

  /** What is encoded is decoded again. */
  lemma OctetsBack(b1: byte, b2: byte, b3: byte)
    ensures Octet1(Sextet1(b1), Sextet2(b1, b2)) == b1
    ensures Octet2(Sextet2(b1, b2), Sextet3(b2, b3)) == b2
    ensures Octet3(Sextet3(b2, b3), Sextet4(b3)) == b3
  {
    hide Octet1, Octet2, Octet3, Sextet1, Sextet2, Sextet3, Sextet4, OfOctets, OfSextets;
    OneNumber(Sextet1(b1), Sextet2(b1, b2), Sextet3(b2, b3), Sextet4(b3), b1, b2, b3);
  }

  /** Three octets become four characters; missing ones are zero and padded with '='. */
  function Encoded(data: seq<byte>): string {
    if data == [] then ""
    else if |data| == 1 then [Char64(Sextet1(data[0])), Char64(Sextet2(data[0], 0)), '=', '=']
    else if |data| == 2 then
      [Char64(Sextet1(data[0])), Char64(Sextet2(data[0], data[1])), Char64(Sextet3(data[1], 0)), '=']
    else
      [Char64(Sextet1(data[0])), Char64(Sextet2(data[0], data[1])),
       Char64(Sextet3(data[1], data[2])), Char64(Sextet4(data[2]))] + Encoded(data[3..])
  }

  /** The first group of an encoding decodes to the first octets, three of them if there are so many. */
  lemma GroupBack(data: seq<byte>)
    requires data != []
    ensures |Encoded(data)| >= 4
    ensures
      var e := Encoded(data);
      && Counts(e[0]) && Counts(e[1]) && Counts(e[2]) && Counts(e[3])
      && Group(e[0], e[1], e[2], e[3]) == if |data| < 3 then data else data[..3]
  {
    hide Octet1, Octet2, Octet3, Sextet1, Sextet2, Sextet3, Sextet4, Value64, Char64;
    OctetsBack(data[0], if |data| > 1 then data[1] else 0, if |data| > 2 then data[2] else 0);
  }

  /** Encodings can follow one another: each is decoded to its own octets. */
  lemma {:induction false} EncodedDecodes(data: seq<byte>, more: string)
    requires AllCount(more)
    ensures AllCount(Encoded(data) + more) && Decoded(Encoded(data) + more) == data + Decoded(more)
    decreases |data|
  {
    hide Group, Counts, Encoded, Decoded;
    var e := Encoded(data);
    EncodedFirst(data);
    if data == [] {
      assert e + more == more;
    } else {
      GroupBack(data);
      var rest := Encoded(if |data| < 3 then [] else data[3..]);
      EncodedDecodes(if |data| < 3 then [] else data[3..], more);
      DecodedGroup(e[0], e[1], e[2], e[3], rest + more);
      assert e + more == [e[0], e[1], e[2], e[3]] + (rest + more);
      assert |data| >= 3 ==> data == data[..3] + data[3..];
    }
  }

  lemma EncodedFirst(data: seq<byte>)
    ensures data == [] ==> Encoded(data) == ""
    ensures data != [] ==>
      var e := Encoded(data);
      |e| >= 4 && e == [e[0], e[1], e[2], e[3]] + Encoded(if |data| < 3 then [] else data[3..])
  {
    hide Sextet1, Sextet2, Sextet3, Sextet4, Char64;
  }

  lemma {:induction false} FilteredAdd(s: string, t: string)
    ensures Filtered(s + t) == Filtered(s) + Filtered(t)
  {
    hide Filtered, Counts;
    if s == "" {
      FilteredNext(' ', "");
      assert s + t == t;
    } else {
      FilteredAdd(s[1..], t);
      FilteredNext(s[0], s[1..]);
      FilteredNext(s[0], s[1..] + t);
      assert s == [s[0]] + s[1..] && s + t == [s[0]] + (s[1..] + t);
    }
  }

  /** Whatever is between the characters that count, and however they are spread over lines, an
      encoding decodes to the octets that were encoded. */
  lemma RoundTrip(lines: seq<string>, terminator: string, data: seq<byte>)
    requires Filtered(Joined(lines, terminator)) == Encoded(data)
    ensures DecodedText(Joined(lines, terminator)) == data
  {
    EncodedDecodes(data, "");
    assert Encoded(data) + "" == Encoded(data);
  }

  /** Decodes the lines of a body: whatever was encoded in them is what is appended. */
  method DecodeLines(lines: seq<string>, buffer: seq<byte>) returns (decoded: seq<byte>)
    ensures decoded == buffer + DecodedText(Joined(lines, ""))
    ensures forall data :: Filtered(Joined(lines, "")) == Encoded(data) ==> decoded == buffer + data
  {
    hide DecodedText, Filtered, Encoded;
    var reader := new CharReader(lines, "");
    assert After(reader.Text(), -1) == reader.Text();
    decoded := DecodeData(reader, buffer);
    forall data | Filtered(Joined(lines, "")) == Encoded(data)
      ensures DecodedText(Joined(lines, "")) == data
    {
      RoundTrip(lines, "", data);
    }
  }

  /** Where a text is split into lines, and which characters that do not count are put in any line,
      makes no difference. */
  lemma {:induction false} FilteredLines(lines: seq<string>, clean: seq<string>)
    requires |clean| == |lines| && forall i :: 0 <= i < |lines| ==> clean[i] == Filtered(lines[i])
    ensures Filtered(Joined(lines, "")) == Joined(clean, "")
  {
    if lines != [] {
      FilteredAdd(lines[0], Joined(lines[1..], ""));
      assert lines[0] + "" == lines[0] && clean[0] + "" == clean[0];
      FilteredLines(lines[1..], clean[1..]);
    }
  }
}
