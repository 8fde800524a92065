/** The quoted-printable decoding of MimeDecoder.cc, against the encoding of section 6.7 of
    RFC 2045. Characters are bytes. */
module QuotedPrintables {
  import opened Characters

  predicate IsHex(c: char) {
    IsDigit(c) || 'a' <= c <= 'f' || 'A' <= c <= 'F'
  }

  /** Zero for what is not a hexadecimal digit. */
  function CharValue(c: char): (v: nat)
    ensures v < 16
  {
    if IsDigit(c) then c as int - '0' as int
    else if 'a' <= c <= 'f' then 10 + c as int - 'a' as int
    else if 'A' <= c <= 'F' then 10 + c as int - 'A' as int
    else 0
  }

  predicate IsControl(c: char) {
    c < ' ' || c == 127 as char
  }

  /** Control characters other than white space become spaces. */
  function SafeChar(c: char): char {
    if IsControl(c) && !IsSpace(c) then ' ' else c
  }

  function HexChar(high: char, low: char): char {
    (CharValue(high) * 16 + CharValue(low)) as char
  }

  // ---- what a body decodes to ----

  /** A line that goes on in the next one. */
  predicate IsSoft(line: string) {
    line != "" && line[|line| - 1] == '='
  }

  /** An '=' without two hexadecimal digits after it is dropped. */
  function Unquoted(line: string, underscores: bool): string {
    if line == "" then ""
    else if line[0] == '=' then
      if |line| > 2 && IsHex(line[1]) && IsHex(line[2]) then
        [SafeChar(HexChar(line[1], line[2]))] + Unquoted(line[3..], underscores)
      else Unquoted(line[1..], underscores)
    else [if underscores && line[0] == '_' then ' ' else line[0]] + Unquoted(line[1..], underscores)
  }

  /** The lines, after what soft lines have left over; what is left over at the end is one more. */
  function UnquotedLines(over: string, lines: seq<string>, underscores: bool): seq<string>
    decreases |lines|
  {
    if lines == [] then [over]
    else
      var line := over + Unquoted(lines[0], underscores);
      if IsSoft(lines[0]) then UnquotedLines(line, lines[1..], underscores)
      else [line] + UnquotedLines("", lines[1..], underscores)
  }

  predicate HasMark(line: string, underscores: bool) {
    '=' in line || (underscores && '_' in line)
  }

  predicate AnyMark(lines: seq<string>, underscores: bool) {
    exists i :: 0 <= i < |lines| && HasMark(lines[i], underscores)
  }

  /** A body without anything to decode is left as it is. */
  function UnquotedBody(lines: seq<string>, underscores: bool): seq<string> {
    if AnyMark(lines, underscores) then UnquotedLines("", lines, underscores) else lines
  }

  // ---- the decoder ----

  predicate IsMark(c: char, underscores: bool) {
    c == '=' || (underscores && c == '_')
  }

  /** Whether an '=' at a place has two hexadecimal digits after it. */
  predicate IsEscape(line: string, i: nat) {
    i + 2 < |line| && line[i] == '=' && IsHex(line[i + 1]) && IsHex(line[i + 2])
  }

  lemma UnquotedStep(before: string, line: string, i: nat, underscores: bool)
    requires i < |line|
    ensures before + Unquoted(line[i..], underscores) ==
      if IsEscape(line, i) then
        before + [SafeChar(HexChar(line[i + 1], line[i + 2]))] + Unquoted(line[i + 3..], underscores)
      else if line[i] == '=' then before + Unquoted(line[i + 1..], underscores)
      else before + [if underscores && line[i] == '_' then ' ' else line[i]] + Unquoted(line[i + 1..], underscores)
  {
  }

  lemma HasMarkStep(line: string, i: nat, underscores: bool)
    requires i < |line|
    ensures HasMark(line[..i + 1], underscores) == (HasMark(line[..i], underscores) || IsMark(line[i], underscores))
    ensures IsEscape(line, i) ==> HasMark(line[..i + 3], underscores)
  {
  }

  /** The loop over the characters of a line. */
  method UnquoteLine(line: string, underscores: bool, buffer: string)
    returns (text: string, noChanges: bool, addNewLine: bool)
    ensures text == buffer + Unquoted(line, underscores)
    ensures noChanges == !HasMark(line, underscores)
    ensures addNewLine == !IsSoft(line)
  {
    hide Unquoted, HasMark, SafeChar, HexChar;
    text, noChanges, addNewLine := buffer, true, true;
    var lastIndex := |line| - 1;
    var hexLimit := |line| - 2;
    var i := 0;
    LineEnds(line, underscores);
    while i < |line|
      invariant 0 <= i <= |line|
      invariant text + Unquoted(line[i..], underscores) == buffer + Unquoted(line, underscores)
      invariant noChanges == !HasMark(line[..i], underscores)
      invariant addNewLine == !(i == |line| && IsSoft(line))
    {
      UnquotedStep(text, line, i, underscores);
      HasMarkStep(line, i, underscores);
      var c := line[i];
      if c == '=' {
        noChanges := false;
        if i == lastIndex {
          addNewLine := false;
        } else if i < hexLimit && IsHex(line[i + 1]) && IsHex(line[i + 2]) {
          text := text + [SafeChar(HexChar(line[i + 1], line[i + 2]))];
          i := i + 2;
        }
      } else if underscores && c == '_' {
        text := text + " ";
        noChanges := false;
      } else {
        text := text + [c];
      }
      i := i + 1;
    }
    assert line[..i] == line;
    assert text + "" == text;
  }

  lemma LineEnds(line: string, underscores: bool)
    ensures line[0..] == line && Unquoted(line[|line|..], underscores) == "" && !HasMark(line[..0], underscores)
  {
  }

  lemma LinesNext(lines: seq<string>, k: nat, over: string, done: seq<string>, underscores: bool)
    requires k < |lines|
    ensures
      var line := over + Unquoted(lines[k], underscores);
      done + UnquotedLines(over, lines[k..], underscores) ==
        if IsSoft(lines[k]) then done + UnquotedLines(line, lines[k + 1..], underscores)
        else done + [line] + UnquotedLines("", lines[k + 1..], underscores)
  {
  }

  method UnquoteString(lines: seq<string>, underscores: bool) returns (answer: seq<string>)
    ensures answer == UnquotedBody(lines, underscores)
  {
    hide Unquoted, HasMark, IsSoft, UnquotedLines;
    answer := [];
    var buffer := "";
    var noChanges := true;
    assert lines[0..] == lines;
    assert [] + UnquotedLines("", lines, underscores) == UnquotedLines("", lines, underscores);
    for k := 0 to |lines|
      invariant answer + UnquotedLines(buffer, lines[k..], underscores) == UnquotedLines("", lines, underscores)
      invariant noChanges <==> forall i :: 0 <= i < k ==> !HasMark(lines[i], underscores)
    {
      LinesNext(lines, k, buffer, answer, underscores);
      var text, same, addNewLine := UnquoteLine(lines[k], underscores, buffer);
      buffer := text;
      noChanges := noChanges && same;
      if addNewLine {
        answer := answer + [buffer];
        buffer := "";
      }
    }
    LinesEnd(lines, buffer, underscores);
    answer := answer + [buffer];
    if noChanges {
      answer := lines;
    }
  }

  lemma LinesEnd(lines: seq<string>, over: string, underscores: bool)
    ensures UnquotedLines(over, lines[|lines|..], underscores) == [over]
  {
  }

  // ---- the encoding of the standard ----

  /** The hexadecimal digit of a number, a capital letter or a small one from ten on. */
  function Digit(v: nat, capital: bool): char
    requires v < 16
  {
    if capital then "0123456789ABCDEF"[v] else "0123456789abcdef"[v]
  }

  /** A character as it is, a byte by its two digits in either case, or a line break that does not count. */
  datatype Item = Literal(c: char) | Escaped(c: char, capitals: (bool, bool)) | SoftBreak {

    predicate Proper() {
      match this
      case Literal(c) => c != '='
      case Escaped(c, _) => c as int < 256
      case SoftBreak => true
    }

    /** The escape that section 6.7 of RFC 2045 writes for a byte. */
    function Escape(): string
      requires Escaped? && Proper()
    {
      ['=', Digit(c as int / 16, capitals.0), Digit(c as int % 16, capitals.1)]
    }

    function Original(): string {
      if SoftBreak? then "" else [c]
    }

    function DecodedAs(underscores: bool): string {
      match this
      case Literal(c) => [if underscores && c == '_' then ' ' else c]
      case Escaped(c, _) => [if Keeps(underscores) then c else ' ']
      case SoftBreak => ""
    }

    /** Whether the decoder finds anything to decode. */
    predicate IsMarked(underscores: bool) {
      Literal? ==> underscores && c == '_'
    }

    /** No control character is escaped, and no underscore stands for a space. */
    predicate Keeps(underscores: bool) {
      match this
      case Literal(c) => !(underscores && c == '_')
      case Escaped(c, _) => (32 <= c as int && c as int != 127) || 9 <= c as int <= 13
      case SoftBreak => true
    }
  }

  type Line = seq<Item>

  /** The lines that a line is written as: one more than it has soft breaks. */
  function Rendered(items: Line): (r: seq<string>)
    requires Proper(items)
    ensures r != []
  {
    if items == [] then [""]
    else
      var r := Rendered(items[1..]);
      match items[0]
      case Literal(c) => [[c] + r[0]] + r[1..]
      case Escaped(_, _) => [items[0].Escape() + r[0]] + r[1..]
      case SoftBreak => ["="] + r
  }

  function RenderedBody(body: seq<Line>): seq<string>
    requires ProperBody(body)
  {
    if body == [] then [] else Rendered(body[0]) + RenderedBody(body[1..])
  }

  function Original(items: Line): string {
    if items == [] then "" else items[0].Original() + Original(items[1..])
  }

  function Originals(body: seq<Line>): seq<string> {
    if body == [] then [] else [Original(body[0])] + Originals(body[1..])
  }

  function DecodedAs(items: Line, underscores: bool): string {
    if items == [] then "" else items[0].DecodedAs(underscores) + DecodedAs(items[1..], underscores)
  }

  function DecodedBody(body: seq<Line>, underscores: bool): seq<string> {
    if body == [] then [] else [DecodedAs(body[0], underscores)] + DecodedBody(body[1..], underscores)
  }

  ghost predicate Proper(items: Line) {
    forall i :: 0 <= i < |items| ==> items[i].Proper()
  }

  ghost predicate Marked(items: Line, underscores: bool) {
    exists i :: 0 <= i < |items| && items[i].IsMarked(underscores)
  }

  ghost predicate Keeps(items: Line, underscores: bool) {
    forall i :: 0 <= i < |items| ==> items[i].Keeps(underscores)
  }

  // ---- the two together ----

  /** The first character of a written line, and what of the item it comes from is decoded. */
  lemma ItemDecodes(item: Item, line: string, underscores: bool)
    requires item.Proper()
    ensures item.Literal? ==>
      IsSoft([item.c] + line) == IsSoft(line)
      && Unquoted([item.c] + line, underscores) == item.DecodedAs(underscores) + Unquoted(line, underscores)
    ensures item.Escaped? ==>
      IsSoft(item.Escape() + line) == IsSoft(line)
      && Unquoted(item.Escape() + line, underscores) == item.DecodedAs(underscores) + Unquoted(line, underscores)
    ensures item.SoftBreak? ==> item.DecodedAs(underscores) == ""
  {
    hide SafeChar, HexChar, IsHex, Item.Escape, Item.Keeps;
    if item.Escaped? {
      EscapeDecodes(item, underscores);
      assert (item.Escape() + line)[3..] == line;
    }
  }

  lemma EscapeDecodes(item: Item, underscores: bool)
    requires item.Escaped? && item.Proper()
    ensures
      var e := item.Escape();
      && |e| == 3 && e[0] == '=' && e[2] != '=' && IsHex(e[1]) && IsHex(e[2])
      && item.DecodedAs(underscores) == [SafeChar(HexChar(e[1], e[2]))]
  {
    hide Digit, IsHex, CharValue;
    DigitBack(item.c as int / 16, item.capitals.0);
    DigitBack(item.c as int % 16, item.capitals.1);
  }

  lemma DigitBack(v: nat, capital: bool)
    requires v < 16
    ensures IsHex(Digit(v, capital)) && CharValue(Digit(v, capital)) == v && Digit(v, capital) != '='
  {
  }

  /** An '=' that no two hexadecimal digits follow stands for nothing. */
  lemma StrayDropped(line: string, underscores: bool)
    requires |line| < 2 || line[0] !in "0123456789ABCDEFabcdef" || line[1] !in "0123456789ABCDEFabcdef"
    ensures Unquoted("=" + line, underscores) == Unquoted(line, underscores)
    ensures line != "" ==> IsSoft("=" + line) == IsSoft(line)
  {
    if line != "" {
      HexDigits(line[0]);
    }
    if |line| > 1 {
      HexDigits(line[1]);
    }
    hide IsHex;
    assert ("=" + line)[1..] == line;
  }

  lemma HexDigits(c: char)
    ensures IsHex(c) ==> c in "0123456789ABCDEFabcdef"
  {
  }

  lemma EmptyDecodes(over: string, more: seq<string>, underscores: bool)
    ensures UnquotedLines(over, [""] + more, underscores) == [over] + UnquotedLines("", more, underscores)
  {
    assert ([""] + more)[1..] == more;
    assert over + "" == over;
  }

  lemma LinesHead(over: string, lines: seq<string>, more: seq<string>, underscores: bool)
    requires lines != []
    ensures
      var line := over + Unquoted(lines[0], underscores);
      UnquotedLines(over, lines + more, underscores) ==
        if IsSoft(lines[0]) then UnquotedLines(line, lines[1..] + more, underscores)
        else [line] + UnquotedLines("", lines[1..] + more, underscores)
  {
    hide Unquoted, IsSoft;
    assert (lines + more)[1..] == lines[1..] + more;
  }

  /** What is put before a line is put before what it decodes to. */
  lemma HeadJoins(over: string, first: string, decoded: string, r: seq<string>, more: seq<string>, underscores: bool)
    requires r != [] && IsSoft(first) == IsSoft(r[0])
    requires Unquoted(first, underscores) == decoded + Unquoted(r[0], underscores)
    ensures UnquotedLines(over, [first] + r[1..] + more, underscores) == UnquotedLines(over + decoded, r + more, underscores)
  {
    hide Unquoted, IsSoft, UnquotedLines;
    LinesHead(over, [first] + r[1..], more, underscores);
    LinesHead(over + decoded, r, more, underscores);
    assert ([first] + r[1..])[1..] == r[1..];
    assert over + (decoded + Unquoted(r[0], underscores)) == over + decoded + Unquoted(r[0], underscores);
  }

  lemma SoftJoins(over: string, r: seq<string>, more: seq<string>, underscores: bool)
    ensures UnquotedLines(over, ["="] + r + more, underscores) == UnquotedLines(over, r + more, underscores)
  {
    hide UnquotedLines;
    LinesHead(over, ["="] + r, more, underscores);
    assert (["="] + r)[1..] == r;
    assert Unquoted("=", underscores) == "" && over + "" == over;
  }

  /** The lines that one line was written as decode to one line again. */
  lemma {:induction false} LineDecodes(items: Line, over: string, more: seq<string>, underscores: bool)
    requires Proper(items)
    ensures UnquotedLines(over, Rendered(items) + more, underscores) ==
      [over + DecodedAs(items, underscores)] + UnquotedLines("", more, underscores)
  {
    hide Unquoted, UnquotedLines, IsSoft, Item.Proper, Item.DecodedAs, Item.Escape;
    if items == [] {
      EmptyDecodes(over, more, underscores);
      assert over + "" == over;
    } else {
      var item, r := items[0], Rendered(items[1..]);
      var d := item.DecodedAs(underscores);
      ItemDecodes(item, r[0], underscores);
      match item {
        case Literal(c) =>
          HeadJoins(over, [c] + r[0], d, r, more, underscores);
        case Escaped(_, _) =>
          HeadJoins(over, item.Escape() + r[0], d, r, more, underscores);
        case SoftBreak =>
          SoftJoins(over, r, more, underscores);
          assert over + "" == over;
      }
      LineDecodes(items[1..], over + d, more, underscores);
      assert over + d + DecodedAs(items[1..], underscores) == over + (d + DecodedAs(items[1..], underscores));
    }
  }

  ghost predicate ProperBody(body: seq<Line>) {
    forall i :: 0 <= i < |body| ==> Proper(body[i])
  }

  lemma {:induction false} BodyDecodes(body: seq<Line>, underscores: bool)
    requires ProperBody(body)
    ensures UnquotedLines("", RenderedBody(body), underscores) == DecodedBody(body, underscores) + [""]
  {
    hide Rendered, DecodedAs, Proper;
    if body != [] {
      LineDecodes(body[0], "", RenderedBody(body[1..]), underscores);
      assert "" + DecodedAs(body[0], underscores) == DecodedAs(body[0], underscores);
      BodyDecodes(body[1..], underscores);
    }
  }

  lemma AnyMarkAdd(a: seq<string>, b: seq<string>, underscores: bool)
    ensures AnyMark(a + b, underscores) == (AnyMark(a, underscores) || AnyMark(b, underscores))
  {
    hide HasMark;
    if AnyMark(a, underscores) {
      var i :| 0 <= i < |a| && HasMark(a[i], underscores);
      assert (a + b)[i] == a[i];
    }
    if AnyMark(b, underscores) {
      var i :| 0 <= i < |b| && HasMark(b[i], underscores);
      assert (a + b)[|a| + i] == b[i];
    }
  }

  lemma AnyMarkOne(line: string, underscores: bool)
    ensures AnyMark([line], underscores) == HasMark(line, underscores)
  {
    assert [line][0] == line;
  }

  /** An item leaves a mark in what it is written as exactly when there is something to decode. */
  lemma {:induction false} LineMarks(items: Line, underscores: bool)
    requires Proper(items)
    ensures AnyMark(Rendered(items), underscores) == Marked(items, underscores)
    ensures !Marked(items, underscores) ==> Rendered(items) == [Original(items)]
  {
    hide AnyMark, HasMark;
    if items == [] {
      NoMark(underscores);
    } else {
      var item, r := items[0], Rendered(items[1..]);
      LineMarks(items[1..], underscores);
      assert Marked(items, underscores) == (item.IsMarked(underscores) || Marked(items[1..], underscores)) by {
        assert items == [item] + items[1..];
      }
      HeadMarks(item, r, underscores);
    }
  }

  lemma NoMark(underscores: bool)
    ensures !AnyMark([""], underscores)
  {
  }

  lemma HeadMarks(item: Item, r: seq<string>, underscores: bool)
    requires item.Proper() && r != []
    ensures item.Literal? ==>
      AnyMark([[item.c] + r[0]] + r[1..], underscores) == (item.IsMarked(underscores) || AnyMark(r, underscores))
    ensures item.Escaped? ==> AnyMark([item.Escape() + r[0]] + r[1..], underscores)
    ensures AnyMark(["="] + r, underscores)
  {
    hide AnyMark;
    AnyMarkOne(r[0], underscores);
    AnyMarkAdd([r[0]], r[1..], underscores);
    assert [r[0]] + r[1..] == r;
    AnyMarkOne("=", underscores);
    AnyMarkAdd(["="], r, underscores);
    if item.Literal? {
      AnyMarkOne([item.c] + r[0], underscores);
      AnyMarkAdd([[item.c] + r[0]], r[1..], underscores);
    } else if item.Escaped? {
      var line := item.Escape() + r[0];
      assert line[0] == '=';
      AnyMarkOne(line, underscores);
      AnyMarkAdd([line], r[1..], underscores);
    }
  }

  ghost predicate MarkedBody(body: seq<Line>, underscores: bool) {
    exists i :: 0 <= i < |body| && Marked(body[i], underscores)
  }

  lemma {:induction false} BodyMarks(body: seq<Line>, underscores: bool)
    requires ProperBody(body)
    ensures AnyMark(RenderedBody(body), underscores) == MarkedBody(body, underscores)
    ensures !MarkedBody(body, underscores) ==> RenderedBody(body) == Originals(body)
  {
    hide HasMark, Proper, Marked, Rendered, Original;
    if body != [] {
      LineMarks(body[0], underscores);
      BodyMarks(body[1..], underscores);
      AnyMarkAdd(Rendered(body[0]), RenderedBody(body[1..]), underscores);
      assert body == [body[0]] + body[1..];
    }
  }

  /** A line decodes to the original exactly when every item keeps its character. */
  lemma {:induction false} LineKept(items: Line, underscores: bool)
    ensures DecodedAs(items, underscores) == Original(items) <==> Keeps(items, underscores)
  {
    if items != [] {
      LineKept(items[1..], underscores);
      var item := items[0];
      var d, o := item.DecodedAs(underscores), item.Original();
      assert d == o <==> item.Keeps(underscores);
      SameSplit(d, o, DecodedAs(items[1..], underscores), Original(items[1..]));
      assert items == [item] + items[1..];
    }
  }

  lemma SameSplit<T>(a: seq<T>, b: seq<T>, c: seq<T>, d: seq<T>)
    requires |a| == |b|
    ensures a + c == b + d <==> a == b && c == d
  {
    if a + c == b + d {
      assert a == (a + c)[..|a|] && b == (b + d)[..|b|];
      assert c == (a + c)[|a|..] && d == (b + d)[|b|..];
    }
  }

  ghost predicate KeepsBody(body: seq<Line>, underscores: bool) {
    forall i :: 0 <= i < |body| ==> Keeps(body[i], underscores)
  }

  lemma {:induction false} BodyKept(body: seq<Line>, underscores: bool)
    ensures |DecodedBody(body, underscores)| == |Originals(body)|
    ensures DecodedBody(body, underscores) == Originals(body) <==> KeepsBody(body, underscores)
  {
    hide DecodedAs, Original, Keeps;
    if body != [] {
      LineKept(body[0], underscores);
      BodyKept(body[1..], underscores);
      SameSplit([DecodedAs(body[0], underscores)], [Original(body[0])],
        DecodedBody(body[1..], underscores), Originals(body[1..]));
      assert body == [body[0]] + body[1..];
    }
  }

  lemma UnmarkedKeeps(body: seq<Line>, underscores: bool)
    requires !MarkedBody(body, underscores)
    ensures KeepsBody(body, underscores)
  {
  }

  /** A body written with any choice of escapes and soft breaks decodes to the original lines, and
      one empty line after them when there was anything to decode, if and only if no control
      character other than white space was escaped and, where underscores are spaces, none was
      written as it is. */
  lemma RoundTrip(body: seq<Line>, underscores: bool)
    requires ProperBody(body)
    ensures
      UnquotedBody(RenderedBody(body), underscores)
        == Originals(body) + (if MarkedBody(body, underscores) then [""] else [])
      <==> KeepsBody(body, underscores)
  {
    hide RenderedBody, DecodedBody, Originals, UnquotedLines, KeepsBody, MarkedBody, ProperBody, AnyMark;
    BodyMarks(body, underscores);
    BodyDecodes(body, underscores);
    BodyKept(body, underscores);
    if MarkedBody(body, underscores) {
      SameSplit(DecodedBody(body, underscores), Originals(body), [""], [""]);
    } else {
      UnmarkedKeeps(body, underscores);
      assert Originals(body) + [] == Originals(body);
    }
  }
}
