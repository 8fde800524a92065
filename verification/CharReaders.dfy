/** The reader of characters over many lines of SimpleMultiLineStringCharReader.cc, and the
    joined text of AbstractMultiLineString.cc that it must agree with. */
module CharReaders {
  import opened Options

  function Joined(lines: seq<string>, terminator: string): string {
    if lines == [] then "" else lines[0] + terminator + Joined(lines[1..], terminator)
  }

  /** Appends every line, each followed by the terminator, to a buffer. */
  method Join(buffer: string, lines: seq<string>, terminator: string) returns (r: string)
    ensures r == buffer + Joined(lines, terminator)
  {
    r := buffer;
    for i := 0 to |lines|
      invariant r + Joined(lines[i..], terminator) == buffer + Joined(lines, terminator)
    {
      JoinedFrom(lines, terminator, i);
      assert r + Joined(lines[i..], terminator) == r + lines[i] + terminator + Joined(lines[i + 1..], terminator);
      r := r + lines[i];
      r := r + terminator;
    }
  }

  /** The text from the start of a line, or of the terminator after it. */
  function Ahead(lines: seq<string>, terminator: string, lineIndex: nat, inTerminator: bool): string {
    if lineIndex >= |lines| then ""
    else if inTerminator then terminator + Joined(lines[lineIndex + 1..], terminator)
    else Joined(lines[lineIndex..], terminator)
  }

  /** After a line comes its terminator, if there is one, and then the next line. */
  lemma AheadNext(lines: seq<string>, terminator: string, lineIndex: nat, inTerminator: bool)
    requires lineIndex < |lines|
    ensures
      var skip := inTerminator || terminator == "";
      Ahead(lines, terminator, lineIndex, inTerminator)
        == (if inTerminator then terminator else lines[lineIndex])
        + Ahead(lines, terminator, if skip then lineIndex + 1 else lineIndex, !skip)
  {
    hide Joined;
    var line, later := lines[lineIndex], Joined(lines[lineIndex + 1..], terminator);
    AheadLater(lines, terminator, lineIndex);
    if !inTerminator {
      JoinedFrom(lines, terminator, lineIndex);
      if terminator == "" {
        assert line + terminator == line;
      } else {
        assert line + terminator + later == line + (terminator + later);
      }
    }
  }

  lemma JoinedFrom(lines: seq<string>, terminator: string, i: nat)
    requires i < |lines|
    ensures Joined(lines[i..], terminator) == lines[i] + terminator + Joined(lines[i + 1..], terminator)
  {
    assert lines[i..][0] == lines[i] && lines[i..][1..] == lines[i + 1..];
  }

  lemma AheadLater(lines: seq<string>, terminator: string, i: nat)
    requires i < |lines|
    ensures Ahead(lines, terminator, i + 1, false) == Joined(lines[i + 1..], terminator)
  {
  }

  lemma AheadEnd(lines: seq<string>, terminator: string)
    ensures Ahead(lines, terminator, |lines|, false) == ""
  {
  }

  /** A place in the lines. A place can be copied, which is what a mark is. */
  class Position {
    var lines: seq<string>
    var terminator: string
    var lineIndex: nat
    var charIndex: int
    var inTerminator: bool
    var haveTerminator: bool
    var atEnd: bool
    var currentChar: char
    var currentLine: Option<string>

    /** The text before the line, or the terminator, that the place is in. */
    ghost var before: string

    ghost function Text(): string
      reads this
    {
      Joined(lines, terminator)
    }

    /** The line, or the terminator, that the place is in. */
    ghost function Piece(): string
      requires lineIndex < |lines|
      reads this
    {
      if inTerminator then terminator else lines[lineIndex]
    }

    /** How far into the text the place is; one before its start at first. */
    ghost function Offset(): int
      reads this
    {
      |before| + charIndex
    }

    /** What holds between any two steps, while the characters are being counted off. */
    ghost predicate Placed()
      reads this
    {
      && Text() == before + Ahead(lines, terminator, lineIndex, inTerminator)
      && lineIndex <= |lines|
      && charIndex >= -1
      && (charIndex < 0 ==> lineIndex == 0 && !inTerminator && before == "")
      && haveTerminator == (|terminator| > 0)
      && (inTerminator ==> haveTerminator && lineIndex < |lines|)
      && (currentLine.Some? ==> lineIndex < |lines| && currentLine.value == Piece())
    }

    ghost predicate Valid()
      reads this
    {
      && Placed()
      && (atEnd <==> lineIndex == |lines|)
      && (!atEnd ==> charIndex < |Piece()|)
      && (!atEnd && charIndex >= 0 ==> currentChar == Piece()[charIndex])
    }

    /** A place that is in the text is at the character the offset says. */
    lemma Reading()
      requires Placed() && charIndex >= 0 && lineIndex < |lines| && charIndex < |Piece()|
      ensures Offset() < |Text()| && Text()[Offset()] == Piece()[charIndex]
    {
    }

    /** Once characters are being read, the end flag is the end of the text. */
    lemma Ended()
      requires Valid()
      ensures charIndex >= 0 ==> (atEnd <==> Offset() >= |Text()|)
      ensures charIndex >= 0 && !atEnd ==> currentChar == Text()[Offset()]
      ensures charIndex < 0 ==> (atEnd <==> lines == [])
    {
    }

    constructor (lines: seq<string>, terminator: string)
      ensures Valid() && this.lines == lines && this.terminator == terminator
      ensures Offset() == -1 && charIndex == -1 && currentChar == ' '
    {
      this.lines := lines;
      this.terminator := terminator;
      haveTerminator := |terminator| > 0;
      lineIndex := 0;
      charIndex := -1;
      inTerminator := false;
      atEnd := 0 >= |lines|;
      currentChar := ' ';
      currentLine := None;
      before := "";
      new;
      assert lines[0..] == lines;
    }

    method CopyPosition(other: Position)
      modifies this
      ensures lines == old(other.lines) && terminator == old(other.terminator)
      ensures lineIndex == old(other.lineIndex) && charIndex == old(other.charIndex)
      ensures inTerminator == old(other.inTerminator) && haveTerminator == old(other.haveTerminator)
      ensures atEnd == old(other.atEnd) && currentChar == old(other.currentChar)
      ensures currentLine == old(other.currentLine) && before == old(other.before)
    {
      terminator := other.terminator;
      lines := other.lines;
      lineIndex := other.lineIndex;
      charIndex := other.charIndex;
      inTerminator := other.inTerminator;
      haveTerminator := other.haveTerminator;
      atEnd := other.atEnd;
      currentChar := other.currentChar;
      currentLine := other.currentLine;
      before := other.before;
    }

    method CurrentLine() returns (line: string)
      requires Placed() && lineIndex < |lines|
      modifies this`currentLine
      ensures Placed() && currentLine == Some(line) && line == Piece()
    {
      if currentLine.None? {
        currentLine := Some(if inTerminator then terminator else lines[lineIndex]);
      }
      line := currentLine.value;
    }

    /** Moves over the line, or the terminator, that the place is in. */
    method NextPiece()
      requires Placed() && !atEnd && lineIndex < |lines| && currentLine == Some(Piece()) && charIndex >= |Piece()|
      modifies this`charIndex, this`currentLine, this`before, this`inTerminator, this`lineIndex
      ensures Placed() && charIndex >= 0 && Offset() == old(Offset())
      ensures lineIndex > old(lineIndex) || (lineIndex == old(lineIndex) && inTerminator && !old(inTerminator))
    {
      hide Ahead, Joined;
      AheadNext(lines, terminator, lineIndex, inTerminator);
      charIndex := charIndex - |currentLine.value|;
      before := before + currentLine.value;
      currentLine := None;
      if inTerminator || !haveTerminator {
        inTerminator := false;
        lineIndex := lineIndex + 1;
      } else {
        inTerminator := true;
      }
    }

    /** Moves over lines and terminators until the counted characters fit in one. */
    method EnsureCharReady() returns (ready: bool)
      requires Placed() && charIndex >= 0 && (atEnd <==> lineIndex == |lines|)
      modifies this
      ensures Valid() && charIndex >= 0 && lines == old(lines) && terminator == old(terminator)
      ensures Offset() == old(Offset())
      ensures ready == !atEnd == (Offset() < |Text()|)
      ensures ready ==> currentChar == Text()[Offset()]
      ensures !ready ==> currentChar == old(currentChar)
    {
      hide Ahead, Joined;
      AheadEnd(lines, terminator);
      if atEnd {
        return false;
      }
      while true
        invariant Placed() && charIndex >= 0 && lineIndex < |lines| && !atEnd
        invariant lines == old(lines) && terminator == old(terminator) && currentChar == old(currentChar)
        invariant Offset() == old(Offset())
        decreases |lines| - lineIndex, if inTerminator then 0 else 1
      {
        var line := CurrentLine();
        if charIndex < |line| {
          currentChar := line[charIndex];
          Reading();
          return true;
        }
        NextPiece();
        if lineIndex >= |lines| {
          break;
        }
      }
      atEnd := true;
      ready := false;
    }

    method Skip(nchars: int) returns (ready: bool)
      requires Valid() && charIndex + nchars >= 0
      modifies this
      ensures Valid() && charIndex >= 0 && lines == old(lines) && terminator == old(terminator)
      ensures Offset() == old(Offset()) + nchars
      ensures ready == !atEnd == (Offset() < |Text()|)
      ensures ready ==> currentChar == Text()[Offset()]
      ensures !ready ==> currentChar == old(currentChar)
    {
      charIndex := charIndex + nchars;
      ready := EnsureCharReady();
    }
  }

  class CharReader {
    const position: Position
    var currentChar: char

    /** The reader agrees with its place, and once a character has been read it shows that character. */
    ghost predicate Valid()
      reads this, position
    {
      && position.Valid()
      && (position.charIndex >= 0 && !position.atEnd ==> currentChar == position.currentChar)
    }

    ghost function Text(): string
      reads position
    {
      position.Text()
    }

    ghost function Offset(): int
      reads position
    {
      position.Offset()
    }

    lemma Started()
      requires Valid()
      ensures position.charIndex >= -1 && Offset() >= -1
    {
    }

    /** A reader has read nothing yet, and has no current character. */
    constructor (lines: seq<string>, terminator: string)
      ensures Valid() && fresh(position) && Text() == Joined(lines, terminator)
      ensures Offset() == -1 && position.charIndex == -1
    {
      position := new Position(lines, terminator);
      currentChar := *;
    }

    /** A skip of any length stops at that distance, or past the end of the text. */
    method Skip(nchars: int) returns (ready: bool)
      requires Valid() && position.charIndex + nchars >= 0
      modifies this, position
      ensures Valid() && position.charIndex >= 0 && Offset() >= 0 && Text() == old(Text())
      ensures Offset() == old(Offset()) + nchars
      ensures ready == !position.atEnd == (Offset() < |Text()|)
      ensures currentChar == if ready then Text()[Offset()] else old(currentChar)
    {
      ready := position.Skip(nchars);
      if ready {
        currentChar := position.currentChar;
      }
    }

    method Forward() returns (ready: bool)
      requires Valid()
      modifies this, position
      ensures Valid() && position.charIndex >= 0 && Offset() >= 0 && Text() == old(Text())
      ensures Offset() == old(Offset()) + 1
      ensures ready == !position.atEnd == (Offset() < |Text()|)
      ensures currentChar == if ready then Text()[Offset()] else old(currentChar)
    {
      ready := Skip(1);
    }

    /** Before the first character there may seem to be one: whether a line follows is all that is known. */
    method HasChar() returns (r: bool)
      requires Valid()
      ensures position.charIndex >= 0 ==> r == (Offset() < |Text()|)
      ensures position.charIndex < 0 ==> r == (position.lines != [])
    {
      position.Ended();
      r := position.lineIndex >= 0 && !position.atEnd;
    }

    method AtEnd() returns (r: bool)
      requires Valid()
      ensures position.charIndex >= 0 ==> r == (Offset() >= |Text()|)
      ensures r == position.atEnd
      ensures !r && position.charIndex >= 0 ==> currentChar == Text()[Offset()]
    {
      position.Ended();
      r := position.atEnd;
    }

    method CreateMark() returns (mark: Position)
      requires Valid()
      ensures fresh(mark) && mark.Valid() && mark.Text() == Text() && mark.Offset() == Offset()
      ensures mark.charIndex == position.charIndex && mark.atEnd == position.atEnd
      ensures mark.currentChar == position.currentChar
    {
      mark := new Position(position.lines, position.terminator);
      mark.CopyPosition(position);
    }

    method ReturnToMark(mark: Position)
      requires mark.Valid()
      modifies this, position
      ensures Valid() && Text() == old(mark.Text()) && Offset() == old(mark.Offset())
      ensures position.charIndex == old(mark.charIndex) && position.atEnd == old(mark.atEnd)
      ensures currentChar == old(mark.currentChar)
      ensures 0 <= position.charIndex && Offset() < |Text()| ==> currentChar == Text()[Offset()]
    {
      position.CopyPosition(mark);
      currentChar := position.currentChar;
      position.Ended();
    }
  }

  /** The text after a character, or none if that is past its end. */
  function After(text: string, offset: int): string
    requires offset >= -1
  {
    if offset < |text| then text[offset + 1..] else ""
  }

  lemma AfterNext(text: string, offset: int)
    requires offset >= -1
    ensures offset + 1 < |text| ==> After(text, offset) == [text[offset + 1]] + After(text, offset + 1)
    ensures offset + 1 >= |text| ==> After(text, offset) == ""
  {
  }

  /** Reading to the end yields exactly what was left of the text: from a new reader, all the
      lines joined. */
  method ReadAll(reader: CharReader) returns (read: string)
    requires reader.Valid()
    modifies reader, reader.position
    ensures reader.Valid() && reader.Text() == old(reader.Text()) && reader.position.atEnd
    ensures read == old(After(reader.Text(), reader.Offset()))
  {
    hide Joined, After, Position.Valid, Position.Offset, CharReader.Valid;
    read := "";
    reader.Started();
    ghost var text := reader.Text();
    var more := reader.Forward();
    AfterNext(text, old(reader.Offset()));
    while more
      invariant reader.Valid() && reader.Text() == text && reader.position.charIndex >= 0
      invariant more == !reader.position.atEnd == (reader.Offset() < |text|)
      invariant more ==> reader.currentChar == text[reader.Offset()]
      invariant reader.Offset() >= 0
      invariant After(text, old(reader.Offset())) ==
        read + if more then [reader.currentChar] + After(text, reader.Offset()) else ""
      decreases |text| - reader.Offset()
    {
      read := read + [reader.currentChar];
      AfterNext(text, reader.Offset());
      more := reader.Forward();
    }
  }

  /** Of two readers at the same place of the same text, one skips and the other goes forward so
      many times: they end at the same place, with the same answer and, if there is one, the same
      character. */
  method SkipOrForward(skipping: CharReader, forwarding: CharReader, nchars: int) returns (skipped: bool, forwarded: bool)
    requires nchars >= 1 && skipping != forwarding && skipping.position != forwarding.position
    requires skipping.Valid() && forwarding.Valid()
    requires skipping.Text() == forwarding.Text() && skipping.Offset() == forwarding.Offset()
    modifies skipping, skipping.position, forwarding, forwarding.position
    ensures skipping.Valid() && forwarding.Valid() && skipping.Text() == forwarding.Text() == old(skipping.Text())
    ensures skipped == forwarded && skipping.position.atEnd == forwarding.position.atEnd
    ensures skipping.Offset() == forwarding.Offset() == old(skipping.Offset()) + nchars
    ensures skipped ==> skipping.currentChar == forwarding.currentChar
  {
    hide Joined, Position.Valid, Position.Offset, CharReader.Valid;
    skipping.Started();
    skipped := skipping.Skip(nchars);
    forwarded := forwarding.Forward();
    for i := 1 to nchars
      invariant forwarding.Valid() && forwarding.Text() == old(forwarding.Text()) && forwarding.position.charIndex >= 0
      invariant forwarding.Offset() == old(forwarding.Offset()) + i && forwarding.Offset() >= 0
      invariant forwarded == !forwarding.position.atEnd == (forwarding.Offset() < |forwarding.Text()|)
      invariant forwarded ==> forwarding.currentChar == forwarding.Text()[forwarding.Offset()]
      modifies forwarding, forwarding.position
    {
      forwarded := forwarding.Forward();
    }
  }
}
