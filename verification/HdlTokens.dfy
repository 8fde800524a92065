/** Tokens of the configuration language and how a text is cut into them (HdlToken.h and
    HdlTokenizer.cc, over StringReader.cc). */
module HdlTokens {
  import opened Options
  import opened Characters

  datatype Token =
    | Ident(name: string)
    | Str(text: string)
    | Int(value: int)
    | Double(number: real)
  {
    predicate IsBegin() {
      this == Ident("begin")
    }

    predicate IsEnd() {
      this == Ident("end")
    }
  }

  datatype Error =
    | UnexpectedEof
    | UnexpectedCharacter(c: char)
    | InvalidAfterNumber(c: char)
    | InvalidAfterIdentifier(c: char)
    | InvalidAfterString(c: char)
    | UnterminatedString
    | ExpectedSemiColon
    | ExpectedIdentifier
    | TokenExpected
    | InvalidStatementName(name: string)
    | InvalidBeginEnd

  /** What comes next in a text, and the text behind it. */
  datatype Lexed =
    | Eof
    | Bad(error: Error)
    | Semi(rest: string)
    | Got(token: Token, rest: string)

  predicate IsIdentChar(c: char) {
    IsAlnum(c) || c == '_'
  }

  /** What may follow a token directly: the end, a semicolon or white space. */
  predicate Delimited(s: string) {
    s == [] || s[0] == ';' || IsSpace(s[0])
  }

  function DigitValue(c: char): nat
    requires IsDigit(c)
  {
    (c as int) - ('0' as int)
  }

  function NatValue(s: string): nat
    requires forall i :: 0 <= i < |s| ==> IsDigit(s[i])
  {
    if s == [] then 0 else 10 * NatValue(s[..|s| - 1]) + DigitValue(s[|s| - 1])
  }

  const INT_MAX := 0x7fff_ffff
  const LONG_MAX := 0x7fff_ffff_ffff_ffff

  /** The int that atoi yields: the value when it is in range; outside, where the C standard says
      nothing, a saturated long cut to its low 32 bits, as the usual library does. */
  function Atoi(value: nat): (r: int)
    ensures -INT_MAX - 1 <= r <= INT_MAX
    ensures value <= 0x7fff_ffff ==> r == value
    ensures value < 0x7fff_ffff_ffff_ffff ==> (value - r) % 0x1_0000_0000 == 0
    ensures value >= 0x7fff_ffff_ffff_ffff ==> r == -1
  {
    var long := if value > LONG_MAX then LONG_MAX else value;
    var low := long % (2 * INT_MAX + 2);
    if low > INT_MAX then low - 2 * INT_MAX - 2 else low
  }

  function Power10(n: nat): (r: nat)
    ensures r > 0
  {
    if n == 0 then 1 else 10 * Power10(n - 1)
  }

  /** The value of a number with a decimal point. */
  function RealValue(whole: string, fraction: string): real
    requires forall i :: 0 <= i < |whole| ==> IsDigit(whole[i])
    requires forall i :: 0 <= i < |fraction| ==> IsDigit(fraction[i])
  {
    NatValue(whole) as real + NatValue(fraction) as real / Power10(|fraction|) as real
  }

  /** Moving the decimal point over a digit is dividing by ten, and a point at the end changes nothing. */
  lemma PointMoves(whole: string, digit: char, fraction: string)
    requires AllDigits(whole) && IsDigit(digit) && AllDigits(fraction)
    ensures RealValue(whole, [digit] + fraction) * 10.0 == RealValue(whole + [digit], fraction)
    ensures RealValue(whole, "") == NatValue(whole) as real
  {
    hide RealValue, NatValue, Power10, DigitValue;
    NatValueAppend(whole, digit);
    NatValueFirst(digit, fraction);
    PowerNext(|fraction|);
    NothingBehind();
    var d, p, n, f := DigitValue(digit), Power10(|fraction|), NatValue(whole), NatValue(fraction);
    RealIs(whole, [digit] + fraction, n, d * p + f, 10 * p);
    RealIs(whole + [digit], fraction, 10 * n + d, f, p);
    RealIs(whole, "", n, 0, 1);
    Tenths(n, d, f, p);
  }

  lemma RealIs(whole: string, fraction: string, n: nat, f: nat, p: nat)
    requires AllDigits(whole) && AllDigits(fraction)
    requires n == NatValue(whole) && f == NatValue(fraction) && p == Power10(|fraction|)
    ensures p > 0 && RealValue(whole, fraction) == n as real + f as real / p as real
  {
    hide NatValue, Power10;
  }

  lemma PowerNext(n: nat)
    ensures Power10(n + 1) == 10 * Power10(n)
  {
  }

  lemma NothingBehind()
    ensures NatValue("") == 0 && Power10(0) == 1
  {
  }

  lemma Tenths(n: nat, d: nat, f: nat, p: nat)
    requires p > 0
    ensures (n as real + (d * p + f) as real / (10 * p) as real) * 10.0 == (10 * n + d) as real + f as real / p as real
  {
  }

  lemma NatValueAppend(s: string, digit: char)
    requires AllDigits(s) && IsDigit(digit)
    ensures NatValue(s + [digit]) == 10 * NatValue(s) + DigitValue(digit)
  {
    assert (s + [digit])[..|s|] == s;
  }

  lemma {:induction false} NatValueFirst(digit: char, s: string)
    requires AllDigits(s) && IsDigit(digit)
    ensures NatValue([digit] + s) == DigitValue(digit) * Power10(|s|) + NatValue(s)
  {
    if s == "" {
      assert [digit] + s == [digit] && [digit][..0] == "";
    } else {
      var n := |s| - 1;
      assert ([digit] + s)[..n + 1] == [digit] + s[..n];
      NatValueFirst(digit, s[..n]);
      TenTimes(DigitValue(digit), Power10(n));
    }
  }

  lemma TenTimes(d: nat, p: nat)
    ensures 10 * (d * p) == d * (10 * p)
  {
  }

  function LexNumber(s: string): (r: Lexed)
    requires s != [] && IsDigit(s[0])
    ensures r.Got? ==> |r.rest| < |s|
  {
    var n := Span(s, IsDigit);
    var decimal := n < |s| && s[n] == '.';
    var m := if decimal then Span(s[n + 1..], IsDigit) else 0;
    var rest := if decimal then s[n + 1 + m..] else s[n..];
    if !Delimited(rest) then Bad(InvalidAfterNumber(rest[0]))
    else if decimal then Got(Double(RealValue(s[..n], s[n + 1..][..m])), rest)
    else Got(Int(Atoi(NatValue(s[..n]))), rest)
  }

  function LexIdentifier(s: string): (r: Lexed)
    requires s != [] && IsAlpha(s[0])
    ensures r.Got? ==> |r.rest| < |s|
  {
    var n := Span(s, IsIdentChar);
    if !Delimited(s[n..]) then Bad(InvalidAfterIdentifier(s[n])) else Got(Ident(s[..n]), s[n..])
  }

  function IsNot(quote: char): char -> bool {
    c => c != quote
  }

  /** A string runs to the next quote like the one that opens it. */
  function LexString(s: string): (r: Lexed)
    requires s != []
    ensures r.Got? ==> |r.rest| < |s|
  {
    var n := Span(s[1..], IsNot(s[0]));
    if n == |s| - 1 then Bad(UnterminatedString)
    else
      var rest := s[n + 2..];
      if !Delimited(rest) then Bad(InvalidAfterString(rest[0])) else Got(Str(s[1..n + 1]), rest)
  }

  /** The next token of a text, past white space and comments. A comment that the text ends in is
      judged by its last character. */
  function Lex(s: string): (r: Lexed)
    ensures r.Got? || r.Semi? ==> |r.rest| < |s|
  {
    if s == [] then Eof
    else if s[0] == ';' then Semi(s[1..])
    else if IsDigit(s[0]) then LexNumber(s)
    else if s[0] == '"' || s[0] == '\'' then LexString(s)
    else if IsAlpha(s[0]) then LexIdentifier(s)
    else if s[0] == '#' then
      var n := Span(s, IsNot('\n'));
      if n < |s| then Lex(s[n + 1..])
      else if IsSpace(s[n - 1]) then Eof
      else Bad(UnexpectedCharacter(s[n - 1]))
    else if !IsSpace(s[0]) then Bad(UnexpectedCharacter(s[0]))
    else Lex(s[1..])
  }

  ghost predicate AllDigits(s: string) {
    forall i :: 0 <= i < |s| ==> IsDigit(s[i])
  }

  ghost predicate AllIdentChars(s: string) {
    forall i :: 0 <= i < |s| ==> IsIdentChar(s[i])
  }

  /** What LexNumber makes of digits that nothing numeric follows. */
  lemma LexInt(digits: string, rest: string)
    requires digits != [] && AllDigits(digits)
    requires rest == [] || (!IsDigit(rest[0]) && rest[0] != '.')
    ensures LexNumber(digits + rest) ==
      if Delimited(rest) then Got(Int(Atoi(NatValue(digits))), rest) else Bad(InvalidAfterNumber(rest[0]))
  {
    var s := digits + rest;
    SpanIs(s, IsDigit, |digits|);
    assert s[..|digits|] == digits && s[|digits|..] == rest;
  }

  lemma LexDouble(digits: string, fraction: string, rest: string)
    requires digits != [] && AllDigits(digits) && AllDigits(fraction)
    requires rest == [] || !IsDigit(rest[0])
    ensures LexNumber(digits + ['.'] + fraction + rest) ==
      if Delimited(rest) then Got(Double(RealValue(digits, fraction)), rest) else Bad(InvalidAfterNumber(rest[0]))
  {
    var n, m := |digits|, |fraction|;
    var s, t := digits + ['.'] + fraction + rest, fraction + rest;
    SpanIs(s, IsDigit, n);
    assert s[..n] == digits && s[n + 1..] == t;
    SpanIs(t, IsDigit, m);
    assert t[..m] == fraction && s[n + 1 + m..] == rest;
  }

  lemma LexIdent(chars: string, rest: string)
    requires chars != [] && IsAlpha(chars[0]) && AllIdentChars(chars)
    requires rest == [] || !IsIdentChar(rest[0])
    ensures LexIdentifier(chars + rest) ==
      if Delimited(rest) then Got(Ident(chars), rest) else Bad(InvalidAfterIdentifier(rest[0]))
  {
    var s := chars + rest;
    SpanIs(s, IsIdentChar, |chars|);
    assert s[..|chars|] == chars && s[|chars|..] == rest;
  }

  lemma LexQuoted(quote: char, chars: string, rest: string)
    requires quote !in chars
    ensures LexString([quote] + chars + [quote] + rest) ==
      if Delimited(rest) then Got(Str(chars), rest) else Bad(InvalidAfterString(rest[0]))
    ensures LexString([quote] + chars) == Bad(UnterminatedString)
  {
    var s, n := [quote] + chars + [quote] + rest, |chars|;
    SpanIs(s[1..], IsNot(quote), n);
    assert s[1..n + 1] == chars && s[n + 2..] == rest;
    assert ([quote] + chars)[1..] == chars;
    SpanIs(chars, IsNot(quote), n);
  }

  class StringReader {
    const source: string
    var index: int
    var currentChar: char
    ghost var rest: string  // the characters from the current one on

    /** The reader has been started; past the end it still shows the last character. */
    ghost predicate Valid()
      reads this
    {
      && 0 <= index
      && rest == (if index < |source| then source[index..] else [])
      && (index < |source| ==> currentChar == source[index])
    }

    constructor (source: string)
      ensures this.source == source && index == -1
    {
      this.source := source;
      index := -1;
      currentChar := *;
    }

    method Start() returns (more: bool)
      requires index == -1
      modifies this
      ensures Valid() && rest == source
    {
      more := Skip(1);
    }

    /** Moves on by one character; at the end the last character stays current. */
    method Forward() returns (more: bool)
      requires Valid()
      modifies this
      ensures Valid() && (more <==> rest != [])
      ensures if old(rest) == [] then rest == [] else old(rest) == [old(currentChar)] + rest
      ensures rest == [] ==> currentChar == old(currentChar)
    {
      more := Skip(1);
    }

    method Skip(nchars: nat) returns (more: bool)
      requires index + nchars >= 0
      modifies this
      ensures Valid() && index == old(index) + nchars && (more <==> rest != [])
      ensures rest == [] ==> currentChar == old(currentChar)
    {
      index := index + nchars;
      rest := if index < |source| then source[index..] else [];
      if index >= |source| {
        return false;
      }
      currentChar := source[index];
      return index < |source|;
    }

    predicate HasChar(): (r: bool)
      reads this
      requires Valid()
      ensures r <==> rest != []
      ensures r ==> currentChar == rest[0]
    {
      0 <= index < |source|
    }

    predicate AtEnd(): (r: bool)
      reads this
      requires Valid()
      ensures r <==> rest == []
      ensures !r ==> currentChar == rest[0]
    {
      index >= |source|
    }
  }

  class HdlTokenizer {
    const reader: StringReader
    var haveToken: bool
    var isSemiColon: bool
    var token: Option<Token>

    ghost predicate Valid()
      reads this, reader
    {
      reader.Valid()
    }

    constructor (reader: StringReader)
      requires reader.index == -1
      modifies reader
      ensures Valid() && this.reader == reader && token == None
      ensures reader.rest == reader.source
    {
      this.reader := reader;
      haveToken, isSemiColon, token := false, false, None;
      new;
      var _ := reader.Start();
    }

    /** Moves on to the next token; false at the end of the text. */
    method NextToken() returns (r: Result<bool, Error>)
      requires Valid()
      modifies this, reader
      ensures Valid()
      ensures
        match Lex(old(reader.rest))
        case Eof => r == Success(false) && reader.rest == []
        case Bad(e) => r == Failure(e)
        case Semi(rest) => r == Success(true) && haveToken && isSemiColon && token == old(token) && reader.rest == rest
        case Got(t, rest) => r == Success(true) && haveToken && !isSemiColon && token == Some(t) && reader.rest == rest
      ensures r.Success? && !r.value ==> !haveToken
    {
      hide LexNumber, LexIdentifier, LexString, Span, StringReader.Valid, StringReader.HasChar, StringReader.AtEnd;
      haveToken := false;
      isSemiColon := false;
      while true
        invariant Valid() && !haveToken && !isSemiColon && token == old(token)
        invariant Lex(reader.rest) == Lex(old(reader.rest))
        decreases |reader.rest|
      {
        if reader.AtEnd() {
          return Success(false);
        }
        var ch := reader.currentChar;
        if ch == ';' {
          haveToken := true;
          isSemiColon := true;
          var _ := reader.Forward();
          return Success(true);
        }
        if IsDigit(ch) {
          r := ReadNumber();
          return;
        }
        if ch == '"' || ch == '\'' {
          r := ReadString(ch);
          return;
        }
        if IsAlpha(ch) {
          r := ReadIdentifier();
          return;
        }
        if ch == '#' {
          SkipToEOL();
          ch := reader.currentChar;
        }
        if !IsSpace(ch) {
          return Failure(UnexpectedCharacter(ch));
        }
        var _ := reader.Forward();
      }
    }

    /** Skips to the end of a line, or to the end of the text, whose last character then stays
        current. */
    method SkipToEOL()
      requires Valid() && reader.rest != [] && reader.rest[0] == '#'
      modifies reader
      ensures Valid() && |reader.rest| < |old(reader.rest)|
      ensures reader.rest != [] ==>
        reader.currentChar == '\n' && Lex(old(reader.rest)) == Lex(reader.rest[1..])
      ensures reader.rest == [] ==>
        Lex(old(reader.rest)) == if IsSpace(reader.currentChar) then Eof else Bad(UnexpectedCharacter(reader.currentChar))
    {
      hide Lex, Span, StringReader.Valid, StringReader.HasChar;
      ghost var s, skipped := reader.rest, "";
      ghost var _ := reader.HasChar();
      while reader.HasChar() && reader.currentChar != '\n'
        invariant Valid() && s == skipped + reader.rest && '\n' !in skipped
        invariant skipped != [] ==> reader.rest != [] || reader.currentChar == skipped[|skipped| - 1]
        invariant skipped == [] ==> reader.rest == s
        decreases |reader.rest|
      {
        ghost var c, before := reader.currentChar, reader.rest;
        var _ := reader.Forward();
        assert skipped + before == (skipped + [c]) + reader.rest;
        skipped := skipped + [c];
      }
      LexComment(skipped, reader.rest);
    }

    /** Something other than the end, a semicolon or white space follows. */
    predicate OnInvalidInterTokenCharacter(): (r: bool)
      reads this, reader
      requires Valid()
      ensures r <==> !Delimited(reader.rest)
      ensures r ==> reader.currentChar == reader.rest[0]
    {
      reader.HasChar() && reader.currentChar != ';' && !IsSpace(reader.currentChar)
    }

    /** Takes digits from the reader. */
    method ReadDigits() returns (digits: string)
      requires Valid()
      modifies reader
      ensures Valid() && AllDigits(digits) && old(reader.rest) == digits + reader.rest
      ensures reader.rest == [] || !IsDigit(reader.rest[0])
    {
      hide StringReader.Valid, StringReader.HasChar;
      digits := "";
      while reader.HasChar() && IsDigit(reader.currentChar)
        invariant Valid() && AllDigits(digits) && old(reader.rest) == digits + reader.rest
        decreases |reader.rest|
      {
        ghost var c, before := reader.currentChar, reader.rest;
        digits := digits + [reader.currentChar];
        var _ := reader.Forward();
        assert digits[..|digits| - 1] + before == digits + reader.rest;
      }
    }

    method ReadNumber() returns (r: Result<bool, Error>)
      requires Valid() && reader.rest != [] && IsDigit(reader.rest[0])
      modifies this`haveToken, this`token, reader
      ensures Valid()
      ensures
        match LexNumber(old(reader.rest))
        case Got(t, rest) => r == Success(true) && haveToken && token == Some(t) && reader.rest == rest
        case Bad(e) => r == Failure(e)
        case _ => false
    {
      hide LexNumber, NatValue, RealValue, Atoi, Delimited, StringReader.Valid, StringReader.HasChar;
      var haveDecimal := false;
      var digits := ReadDigits();
      var fraction := "";
      if reader.HasChar() && reader.currentChar == '.' {
        haveDecimal := true;
        ghost var before := reader.rest;
        var _ := reader.Forward();
        fraction := ReadDigits();
        LexDouble(digits, fraction, reader.rest);
        assert digits + before == digits + ['.'] + fraction + reader.rest;
      } else {
        LexInt(digits, reader.rest);
      }
      if OnInvalidInterTokenCharacter() {
        return Failure(InvalidAfterNumber(reader.currentChar));
      }
      haveToken := true;
      if haveDecimal {
        token := Some(Double(RealValue(digits, fraction)));
      } else {
        token := Some(Int(Atoi(NatValue(digits))));
      }
      return Success(true);
    }

    method ReadIdentifier() returns (r: Result<bool, Error>)
      requires Valid() && reader.rest != [] && IsAlpha(reader.rest[0])
      modifies this`haveToken, this`token, reader
      ensures Valid()
      ensures
        match LexIdentifier(old(reader.rest))
        case Got(t, rest) => r == Success(true) && haveToken && token == Some(t) && reader.rest == rest
        case Bad(e) => r == Failure(e)
        case _ => false
    {
      hide LexIdentifier, Delimited, StringReader.Valid, StringReader.HasChar;
      ghost var s := reader.rest;
      var chars := "";
      while reader.HasChar() && (IsAlnum(reader.currentChar) || reader.currentChar == '_')
        invariant Valid() && AllIdentChars(chars) && s == chars + reader.rest
        decreases |reader.rest|
        modifies reader
      {
        ghost var before := reader.rest;
        chars := chars + [reader.currentChar];
        var _ := reader.Forward();
        assert chars[..|chars| - 1] + before == chars + reader.rest;
      }
      LexIdent(chars, reader.rest);
      if OnInvalidInterTokenCharacter() {
        return Failure(InvalidAfterIdentifier(reader.currentChar));
      }
      haveToken := true;
      token := Some(Ident(chars));
      return Success(true);
    }

    method ReadString(endQuote: char) returns (r: Result<bool, Error>)
      requires Valid() && reader.rest != [] && reader.rest[0] == endQuote
      modifies this`haveToken, this`token, reader
      ensures Valid()
      ensures
        match LexString(old(reader.rest))
        case Got(t, rest) => r == Success(true) && haveToken && token == Some(t) && reader.rest == rest
        case Bad(e) => r == Failure(e)
        case _ => false
    {
      hide LexString, Delimited, StringReader.Valid, StringReader.HasChar;
      ghost var s := reader.rest;
      ghost var _ := reader.HasChar();
      var chars := "";
      var _ := reader.Forward();
      while true
        invariant Valid() && endQuote !in chars && s == [endQuote] + chars + reader.rest
        decreases |reader.rest|
        modifies reader
      {
        if !reader.HasChar() {
          assert s == [endQuote] + chars;
          LexQuoted(endQuote, chars, "");
          return Failure(UnterminatedString);
        }
        if reader.currentChar == endQuote {
          break;
        }
        ghost var before := reader.rest;
        chars := chars + [reader.currentChar];
        var _ := reader.Forward();
        assert [endQuote] + chars[..|chars| - 1] + before == [endQuote] + chars + reader.rest;
      }
      ghost var before := reader.rest;
      var _ := reader.Forward();
      assert [endQuote] + chars + before == [endQuote] + chars + [endQuote] + reader.rest;
      LexQuoted(endQuote, chars, reader.rest);
      if OnInvalidInterTokenCharacter() {
        return Failure(InvalidAfterString(reader.currentChar));
      }
      haveToken := true;
      token := Some(Str(chars));
      return Success(true);
    }
  }

  lemma LexComment(skipped: string, rest: string)
    requires skipped != [] && skipped[0] == '#' && '\n' !in skipped
    requires rest == [] || rest[0] == '\n'
    ensures rest != [] ==> Lex(skipped + rest) == Lex(rest[1..])
    ensures rest == [] ==>
      Lex(skipped + rest) ==
      if IsSpace(skipped[|skipped| - 1]) then Eof else Bad(UnexpectedCharacter(skipped[|skipped| - 1]))
  {
    var s, n := skipped + rest, |skipped|;
    SpanIs(s, IsNot('\n'), n);
    if rest != [] {
      assert s[n + 1..] == rest[1..];
    }
  }
}
