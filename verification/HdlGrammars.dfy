/** Statements of the configuration language (HdlStatement.h) and what a text parses to. */
module HdlGrammars {
  import opened Options
  import opened Characters
  import opened HdlTokens

  /** The name of a parsed statement is always an identifier and is kept as its string. */
  datatype Statement = Statement(name: string, isBlock: bool, arguments: seq<Token>, children: seq<Statement>)

  /** What a parsing step yields, with the text it leaves. */
  type Parsed<T> = Result<(T, string), Error>

  /** The arguments of a statement, up to and with its semicolon. */
  function ParseArguments(s: string): (r: Parsed<seq<Token>>)
    ensures r.Success? ==> |r.value.1| < |s|
    decreases |s|
  {
    match Lex(s)
    case Eof => Failure(UnexpectedEof)
    case Bad(e) => Failure(e)
    case Semi(rest) => Success(([], rest))
    case Got(t, rest) =>
      if t.IsBegin() || t.IsEnd() then Failure(InvalidBeginEnd)
      else
        match ParseArguments(rest)
        case Failure(e) => Failure(e)
        case Success((args, rest')) => Success(([t] + args, rest'))
  }

  function ParseIdentifier(s: string): (r: Parsed<string>)
    ensures r.Success? ==> |r.value.1| < |s|
  {
    match Lex(s)
    case Eof => Failure(UnexpectedEof)
    case Bad(e) => Failure(e)
    case Semi(_) => Failure(ExpectedIdentifier)
    case Got(t, rest) => if t.Ident? then Success((t.name, rest)) else Failure(ExpectedIdentifier)
  }

  function ParseSemiColon(s: string): (r: Parsed<()>)
    ensures r.Success? ==> |r.value.1| < |s|
  {
    match Lex(s)
    case Eof => Failure(UnexpectedEof)
    case Bad(e) => Failure(e)
    case Semi(rest) => Success(((), rest))
    case Got(_, _) => Failure(ExpectedSemiColon)
  }

  /** A statement whose name has been read. */
  function ParseStatement(name: string, isBlock: bool, s: string): (r: Parsed<Statement>)
    ensures r.Success? ==> |r.value.1| < |s| && r.value.0.children == []
  {
    if name == "begin" || name == "end" then Failure(InvalidStatementName(name))
    else
      match ParseArguments(s)
      case Failure(e) => Failure(e)
      case Success((args, rest)) => Success((Statement(name, isBlock, args, []), rest))
  }

  /** A block or a plain statement, whose first identifier has been read. */
  function ParseAfter(name: string, s: string): (r: Parsed<Statement>)
    ensures r.Success? ==> |r.value.1| < |s|
    decreases |s|, 2
  {
    if name == "begin" then ParseBlock(s) else ParseStatement(name, false, s)
  }

  /** A block whose begin has been read. */
  function ParseBlock(s: string): (r: Parsed<Statement>)
    ensures r.Success? ==> |r.value.1| < |s|
    decreases |s|, 1
  {
    match ParseIdentifier(s)
    case Failure(e) => Failure(e)
    case Success((name, rest)) =>
      match ParseStatement(name, true, rest)
      case Failure(e) => Failure(e)
      case Success((head, rest')) =>
        match ParseChildren(rest')
        case Failure(e) => Failure(e)
        case Success((children, rest'')) => Success((head.(children := children), rest''))
  }

  /** The children of a block, up to and with its end and semicolon. */
  function ParseChildren(s: string): (r: Parsed<seq<Statement>>)
    ensures r.Success? ==> |r.value.1| < |s|
    decreases |s|, 0
  {
    match ParseIdentifier(s)
    case Failure(e) => Failure(e)
    case Success((name, rest)) =>
      if name == "end" then
        match ParseSemiColon(rest)
        case Failure(e) => Failure(e)
        case Success((_, rest')) => Success(([], rest'))
      else
        match ParseAfter(name, rest)
        case Failure(e) => Failure(e)
        case Success((child, rest')) => Prepend([child], ParseChildren(rest'))
  }

  function Prepend(front: seq<Statement>, r: Parsed<seq<Statement>>): Parsed<seq<Statement>> {
    match r
    case Failure(e) => Failure(e)
    case Success((children, rest)) => Success((front + children, rest))
  }

  /** One statement from a text, and the text behind it. */
  function Parse(s: string): (r: Parsed<Statement>)
    ensures r.Success? ==> |r.value.1| < |s|
  {
    match ParseIdentifier(s)
    case Failure(e) => Failure(e)
    case Success((name, rest)) => ParseAfter(name, rest)
  }

  lemma PrependTwice(front: seq<Statement>, child: Statement, r: Parsed<seq<Statement>>)
    ensures Prepend(front, Prepend([child], r)) == Prepend(front + [child], r)
  {
    if r.Success? {
      assert front + ([child] + r.value.0) == front + [child] + r.value.0;
    }
  }

  lemma PrependNone(r: Parsed<seq<Statement>>)
    ensures Prepend([], r) == r
  {
    if r.Success? {
      assert [] + r.value.0 == r.value.0;
    }
  }

  lemma PrependFailure(front: seq<Statement>, r: Parsed<seq<Statement>>)
    ensures r.Failure? ==> Prepend(front, r) == r
  {
  }

  lemma PrependEnd(front: seq<Statement>, r: Parsed<seq<Statement>>)
    ensures r.Failure? ==> Prepend(front, r) == r
    ensures r.Success? && r.value.0 == [] ==> Prepend(front, r) == Success((front, r.value.1))
  {
    assert front + [] == front;
  }

  /** Where a text has no further token nothing is accepted that needs one. */
  lemma NoTokenRefused(s: string)
    requires Lex(s).Eof? || Lex(s).Bad?
    ensures
      var error := if Lex(s).Bad? then Lex(s).error else UnexpectedEof;
      && Parse(s) == Failure(error)
      && ParseArguments(s) == Failure(error)
      && ParseChildren(s) == Failure(error)
      && ParseSemiColon(s) == Failure(error)
  {
  }

  /** A text that ends in a comment while more is needed is refused; the last character of the
      comment decides only with which error. */
  lemma FinalComment(comment: string)
    requires comment != "" && comment[0] == '#' && '\n' !in comment
    ensures
      var last := comment[|comment| - 1];
      var error := if IsSpace(last) then UnexpectedEof else UnexpectedCharacter(last);
      && Parse(comment) == Failure(error)
      && ParseArguments(comment) == Failure(error)
      && ParseChildren(comment) == Failure(error)
      && ParseSemiColon(comment) == Failure(error)
  {
    hide Lex, Parse, ParseArguments, ParseChildren, ParseSemiColon;
    assert comment + "" == comment;
    LexComment(comment, "");
    NoTokenRefused(comment);
  }
}
