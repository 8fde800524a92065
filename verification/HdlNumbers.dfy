/** What the numbers that are written in a text decide about printing what it parses to. */
module HdlNumbers {
  import opened Options
  import opened Characters
  import opened HdlTokens
  import opened HdlGrammars
  import opened HdlPrinters
  import opened HdlRoundTrips

  /** The text from its next token on, past white space and comments. */
  function Front(s: string): string {
    if s == [] then []
    else if s[0] == '#' then
      var n := Span(s, IsNot('\n'));
      if n < |s| then Front(s[n + 1..]) else []
    else if IsSpace(s[0]) then Front(s[1..])
    else s
  }

  /** If the text begins with a number, it has no decimal point and does not come out negative. */
  predicate NumberKept(s: string) {
    s != [] && IsDigit(s[0]) ==> IsWhole(s) && Atoi(NatValue(s[..Span(s, IsDigit)])) >= 0
  }

  /** If the text begins with a number, it has no decimal point and fits an int. */
  predicate NumberFits(s: string) {
    s != [] && IsDigit(s[0]) ==> IsWhole(s) && NatValue(s[..Span(s, IsDigit)]) <= INT_MAX
  }

  predicate IsWhole(s: string) {
    var n := Span(s, IsDigit);
    n == |s| || s[n] != '.'
  }

  /** All numbers of a text are kept, up to a point where so many characters are left. */
  predicate NumbersKept(s: string, left: nat)
    decreases |s|
  {
    |s| <= left ||
      match Lex(s)
      case Got(_, rest) => NumberKept(Front(s)) && NumbersKept(rest, left)
      case Semi(rest) => NumbersKept(rest, left)
      case _ => true
  }

  predicate NumbersFit(s: string, left: nat)
    decreases |s|
  {
    |s| <= left ||
      match Lex(s)
      case Got(_, rest) => NumberFits(Front(s)) && NumbersFit(rest, left)
      case Semi(rest) => NumbersFit(rest, left)
      case _ => true
  }

  lemma {:induction false} FitsKept(s: string, left: nat)
    requires NumbersFit(s, left)
    ensures NumbersKept(s, left)
    decreases |s|
  {
    hide Lex, Front, IsWhole;
    if |s| > left {
      match Lex(s)
      case Got(_, rest) => FitsKept(rest, left);
      case Semi(rest) => FitsKept(rest, left);
      case _ =>
    }
  }

  // ---- tokens ----

  predicate Plain(t: Token) {
    !t.Double? && !Negative(t)
  }

  lemma {:induction false} FrontLexes(s: string)
    requires Lex(s).Got?
    ensures Front(s) != [] && !IsSpace(Front(s)[0]) && Front(s)[0] != '#' && Lex(Front(s)) == Lex(s)
    decreases |s|
  {
    hide LexNumber, LexString, LexIdentifier;
    if s[0] == '#' {
      FrontLexes(s[Span(s, IsNot('\n')) + 1..]);
    } else if IsSpace(s[0]) {
      FrontLexes(s[1..]);
    }
  }

  /** A token is plain exactly if the number that it is written as is kept. */
  lemma TokenKept(s: string)
    requires Lex(s).Got?
    ensures Plain(Lex(s).token) <==> NumberKept(Front(s))
  {
    FrontLexes(s);
    hide Front, NatValue, RealValue, Atoi;
  }

  // ---- statements ----

  ghost predicate AllPlain(args: seq<Token>) {
    forall i :: 0 <= i < |args| ==> Plain(args[i])
  }

  ghost predicate PlainStatement(stmt: Statement) {
    !HasDouble(stmt) && !HasNegative(stmt)
  }

  ghost predicate PlainStatements(stmts: seq<Statement>) {
    forall i :: 0 <= i < |stmts| ==> PlainStatement(stmts[i])
  }

  lemma PlainParts(stmt: Statement)
    ensures PlainStatement(stmt) <==> AllPlain(stmt.arguments) && PlainStatements(stmt.children)
  {
    assert AllPlain(stmt.arguments) <==> !AnyNegative(stmt.arguments) && forall i :: 0 <= i < |stmt.arguments| ==> !stmt.arguments[i].Double?;
  }

  lemma IdentifierNumbers(s: string, left: nat)
    requires ParseIdentifier(s).Success? && left <= |ParseIdentifier(s).value.1|
    ensures NumbersKept(s, left) == NumbersKept(ParseIdentifier(s).value.1, left)
  {
    TokenKept(s);
    hide Lex, Front, NumberKept;
  }

  lemma SemiNumbers(s: string, left: nat)
    requires ParseSemiColon(s).Success? && left <= |ParseSemiColon(s).value.1|
    ensures NumbersKept(s, left) == NumbersKept(ParseSemiColon(s).value.1, left)
  {
    hide Lex, Front, NumberKept;
  }

  lemma {:induction false} ArgumentsNumbers(s: string, left: nat)
    requires ParseArguments(s).Success? && left <= |ParseArguments(s).value.1|
    ensures
      var (args, rest) := ParseArguments(s).value;
      NumbersKept(s, left) <==> AllPlain(args) && NumbersKept(rest, left)
    decreases |s|
  {
    if Lex(s).Got? {
      TokenKept(s);
      hide Lex, Front, NumberKept, Plain;
      ArgumentsNumbers(Lex(s).rest, left);
      var args := ParseArguments(s).value.0;
      assert args == [args[0]] + args[1..] && args[0] == Lex(s).token;
    }
  }

  lemma StatementNumbers(name: string, isBlock: bool, s: string, left: nat)
    requires ParseStatement(name, isBlock, s).Success? && left <= |ParseStatement(name, isBlock, s).value.1|
    ensures
      var (stmt, rest) := ParseStatement(name, isBlock, s).value;
      NumbersKept(s, left) <==> AllPlain(stmt.arguments) && NumbersKept(rest, left)
  {
    ArgumentsNumbers(s, left);
  }

  lemma {:induction false} AfterNumbers(name: string, s: string, left: nat)
    requires ParseAfter(name, s).Success? && left <= |ParseAfter(name, s).value.1|
    ensures
      var (stmt, rest) := ParseAfter(name, s).value;
      NumbersKept(s, left) <==> PlainStatement(stmt) && NumbersKept(rest, left)
    decreases |s|, 2
  {
    hide NumbersKept, PlainStatement, AllPlain;
    if name == "begin" {
      BlockNumbers(s, left);
    } else {
      StatementNumbers(name, false, s, left);
      PlainParts(ParseStatement(name, false, s).value.0);
    }
  }

  lemma {:induction false} BlockNumbers(s: string, left: nat)
    requires ParseBlock(s).Success? && left <= |ParseBlock(s).value.1|
    ensures
      var (stmt, rest) := ParseBlock(s).value;
      NumbersKept(s, left) <==> PlainStatement(stmt) && NumbersKept(rest, left)
    decreases |s|, 1
  {
    hide NumbersKept, PlainStatement, AllPlain;
    IdentifierNumbers(s, left);
    var (name, rest) := ParseIdentifier(s).value;
    StatementNumbers(name, true, rest, left);
    var (_, rest') := ParseStatement(name, true, rest).value;
    ChildrenNumbers(rest', left);
    PlainParts(ParseBlock(s).value.0);
  }

  lemma {:induction false} ChildrenNumbers(s: string, left: nat)
    requires ParseChildren(s).Success? && left <= |ParseChildren(s).value.1|
    ensures
      var (stmts, rest) := ParseChildren(s).value;
      NumbersKept(s, left) <==> PlainStatements(stmts) && NumbersKept(rest, left)
    decreases |s|, 0
  {
    hide NumbersKept, PlainStatement;
    IdentifierNumbers(s, left);
    var (name, rest) := ParseIdentifier(s).value;
    if name == "end" {
      SemiNumbers(rest, left);
    } else {
      AfterNumbers(name, rest, left);
      var (child, rest') := ParseAfter(name, rest).value;
      ChildrenNumbers(rest', left);
      var stmts := ParseChildren(s).value.0;
      assert stmts == [stmts[0]] + stmts[1..] && stmts[0] == child && stmts[1..] == ParseChildren(rest').value.0;
    }
  }

  // ---- main results ----

  /** A parsed statement holds no double and no negative number exactly if every number in its text
      is kept. */
  lemma ParseNumbers(source: string)
    requires Parse(source).Success?
    ensures
      var (stmt, rest) := Parse(source).value;
      !HasDouble(stmt) && !HasNegative(stmt) <==> NumbersKept(source, |rest|)
  {
    hide NumbersKept;
    var rest := Parse(source).value.1;
    IdentifierNumbers(source, |rest|);
    var (name, s) := ParseIdentifier(source).value;
    AfterNumbers(name, s, |rest|);
    NothingLeft(rest);
  }

  lemma NothingLeft(rest: string)
    ensures NumbersKept(rest, |rest|)
  {
  }

  /** Parsing what was printed of a parsed statement gives the statement again, if and only if every
      number in its text is kept; and so if every one is written without a decimal point and fits
      an int. */
  lemma Normalisation(layout: Layout, source: string)
    requires AllSpace(layout.indent) && AllSpace(layout.increment) && Parse(source).Success?
    ensures
      var (stmt, rest) := Parse(source).value;
      Parse(layout.Print(stmt, 0, true)) == Success((stmt, "\n")) <==> NumbersKept(source, |rest|)
    ensures
      var (stmt, rest) := Parse(source).value;
      NumbersFit(source, |rest|) ==> Parse(layout.Print(stmt, 0, true)) == Success((stmt, "\n"))
  {
    hide Parse, Layout.Print, HasDouble, HasNegative, NumbersKept, NumbersFit;
    var (_, rest) := Parse(source).value;
    ParsedNormalisation(layout, source);
    ParseNumbers(source);
    if NumbersFit(source, |rest|) {
      FitsKept(source, |rest|);
    }
  }

  /** A number that is too large for an int, but not for an unsigned one, is read as a negative number
      and is then not printed so that it could be read. */
  lemma TooLarge(layout: Layout, n: nat)
    requires AllSpace(layout.indent) && AllSpace(layout.increment) && INT_MAX < n <= 2 * INT_MAX + 1
    ensures
      var stmt := Statement("size", false, [Int(n - 2 * INT_MAX - 2)], []);
      && Parse("size " + Digits(n) + ";") == Success((stmt, ""))
      && Parse(layout.Print(stmt, 0, true)) == Failure(MINUS)
  {
    hide Lex, Digits, Layout.Print, HasNegative, ParseArguments, ParseIdentifier, AllSpace;
    var t := Int(n - 2 * INT_MAX - 2);
    var stmt := Statement("size", false, [t], []);
    SizeParses(" " + Digits(n) + ";");
    DigitsLex(n);
    ArgumentRead(" " + Digits(n) + ";", t);
    assert "size" + (" " + Digits(n) + ";") == "size " + Digits(n) + ";";
    OneNegative(stmt, t);
    PrintParses(layout, stmt, 0, true, "");
    assert layout.Print(stmt, 0, true) + "" == layout.Print(stmt, 0, true);
  }

  lemma SizeParses(s: string)
    requires Delimited(s)
    ensures ParseIdentifier("size" + s) == Success(("size", s))
  {
    NameLex("size", s);
  }

  lemma OneNegative(stmt: Statement, t: Token)
    requires stmt == Statement("size", false, [t], []) && Negative(t) && ProperToken(t)
    ensures HasNegative(stmt) && Proper(stmt)
  {
    assert Negative(stmt.arguments[0]);
  }

  lemma DigitsLex(n: nat)
    requires INT_MAX < n <= 2 * INT_MAX + 1
    ensures Lex(" " + Digits(n) + ";") == Got(Int(n - 2 * INT_MAX - 2), ";")
  {
    hide NatValue, LexNumber;
    DigitsValue(n);
    LexInt(Digits(n), ";");
    LexSpaces(" ", Digits(n) + ";");
    assert " " + Digits(n) + ";" == " " + (Digits(n) + ";");
  }

  lemma ArgumentRead(s: string, t: Token)
    requires Lex(s) == Got(t, ";") && t.Int?
    ensures ParseArguments(s) == Success(([t], ""))
  {
    assert Lex(";") == Semi("");
    assert ParseArguments(";") == Success(([], ""));
    assert [t] + [] == [t];
  }
}
