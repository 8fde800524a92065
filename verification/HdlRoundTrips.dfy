/** Printing and parsing undo each other. */
module HdlRoundTrips {
  import opened Options
  import opened Characters
  import opened HdlTokens
  import opened HdlGrammars
  import opened HdlParsers
  import opened HdlPrinters

  ghost predicate IdentShaped(name: string) {
    name != [] && IsAlpha(name[0]) && AllIdentChars(name)
  }

  ghost predicate ProperName(name: string) {
    IdentShaped(name) && name != "begin" && name != "end"
  }

  /** What a token of a text can be: no string holds both kinds of quote. */
  ghost predicate ProperToken(t: Token) {
    match t
    case Ident(name) => ProperName(name)
    case Str(text) => '"' !in text || '\'' !in text
    case Int(value) => -INT_MAX - 1 <= value <= INT_MAX
    case Double(_) => true
  }

  ghost predicate ProperTokens(args: seq<Token>) {
    forall i :: 0 <= i < |args| ==> ProperToken(args[i])
  }

  /** The shape of every statement that can be parsed: only blocks have children. */
  ghost predicate Proper(stmt: Statement) {
    && ProperName(stmt.name)
    && ProperTokens(stmt.arguments)
    && (stmt.isBlock || stmt.children == [])
    && forall i :: 0 <= i < |stmt.children| ==> Proper(stmt.children[i])
  }

  predicate Negative(t: Token) {
    t.Int? && t.value < 0
  }

  predicate AnyNegative(args: seq<Token>) {
    exists i :: 0 <= i < |args| && Negative(args[i])
  }

  predicate HasNegative(stmt: Statement) {
    AnyNegative(stmt.arguments) || exists i :: 0 <= i < |stmt.children| && HasNegative(stmt.children[i])
  }

  predicate HasDouble(stmt: Statement) {
    || (exists i :: 0 <= i < |stmt.arguments| && stmt.arguments[i].Double?)
    || exists i :: 0 <= i < |stmt.children| && HasDouble(stmt.children[i])
  }

  /** The statements that the printer can render: no doubles and no negative numbers. */
  ghost predicate Printable(stmt: Statement) {
    Proper(stmt) && !HasDouble(stmt) && !HasNegative(stmt)
  }

  /** What a printed token reads as: a double has become an empty string. */
  function Reread(t: Token): Token {
    if t.Double? then Str("") else t
  }

  function RereadTokens(args: seq<Token>): (r: seq<Token>)
    ensures |r| == |args|
  {
    if args == [] then [] else [Reread(args[0])] + RereadTokens(args[1..])
  }

  function RereadStatement(stmt: Statement): Statement
    decreases stmt, 1
  {
    stmt.(arguments := RereadTokens(stmt.arguments), children := RereadAll(stmt.children))
  }

  function RereadAll(stmts: seq<Statement>): (r: seq<Statement>)
    ensures |r| == |stmts|
    decreases stmts, 0
  {
    if stmts == [] then [] else [RereadStatement(stmts[0])] + RereadAll(stmts[1..])
  }

  const MINUS := UnexpectedCharacter('-')

  // ---- tokens ----

  lemma {:induction false} LexSpaces(space: string, s: string)
    requires AllSpace(space)
    ensures Lex(space + s) == Lex(s)
  {
    if space == [] {
      assert space + s == s;
    } else {
      LexSpaces(space[1..], s);
      assert (space + s)[1..] == space[1..] + s;
    }
  }

  /** Leading white space makes no difference to what is parsed. */
  lemma ParseSpaces(space: string, s: string)
    requires AllSpace(space)
    ensures ParseIdentifier(space + s) == ParseIdentifier(s)
    ensures ParseChildren(space + s) == ParseChildren(s)
  {
    LexSpaces(space, s);
  }

  lemma {:induction false} DigitsValue(n: nat)
    ensures NatValue(Digits(n)) == n
  {
    if n < 10 {
      assert NatValue([Digit(n)]) == 10 * NatValue([]) + DigitValue(Digit(n));
    } else {
      DigitsValue(n / 10);
      var s := Digits(n);
      assert s[..|s| - 1] == Digits(n / 10);
    }
  }

  lemma DecimalLex(value: int, rest: string)
    requires ProperToken(Int(value)) && Delimited(rest)
    ensures Lex(Decimal(value) + rest) == if value < 0 then Bad(MINUS) else Got(Int(value), rest)
  {
    hide Digits, NatValue, LexNumber;
    if value >= 0 {
      DigitsValue(value);
      LexInt(Digits(value), rest);
    }
  }

  lemma QuotedLex(text: string, rest: string)
    requires ('"' !in text || '\'' !in text) && Delimited(rest)
    ensures Lex(Quoted(text) + rest) == Got(Str(text), rest)
  {
    var quote := if '"' in text then '\'' else '"';
    LexQuoted(quote, text, rest);
    assert Quoted(text) + rest == [quote] + text + [quote] + rest;
  }

  lemma NameIsToken(name: string, rest: string)
    requires IdentShaped(name) && Delimited(rest)
    ensures Lex(name + rest) == Got(Ident(name), rest)
  {
    LexIdent(name, rest);
  }

  /** A printed token reads back, and a negative number is refused at its sign. */
  lemma ShownLex(t: Token, rest: string)
    requires ProperToken(t) && Delimited(rest)
    ensures Lex(" " + Shown(t) + rest) == if Negative(t) then Bad(MINUS) else Got(Reread(t), rest)
  {
    hide Lex, Decimal, Quoted, Delimited;
    var s := Shown(t) + rest;
    assert " " + Shown(t) + rest == " " + s;
    LexSpaces(" ", s);
    match t
    case Int(value) => DecimalLex(value, rest);
    case Ident(name) => NameIsToken(name, rest);
    case Str(text) => QuotedLex(text, rest);
    case Double(_) => QuotedLex("", rest);
  }

  lemma NameLex(name: string, rest: string)
    requires IdentShaped(name) && Delimited(rest)
    ensures ParseIdentifier(name + rest) == Success((name, rest))
  {
    LexIdent(name, rest);
  }

  // ---- statements ----

  lemma ArgumentsDelimit(args: seq<Token>, tail: string)
    ensures Delimited(Arguments(args) + ";" + tail)
  {
  }

  /** Printed arguments parse back, up to and with the semicolon. */
  lemma {:induction false} ArgumentsParse(args: seq<Token>, tail: string)
    requires ProperTokens(args)
    ensures ParseArguments(Arguments(args) + ";" + tail) ==
      if AnyNegative(args) then Failure(MINUS) else Success((RereadTokens(args), tail))
  {
    if args == [] {
      assert Arguments(args) + ";" + tail == ";" + tail;
    } else {
      var rest := Arguments(args[1..]) + ";" + tail;
      ArgumentsDelimit(args[1..], tail);
      ShownLex(args[0], rest);
      assert Arguments(args) + ";" + tail == " " + Shown(args[0]) + rest;
      ArgumentsParse(args[1..], tail);
      AnyNegativeSplit(args);
    }
  }

  lemma AnyNegativeSplit(args: seq<Token>)
    requires args != []
    ensures AnyNegative(args) <==> Negative(args[0]) || AnyNegative(args[1..])
  {
  }

  /** The name and arguments of a printed statement parse back. */
  lemma HeadParses(stmt: Statement, isBlock: bool, tail: string)
    requires Proper(stmt)
    ensures
      var head := Head(stmt) + tail;
      && ParseIdentifier(head).Success? && ParseIdentifier(head).value.0 == stmt.name
      && ParseStatement(stmt.name, isBlock, ParseIdentifier(head).value.1) ==
         if AnyNegative(stmt.arguments) then Failure(MINUS)
         else Success((Statement(stmt.name, isBlock, RereadTokens(stmt.arguments), []), "\n" + tail))
  {
    var args := Arguments(stmt.arguments) + ";" + ("\n" + tail);
    assert Head(stmt) + tail == stmt.name + args;
    ArgumentsDelimit(stmt.arguments, "\n" + tail);
    NameLex(stmt.name, args);
    ArgumentsParse(stmt.arguments, "\n" + tail);
  }

  lemma {:induction false} LeadIsSpace(layout: Layout, depth: nat)
    requires AllSpace(layout.indent) && AllSpace(layout.increment)
    ensures AllSpace(layout.Lead(depth))
  {
    if depth > 0 {
      LeadIsSpace(layout, depth - 1);
      assert layout.Lead(depth) == layout.Lead(depth - 1) + layout.increment;
    }
  }

  lemma EndParses(lead: string, tail: string)
    requires AllSpace(lead)
    ensures ParseChildren(lead + "end;\n" + tail) == Success(([], "\n" + tail))
  {
    var s := ";" + ("\n" + tail);
    assert lead + "end;\n" + tail == lead + ("end" + s);
    ParseSpaces(lead, "end" + s);
    assert IdentShaped("end");
    NameLex("end", s);
    hide ParseIdentifier, ParseSemiColon, ParseAfter, Lex;
    SemiColonNext("\n" + tail);
  }

  lemma SemiColonNext(s: string)
    ensures ParseSemiColon(";" + s) == Success(((), s))
  {
    assert (";" + s)[1..] == s;
  }

  function Head(stmt: Statement): string {
    stmt.name + Arguments(stmt.arguments) + ";\n"
  }

  /** The text of a printed statement, with what follows it, cut at its identifiers. */
  lemma PrintText(layout: Layout, stmt: Statement, depth: nat, atNewLine: bool, tail: string)
    ensures
      var lead := if atNewLine then layout.Lead(depth) else "";
      var body := layout.PrintAll(stmt.children, depth + 1) + (layout.Lead(depth) + "end;\n" + tail);
      layout.Print(stmt, depth, atNewLine) + tail ==
        if stmt.isBlock then lead + ("begin" + (" " + (Head(stmt) + body)))
        else lead + (Head(stmt) + (layout.PrintAll(stmt.children, depth) + tail))
  {
    hide Arguments, Layout.Lead, Layout.PrintAll;
  }

  /** A block is its head and its children. */
  lemma BlockParses(stmt: Statement, lead: string, body: string)
    requires AllSpace(lead) && Proper(stmt)
    ensures
      var r := Parse(lead + ("begin" + (" " + (Head(stmt) + body))));
      if AnyNegative(stmt.arguments) then r == Failure(MINUS)
      else
        match ParseChildren(body)
        case Failure(e) => r == Failure(e)
        case Success((children, rest)) =>
          r == Success((Statement(stmt.name, true, RereadTokens(stmt.arguments), children), rest))
    ensures ParseIdentifier(lead + ("begin" + (" " + (Head(stmt) + body)))) == Success(("begin", " " + (Head(stmt) + body)))
  {
    hide Lex, ParseChildren, ParseStatement, Proper;
    var inside := " " + (Head(stmt) + body);
    ParseSpaces(lead, "begin" + inside);
    BeginIsIdent();
    NameLex("begin", inside);
    ParseSpaces(" ", Head(stmt) + body);
    HeadParses(stmt, true, body);
    ParseSpaces("\n", body);
    assert Parse(lead + ("begin" + inside)) == ParseBlock(inside);
  }

  /** A plain statement is its head. */
  lemma PlainParses(stmt: Statement, lead: string, tail: string)
    requires AllSpace(lead) && Proper(stmt)
    ensures Parse(lead + (Head(stmt) + tail)) ==
      if AnyNegative(stmt.arguments) then Failure(MINUS)
      else Success((Statement(stmt.name, false, RereadTokens(stmt.arguments), []), "\n" + tail))
    ensures ParseIdentifier(lead + (Head(stmt) + tail)).Success? && ParseIdentifier(lead + (Head(stmt) + tail)).value.0 == stmt.name
  {
    hide Lex, ParseBlock, ParseStatement;
    ParseSpaces(lead, Head(stmt) + tail);
    HeadParses(stmt, false, tail);
  }

  lemma BeginIsIdent()
    ensures IdentShaped("begin") && IdentShaped("end")
  {
  }

  /** A printed statement parses back to itself with doubles read as empty strings, and the text
      behind it is left; a negative number anywhere in it is refused. */
  lemma {:induction false} PrintParses(layout: Layout, stmt: Statement, depth: nat, atNewLine: bool, tail: string)
    requires AllSpace(layout.indent) && AllSpace(layout.increment) && Proper(stmt)
    ensures Parse(layout.Print(stmt, depth, atNewLine) + tail) ==
      if HasNegative(stmt) then Failure(MINUS) else Success((RereadStatement(stmt), "\n" + tail))
    decreases stmt, 1
  {
    hide Lex, Parse, ParseChildren, Head, Layout.Lead, Layout.Print, Layout.PrintAll, AnyNegative, RereadTokens;
    var lead := if atNewLine then layout.Lead(depth) else "";
    LeadIsSpace(layout, depth);
    PrintText(layout, stmt, depth, atNewLine, tail);
    if stmt.isBlock {
      var close := layout.Lead(depth) + "end;\n" + tail;
      BlockParses(stmt, lead, layout.PrintAll(stmt.children, depth + 1) + close);
      PrintAllParses(layout, stmt.children, depth + 1, close);
      EndParses(layout.Lead(depth), tail);
      assert RereadAll(stmt.children) + [] == RereadAll(stmt.children);
    } else {
      PrintNothing(layout, depth, tail);
      PlainParses(stmt, lead, tail);
    }
  }

  lemma PrintNothing(layout: Layout, depth: nat, tail: string)
    ensures layout.PrintAll([], depth) + tail == tail
  {
  }

  lemma {:induction false} PrintAllParses(layout: Layout, stmts: seq<Statement>, depth: nat, tail: string)
    requires AllSpace(layout.indent) && AllSpace(layout.increment)
    requires forall i :: 0 <= i < |stmts| ==> Proper(stmts[i])
    ensures ParseChildren(layout.PrintAll(stmts, depth) + tail) ==
      if exists i :: 0 <= i < |stmts| && HasNegative(stmts[i]) then Failure(MINUS)
      else Prepend(RereadAll(stmts), ParseChildren(tail))
    decreases stmts, 0
  {
    hide HasNegative, RereadStatement, Proper, Layout.Print, Lex;
    if stmts == [] {
      assert layout.PrintAll(stmts, depth) + tail == tail;
      PrependNone(ParseChildren(tail));
    } else {
      var rest := layout.PrintAll(stmts[1..], depth) + tail;
      var s := layout.Print(stmts[0], depth, true) + rest;
      assert layout.PrintAll(stmts, depth) + tail == s;
      PrintParses(layout, stmts[0], depth, true, rest);
      PrintAllParses(layout, stmts[1..], depth, tail);
      StartsWithName(layout, stmts[0], depth, rest);
      ParseSpaces("\n", rest);
      assert forall i :: 0 <= i < |stmts[1..]| ==> stmts[1..][i] == stmts[i + 1];
      PrependBefore([RereadStatement(stmts[0])], RereadAll(stmts[1..]), ParseChildren(tail));
    }
  }

  lemma PrependBefore(front: seq<Statement>, more: seq<Statement>, r: Parsed<seq<Statement>>)
    ensures Prepend(front, Prepend(more, r)) == Prepend(front + more, r)
  {
    if r.Success? {
      assert front + (more + r.value.0) == front + more + r.value.0;
    }
  }

  /** A printed statement does not start like the end of a block. */
  lemma StartsWithName(layout: Layout, stmt: Statement, depth: nat, tail: string)
    requires AllSpace(layout.indent) && AllSpace(layout.increment) && Proper(stmt)
    ensures
      var r := ParseIdentifier(layout.Print(stmt, depth, true) + tail);
      r.Success? && r.value.0 != "end"
  {
    hide Lex, Parse, ParseIdentifier, Head, Layout.Lead, Layout.Print, Layout.PrintAll;
    var lead := layout.Lead(depth);
    LeadIsSpace(layout, depth);
    PrintText(layout, stmt, depth, true, tail);
    if stmt.isBlock {
      BlockParses(stmt, lead, layout.PrintAll(stmt.children, depth + 1) + (lead + "end;\n" + tail));
    } else {
      PrintNothing(layout, depth, tail);
      PlainParses(stmt, lead, tail);
    }
  }

  // ---- what the parser accepts ----

  /** A token of a text is shaped like one, and a string lacks the quote that opened it. */
  lemma {:induction false} LexProper(s: string)
    requires Lex(s).Got?
    ensures
      var t := Lex(s).token;
      (t.Ident? ==> IdentShaped(t.name)) && (!t.Ident? ==> ProperToken(t))
    decreases |s|
  {
    if IsDigit(s[0]) {
    } else if s[0] == '"' || s[0] == '\'' {
      var n := Span(s[1..], IsNot(s[0]));
      assert s[1..n + 1] == s[1..][..n];
    } else if IsAlpha(s[0]) {
      var n := Span(s, IsIdentChar);
      assert n > 0;
    } else if s[0] == '#' {
      LexProper(s[Span(s, IsNot('\n')) + 1..]);
    } else {
      LexProper(s[1..]);
    }
  }

  lemma {:induction false} ArgumentsProper(s: string)
    requires ParseArguments(s).Success?
    ensures ProperTokens(ParseArguments(s).value.0)
    decreases |s|
  {
    if Lex(s).Got? {
      LexProper(s);
      ArgumentsProper(Lex(s).rest);
    }
  }

  lemma StatementProper(name: string, isBlock: bool, s: string)
    requires IdentShaped(name) && ParseStatement(name, isBlock, s).Success?
    ensures
      var stmt := ParseStatement(name, isBlock, s).value.0;
      ProperName(stmt.name) && ProperTokens(stmt.arguments) && stmt.isBlock == isBlock && stmt.children == []
  {
    ArgumentsProper(s);
  }

  lemma {:induction false} BlockProper(s: string)
    requires ParseBlock(s).Success?
    ensures Proper(ParseBlock(s).value.0)
    decreases |s|, 1
  {
    LexProper(s);
    var (name, rest) := ParseIdentifier(s).value;
    StatementProper(name, true, rest);
    var (head, rest') := ParseStatement(name, true, rest).value;
    ChildrenProper(rest');
  }

  lemma {:induction false} ChildrenProper(s: string)
    requires ParseChildren(s).Success?
    ensures forall i :: 0 <= i < |ParseChildren(s).value.0| ==> Proper(ParseChildren(s).value.0[i])
    decreases |s|, 0
  {
    LexProper(s);
    var (name, rest) := ParseIdentifier(s).value;
    if name != "end" {
      if name == "begin" {
        BlockProper(rest);
      } else {
        StatementProper(name, false, rest);
      }
      ChildrenProper(ParseAfter(name, rest).value.1);
    }
  }

  /** Every statement that is accepted has the shape the printer counts on. */
  lemma ParseProper(s: string)
    requires Parse(s).Success?
    ensures Proper(Parse(s).value.0)
  {
    LexProper(s);
    var (name, rest) := ParseIdentifier(s).value;
    if name == "begin" {
      BlockProper(rest);
    } else {
      StatementProper(name, false, rest);
    }
  }

  // ---- main results ----

  lemma {:induction false} RereadSame(args: seq<Token>)
    ensures RereadTokens(args) == args <==> forall i :: 0 <= i < |args| ==> !args[i].Double?
  {
    if args != [] {
      RereadSame(args[1..]);
      var r := RereadTokens(args);
      assert r[0] == Reread(args[0]) && r[1..] == RereadTokens(args[1..]);
      assert r == args <==> r[0] == args[0] && r[1..] == args[1..];
      assert forall i :: 0 <= i < |args[1..]| ==> args[1..][i] == args[i + 1];
    }
  }

  lemma {:induction false} RereadSameStatement(stmt: Statement)
    ensures RereadStatement(stmt) == stmt <==> !HasDouble(stmt)
    decreases stmt, 1
  {
    RereadSame(stmt.arguments);
    RereadSameAll(stmt.children);
  }

  lemma {:induction false} RereadSameAll(stmts: seq<Statement>)
    ensures RereadAll(stmts) == stmts <==> forall i :: 0 <= i < |stmts| ==> !HasDouble(stmts[i])
    decreases stmts, 0
  {
    if stmts != [] {
      RereadSameStatement(stmts[0]);
      RereadSameAll(stmts[1..]);
      var r := RereadAll(stmts);
      assert r[0] == RereadStatement(stmts[0]) && r[1..] == RereadAll(stmts[1..]);
      assert r == stmts <==> r[0] == stmts[0] && r[1..] == stmts[1..];
      assert forall i :: 0 <= i < |stmts[1..]| ==> stmts[1..][i] == stmts[i + 1];
    }
  }

  /** For every statement tree, at every depth and with any white space for indentation: what is
      printed parses back to the tree, and exactly the printed text is consumed, if and only if
      the tree is printable. */
  lemma RoundTrip(layout: Layout, stmt: Statement, depth: nat, atNewLine: bool, tail: string)
    requires AllSpace(layout.indent) && AllSpace(layout.increment)
    ensures Parse(layout.Print(stmt, depth, atNewLine) + tail) == Success((stmt, "\n" + tail)) <==> Printable(stmt)
    ensures
      var r := Parse(layout.Print(stmt, depth, atNewLine) + tail);
      r.Success? && r.value.0 == stmt <==> Printable(stmt)
  {
    var s := layout.Print(stmt, depth, atNewLine) + tail;
    if Proper(stmt) {
      PrintParses(layout, stmt, depth, atNewLine, tail);
      RereadSameStatement(stmt);
    } else if Parse(s).Success? {
      ParseProper(s);
    }
  }

  /** Parsing what was printed of a parsed statement gives the statement again, if and only if it
      holds no double and no negative number. */
  lemma ParsedNormalisation(layout: Layout, source: string)
    requires AllSpace(layout.indent) && AllSpace(layout.increment) && Parse(source).Success?
    ensures
      var stmt := Parse(source).value.0;
      Parse(layout.Print(stmt, 0, true)) == Success((stmt, "\n")) <==> !HasDouble(stmt) && !HasNegative(stmt)
  {
    var stmt := Parse(source).value.0;
    ParseProper(source);
    assert layout.Print(stmt, 0, true) + "" == layout.Print(stmt, 0, true);
    assert "\n" + "" == "\n";
    RoundTrip(layout, stmt, 0, true, "");
  }

  /** The printer and the parser themselves: what one writes of a statement the other reads as that
      statement, if and only if it is printable. */
  method PrintAndParse(indent: string, increment: string, stmt: Statement) returns (r: Result<Statement, Error>)
    requires AllSpace(indent) && AllSpace(increment)
    ensures r == Success(stmt) <==> Printable(stmt)
  {
    hide Parse, Printable, Layout.Print;
    var printer := new HdlPrinter(indent, increment);
    var out := new OutStream();
    printer.PrintStatement(out, stmt);
    var parser := new HdlParser(out.text);
    r := parser.Parse();
    ghost var text := printer.layout.Print(stmt, 0, true);
    assert "" + text == text && text + "" == text;
    RoundTrip(printer.layout, stmt, 0, true, "");
  }
}
