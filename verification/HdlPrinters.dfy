/** The printer of HdlPrinter.cc, and the text it prints. */
module HdlPrinters {
  import opened Characters
  import opened HdlTokens
  import opened HdlGrammars

  function Digit(d: nat): (c: char)
    requires d < 10
    ensures IsDigit(c) && DigitValue(c) == d
  {
    '0' + d as char
  }

  function Digits(n: nat): (s: string)
    ensures s != [] && AllDigits(s)
  {
    if n < 10 then [Digit(n)] else Digits(n / 10) + [Digit(n % 10)]
  }

  function Decimal(value: int): string {
    if value < 0 then "-" + Digits(-value) else Digits(value)
  }

  /** A string is quoted with apostrophes when it holds a quotation mark. */
  function Quoted(text: string): string {
    if '"' in text then "'" + text + "'" else "\"" + text + "\""
  }

  lemma QuotedParts(text: string)
    ensures " " + Quoted(text) == if '"' in text then " '" + text + "'" else " \"" + text + "\""
  {
    if '"' in text {
      assert " " + ("'" + text + "'") == " '" + text + "'";
    } else {
      assert " " + ("\"" + text + "\"") == " \"" + text + "\"";
    }
  }

  /** A double has no string value of its own and is printed as an empty string. */
  function Shown(token: Token): string {
    match token
    case Int(value) => Decimal(value)
    case Ident(name) => name
    case Str(text) => Quoted(text)
    case Double(_) => Quoted("")
  }

  function Arguments(args: seq<Token>): string {
    if args == [] then "" else " " + Shown(args[0]) + Arguments(args[1..])
  }

  lemma ArgumentsUnfold(before: string, args: seq<Token>, i: nat)
    requires i < |args|
    ensures before + Arguments(args[i..]) == before + (" " + Shown(args[i])) + Arguments(args[i + 1..])
  {
  }

  lemma ArgumentsDone(args: seq<Token>, i: nat)
    requires i == |args|
    ensures Arguments(args[i..]) == ""
  {
  }

  function Repeated(s: string, n: nat): string {
    if n == 0 then "" else Repeated(s, n - 1) + s
  }

  datatype Layout = Layout(indent: string, increment: string) {
    function Lead(depth: nat): string {
      indent + Repeated(increment, depth)
    }

    /** A statement as printed at a depth, on a new line or not. */
    function Print(stmt: Statement, depth: nat, atNewLine: bool): string
      decreases stmt, 1
    {
      var lead := if atNewLine then Lead(depth) else "";
      var head := stmt.name + Arguments(stmt.arguments) + ";\n";
      if stmt.isBlock then lead + "begin " + head + PrintAll(stmt.children, depth + 1) + Lead(depth) + "end;\n"
      else lead + head + PrintAll(stmt.children, depth)
    }

    function PrintAll(stmts: seq<Statement>, depth: nat): string
      decreases stmts, 0
    {
      if stmts == [] then "" else Print(stmts[0], depth, true) + PrintAll(stmts[1..], depth)
    }
  }

  /** A line is led by the indentation and one increment for each level it is deep. */
  lemma {:induction false} LeadRepeats(layout: Layout, depth: nat)
    ensures layout.Lead(0) == layout.indent
    ensures layout.Lead(depth + 1) == layout.Lead(depth) + layout.increment
    ensures |layout.Lead(depth)| == |layout.indent| + depth * |layout.increment|
  {
    if depth > 0 {
      LeadRepeats(layout, depth - 1);
      OneMore(depth - 1, |layout.increment|);
    }
    assert layout.indent + (Repeated(layout.increment, depth) + layout.increment)
      == layout.indent + Repeated(layout.increment, depth) + layout.increment;
  }

  lemma OneMore(n: nat, length: nat)
    ensures (n + 1) * length == n * length + length
  {
  }

  /** A stream that collects what is written to it. */
  class OutStream {
    var text: string

    constructor ()
      ensures text == ""
    {
      text := "";
    }

    method Write(s: string)
      modifies this
      ensures text == old(text) + s
    {
      text := text + s;
    }
  }

  class HdlPrinter {
    const layout: Layout
    var depth: nat
    var atNewLine: bool

    constructor (indent: string, increment: string)
      ensures layout == Layout(indent, increment) && depth == 0 && atNewLine
    {
      layout := Layout(indent, increment);
      depth := 0;
      atNewLine := true;
    }

    method PrintIndent(out: OutStream)
      modifies this`atNewLine, out
      ensures out.text == old(out.text) + (if old(atNewLine) then layout.Lead(depth) else "") && !atNewLine
    {
      ghost var start := out.text;
      if atNewLine {
        out.Write(layout.indent);
        for i := 0 to depth
          invariant out.text == start + layout.indent + Repeated(layout.increment, i)
          modifies out
        {
          out.Write(layout.increment);
        }
        atNewLine := false;
        assert start + layout.indent + Repeated(layout.increment, depth) == start + layout.Lead(depth);
      }
    }

    method BeginBlock(out: OutStream)
      modifies this, out
      ensures out.text == old(out.text) + (if old(atNewLine) then layout.Lead(old(depth)) else "") + "begin "
      ensures depth == old(depth) + 1 && !atNewLine
    {
      PrintIndent(out);
      out.Write("begin ");
      depth := depth + 1;
    }

    method EndBlock(out: OutStream)
      requires depth > 0
      modifies this, out
      ensures out.text == old(out.text) + (if old(atNewLine) then layout.Lead(depth) else "") + "end;\n"
      ensures depth == old(depth) - 1 && atNewLine
    {
      depth := depth - 1;
      PrintIndent(out);
      out.Write("end;\n");
      atNewLine := true;
    }

    method BeginStatement(out: OutStream, name: string)
      modifies this`atNewLine, out
      ensures out.text == old(out.text) + (if old(atNewLine) then layout.Lead(depth) else "") + name && !atNewLine
    {
      PrintIndent(out);
      out.Write(name);
    }

    method EndStatement(out: OutStream)
      modifies this`atNewLine, out
      ensures out.text == old(out.text) + ";\n" && atNewLine
    {
      out.Write(";\n");
      atNewLine := true;
    }

    method AddString(out: OutStream, str: string)
      modifies out
      ensures out.text == old(out.text) + (" " + Quoted(str))
    {
      QuotedParts(str);
      hide Quoted;
      if '"' in str {
        out.Write(" '" + str + "'");
      } else {
        out.Write(" \"" + str + "\"");
      }
    }

    method PrintToken(out: OutStream, token: Token)
      modifies out
      ensures out.text == old(out.text) + (" " + Shown(token))
    {
      match token
      case Int(value) => out.Write(" " + Decimal(value));
      case Ident(name) => out.Write(" " + name);
      case Str(text) => AddString(out, text);
      case Double(_) => AddString(out, "");
    }

    method PrintStatement(out: OutStream, stmt: Statement)
      modifies this, out
      ensures out.text == old(out.text) + layout.Print(stmt, old(depth), old(atNewLine))
      ensures depth == old(depth) && atNewLine
      decreases stmt, 1
    {
      hide Layout.Lead, Arguments, Layout.PrintAll;
      ghost var start, outer := out.text, depth;
      ghost var lead := if atNewLine then layout.Lead(outer) else "";
      ghost var begin := if stmt.isBlock then "begin " else "";
      if stmt.isBlock {
        BeginBlock(out);
      }
      PrintHead(out, stmt);
      ghost var head := stmt.name + Arguments(stmt.arguments) + ";\n";
      assert out.text == start + (lead + begin + head);
      PrintChildren(out, stmt.children);
      if stmt.isBlock {
        EndBlock(out);
      }
    }

    /** The name and the arguments of a statement, on their line. */
    method PrintHead(out: OutStream, stmt: Statement)
      modifies this`atNewLine, out
      ensures atNewLine
      ensures out.text ==
        old(out.text) + ((if old(atNewLine) then layout.Lead(depth) else "") + (stmt.name + Arguments(stmt.arguments) + ";\n"))
    {
      hide Layout.Lead, Arguments;
      BeginStatement(out, stmt.name);
      PrintArguments(out, stmt.arguments);
      EndStatement(out);
    }

    /** The loop over the children of a statement. */
    method PrintChildren(out: OutStream, stmts: seq<Statement>)
      requires atNewLine
      modifies this, out
      ensures out.text == old(out.text) + layout.PrintAll(stmts, old(depth))
      ensures depth == old(depth) && atNewLine
      decreases stmts, 0
    {
      hide Layout.Print;
      for i := 0 to |stmts|
        invariant depth == old(depth) && atNewLine
        invariant old(out.text) + layout.PrintAll(stmts, depth) == out.text + layout.PrintAll(stmts[i..], depth)
      {
        ghost var before := out.text;
        PrintStatement(out, stmts[i]);
        assert stmts[i..][1..] == stmts[i + 1..];
        assert before + (layout.Print(stmts[i], depth, true) + layout.PrintAll(stmts[i + 1..], depth))
          == out.text + layout.PrintAll(stmts[i + 1..], depth);
      }
    }

    method PrintArguments(out: OutStream, args: seq<Token>)
      modifies out
      ensures out.text == old(out.text) + Arguments(args)
    {
      hide Shown, Arguments;
      assert args[0..] == args;
      for i := 0 to |args|
        invariant old(out.text) + Arguments(args) == out.text + Arguments(args[i..])
      {
        ArgumentsUnfold(out.text, args, i);
        PrintToken(out, args[i]);
      }
      ArgumentsDone(args, |args|);
    }
  }
}
