/** The recursive descent parser of HdlParser.cc. */
module HdlParsers {
  import opened Options
  import opened HdlTokens
  import G = HdlGrammars

  class HdlParser {
    const tokenizer: HdlTokenizer

    /** Between tokens none is left over. */
    ghost predicate Valid()
      reads tokenizer, tokenizer.reader
    {
      tokenizer.Valid() && tokenizer.token == None
    }

    ghost function Rest(): string
      reads tokenizer.reader
    {
      tokenizer.reader.rest
    }

    /** The step left the text that the specification leaves, or failed as it does. */
    ghost predicate Follows<T>(r: Result<T, Error>, spec: G.Parsed<T>)
      reads tokenizer, tokenizer.reader
    {
      match spec
      case Failure(e) => r == Failure(e)
      case Success((value, rest)) => Valid() && r == Success(value) && Rest() == rest
    }

    constructor (source: string)
      ensures Valid() && fresh(tokenizer) && fresh(tokenizer.reader) && Rest() == source
    {
      var reader := new StringReader(source);
      tokenizer := new HdlTokenizer(reader);
    }

    method Parse() returns (r: Result<G.Statement, Error>)
      requires Valid()
      modifies tokenizer, tokenizer.reader
      ensures Follows(r, G.Parse(old(Rest())))
    {
      hide Lex, G.ParseBlock, G.ParseStatement;
      var name := SkipAndEnsureIdentifier();
      if name.Failure? {
        return Failure(name.error);
      }
      if name.value == "begin" {
        r := ParseBlock();
      } else {
        r := ParseStatement(name.value, false);
      }
    }

    method ParseBlock() returns (r: Result<G.Statement, Error>)
      requires Valid()
      modifies tokenizer, tokenizer.reader
      ensures Follows(r, G.ParseBlock(old(Rest())))
      decreases |Rest()|
    {
      hide Lex, G.ParseIdentifier, G.ParseStatement, G.ParseArguments, G.ParseSemiColon, G.Prepend;
      var name := SkipAndEnsureIdentifier();
      if name.Failure? {
        return Failure(name.error);
      }
      var head := ParseStatement(name.value, true);
      if head.Failure? {
        return Failure(head.error);
      }
      var statement := head.value;
      ghost var start := Rest();
      G.PrependNone(G.ParseChildren(start));
      while true
        invariant Valid() && statement == head.value.(children := statement.children)
        invariant G.ParseChildren(start) == G.Prepend(statement.children, G.ParseChildren(Rest()))
        invariant |Rest()| <= |start|
        decreases |Rest()|
      {
        ghost var here := Rest();
        name := SkipAndEnsureIdentifier();
        if name.Failure? {
          G.PrependFailure(statement.children, G.ParseChildren(here));
          return Failure(name.error);
        }
        if name.value == "end" {
          var semi := SkipAndEnsureSemiColon();
          G.PrependEnd(statement.children, G.ParseChildren(here));
          if semi.Failure? {
            return Failure(semi.error);
          }
          return Success(statement);
        }
        var child;
        if name.value == "begin" {
          child := ParseBlock();
        } else {
          child := ParseStatement(name.value, false);
        }
        if child.Failure? {
          G.PrependFailure(statement.children, G.ParseChildren(here));
          return Failure(child.error);
        }
        G.PrependTwice(statement.children, child.value, G.ParseChildren(Rest()));
        statement := statement.(children := statement.children + [child.value]);
      }
    }

    method SkipAndEnsureSemiColon() returns (r: Result<(), Error>)
      requires Valid()
      modifies tokenizer, tokenizer.reader
      ensures Follows(r, G.ParseSemiColon(old(Rest())))
    {
      hide Lex;
      var more := tokenizer.NextToken();
      if more.Failure? {
        return Failure(more.error);
      }
      if !more.value {
        return Failure(UnexpectedEof);
      }
      if !(tokenizer.haveToken && tokenizer.isSemiColon) {
        return Failure(ExpectedSemiColon);
      }
      return Success(());
    }

    method SkipAndEnsureIdentifier() returns (r: Result<string, Error>)
      requires Valid()
      modifies tokenizer, tokenizer.reader
      ensures Follows(r, G.ParseIdentifier(old(Rest())))
    {
      hide Lex;
      var more := tokenizer.NextToken();
      if more.Failure? {
        return Failure(more.error);
      }
      if !more.value {
        return Failure(UnexpectedEof);
      }
      if !tokenizer.haveToken || tokenizer.token.None? || !tokenizer.token.value.Ident? {
        return Failure(ExpectedIdentifier);
      }
      r := Success(tokenizer.token.value.name);
      tokenizer.token := None;
    }

    method ParseStatement(name: string, isBlock: bool) returns (r: Result<G.Statement, Error>)
      requires Valid()
      modifies tokenizer, tokenizer.reader
      ensures Follows(r, G.ParseStatement(name, isBlock, old(Rest())))
    {
      hide Lex, G.ParseArguments;
      if name == "begin" || name == "end" {
        return Failure(InvalidStatementName(name));
      }
      var args := ParseArgumentsForStatement();
      if args.Failure? {
        return Failure(args.error);
      }
      return Success(G.Statement(name, isBlock, args.value, []));
    }

    method ParseArgumentsForStatement() returns (r: Result<seq<Token>, Error>)
      requires Valid()
      modifies tokenizer, tokenizer.reader
      ensures Follows(r, G.ParseArguments(old(Rest())))
    {
      hide Lex;
      var args: seq<Token> := [];
      ghost var start := Rest();
      assert G.ParseArguments(start).Success? ==> args + G.ParseArguments(start).value.0 == G.ParseArguments(start).value.0;
      while true
        invariant Valid()
        invariant
          match G.ParseArguments(Rest())
          case Failure(e) => G.ParseArguments(start) == Failure(e)
          case Success((more, rest)) => G.ParseArguments(start) == Success((args + more, rest))
        decreases |Rest()|
      {
        var more := tokenizer.NextToken();
        if more.Failure? {
          return Failure(more.error);
        }
        if !more.value {
          return Failure(UnexpectedEof);
        }
        if tokenizer.haveToken && tokenizer.isSemiColon {
          assert args + [] == args;
          return Success(args);
        }
        if !tokenizer.haveToken {
          return Failure(TokenExpected);
        }
        var token := tokenizer.token.value;
        tokenizer.token := None;
        if token.IsBegin() || token.IsEnd() {
          return Failure(InvalidBeginEnd);
        }
        ghost var tail := G.ParseArguments(Rest());
        assert tail.Success? ==> args + ([token] + tail.value.0) == args + [token] + tail.value.0;
        args := args + [token];
      }
    }
  }
}
