/** The recursive-descent parser of parser.c: an object holding the tokenizer
    and the current token, whose parse methods pull tokens one at a time. The
    ghost fields record the whole token stream the tokenizer will deliver and
    the position of the current token in it; every method is proved to return
    the node, and to leave the parser at the position, that the functions of
    module Grammar compute. */
module Parser {
  import opened Wrappers
  import opened LexerSpec
  import opened Ast
  import opened Grammar
  import opened Lexer

  class Parser {
    const lexer: Lexer
    var current: Token
    /** The tokens of the whole stream, the current one at `pos`. */
    ghost const tokens: seq<Token>
    ghost var pos: nat

    /** The current token is `tokens[pos]` of a well-formed stream and, until
        EOF, the tokenizer will deliver exactly the tokens after it. */
    ghost predicate Valid()
      reads this, lexer
    {
      lexer.Valid() && Tracks(tokens, pos, current, lexer.input, lexer.Cursor())
    }

    /** `create_parser`: the first token is read at once. */
    constructor (lexer: Lexer)
      requires lexer.Valid() && StreamDefined(lexer.input, lexer.Cursor())
      modifies lexer
      ensures Valid() && this.lexer == lexer && pos == 0
      ensures tokens == TokensFrom(lexer.input, old(lexer.Cursor()))
    {
      ghost var ts := TokensFrom(lexer.input, lexer.Cursor());
      TracksFirst(lexer.input, lexer.Cursor());
      var first := lexer.NextToken();
      this.lexer := lexer;
      current := first;
      tokens := ts;
      pos := 0;
    }

    /** `get_next_token`: the current token is replaced by the next one. It is
        never called once EOF is current. */
    method GetNextToken()
      requires Valid() && current.kind != Eof
      modifies this, lexer
      ensures Valid() && pos == old(pos) + 1
    {
      TracksNext(tokens, pos, current, lexer.input, lexer.Cursor());
      current := lexer.NextToken();
      pos := pos + 1;
    }

    /** `parse_tokens`: statements are parsed until EOF, and those that parse
        are chained in source order. */
    method ParseTokens() returns (program: Chain)
      requires Valid()
      modifies this, lexer
      ensures Valid() && current.kind == Eof
      ensures program == ParseProgram(tokens, old(pos))
    {
      program := [];
      while current.kind != Eof
        invariant Valid() && old(pos) <= pos
        invariant program + ParseProgram(tokens, pos) == ParseProgram(tokens, old(pos))
        decreases |tokens| - pos
      {
        ghost var at := pos;
        var node := ParseStatement();
        ParseProgramStep(tokens, at, node, pos);
        if node.Some? {
          assert program + [node.value] + ParseProgram(tokens, pos) == program + ([node.value] + ParseProgram(tokens, pos));
          program := program + [node.value];
        } else if current.kind == Eof {
          assert program + ParseProgram(tokens, at) == program;
          break;
        }
      }
      assert program + ParseProgram(tokens, pos) == program;
    }

    /** `parse_statement`. */
    method ParseStatement() returns (statement: Option<Node>)
      requires Valid()
      modifies this, lexer
      ensures Valid()
      ensures statement == PStatement(tokens, old(pos)).node && pos == PStatement(tokens, old(pos)).next
    {
      var kind := current.kind;
      if kind == IntType || kind == FloatType || kind == StringType {
        statement := ParseVarDeclaration();
      } else if kind == TokenType.Print {
        statement := ParsePrint();
      } else if kind == Identifier {
        statement := ParseAssignment();
      } else if kind == Eof {
        return None;
      } else {
        GetNextToken();
        return None;
      }
      if statement.Some? && current.kind != Semicolon {
        return None;
      }
      if statement.Some? {
        GetNextToken();
      }
    }

    /** `parse_var_declaration`. The source's `bool` initializer test is left
        out: it needs a TOKEN_BOOL, which the tokenizer never produces. */
    method ParseVarDeclaration() returns (node: Option<Node>)
      requires Valid() && IsTypeKeyword(current.kind)
      modifies this, lexer
      ensures Valid()
      ensures node == PVarDeclaration(tokens, old(pos)).node && pos == PVarDeclaration(tokens, old(pos)).next
    {
      var typ := current.value.value;
      GetNextToken();
      if current.kind != Identifier {
        node := None;
      } else {
        var name := current.value.value;
        GetNextToken();
        if current.kind != Assign {
          node := Some(CreateVarDeclarationNode(typ, name, None));
        } else {
          GetNextToken();
          ghost var at := pos;
          var value: Option<Node>;
          if typ == "string" && current.kind == String {
            value := Some(CreateNode(StringLiteral, None, None, current.value));
            GetNextToken();
          } else {
            assert LexedAt(tokens, pos);
            value := ParseExpression();
          }
          assert value == PInitializer(typ, tokens, at).node && pos == PInitializer(typ, tokens, at).next;
          node := if value.None? then None else Some(CreateVarDeclarationNode(typ, name, value));
        }
      }
    }

    /** `parse_print`. */
    method ParsePrint() returns (node: Option<Node>)
      requires Valid() && current.kind == TokenType.Print
      modifies this, lexer
      ensures Valid()
      ensures node == PPrint(tokens, old(pos)).node && pos == PPrint(tokens, old(pos)).next
    {
      GetNextToken();
      if current.kind != LParen {
        node := None;
      } else {
        GetNextToken();
        var expression := ParseExpression();
        if expression.None? || current.kind != RParen {
          node := None;
        } else {
          GetNextToken();
          node := Some(CreateNode(NodeKind.Print, expression, None, None));
        }
      }
    }

    /** `parse_assignment`: the expression after `=` is parsed twice and the
        second result is the value. The source's TOKEN_BOOL test between the
        two is left out: that token is never produced. */
    method ParseAssignment() returns (node: Option<Node>)
      requires Valid() && current.kind == Identifier
      modifies this, lexer
      ensures Valid()
      ensures node == PAssignment(tokens, old(pos)).node && pos == PAssignment(tokens, old(pos)).next
    {
      var name := current.value.value;
      GetNextToken();
      if current.kind != Assign {
        node := None;
      } else {
        GetNextToken();
        var value := ParseExpression();
        assert LexedAt(tokens, pos);
        value := ParseExpression();
        node := if value.None? then None else Some(CreateAssignmentNode(name, value));
      }
    }

    /** `parse_expression`: terms joined by `+` and `-`, left to right. */
    method ParseExpression() returns (left: Option<Node>)
      requires Valid()
      modifies this, lexer
      ensures Valid()
      ensures left == PExpression(tokens, old(pos)).node && pos == PExpression(tokens, old(pos)).next
      decreases |tokens| - pos, 6
    {
      left := ParseTerm();
      while current.kind == Plus || current.kind == Minus
        invariant Valid() && old(pos) <= pos
        invariant ExprLoop(left, tokens, pos).node == PExpression(tokens, old(pos)).node
        invariant ExprLoop(left, tokens, pos).next == PExpression(tokens, old(pos)).next
        decreases |tokens| - pos
      {
        ghost var before, at := left, pos;
        var op := ExprOp(current.kind);
        assert op == ExprOp(tokens[at].kind);
        GetNextToken();
        ghost var operand := pos;
        var right := ParseTerm();
        ExprLoopStep(before, tokens, at, operand, right, pos);
        left := Some(CreateNode(BinaryOp, left, right, Some(op)));
      }
    }

    /** `parse_power`: factors joined by `**`, left to right. */
    method ParsePower() returns (left: Option<Node>)
      requires Valid()
      modifies this, lexer
      ensures Valid()
      ensures left == PPower(tokens, old(pos)).node && pos == PPower(tokens, old(pos)).next
      decreases |tokens| - pos, 2
    {
      left := ParseFactor();
      while current.kind == Power
        invariant Valid() && old(pos) <= pos
        invariant PowerLoop(left, tokens, pos).node == PPower(tokens, old(pos)).node
        invariant PowerLoop(left, tokens, pos).next == PPower(tokens, old(pos)).next
        decreases |tokens| - pos
      {
        ghost var before, at := left, pos;
        assert tokens[at].kind == Power;
        GetNextToken();
        ghost var operand := pos;
        var right := ParseFactor();
        PowerLoopStep(before, tokens, at, operand, right, pos);
        left := Some(CreateNode(BinaryOp, left, right, Some("**")));
      }
    }

    /** `parse_term`: powers joined by `*`, `/` and `%`, left to right. */
    method ParseTerm() returns (left: Option<Node>)
      requires Valid()
      modifies this, lexer
      ensures Valid()
      ensures left == PTerm(tokens, old(pos)).node && pos == PTerm(tokens, old(pos)).next
      decreases |tokens| - pos, 4
    {
      left := ParsePower();
      while current.kind == Multiply || current.kind == Divide || current.kind == Modulus
        invariant Valid() && old(pos) <= pos
        invariant TermLoop(left, tokens, pos).node == PTerm(tokens, old(pos)).node
        invariant TermLoop(left, tokens, pos).next == PTerm(tokens, old(pos)).next
        decreases |tokens| - pos
      {
        ghost var before, at := left, pos;
        var op := TermOp(current.kind);
        assert op == TermOp(tokens[at].kind);
        GetNextToken();
        ghost var operand := pos;
        var right := ParsePower();
        TermLoopStep(before, tokens, at, operand, right, pos);
        left := Some(CreateNode(BinaryOp, left, right, Some(op)));
      }
    }

    /** `parse_factor`. The source's TOKEN_BOOL case is left out: that token is
        never produced. */
    method ParseFactor() returns (node: Option<Node>)
      requires Valid()
      modifies this, lexer
      ensures Valid()
      ensures node == PFactor(tokens, old(pos)).node && pos == PFactor(tokens, old(pos)).next
      decreases |tokens| - pos, 0
    {
      var token := current;
      if token.kind == Number {
        node := Some(CreateNode(IntLiteral, None, None, token.value));
        GetNextToken();
      } else if token.kind == Identifier {
        node := Some(CreateNode(Literal, None, None, token.value));
        GetNextToken();
      } else if token.kind == String {
        node := Some(CreateNode(StringLiteral, None, None, token.value));
        GetNextToken();
      } else if token.kind == LParen {
        GetNextToken();
        var expr := ParseExpression();
        if current.kind != RParen {
          node := None;
        } else {
          GetNextToken();
          node := expr;
        }
      } else {
        assert LexedAt(tokens, pos);
        node := None;
      }
    }
  }
}
