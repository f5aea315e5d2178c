/** The tokenizer object of lexer.c: a cursor over a C string that hands out one
    token per call. Every method is proved to do what the functions of module
    LexerSpec say, so the lemmas proved there hold of this code. */
module Lexer {
  import opened Wrappers
  import opened LexerSpec

  class Lexer {
    /** The source text, without its terminating NUL. */
    const input: string
    var position: nat
    var readPosition: nat
    var currentChar: char

    /** The cursor fields agree with each other: `readPosition` is one past
        `position`, and `currentChar` is the character at `position`, or NUL once
        `advance` has run off the end (where `position` stays on the last
        character). */
    ghost predicate Valid()
      reads this
    {
      CursorInvariant(input, position, readPosition, currentChar)
    }

    /** Where the cursor stands: the position of `currentChar`, or the length of
        the input once the end has been reached. */
    ghost function Cursor(): (c: nat)
      reads this
      requires Valid()
      ensures c <= |input| && currentChar == CharAt(input, c)
    {
      if currentChar == NUL then |input| else position
    }

    /** `init_lexer`: the cursor starts on the first character. */
    constructor (input: string)
      requires NoNul(input)
      ensures Valid() && this.input == input && Cursor() == 0
    {
      this.input := input;
      position := 0;
      readPosition := 1;
      currentChar := CharAt(input, 0);
    }

    /** `advance`: one character forward, staying put at the end. */
    method Advance()
      requires Valid()
      modifies this
      ensures Valid() && Cursor() == if old(Cursor()) < |input| then old(Cursor()) + 1 else |input|
    {
      if readPosition < |input| {
        position := readPosition;
        currentChar := input[position];
        readPosition := readPosition + 1;
      } else {
        currentChar := NUL;
      }
    }

    /** `peek_char`: the character after the current one, NUL past the end. */
    function PeekChar(): (c: char)
      reads this
      requires Valid()
      ensures c == CharAt(input, Cursor() + 1)
    {
      if readPosition >= |input| then NUL else input[readPosition]
    }

    /** `skip_whitespace`: past spaces, tabs, newlines and carriage returns. */
    method SkipWhitespace()
      requires Valid()
      modifies this
      ensures Valid() && Cursor() == WhitespaceEnd(input, old(Cursor()))
    {
      while currentChar == ' ' || currentChar == '\t' || currentChar == '\n' || currentChar == '\r'
        invariant Valid() && old(Cursor()) <= Cursor() <= WhitespaceEnd(input, old(Cursor()))
        decreases |input| - Cursor()
      {
        Advance();
      }
    }

    /** `skip_comments`: past one line comment (stopping at its newline) or one
        block comment (past its closer). The block comment must be closed: the
        source's loop does not terminate otherwise. */
    method SkipComments()
      requires Valid() && CommentDefined(input, Cursor())
      modifies this
      ensures Valid() && Cursor() == CommentEnd(input, old(Cursor()))
    {
      if currentChar == '/' && PeekChar() == '/' {
        while currentChar != '\n' && currentChar != NUL
          invariant Valid() && old(Cursor()) <= Cursor() <= LineEnd(input, old(Cursor()))
          decreases |input| - Cursor()
        {
          Advance();
        }
      } else if currentChar == '/' && PeekChar() == '*' {
        Advance();
        Advance();
        ghost var close := FindClose(input, old(Cursor()) + 2);
        while !(currentChar == '*' && PeekChar() == '/')
          invariant Valid() && old(Cursor()) + 2 <= Cursor() <= close
          decreases close - Cursor()
        {
          Advance();
        }
        assert ClosesAt(input, Cursor());
        Advance();
        Advance();
      }
    }

    /** `identifier_or_keyword`: the word is collected in a 256-character buffer,
        which the word and its terminating NUL must fit. */
    method IdentifierOrKeyword() returns (token: Token)
      requires Valid() && WordEnd(input, Cursor()) - Cursor() < BUFFER_SIZE
      modifies this
      ensures Valid() && Cursor() == WordEnd(input, old(Cursor()))
      ensures token == Token(Classify(input[old(Cursor())..Cursor()]), Some(input[old(Cursor())..Cursor()]))
    {
      var buffer := new char[BUFFER_SIZE](_ => NUL);
      var i := 0;
      while IsAlpha(currentChar) || IsDigit(currentChar) || currentChar == '_'
        invariant Valid() && old(Cursor()) <= Cursor() <= WordEnd(input, old(Cursor()))
        invariant i == Cursor() - old(Cursor()) && buffer[..i] == input[old(Cursor())..Cursor()]
        decreases |input| - Cursor()
      {
        ghost var c := Cursor();
        buffer[i] := currentChar;
        assert buffer[..i + 1] == buffer[..i] + [input[c]];
        i := i + 1;
        Advance();
        assert input[old(Cursor())..Cursor()] == input[old(Cursor())..c] + [input[c]];
      }
      buffer[i] := NUL;
      var word := buffer[..i];
      token := Token(Classify(word), Some(word));
    }

    /** `number`: a run of digits collected in a 256-character buffer. */
    method Number() returns (token: Token)
      requires Valid() && DigitEnd(input, Cursor()) - Cursor() < BUFFER_SIZE
      modifies this
      ensures Valid() && Cursor() == DigitEnd(input, old(Cursor()))
      ensures token == Token(TokenType.Number, Some(input[old(Cursor())..Cursor()]))
    {
      var buffer := new char[BUFFER_SIZE](_ => NUL);
      var i := 0;
      while IsDigit(currentChar)
        invariant Valid() && old(Cursor()) <= Cursor() <= DigitEnd(input, old(Cursor()))
        invariant i == Cursor() - old(Cursor()) && buffer[..i] == input[old(Cursor())..Cursor()]
        decreases |input| - Cursor()
      {
        ghost var c := Cursor();
        buffer[i] := currentChar;
        assert buffer[..i + 1] == buffer[..i] + [input[c]];
        i := i + 1;
        Advance();
        assert input[old(Cursor())..Cursor()] == input[old(Cursor())..c] + [input[c]];
      }
      buffer[i] := NUL;
      token := Token(TokenType.Number, Some(buffer[..i]));
    }

    /** `string`: the characters after the opening quote up to the closing one
        (or the end of the input, where the source reports an unterminated
        literal), collected in a 256-character buffer; the closing quote is
        consumed. */
    method StringLiteral() returns (token: Token)
      requires Valid() && currentChar == '"'
      requires QuoteEnd(input, Cursor() + 1) - (Cursor() + 1) < BUFFER_SIZE
      modifies this
      ensures Valid()
      ensures var e := QuoteEnd(input, old(Cursor()) + 1);
        && Cursor() == (if e < |input| then e + 1 else e)
        && token == Token(String, Some(input[old(Cursor()) + 1..e]))
    {
      var buffer := new char[BUFFER_SIZE](_ => NUL);
      var i := 0;
      Advance();
      ghost var start := Cursor();
      while currentChar != '"' && currentChar != NUL
        invariant Valid() && start <= Cursor() <= QuoteEnd(input, start)
        invariant i == Cursor() - start && buffer[..i] == input[start..Cursor()]
        decreases |input| - Cursor()
      {
        ghost var c := Cursor();
        buffer[i] := currentChar;
        assert buffer[..i + 1] == buffer[..i] + [input[c]];
        i := i + 1;
        Advance();
        assert input[start..Cursor()] == input[start..c] + [input[c]];
      }
      var text := buffer[..i];
      if currentChar == '"' {
        Advance();
      }
      token := Token(String, Some(text));
    }

    /** `next_token`: white space and one comment are skipped, then one token is
        read. The result and the new cursor are those of `Scan`; the source's
        test for `true`/`false` is not modelled because it sits after the letter
        test and can never succeed (see ScanNeverBool). */
    method NextToken() returns (token: Token)
      requires Valid() && ScanDefined(input, Cursor())
      modifies this
      ensures Valid()
      ensures token == Scan(input, old(Cursor())).token && Cursor() == Scan(input, old(Cursor())).end
    {
      ghost var r := Scan(input, Cursor());
      SkipWhitespace();
      SkipComments();
      assert Cursor() == r.start;
      if currentChar == NUL {
        return Token(Eof, None);
      }
      if IsAlpha(currentChar) || currentChar == '_' {
        token := IdentifierOrKeyword();
        return;
      }
      if IsDigit(currentChar) {
        token := Number();
        return;
      }
      match currentChar {
        case '=' =>
          if PeekChar() == '=' {
            Advance();
            token := Token(Equal, None);
          } else {
            token := Token(Assign, None);
          }
        case '+' => token := Token(Plus, Some("+"));
        case '-' => token := Token(Minus, Some("-"));
        case '%' => token := Token(Modulus, Some("%"));
        case '*' =>
          if PeekChar() == '*' {
            Advance();
            token := Token(Power, Some("**"));
          } else {
            token := Token(Multiply, Some("*"));
          }
        case '/' => token := Token(Divide, Some("/"));
        case '(' => token := Token(LParen, Some("("));
        case ')' => token := Token(RParen, Some(")"));
        case ';' => token := Token(Semicolon, Some(";"));
        case '"' =>
          token := StringLiteral();
          return;
        case _ =>
          return Token(Eof, None);
      }
      Advance();
    }
  }
}
