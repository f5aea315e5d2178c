# A verified model of the aplusplus interpreter core

aplusplus is a small interpreted language written in C. A source text goes through three stages:

- **Tokenizer** (`src/lexer/lexer.c`). It splits the text into tokens. It skips white space and one comment before each token. Words are keywords or identifiers, and it also reads numbers, string literals and operators.
- **Recursive-descent parser** (`src/parser/parser.c`). It builds the syntax tree of `src/ast/ast.c` for variable declarations, assignments, `print` statements and integer expressions. `+`/`-` bind loosest, then `*`/`/`/`%`, then `**`.
- **Tree-walking interpreter** (`src/interpreter/interpreter.c`). It keeps a fixed table of at most 100 typed variables (`int`, `string`, `bool`) and runs the statements in order.

This project models each stage in Dafny and proves what each stage does.

Modules:

- `CInt` holds the C arithmetic the interpreter relies on:
  - 32-bit `int` range;
  - `atoi`;
  - `printf("%d")`;
  - division and remainder truncating toward zero;
  - `(int)pow` on integer arguments.
- `LexerSpec` states one call of `next_token` as a pure function `Scan` of the input text and the cursor. `TokensFrom` is the token stream that repeated calls deliver.
- `Lexer.Lexer` is the tokenizer object: the input, the position, the read position and the current character, updated in place by `advance`. Each method is proved to move the cursor and return the token exactly as `LexerSpec` says.
- `Ast` defines the syntax-tree node and its three constructors. It also models `free_ast`: the sequence of nodes it releases.
- `Grammar` defines one pure function per parse function, over the token stream. It also proves:
  - the tree shapes each parse function builds;
  - precedence and associativity;
  - the assignment defect reported below.
- `Parser.Parser` is the parser object. Its current token advances through the stream. Each method is proved to return the node and leave the position exactly as the corresponding `Grammar` function.
- `Semantics` gives the interpreter's meaning:
  - the variable table and `set_variable`/`get_variable`;
  - the three evaluators;
  - one `interpret` step (`Step`) and a whole run (`Run`);
  - the output, as the list of lines `print` writes.
- `Interpreter.Interpreter` holds the static variable table (an array of 100 entries with a count) and the output. Its methods are proved against `Semantics`.
- `Pipeline` ties the stages together. For example, a parsed program never creates a `bool` variable.

## Model

| member | source | states |
|---|---|---|
| CInt.DigitPrefix | src/interpreter/interpreter.c:119 | the digits `atoi` reads form the longest all-digit prefix of the text |
| CInt.SkipCSpaces | src/interpreter/interpreter.c:119 | the leading white space `atoi` skips leaves a suffix that does not start with a space |
| CInt.NatDigits | src/interpreter/interpreter.c:268 | `%d` of a natural number is a non-empty run of digits with no leading zero |
| CInt.DecimalString | src/interpreter/interpreter.c:268 | `%d` prints a non-empty text |
| CInt.DigitPrefixOfDigits | src/interpreter/interpreter.c:119 | on a text of digits, the prefix `atoi` reads is the whole text |
| CInt.NatDigitsValue | src/interpreter/interpreter.c:268 | the digits `%d` prints denote the number printed |
| CInt.AtoiOfDecimalString | src/interpreter/interpreter.c:119 | `atoi` reads back every int that `%d` prints (round trip) |
| CInt.AtoiOfNegative | src/interpreter/interpreter.c:119 | the round trip for a negative number, whose text starts with `-` |
| CInt.AtoiOfDigits | src/interpreter/interpreter.c:116-120 | `atoi` of a number token's digits is their decimal value |
| CInt.DivisionIdentity | src/interpreter/interpreter.c:153-171 | C's `/` and `%` satisfy `(l / r) * r + l % r == l` |
| CInt.RemainderBounds | src/interpreter/interpreter.c:164-171 | the remainder is smaller in magnitude than the divisor and has the dividend's sign |
| CInt.QuotientTowardZero | src/interpreter/interpreter.c:153-161 | the quotient rounds toward zero and is negative exactly when the operand signs differ |
| CInt.QuotientTimesDivisor | src/interpreter/interpreter.c:160 | the quotient times the divisor is the dividend's magnitude rounded down to a multiple of the divisor, carrying the dividend's sign |
| CInt.QuotientInRange | src/interpreter/interpreter.c:160 | except for `INT_MIN / -1`, the quotient of two ints is an int |
| CInt.NegativeDivisionTruncates | src/interpreter/interpreter.c:160-171 | `-7 / 2` is -3 and `-7 % 2` is -1 in C (while the Euclidean results are -4 and 1) |
| CInt.PowPow | src/interpreter/interpreter.c:163 | `(b ** m) ** n == b ** (m * n)` for the integer power |
| LexerSpec.WhitespaceEnd | src/lexer/lexer.c:214-221 | skipping white space stops at the first non-space, having passed only spaces, tabs, newlines and carriage returns |
| LexerSpec.WordEnd | src/lexer/lexer.c:37-50 | a word runs to the first character that is not a letter, digit or `_` |
| LexerSpec.DigitEnd | src/lexer/lexer.c:91-100 | a number runs to the first non-digit |
| LexerSpec.StopAt | src/lexer/lexer.c:116 | advancing until a stop character (a line comment's newline, a string's closing quote) halts at its first occurrence or at the end, having passed no other occurrence |
| LexerSpec.FindClose | src/lexer/lexer.c:199-210 | a block comment ends at the first `*/` after its opener |
| LexerSpec.CommentEnd | src/lexer/lexer.c:187-211 | skipping one comment moves the cursor forward and stays in the text |
| LexerSpec.TokenStart | src/lexer/lexer.c:228-229 | the token begins after the white space and the comment, within the text |
| LexerSpec.Scan | src/lexer/lexer.c:225-304 | `next_token` starts the token at the token start, and returns EOF exactly when it consumes nothing |
| LexerSpec.TokensFrom | src/parser/parser.c:20-34 | the stream of successive tokens ends with its first EOF, and only there |
| LexerSpec.ScanWord | src/lexer/lexer.c:37-64 | a word is the maximal run of word characters. Exactly `int`, `string`, `bool` and `print`/`echo` are keywords; all other words are identifiers |
| LexerSpec.ScanNumber | src/lexer/lexer.c:91-107 | a number token holds the maximal run of digits |
| LexerSpec.ScanString | src/lexer/lexer.c:110-136 | a string literal holds the text between the quotes, contains no `"`, and consumes the closing quote if there is one |
| LexerSpec.ScanOperator | src/lexer/lexer.c:262-294 | `==` before `=` and `**` before `*`; each of `+ - % / ( ) ;` gives its own token kind (PLUS, MINUS, MODULUS, DIVIDE, LPAREN, RPAREN, SEMICOLON) and carries its lexeme |
| LexerSpec.LexemeRoundTrip | src/lexer/lexer.c:225-304 | every token with a value carries exactly its lexeme (a string without its quotes); only EOF, `=` and `==` carry none |
| LexerSpec.ScanNeverBool | src/lexer/lexer.c:242-258 | TOKEN_BOOL is never produced; `true` and `false` come out as identifiers |
| LexerSpec.ScanAtEnd | src/lexer/lexer.c:235-239 | at the end of the text the result is EOF and the cursor stays put |
| LexerSpec.UnknownCharacter | src/lexer/lexer.c:296-299 | an unknown character yields EOF without being consumed, so every later call stops there again |
| LexerSpec.LineCommentEndsStream | src/lexer/lexer.c:190-197 | after a line comment the newline is not skipped, so the stream ends with EOF |
| LexerSpec.BlockCommentNeverCloses | src/lexer/lexer.c:204-207 | without a closing `*/` the skipping loop's exit test fails at every position |
| LexerSpec.StreamNeverBool | src/lexer/lexer.c:253-258 | no token of the stream is TOKEN_BOOL |
| LexerSpec.StreamIsLexed | src/lexer/lexer.c:225-304 | every token of the stream has one of the kinds `next_token` produces, with a value wherever the C code sets one |
| LexerSpec.ScanIsLexed | src/lexer/lexer.c:225-304 | the same for one token |
| LexerSpec.WordIsLexed | src/lexer/lexer.c:52-61 | a word is classified as `int`, `string`, `bool`, `print` or an identifier, never as any other kind |
| LexerSpec.OperatorIsLexed | src/lexer/lexer.c:275-294 | a one-character operator or delimiter token is one of `+ - % / ( ) ;` and carries its text |
| Lexer.Lexer.constructor | src/lexer/lexer.c:9-17 | the cursor starts at position 0 on the first character |
| Lexer.Lexer.Advance | src/lexer/lexer.c:20-34 | the cursor moves one character, and stays at the end once it is there |
| Lexer.Lexer.PeekChar | src/lexer/lexer.c:139-146 | the character after the cursor, or NUL past the end |
| Lexer.Lexer.SkipWhitespace | src/lexer/lexer.c:214-221 | the cursor ends at `WhitespaceEnd` |
| Lexer.Lexer.SkipComments | src/lexer/lexer.c:187-211 | the cursor ends at `CommentEnd` |
| Lexer.Lexer.IdentifierOrKeyword | src/lexer/lexer.c:37-64 | returns the keyword kind or identifier token of the word, with the cursor after it |
| Lexer.Lexer.Number | src/lexer/lexer.c:91-107 | returns the number token of the digit run, with the cursor after it |
| Lexer.Lexer.StringLiteral | src/lexer/lexer.c:110-136 | returns the literal's text, with the cursor after the closing quote |
| Lexer.Lexer.NextToken | src/lexer/lexer.c:225-304 | returns `Scan`'s token and leaves the cursor at `Scan`'s end |
| Ast.CreateNode | src/ast/ast.c:8-28 | the node has the given kind, children and value, and no type or name |
| Ast.CreateVarDeclarationNode | src/ast/ast.c:31-53 | a declaration node with type text, name and initializer as its only child |
| Ast.CreateAssignmentNode | src/ast/ast.c:56-75 | an assignment node with the name and the value as its only child |
| Ast.FreeTreeReleasesEachNodeOnce | src/ast/ast.c:78-104 | `free_ast` releases every node of a tree exactly once |
| Ast.FreeAstReleasesEachNodeOnce | src/ast/ast.c:78-104 | the same for a statement chain, whose head is released last |
| Ast.ChildrenReleasedFirst | src/ast/ast.c:83-102 | each node is released right after all the nodes of its subtree |
| Grammar.TracksFirst | src/parser/parser.c:127-133 | after creating the parser, the current token is the stream's first |
| Grammar.TracksNext | src/parser/parser.c:20-34 | each `get_next_token` moves one position along the same stream |
| Grammar.PFactor | src/parser/parser.c:365-411 | parsing a factor stays within the stream |
| Grammar.PowerLoop | src/parser/parser.c:331-338 | the `**` loop stays within the stream |
| Grammar.PPower | src/parser/parser.c:327-340 | parsing a power stays within the stream |
| Grammar.TermLoop | src/parser/parser.c:346-361 | the `*`,`/`,`%` loop stays within the stream |
| Grammar.PTerm | src/parser/parser.c:342-363 | parsing a term stays within the stream |
| Grammar.ExprLoop | src/parser/parser.c:314-323 | the `+`,`-` loop stays within the stream |
| Grammar.PExpression | src/parser/parser.c:310-325 | parsing an expression stays within the stream |
| Grammar.PInitializer | src/parser/parser.c:222-240 | parsing an initializer stays within the stream |
| Grammar.PVarDeclaration | src/parser/parser.c:200-248 | a declaration always consumes at least its type keyword |
| Grammar.PPrint | src/parser/parser.c:250-276 | a print statement always consumes at least `print` |
| Grammar.PSecondValue | src/parser/parser.c:291-299 | the second value parse stays within the stream |
| Grammar.PAssignment | src/parser/parser.c:278-308 | an assignment always consumes at least the name |
| Grammar.Terminate | src/parser/parser.c:183-194 | a statement is kept exactly when `;` follows it, which is then consumed; otherwise it is dropped |
| Grammar.PStatement | src/parser/parser.c:156-197 | a statement step always makes progress before EOF, and a kept statement ends with `;` |
| Grammar.FactorShape | src/parser/parser.c:365-411 | a factor is a literal leaf or a well-formed operator tree |
| Grammar.BinaryShape | src/parser/parser.c:331-361 | an operator node over two well-formed operands is well-formed |
| Grammar.PowerLoopShape | src/parser/parser.c:331-338 | the `**` loop builds a well-formed expression tree |
| Grammar.PowerShape | src/parser/parser.c:327-340 | so does a power |
| Grammar.TermLoopShape | src/parser/parser.c:346-361 | the term loop builds a well-formed expression tree |
| Grammar.TermShape | src/parser/parser.c:342-363 | so does a term |
| Grammar.ExprLoopShape | src/parser/parser.c:314-323 | the expression loop builds a well-formed expression tree |
| Grammar.ExpressionShape | src/parser/parser.c:310-325 | so does an expression |
| Grammar.StatementShapeHolds | src/parser/parser.c:156-197 | every kept statement is a declaration of `int`/`string`, a print or an assignment, with well-formed expressions |
| Grammar.DeclarationShape | src/parser/parser.c:200-248 | so is every declaration |
| Grammar.PrintShape | src/parser/parser.c:250-276 | so is every print statement |
| Grammar.AssignmentShape | src/parser/parser.c:278-308 | so is every assignment |
| Grammar.ProgramShape | src/parser/parser.c:85-124 | every statement of a parsed program has that shape |
| Grammar.PowerGroupsLeft | src/parser/parser.c:327-340 | `2 ** 3 ** 2` parses as `(2 ** 3) ** 2` |
| Grammar.ProductBindsTighter | src/parser/parser.c:310-363 | `2 + 3 * 4` parses as `2 + (3 * 4)` |
| Grammar.TermGroupsLeft | src/parser/parser.c:342-363 | `*`, `/` and `%` group to the left: `8 / 4 / 2` parses as `(8 / 4) / 2` |
| Grammar.SumGroupsLeft | src/parser/parser.c:310-325 | `+` and `-` group to the left: `8 - 3 - 2` parses as `(8 - 3) - 2` |
| Grammar.PowerBindsTighter | src/parser/parser.c:327-363 | `**` binds tighter than `*`, `/` and `%`: `2 * 3 ** 2` parses as `2 * (3 ** 2)` |
| Grammar.SingleFactor | src/parser/parser.c:327-340 | a number not followed by `**` is a power of one factor |
| Grammar.SingleTerm | src/parser/parser.c:342-363 | a number followed by neither `**` nor `*`, `/`, `%` is a term of one factor |
| Grammar.NoExpressionAt | src/parser/parser.c:365-411 | at `;`, `)` or EOF every level returns null without consuming |
| Grammar.AssignmentOfOneExpressionFails | src/parser/parser.c:291-299 | as written, `x = e;` yields no statement |
| Grammar.PAssignmentIntended | src/parser/parser.c:278-308 | the corrected assignment parse consumes at least the name |
| Grammar.IntendedAssignmentOfOneExpression | src/parser/parser.c:278-308 | with the corrected parse, `x = e;` is the assignment of `e` to `x`, and the `;` is consumed |
| Parser.Parser.constructor | src/parser/parser.c:127-133 | the parser reads the stream the tokenizer delivers from its cursor, positioned on the first token |
| Parser.Parser.GetNextToken | src/parser/parser.c:20-34 | advances one token along the stream |
| Parser.Parser.ParseTokens | src/parser/parser.c:85-124 | returns the chain `ParseProgram` defines and stops at EOF |
| Parser.Parser.ParseStatement | src/parser/parser.c:156-197 | returns the node and position of `PStatement` |
| Parser.Parser.ParseVarDeclaration | src/parser/parser.c:200-248 | returns the node and position of `PVarDeclaration` |
| Parser.Parser.ParsePrint | src/parser/parser.c:250-276 | returns the node and position of `PPrint` |
| Parser.Parser.ParseAssignment | src/parser/parser.c:278-308 | returns the node and position of `PAssignment` (as written) |
| Parser.Parser.ParseExpression | src/parser/parser.c:310-325 | returns the node and position of `PExpression` |
| Parser.Parser.ParsePower | src/parser/parser.c:327-340 | returns the node and position of `PPower` |
| Parser.Parser.ParseTerm | src/parser/parser.c:342-363 | returns the node and position of `PTerm` |
| Parser.Parser.ParseFactor | src/parser/parser.c:365-411 | returns the node and position of `PFactor` |
| Semantics.Find | src/interpreter/interpreter.c:90-103 | `get_variable` finds the first entry with the name, or reports that none has it |
| Semantics.SetVarKeepsInvariant | src/interpreter/interpreter.c:31-82 | `set_variable` keeps the table at most 100 entries, with distinct names and int values in range |
| Semantics.LookupAfterSet | src/interpreter/interpreter.c:31-103 | after `set_variable`, the name reads the new value and every other name reads what it read before |
| Semantics.StoreThenRead | src/interpreter/interpreter.c:31-224 | after `set_variable`, a reference to the variable evaluates to the stored int or string; a stored `bool` reads as stored only over an existing entry, and a newly inserted one reads `false` |
| Semantics.FindAfterUpdate | src/interpreter/interpreter.c:34-57 | overwriting an entry with the same name does not change what any name finds |
| Semantics.FindAfterAppend | src/interpreter/interpreter.c:60-76 | appending changes only what the appended name finds, and only if it was absent |
| Semantics.FindUnique | src/interpreter/interpreter.c:90-103 | in a table of distinct names, lookup finds the one entry with that name |
| Semantics.ApplyOp | src/interpreter/interpreter.c:140-176 | a binary operation where C defines it yields an int |
| Semantics.EvalInt | src/interpreter/interpreter.c:106-177 | `evaluate_expression` always yields an int |
| Semantics.IntOf | src/interpreter/interpreter.c:121-134 | a variable's int value, 0 if it is not an int variable, is an int |
| Semantics.PowerChainValue | src/interpreter/interpreter.c:162-163 | the tree `(a ** b) ** c` that `a ** b ** c` parses to evaluates to `a ** (b * c)` for non-negative exponents |
| Semantics.DivisionSemantics | src/interpreter/interpreter.c:153-172 | division by zero gives 0; otherwise quotient and remainder satisfy C's identity and sign rules |
| Semantics.StepKeepsInvariant | src/interpreter/interpreter.c:234-316 | every statement keeps the table invariant |
| Semantics.AssignmentKeepsTypes | src/interpreter/interpreter.c:284-310 | an assignment keeps every name and type, creates no variable and prints nothing; an assignment to an undefined name changes nothing at all |
| Semantics.DeclarationDefaults | src/interpreter/interpreter.c:236-259 | a declaration without an initializer binds 0, `""` or `false` by its type |
| Semantics.PrintShowsValue | src/interpreter/interpreter.c:260-281 | `print(x)` of a defined variable appends one line chosen by its type: an int in decimal, which `atoi` reads back as the value; a bool as `true`/`false`; a string as its text. The table is unchanged |
| Semantics.IntDeclarationStores | src/interpreter/interpreter.c:239-244 | `int x = e;` binds `x` to the value of `e` when `x` exists or the table has room, and prints nothing |
| Semantics.DeclareThenPrint | src/interpreter/interpreter.c:236-281 | `int x = e; print(x);` prints the value of `e` in decimal, when `x` exists or the table has room |
| Semantics.OutputPerPrint | src/interpreter/interpreter.c:227-318 | a run only appends to the output, one line per print statement |
| Semantics.RunKeepsInvariant | src/interpreter/interpreter.c:227-318 | a run from a table that meets the invariant keeps it |
| Semantics.RunConcat | src/interpreter/interpreter.c:230-317 | running two chains in turn is running their concatenation |
| Interpreter.Interpreter.constructor | src/interpreter/interpreter.c:26-28 | the table starts empty and nothing has been printed |
| Interpreter.Interpreter.GetVariable | src/interpreter/interpreter.c:90-103 | the linear search returns `Find`'s index |
| Interpreter.Interpreter.SetVariable | src/interpreter/interpreter.c:31-82 | the array table becomes `SetVar` of the old table, and the output is unchanged |
| Interpreter.Interpreter.EvaluateExpression | src/interpreter/interpreter.c:106-177 | returns `EvalInt` of the current table |
| Interpreter.Interpreter.EvaluateBoolExpression | src/interpreter/interpreter.c:179-200 | returns `EvalBool` of the current table |
| Interpreter.Interpreter.EvaluateStringExpression | src/interpreter/interpreter.c:202-224 | returns `EvalString` of the current table |
| Interpreter.Interpreter.Interpret | src/interpreter/interpreter.c:227-318 | the state becomes `Run` of the old state over the chain |
| Interpreter.Interpreter.Execute | src/interpreter/interpreter.c:234-316 | one loop iteration: the state becomes `Step` of the old state |
| Pipeline.SetVarKeepsNoBools | src/interpreter/interpreter.c:31-82 | storing an int or string leaves a table without `bool` variables |
| Pipeline.StepKeepsNoBools | src/interpreter/interpreter.c:234-316 | a statement of the parser's shapes creates no `bool` variable |
| Pipeline.RunKeepsNoBools | src/interpreter/interpreter.c:227-318 | neither does a run of such statements |
| Pipeline.ParsedProgramHasNoBools | src/parser/parser.c:85-124 | a parsed program run from the empty table never creates a `bool` variable |
| Pipeline.DeliveredStreamIsWellformed | src/lexer/lexer.c:225-304 | the tokenizer's stream is the well-formed stream the parser is defined on |
| Pipeline.IntendedAssignmentStores | src/parser/parser.c:278-308 | with the corrected parse, running `x = e;` for an int `x` stores the value of `e` in `x` |

## Left out

- `src/main.c`, `src/codegen/` and the build files are not part of this model.
- The `Debug:` and `Error:` lines the C code prints are not modelled. The interpreter's output is only the lines `print` writes.
- Memory is not modelled: allocation, `strdup`, frees and leaks. `free_ast` is modelled only as the order in which it releases nodes (`Ast.FreeTree`). `free_parser` is not modelled.
- Dead code is not modelled, because nothing reaches it:
  - `boolean` (lexer.c 66-87);
  - `check_multi_char_operator` (lexer.c 148-184);
  - `parse_print_statement` (parser.c 36-82).
- The token kinds the tokenizer never produces exist in `LexerSpec.TokenType` (in the header's order) and are never built.
- Undefined behaviour in C is excluded by `...Defined` preconditions rather than given a meaning:
  - int overflow of `+`, `-`, `*` and `(int)pow`;
  - `INT_MIN / -1` and `INT_MIN % -1`;
  - `pow(0, negative)`;
  - a NUL inside the input;
  - a lexeme longer than the 255-character buffer;
  - a print of an undefined variable, which is a null dereference.
- An unclosed block comment makes the tokenizer loop forever: at the end of the text `advance` no longer moves and the peeked character is NUL, so the loop at lexer.c 204-207 never exits (`LexerSpec.BlockCommentNeverCloses`). `LexerSpec.CommentDefined` excludes such inputs, and the model gives them no token stream.
- Semantics.SetDefined (and so Semantics.StepDefined) requires more than C for a string stored over an entry of another type. C then frees the old union member as a pointer, whose outcome is undefined, so that case is excluded.
- `(int)pow` is modelled as exact integer exponentiation (`CInt.CPow`); floating-point rounding of `pow` is not modelled. A negative exponent gives 0, or ±1 for a base of ±1, as the truncating conversion does.
- The static tokenizer and parser state, and the static variable table, are modelled as the fields of the classes `Lexer.Lexer`, `Parser.Parser` and `Interpreter.Interpreter`.
- Parser.Parser calls the tokenizer object (`Lexer.Lexer.NextToken`) for every token, in its constructor and in `GetNextToken`. Alongside, it keeps the stream the tokenizer delivers as a ghost sequence, which only records the tokens. Each method's current token is proved to be the next token of that stream.
- Interpreter.Interpreter.Execute is the body of the `interpret` loop, split out as its own method.
- Pointer identity of tree nodes is not modelled: nodes are values.
- The input is taken as ASCII text, one character per byte. The locale of `<ctype.h>`, multi-byte characters, and bytes at or above 0x80 (which reach `isalpha`, `isalnum` and `isdigit` as negative `char`s, an undefined call) are not modelled: such a character is simply an unknown character that yields EOF. `LexerSpec.LexemeFits` counts characters, not bytes, so it matches the 256-byte buffers of lexer.c only on ASCII text.
- Fields the C code reads without having set them are modelled as NULL (`None`), and so are the `next` links of the chain, which is a sequence:
  - no node constructor sets `next` (ast.c 8-75), and the last node of the statement chain never has its `next` set (parser.c 97-110), yet `interpret` (interpreter.c 316) and `free_ast` (ast.c 99) read it;
  - the constructors leave `var_type`, `var_name` or `value` unset, and `free_ast` frees them (ast.c 93-97), for example when a statement lacks its `;` (parser.c 183-188);
  - `create_parser` calls `get_next_token` before `current_token` is set, and `get_next_token` reads it (parser.c 22, 129-131).

## Findings

| source | as written | input that shows it | evidently intended | confidence | as-written member | corrected member |
|---|---|---|---|---|---|---|
| src/parser/parser.c:291-299 | after `=`, `parse_assignment` parses an expression and then, unless the token is a boolean literal (which the tokenizer never produces), parses a second expression and keeps only that one | `x = 5;`: the first parse consumes `5`, the second finds `;` and returns null, so the assignment is dropped | a boolean literal or ONE expression is the assigned value | not executed | Grammar.AssignmentOfOneExpressionFails | Grammar.PAssignmentIntended (with Grammar.IntendedAssignmentOfOneExpression and Pipeline.IntendedAssignmentStores) |

`Parser.Parser.ParseAssignment`, `Grammar.PAssignment` and the program parse follow the code as written, so the parse functions behave exactly as the source does. The corrected parse is proved to build the intended assignment. Running that assignment through the interpreter stores the value.
