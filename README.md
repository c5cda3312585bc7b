# A verified model of the lait token-stream parser

This project models the parser of the lait language front end (`src/lait/parser/parser.rs`).
The parser is a struct that holds a cursor `index` into a vector of tokens. It turns the tokens
into a list of statements. A statement is either an expression statement or a variable
declaration (`x : = e`, `x : T = e`, `x : T`). An expression is either one literal or
identifier atom, or a chain of binary operators. The chain is grouped by an explicit two-stack
precedence algorithm.

The model has two layers:

- **Specification functions** (modules `Cursor`, `Grouping`, `Grammar`). They are pure
  functions.
  - The cursor helpers of `Cursor` take the token sequence and a cursor. They give the tokens
    remaining, the current token, its position and spans.
  - The parsing functions of `Grammar`, `Cursor.NextAt` and `Cursor.EatAt` also take the
    operator precedence table where they need it. Each returns `Step<T>`: either
    `Done(value, next)` or `Fail(error, at)`. So the cursor is specified after a failure too.
  - `Cursor.ExpectKindAt` returns a `Result` and never moves.
  - `Grouping` is a stack machine over the scanned operator/atom items. It takes and returns
    operand and operator stacks and expressions, not tokens.
- **The parser class** `Parsing.Parser`. It has the fields `tokens`, `ops` and `index`. Its
  methods mutate `index` step by step and run the same loops as the Rust code. Each method is
  proved to return what its specification function computes from the starting cursor, and to
  leave `index` where that function says. `parse_binary` keeps its two stacks as local
  sequences. Its loop invariants are the stack balance (one more operand than operators) and
  "finishing from here gives the same tree as finishing from the start".

The binary-operator grouping is the parser's least obvious part. The `Grouping` module gives it
as a pure stack machine and pins down its behaviour with lemmas:

- An incoming operator whose precedence is strictly lower than the top operator reduces only
  that single top operator.
- Every other operator is pushed.
- At the end, the stacks are reduced from the top down.

As a consequence:

- chains with non-decreasing precedences nest to the right (`a + b + c` is `a + (b + c)`);
- strictly decreasing chains nest to the left (`a * b + c` is `(a * b) + c`);
- `a * b ^ c + d` is `a * ((b ^ c) + d)`.

The last grouping puts a sum under a multiplication. That departs from conventional
precedence: a drop in precedence closes only the single operator on top of the stack, and the
operators below it take everything that follows as their right operand.

The `Grouping` lemmas state these rules for chains of any length. The `Properties` module
states on token sequences:

- the three-operand groupings;
- the `a * b ^ c + d` grouping;
- the declaration forms;
- the error cases.

One error case is easy to miss. A trailing operator that does not bind less tightly than the
one before it (`x + y +`) does not fail with "reached EOF in operation". The scan reads `EOF`
atoms past the end and then fails with "moving outside token stack".

The syntax tree follows `src/lait/parser/ast.rs:4-49`. It adds the variants that the parser
constructs but that file does not declare: `Bool` literals, `Binary(left, op, right)` and the
`Variable(type, name, initializer)` statement.

`Operator::from_str` is a lookup in the precedence table `ops`, which maps an operator's lexeme
to its precedence. An operator is represented by its lexeme.

## Model

| member | source | states |
|---|---|---|
| Cursor.RemainingAt | src/lait/parser/parser.rs:347-349 | the tokens left are `len - index`, saturating at zero: zero exactly when the cursor is at or past the end, and otherwise index plus remaining is the length |
| Cursor.NextAt | src/lait/parser/parser.rs:333-345 | advancing succeeds exactly when `index <= len` and then moves by one, so the cursor never passes `len + 1`; otherwise it fails with "moving outside token stack" and the cursor stays |
| Cursor.CurrentAt | src/lait/parser/parser.rs:372-378 | the current token is `tokens[index]` while the cursor is inside the sequence and the last token once it is past the end; it is always a token of the sequence (requires a non-empty sequence) |
| Cursor.SpanFrom | src/lait/parser/parser.rs:360-370 | a span keeps the left position's line and start offset and ends at the current token's end, clamped to the line length; a left position that is not a `Pos` is returned unchanged |
| Cursor.PositionAt | src/lait/parser/parser.rs:351-358 | the current position is the line and slice of the token under the cursor, and of the last token once the cursor is past the end |
| Cursor.EatAt | src/lait/parser/parser.rs:380-385 | eating succeeds exactly when advancing does, returns the current lexeme and moves by one; on failure it is the advance's failure at the same cursor |
| Cursor.ExpectKindAt | src/lait/parser/parser.rs:429-440 | succeeds exactly when the current token has the expected kind, and never moves |
| Grammar.ParseAtomAt | src/lait/parser/parser.rs:106-162 | an exhausted cursor gives `EOF` at the current position without consuming; otherwise it succeeds exactly for Int, Float, Char, String, Identifier and Bool tokens, consuming one token; a Bool is true exactly when its lexeme is `true`, a Char is the lexeme's last character, an Int is the decimal value of its lexeme (below 2^128), Float, String and identifier tokens keep their lexeme; any other kind fails with "unimplemented" without consuming |
| Grammar.OperatorPairAt | src/lait/parser/parser.rs:174-203 | one operator and the atom after it: the item holds the operator under the cursor, its precedence from the table and the atom `parse_atom` gives for the next token, and is stamped with that token's position; the read moves past the operator, and by two tokens when the atom is a real token |
| Grammar.ScanAt | src/lait/parser/parser.rs:173-204 | the inner operator loop stops on a non-operator; a successful scan reads exactly two tokens per item: the k-th item is the operator token at `i + 2k` with its precedence `ops[op]` and the atom parsed from the token at `i + 2k + 1`, stamped with that token's position |
| Grammar.ScanFailsOnTrailingLowerOperator | src/lait/parser/parser.rs:188-199 | an operator as the last token fails the scan with "reached EOF in operation", just after it, exactly when its precedence is strictly below the one before it |
| Grammar.ShiftStepAt | src/lait/parser/parser.rs:174-203 | one pass of the inner loop moves past the operator (by two tokens when its atom is a real token), keeps the stacks balanced and leaves that operator on top of the operator stack |
| Grammar.FinishStep | src/lait/parser/parser.rs:173-204 | finishing a binary expression with an operator under the cursor is one pass of the inner loop followed by finishing from where that pass left the cursor |
| Grammar.FinishBinaryAt | src/lait/parser/parser.rs:172-215 | the nested loops end on a non-operator token with a binary tree |
| Grammar.ParseBinaryAt | src/lait/parser/parser.rs:164-225 | a successful binary parse consumes at least the operator, stops on a non-operator, yields a `Binary` node, and its position is the span from the left operand to where parsing stopped |
| Grammar.ParseExpressionAt | src/lait/parser/parser.rs:96-104 | an expression stops on a non-operator token and consumes at least one token when any remain |
| Grammar.TypeNamed | src/lait/parser/parser.rs:310-317 | `str`, `int`, `float`, `bool` and `char` are the primitive types; every other name is `Id(name)`; no name gives `Nil` |
| Grammar.ParseTypeAt | src/lait/parser/parser.rs:306-329 | a non-identifier token fails with "expected type" without moving; an identifier is consumed and gives the type its name denotes |
| Grammar.ParseDeclarationAt | src/lait/parser/parser.rs:227-302 | without a current `:` it fails with "missing colon" at the cursor; a successful declaration consumes tokens, declares the left expression as its name, and carries the name's position |
| Grammar.SkipEolAt | src/lait/parser/parser.rs:37-39 | the end-of-line loop skips exactly a run of EOL tokens and stops at the end or on a non-EOL token |
| Grammar.ParseStatementAt | src/lait/parser/parser.rs:34-94 | a statement consumes at least one token when any remain; an expression statement carries its expression's position; a declaration's name is an identifier and the statement carries its position |
| Grammar.ParseAllAt | src/lait/parser/parser.rs:24-32 | a successful parse leaves no tokens remaining and produces no more statements than tokens consumed |
| Grammar.PrefixedTwice | src/lait/parser/parser.rs:27-29 | proof helper for the `ast.push` loop: pushing statements one at a time gives the concatenation of the results |
| Grouping.ReduceTop | src/lait/parser/parser.rs:206-214 | a reduction keeps the stacks balanced, removes one operator and leaves the bottom operand and operator alone |
| Grouping.Shift | src/lait/parser/parser.rs:174-203 | an incoming operator and its atom end on top of the stacks; a strictly lower precedence first replaces the top operator and its two operands by their combination, stamped with the position after the incoming operator, and keeps everything below; any other precedence only pushes |
| Grouping.ShiftAll | src/lait/parser/parser.rs:173-204 | reading operators keeps the operand stack one longer than the operator stack, with at least one operator |
| Grouping.ReduceAll | src/lait/parser/parser.rs:172-217 | the final reductions leave one expression; with operators left, the root is the bottom operator, with the bottom operand as left child, stamped with the end position |
| Grouping.ReduceTopKeepsRightNested | src/lait/parser/parser.rs:206-214 | reducing the top operator does not change the right-nested reading of the stacks |
| Grouping.ReduceAllNestsRight | src/lait/parser/parser.rs:172-215 | reducing from the top down yields the right-nested tree of the stacks |
| Grouping.NonDecreasingOnlyPushes | src/lait/parser/parser.rs:200-203 | with non-decreasing precedences every operator and atom is only pushed |
| Grouping.NonDecreasingChainNestsRight | src/lait/parser/parser.rs:172-215 | a chain with non-decreasing precedences, equal ones included, nests to the right |
| Grouping.StrictlyDecreasingChainNestsLeft | src/lait/parser/parser.rs:177-190 | a chain with strictly decreasing precedences nests to the left, each inner node stamped where its reduction happened |
| Grouping.DropReducesOnlyTopOperator | src/lait/parser/parser.rs:177-190 | a drop in precedence reduces only the single top operator: `a o1 b o2 c o3 d` with o1 ≤ o2 and o3 < o2 is `a o1 ((b o2 c) o3 d)` |
| Parsing.Parser.constructor | src/lait/parser/parser.rs:14-20 | a new parser starts at index 0 over the given tokens |
| Parsing.Parser.Next | src/lait/parser/parser.rs:333-345 | returns and moves as `NextAt` says |
| Parsing.Parser.Eat | src/lait/parser/parser.rs:380-385 | returns and moves as `EatAt` says |
| Parsing.Parser.EatLexeme | src/lait/parser/parser.rs:387-402 | a mismatching lexeme fails without moving; a matching one is eaten |
| Parsing.Parser.EatKind | src/lait/parser/parser.rs:404-419 | a mismatching kind fails without moving; a matching token is eaten |
| Parsing.Parser.ParseAtom | src/lait/parser/parser.rs:106-162 | returns and moves as `ParseAtomAt` says |
| Parsing.Parser.ParseExpression | src/lait/parser/parser.rs:96-104 | returns and moves as `ParseExpressionAt` says |
| Parsing.Parser.Reduce | src/lait/parser/parser.rs:178-186 | popping two operands and the top operator and pushing their combination, stamped with the current position, is `ReduceTop` |
| Parsing.Parser.ParseBinary | src/lait/parser/parser.rs:164-225 | the two-stack loops keep one more operand than operators, end with one expression, and return and move as `ParseBinaryAt` says |
| Parsing.Parser.ShiftOperator | src/lait/parser/parser.rs:174-203 | one pass of the inner loop, with its reduction and its end-of-tokens check, returns and moves as `ShiftStepAt` says |
| Parsing.Parser.ParseType | src/lait/parser/parser.rs:306-329 | returns and moves as `ParseTypeAt` says |
| Parsing.Parser.ParseDeclaration | src/lait/parser/parser.rs:227-302 | returns and moves as `ParseDeclarationAt` says |
| Parsing.Parser.ParseStatement | src/lait/parser/parser.rs:34-94 | returns and moves as `ParseStatementAt` says, skipping leading EOL tokens in a loop |
| Parsing.Parser.Parse | src/lait/parser/parser.rs:24-32 | the statement loop returns and moves as `ParseAllAt` says: on success all tokens are consumed |
| Properties.GroupOfTwoOperators | src/lait/parser/parser.rs:172-215 | two operators nest to the left exactly when the second has strictly lower precedence, and to the right otherwise |
| Properties.ChainStart | src/lait/parser/parser.rs:96-104 | an expression that starts with an atom, an operator and an atom is the grouping of the scan after them, spanning from the first atom to where the scan stopped, or fails as the scan does |
| Properties.ScanSecondOperator | src/lait/parser/parser.rs:173-204 | an operator and an atom token (a literal or an identifier) followed by a non-operator are read as a single item |
| Properties.ThreeOperandGrouping | src/lait/parser/parser.rs:164-225 | on tokens `x o1 y o2 z` with literal or identifier operands, the result is `(x o1 y) o2 z` when prec(o2) < prec(o1) and `x o1 (y o2 z)` otherwise (so `1+2+3` is `1+(2+3)`, `a*b+c` is `(a*b)+c`, `1+2*3` is `1+(2*3)`), spanning from x to where parsing stopped |
| Properties.ScanOnePair | src/lait/parser/parser.rs:173-203 | an operator followed by an atom token is read as one item holding the atom parsed from that token, and the scan goes on two tokens later with that operator's precedence |
| Properties.ScanTwoPairs | src/lait/parser/parser.rs:173-204 | two operator/atom pairs followed by a non-operator are read as two items, ending after the second atom |
| Properties.DropOnTokensReducesOnlyTop | src/lait/parser/parser.rs:164-225 | on tokens `x o1 y o2 z o3 w` with literal or identifier operands with prec(o1) ≤ prec(o2) and prec(o3) < prec(o2), such as `a * b ^ c + d`, the result is `x o1 ((y o2 z) o3 w)`, with the inner nodes stamped after o3 and at the end |
| Properties.TrailingOperatorRunsOutside | src/lait/parser/parser.rs:173-204 | `x o1 y o2` with atom operands, o2 last and prec(o1) ≤ prec(o2) fails with "moving outside token stack" one position past the end, not with "reached EOF in operation" |
| Properties.TrailingLowerOperatorFails | src/lait/parser/parser.rs:188-199 | `x o1 y o2` with atom operands, prec(o2) < prec(o1) and o2 the last token fails with "reached EOF in operation" after consuming o2 |
| Properties.InferredDeclaration | src/lait/parser/parser.rs:227-253 | `: = e` after a name declares that name with type `Nil` and initializer e, placed at the name |
| Properties.TypedDeclarationWithInit | src/lait/parser/parser.rs:255-276 | `: T = e` after a name declares it with the type T names and initializer e, placed at the name |
| Properties.TypedDeclarationWithoutInit | src/lait/parser/parser.rs:278-288 | `: T` after a name, not followed by `=`, declares it with the type T names and no initializer, consuming two tokens |
| Properties.DeclarationNeedsTypeName | src/lait/parser/parser.rs:306-329 | `:` followed by a token that is neither `=` nor an identifier fails with "expected type" at that token |
| Properties.IdentifierThenSymbol | src/lait/parser/parser.rs:48-60 | an identifier followed by `:` starts the declaration parsed after it; followed by any other symbol it fails with "unexpected symbol" at that symbol |
| Properties.TrailingEndOfLinesGiveEof | src/lait/parser/parser.rs:37-45 | when only end-of-line tokens remain, they are all skipped and the statement is an `EOF` expression statement |
| Properties.TypeSpellingRoundTrip | src/lait/parser/parser.rs:310-317 | every type except `Nil` and `Id` of a reserved name (`str`, `int`, `float`, `bool`, `char`) has an annotation that reads back as that type |

## Left out

- The lexer, `Source`, and the text and positions of diagnostics are not part of this model. Errors are the abstract kinds of `Outcomes.ParseError`. Each failure records the cursor at which it happened, not the reported diagnostic position.
- `Operator::from_str` is not part of this model. It is the precedence table `ops`, given as a parameter. Its `unwrap` becomes the precondition that every operator token's lexeme is in the table (`Tokens.OperatorsKnown`).
- Float literals: the model keeps the lexeme (`FloatLiteral(text)`) instead of parsing an `f64`, to avoid modelling floating point.
- Grammar.ParseAtomAt: the `u128` parse and its `unwrap` become the precondition `Tokens.LexemeOk`: an Int lexeme is a non-empty decimal numeral below 2^128, and a Char lexeme is not empty. Rust's integer parser also accepts a leading `+`, which is not modelled. The panic of `parse::<f64>().unwrap()` on a Float lexeme that does not parse is not modelled either: every Float token becomes a `FloatLiteral` of its lexeme.
- Cursor.CurrentAt: the `len() - 1` underflow on an empty token vector becomes the precondition of a non-empty sequence. `parse` itself needs no such precondition, because on an empty sequence it never reads a token.
- `current_lexeme` and `current_type` are the `lexeme` and `kind` fields of `Cursor.CurrentAt`, rather than separate members.
- The `Rc` sharing of sub-trees is an ownership device only. Trees are immutable datatypes here.
- The driver `src/main.rs` and the type-checking visitor, symbol table and type table under `src/lait/visitor/` are not part of this model. Only the `Type` enum (`src/lait/visitor/visitor.rs:8-16`) is modelled.
- Parsing.Parser.ParseAtom and Parsing.Parser.ParseStatement call `Eat` and `Next` without propagating a failure. They do this only where the cursor is before the end, so the advance cannot fail there.
- Parsing.Parser.ShiftOperator is the body of `parse_binary`'s inner loop, split out as a method. It operates on the same stacks.
- The `a * b ^ c + d` grouping is modelled as written. The model does not substitute a conventional precedence-climbing grouping for it.
