/** Tokens as the lexer delivers them, and what the parser assumes of them. */
module Tokens {
  import opened Ast

  datatype TokenKind =
    | IntTok | FloatTok | CharTok | StringTok | IdentifierTok | BoolTok
    | SymbolTok | OperatorTok | EolTok | OtherTok

  /** A token: its kind, its text, the line it sits on (number and length) and its
      half-open slice within that line. */
  datatype Token = Token(kind: TokenKind, lexeme: string, line: nat, lineLen: nat, start: nat, end: nat)

  /** 2^128: integer literals are parsed as unsigned 128-bit values. */
  const U128Limit: nat := 0x1_0000_0000_0000_0000_0000_0000_0000_0000

  predicate AllDigits(s: string) {
    forall k | 0 <= k < |s| :: '0' <= s[k] <= '9'
  }

  /** The value of a decimal numeral. */
  function DecimalValue(s: string): nat
    requires AllDigits(s)
  {
    if s == [] then 0 else DecimalValue(s[..|s| - 1]) * 10 + (s[|s| - 1] as int - '0' as int)
  }

  /** What the atom parser's unwraps rely on: an integer lexeme is a decimal numeral that
      fits in 128 bits, and a character lexeme is not empty. */
  predicate LexemeOk(t: Token) {
    && (t.kind == IntTok ==> |t.lexeme| > 0 && AllDigits(t.lexeme) && DecimalValue(t.lexeme) < U128Limit)
    && (t.kind == CharTok ==> |t.lexeme| > 0)
  }

  predicate LexemesOk(toks: seq<Token>) {
    forall t | t in toks :: LexemeOk(t)
  }

  /** Every operator token names an operator of the precedence table. */
  predicate OperatorsKnown(toks: seq<Token>, ops: map<Operator, nat>) {
    forall t | t in toks && t.kind == OperatorTok :: t.lexeme in ops
  }

  predicate WellFormed(toks: seq<Token>, ops: map<Operator, nat>) {
    LexemesOk(toks) && OperatorsKnown(toks, ops)
  }
}
