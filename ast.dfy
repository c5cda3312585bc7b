/** The syntax tree built by the parser, and the type annotations of declarations. */
module Ast {
  import opened Outcomes

  /** A resolved position (the line's number and length, and a half-open range in that
      line), or the placeholder that is not a resolved position. */
  datatype Position = Pos(line: nat, lineLen: nat, start: nat, end: nat) | Unresolved

  /** An operator is represented by its lexeme; its precedence comes from a table. */
  type Operator = string

  /** Declared types; `Nil` stands for "no declared type". */
  datatype Type = Int | Float | Char | String | Bool | Nil | Id(name: string)

  datatype ExpressionNode =
    | IntLiteral(value: nat)
    | FloatLiteral(text: string)   // the literal's lexeme; floating point is not modelled
    | StringLiteral(text: string)
    | CharLiteral(c: char)
    | BoolLiteral(b: bool)
    | Identifier(name: string)
    | Binary(left: Expression, op: Operator, right: Expression)
    | EOF

  datatype Expression = Expression(node: ExpressionNode, pos: Position)

  datatype StatementNode =
    | ExpressionStatement(expr: Expression)
    | Variable(declared: Type, name: Expression, init: Option<Expression>)

  datatype Statement = Statement(node: StatementNode, pos: Position)
}
