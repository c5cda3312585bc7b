/** Outcome types shared by the parser model. */
module Outcomes {

  datatype Option<+T> = None | Some(value: T)

  /** Why the parser gives up. The diagnostic text and its position are not modelled. */
  datatype ParseError =
    | UnexpectedSymbol   // an identifier followed by a symbol other than `:`
    | Unimplemented      // a token that cannot start an atom
    | EofInOperation     // input ends right after a lower-precedence operator
    | MissingColon       // a declaration that does not start with `:`
    | ExpectedType       // a type annotation that is not an identifier
    | ExpectedToken      // a token of the wrong lexeme or kind (eat_lexeme, eat_type, expect_type)
    | OutsideTokenStack  // the cursor would move beyond one-past-the-end

  /** What a parser method returns; the cursor is the parser's own state. */
  datatype Result<+T> = Ok(value: T) | Err(error: ParseError) {
    predicate IsFailure() { Err? }

    function PropagateFailure<U>(): Result<U>
      requires Err?
    {
      Err(error)
    }

    function Extract(): T
      requires Ok?
    {
      value
    }
  }

  /** The outcome of one parsing step over a token sequence: the value and the cursor after
      it, or the error and the cursor at which the parser stopped. */
  datatype Step<+T> = Done(value: T, next: nat) | Fail(error: ParseError, at: nat) {
    function ToResult(): Result<T> {
      match this
      case Done(v, _) => Ok(v)
      case Fail(e, _) => Err(e)
    }

    function Cursor(): nat {
      if Done? then next else at
    }
  }
}
