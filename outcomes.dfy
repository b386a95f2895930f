/** Success-or-error values standing for the exceptions the Python code raises. */
module Outcomes {

  datatype Option<+T> = None | Some(value: T)

  /** The value an operation returns, or the exception it raises instead. */
  datatype Result<+T, +E> = Ok(value: T) | Err(error: E)

  /** The exceptions the parser can raise (ast/errors.py): the five subclasses of ExpressionError. */
  datatype ExpressionError =
    | BadEscapedSymbol(symbol: char)  // a backslash before a character that cannot be escaped
    | UnexpectedEnd                   // the pattern ends right after a backslash
    | Parenthesis                     // the numbers of '(' and ')' differ
    | EmptySubExpression              // an operand position holds no token
    | Expression                      // the base class itself: an operator stands where an operand is due

  /** The built-in exceptions raised by the automata code. */
  datatype RuntimeError =
    | KeyError          // a dictionary lookup of a missing key
    | IndexError        // a list index out of range
    | TypeError         // `map` was given a destination of another class
    | SameCollection    // `map` was asked to copy a table into itself
    | AttributeError    // a method name the object does not define
}
