/** The error kinds fairshare raises, and the result types its fallible operations return. */
module Errors {

  datatype Option<+T> = None | Some(value: T)

  /** Why a validator refused its input; each case is one message a validator can raise. */
  datatype Reason =
    | SurroundingWhitespace   // the input differs from its own strip
    | Blank                   // empty or whitespace only
    | ContainsComma
    | IsNumber                // a user name that reads as an integer
    | NotANumber              // a cost that does not parse as a number
    | NotPositive             // a cost that is not greater than zero
    | NotADate                // not a calendar date written YYYYMMDD
    | InFuture                // a date after today

  /** The exception classes of the program; `DuplicateUser` is the store's uniqueness violation. */
  datatype Error =
    | IllegalUsername(reason: Reason)
    | IllegalExpenseCost(reason: Reason)
    | IllegalExpenseDate(reason: Reason)
    | IllegalExpenseTitle(reason: Reason)
    | UserNotFound
    | ExpenseNotFound
    | DuplicateUser

  /** Either a value or the error that aborted the operation; usable with `:-`. */
  datatype Result<+T> = Ok(value: T) | Err(error: Error) {

    predicate IsFailure() {
      Err?
    }

    function PropagateFailure<U>(): Result<U>
      requires Err?
    {
      Err(error)
    }

    function Extract(): T
      requires Ok?
    {
      value
    }
  }
}
