/**
 * The failures the engine signals. Every operation of the engine either
 * succeeds or throws one of these, synchronously, before changing anything.
 */
module Errors {

  /** One constructor per distinct error the engine throws. */
  datatype Error =
    | SquareNotEmpty     // "The square is not empty."
    | InvalidSquareType  // "Invalid type of square."
    | InvalidX           // "X pos of the square invalid."
    | InvalidY           // "Y pos of the square invalid."
    | EmptyAssignment    // "Cannot set the value of a square as empty."
    | InvalidPosition    // "The position is invalid."
    | PositionNotFree    // "The given position is not free."
    | GameInProgress     // "Cannot get the winner while the game is in progress."
    | InvalidId          // "Invalid id."
    | RoomExists         // "This room already exists."

  /** A value or nothing; stands for JavaScript's `null` and `undefined`. */
  datatype Option<+T> = None | Some(value: T)

  /** The result of an operation that returns a value or throws. */
  datatype Result<+T> = Ok(value: T) | Err(error: Error)

  /** The result of an operation that returns nothing or throws. */
  datatype Outcome = Pass | Fail(error: Error)
}
