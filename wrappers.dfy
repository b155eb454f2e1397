/** Outcome types shared by every component: the Java exceptions become `Err` values. */
module Wrappers {

  /** The exceptions the Java code raises, plus one marker for a bounded model of an unbounded loop. */
  datatype Error =
    | IllegalArgument     // java.lang.IllegalArgumentException
    | NoSuchElement       // java.util.NoSuchElementException
    | IndexOutOfBounds    // IndexOutOfBoundsException / ArrayIndexOutOfBoundsException
    | NullPointer         // NullPointerException from dereferencing an absent node
    | ClassCast           // ClassCastException from a cast that cannot succeed
    | Arithmetic          // ArithmeticException (a remainder by zero)
    | OutOfFuel           // the model stopped a loop that Java would keep running

  datatype Option<+T> = None | Some(value: T)

  datatype Result<+T> = Ok(value: T) | Err(error: Error)

  datatype Outcome = Pass | Fail(error: Error)
}
