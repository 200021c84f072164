/** The exceptions the containers throw, and the two shapes a throwing
    operation takes in this model: a value or an exception (Result), or
    completion or an exception (Outcome). */
module Errors {

  /** The exception kinds that the containers raise. */
  datatype Exception =
    | OutOfRange        // std::out_of_range
    | InvalidArgument   // std::invalid_argument
    | OverflowError     // std::overflow_error
    | PlainException    // std::exception constructed with a message
    | KeyNotFound       // Dictionary: a missing key in at / operator[]
    | EmptyList         // DoublyLinkedList: an element access or a pop on an empty list

  /** The result of an operation that returns a value or throws. */
  datatype Result<+T> = Ok(value: T) | Throws(error: Exception)

  /** The result of an operation that returns nothing or throws. */
  datatype Outcome = Done | Raised(error: Exception)
}
