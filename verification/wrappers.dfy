/** Failure-compatible wrappers shared by every module of the model, and the Java
    exceptions the modelled code can raise. */
module Wrappers {

  /** A Java reference that may be null. */
  datatype Option<+T> = None | Some(value: T)

  /** The Java exception classes that the modelled code raises or lets escape. */
  datatype JavaException =
    | FileNotFound            // java.io.FileNotFoundException
    | IndexOutOfBounds        // IndexOutOfBoundsException, raised by List.get or explicitly
    | StringIndexOutOfBounds  // raised by String.substring
    | ArrayIndexOutOfBounds   // raised by indexing the array String.split returns
    | NumberFormat            // raised by Integer.parseInt
    | Runtime                 // a plain RuntimeException thrown by the library itself

  /** The value a Java call returns, or the exception it throws. */
  datatype Result<+T> = Ok(value: T) | Err(error: JavaException) {
    predicate IsFailure() {
      Err?
    }

    function PropagateFailure<U>(): Result<U>
      requires Err?
    {
      Err(error)
    }

    function Extract(): T
      requires Ok?
    {
      value
    }
  }
}
