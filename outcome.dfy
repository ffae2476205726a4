/** Success and failure values shared by every part of the store. */
module Outcome {

  /** A value that may be missing (JavaScript's `undefined`). */
  datatype Option<+T> = None | Some(value: T)

  /** The faults the store passes back to its caller: a document that cannot
      be read (ENOENT from the file system) or one whose text is not JSON
      (SyntaxError from the parser). Each names the file it concerns. */
  datatype Fault = NoSuchFile(file: string) | Unparsable(file: string)

  /** The settled state of an operation's promise: resolved with a value, or
      rejected with a fault. */
  datatype Result<+T> = Ok(value: T) | Err(fault: Fault) {

    /** The same rejection, seen at another result type. */
    function Rethrow<U>(): Result<U>
      requires Err?
    {
      Err(fault)
    }
  }
}
