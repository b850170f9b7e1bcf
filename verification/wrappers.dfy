/** Failure-carrying results used wherever the Java code throws or returns null. */
module Wrappers {

  /** `None` plays the role of Java's `null`. */
  datatype Option<+T> = None | Some(value: T)

  /** The exceptions and abort paths of the source, one constructor each. */
  datatype Error =
    | NullPointer                // a null key handed to the tree
    | IndexOutOfBounds           // an unchecked array or string access ran off the end
    | IllegalArgument            // Arrays.copyOfRange with from > to
    | NumberFormat               // Integer.parseInt refused its argument
    | AttributeFormat            // AttributeFormatException
    | AttributeNumber            // AttributeNumberException
    | BufferOutOfSpace           // the pool assertion in getEmptyBufferExcept
    | IOFailure                  // an IOException from the file a frame is written to
    | SyntaxError                // the interpreter's "Syntax Error" replies
    | MissingBlock(block: int)   // a block number the store does not hold
    | RecordTooLong              // a record that cannot fit even an empty block
    | Corrupt                    // a structural walk did not end within its bound

  datatype Result<+T> = Success(value: T) | Failure(error: Error) {
    predicate IsFailure() { Failure? }

    function PropagateFailure<U>(): Result<U>
      requires Failure?
    {
      Failure(error)
    }

    function Extract(): T
      requires Success?
    {
      value
    }
  }
}
