/** Outcomes of operations that the Java code ends by throwing. */
module Results {

  /**
   * The exceptions of the outpoint code that the model represents, one variant
   * per Java exception class; an IOException from the output stream is not one.
   */
  datatype Error =
    | ProtocolError        // ProtocolException: a read ran past the end of the payload
    | LazyParseError       // LazyParseException: a deferred parse failed on first field access
    | NullPointer          // NullPointerException from checkNotNull
    | IllegalState         // IllegalStateException from checkState
    | IndexOutOfBounds     // IndexOutOfBoundsException from List.get
    | ScriptError          // ScriptException: the connected script has an unknown form

  datatype Option<+T> = None | Some(value: T)

  datatype Result<+T> = Success(value: T) | Failure(error: Error)

  /** A result that carries no value: a void Java method that may throw. */
  datatype Outcome = Pass | Fail(error: Error)
}
