/** Failure-carrying values shared by the session model.
    `Error` names the .NET exception each failing path of the session code throws. */
module Results {

  /** The exceptions the modelled code can raise. */
  datatype Error =
    | ArgumentOutOfRange   // ArgumentOutOfRangeException: a key or a length field does not fit its width
    | Overflow             // OverflowException: allocating a byte array of negative size
    | EndOfStream          // EndOfStreamException: a blob ends before a length field's promise is met
    | OutOfMemory          // OutOfMemoryException: allocating a byte array longer than the runtime allows
    | StreamTooLong        // IOException: a write would carry a memory stream past int.MaxValue bytes
    | InvalidOperation     // InvalidOperationException: the session can no longer be established
    | Format               // FormatException: a freshly generated session key has the wrong length
    | Application          // any exception thrown by the application code that runs after the session middleware

  datatype Option<+T> = None | Some(value: T)

  datatype Result<+T> = Ok(value: T) | Err(error: Error) {
    predicate IsFailure() { Err? }

    function PropagateFailure<U>(): Result<U>
      requires Err?
    {
      Err(error)
    }

    function Extract(): T
      requires Ok?
    {
      value
    }
  }
}
