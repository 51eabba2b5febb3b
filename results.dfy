/** Error kinds and the failure-compatible Result type shared by every phase.
    The original reports errors as plain strings; here each message becomes
    a constructor carrying the index or byte offset the message mentions. */
module Results {

  datatype Error =
    | Truncated(offset: nat)                      // a fixed-width read ran past the buffer
    | Utf8Truncated(offset: nat)                  // a Utf8 length runs past the buffer
    | MalformedUtf8(begin: nat, end: nat)         // the modified-UTF-8 decoder rejected bytes[begin..end]
    | UnknownTag(tag: nat, offset: nat)           // tag byte outside Table 4.4-A of the JVM specification
    | UnknownReferenceKind(kind: nat, offset: nat)// MethodHandle reference kind outside 1..9
    | SelfReference(index: nat)                   // entry `index` refers to itself
    | OutOfBoundsReference(index: nat, target: nat)
    | Unresolvable                                // a resolution pass made no progress
    | UnexpectedReferenceType                     // ensure_type: kind not in the allowed set
    | InvalidEntry(index: nat)                    // validation failed for entry `index`
    | OutOfBoundsIndex(index: nat)                // read_cp_ref: index past the pool

  datatype Result<+T> = Ok(value: T) | Err(error: Error) {
    predicate IsFailure() { Err? }

    function PropagateFailure<U>(): Result<U>
      requires Err?
    {
      Err(error)
    }

    function Extract(): T
      requires Ok?
    {
      value
    }
  }

  datatype Option<+T> = None | Some(value: T)
}
