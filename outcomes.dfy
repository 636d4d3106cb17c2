// The error conditions the core reports. Where the source terminates the
// process (log.Fatal, or a slice panic), the model returns an Err instead.
module Outcomes {

  datatype Failure =
    | Truncated           // sealed file shorter than the 64-byte tag: the slice in hmacAuthDecrypt panics
    | IntegrityFailure    // the tag does not match the HMAC of the rest
    | InvalidKeyLength    // aes.NewCipher refuses a key that is not 16, 24 or 32 bytes long
    | CiphertextTooShort  // fewer bytes than one IV remain once the tag is stripped

  datatype Result<T> = Ok(value: T) | Err(failure: Failure)

  /** What writeFileInContainer did with one file. */
  datatype Admission = Admitted | CapacityExceeded | NameCollision
}
