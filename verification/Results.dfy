/** Results and named errors. Reason strings are not modelled; the fields a caller branches on are. */
module Results {

  datatype Option<+T> = None | Some(value: T)

  datatype Error =
    | CapacityExceeded(needed: nat, available: nat)
    | EncodingFailed(carrier: string)
    | DecodingFailed(step: string)
    | NothingDetected
    | ChannelCollision(first: string, second: string, codepoint: char)
    | CompositionOrder(carrier: string, successor: string)
    | IntegrityFailed
    | CipherFailed
    | InvalidInput

  datatype Result<+T> = Ok(value: T) | Err(error: Error) {
    predicate IsFailure() {
      Err?
    }

    function PropagateFailure<U>(): Result<U>
      requires Err?
    {
      Err(error)
    }

    function Extract(): T
      requires Ok?
    {
      value
    }
  }
}
