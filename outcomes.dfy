/** Outcomes of the decoder: the source signals every failure with a Python
    exception; here each one is a distinguishable value. */
module Outcomes {

  datatype Option<+T> = None | Some(value: T)

  /** Every way decoding a splash image can fail. */
  datatype Error =
    | ShortField            // a 4-byte header field was cut short by the end of the stream
    | NotEncoded(flag: nat) // the header's encoding flag is not 1
    | TruncatedPayload      // the stream ended in the middle of a colour triple
    | RasterOverrun         // a token wrote past width * height pixels

  datatype Result<+T> = Ok(value: T) | Err(error: Error)
}
