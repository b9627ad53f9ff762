/** Outcomes of the operations that can fail. The repository reports every failure as a
    message string; here each kind of failure is a tagged variant carrying the offending
    value where the message shows one. */
module Results {

  datatype Error =
    | UnknownCode(code: int)          // a digit code outside 1..9
    | UnexpectedX(x: int)             // a vector whose x coordinate is outside -1..1
    | UnexpectedY(y: int)             // a vector whose y coordinate is outside -1..1
    | InvalidDigitChar(c: char)       // a character outside '1'..'9'
    | MissingMarker                   // the empty string
    | MissingNumber                   // nothing after the first character
    | InvalidFormat                   // more than one '.'
    | EmptyBuffer
    | BufferTooShort
    | IntegralTooLong(len: int)       // 256 or more integral digits
    | ZeroDivisor                     // linear division by a zero divisor (a panic in the source)
    | NotLinearDividend               // linear division of a value that is not 1/5/9-only (a panic)
    | NotLinearDivisor                // linear division by a value that is not 1/5/9-only (a panic)

  datatype Result<T> = Ok(value: T) | Err(error: Error)
}
