/** The failures the modelled code reports, and the result type that carries them. */
module Errors {
  datatype Error =
    | NoSegments
    | InvalidSignature
    | SegmentGap(expected: nat, got: nat)
    | UnexpectedEof
    | InvalidChunkSize
    | TooManyTableEntries
    | TableBeyondSegment
    | MissingVolume
    | ChunkOutOfRange
    | MissingSegment
    | Decompression
    | NegativeSeek
    | CyclicDescriptors
    | PreviousBeyondFile
    | NotEwf
    | NoGeometry
    | ImplausibleChunkSize
    | EmptyPattern
    /** Rust's index-out-of-bounds panic. */
    | IndexPanic

  datatype Result<+T> = Ok(value: T) | Err(error: Error)
}
