/** Outcomes of the C functions that return a size or an error code. */
module Results {
  datatype Error =
    | Generic
    | TableLogTooLarge
    | MaxSymbolValueTooLarge
    | MaxSymbolValueTooSmall
    | CorruptionDetected
    | DstSizeTooSmall
    | SrcSizeWrong
    | ExternalSequencesInvalid

  datatype Result<+T> = Ok(value: T) | Err(error: Error)
}
