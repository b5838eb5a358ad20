/** The records the log parser hands to its caller (types.ts) and the
    small result wrappers used at its boundary. */
module LogTypes {

  datatype Option<T> = None | Some(value: T)

  /** A computation that either produced a value or failed with an error. */
  datatype Result<T, E> = Success(value: T) | Failure(error: E)

  /** A named, scored excerpt of log text for the analysis service;
      `relevanceScore` is an ordinal hint (1 = fallback, 10 = strong match). */
  datatype ParsedLogChunk = ParsedLogChunk(
    fileName: string,
    content: string,
    timestamp: Option<string>,
    relevanceScore: int)
}
