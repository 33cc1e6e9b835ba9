/** Failure-aware return values shared by the trainer and the decoder. */
module Results {

  datatype Option<T> = None | Some(value: T)

  datatype Result<T, E> = Success(value: T) | Failure(error: E)

  /** Why training stops: the tag line of this corpus line is too short to be indexed. */
  datatype TrainError = TagIndexOutOfRange(line: nat)

  /** Why decoding stops: no tag sequence follows recorded transitions to the last token. */
  datatype DecodeError = DeadEnd
}
