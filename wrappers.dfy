/** Option and Result types shared by the model. */
module Wrappers {

  /** A value that may be missing; stands for a nullable reference (`Author?`, `Book?`). */
  datatype Option<+T> = None | Some(value: T)

  /** The outcome of a service call that reads the cache: either a value, or the
      deserialisation exception the JSON library throws when a cached payload has
      a different shape from the requested type. */
  datatype Result<+T> = Ok(value: T) | DeserializationFailed
}
