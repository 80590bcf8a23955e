/** Values shared by every stage of the request handler. */
module Http {

  newtype byte = x: int | 0 <= x < 256

  type Bytes = seq<byte>

  /** The files of one directory, by name. The service uses two: the writable
      `/tmp` and the read-only application directory. */
  type Dir = map<string, Bytes>

  datatype Option<T> = None | Some(value: T)

  /** An `HTTPException`: the status code and the `detail` of the JSON body. */
  datatype HttpError = HttpError(status: int, detail: string)

  /** A stage either yields a value or raises an `HTTPException`. */
  datatype Result<T> = Ok(value: T) | Err(error: HttpError)
}
