/** Optional values and Go's `(value, error)` returns. */
datatype Option<+T> = None | Some(value: T)

/** A Go error is modelled by its message. */
datatype Result<+T> = Ok(value: T) | Err(msg: string)
