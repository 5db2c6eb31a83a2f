/** Optional values and results with one undifferentiated error. */
module Options {
  datatype Option<+T> = None | Some(value: T)

  /** An `Err` stands for any of the source's error values; message texts are not modelled. */
  datatype Result<+T> = Ok(value: T) | Err
}
