/** A value that may be absent: how the model writes a C# null reference or a failed lookup. */
module Optional {
  datatype Option<+T> = None | Some(value: T)
}
