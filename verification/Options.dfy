/** The Some/None datatype every module of this project uses for a value that may be absent or refused. */
module Options {
  datatype Option<+T> = None | Some(value: T)
}
