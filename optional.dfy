/** An optional value: what `Array.prototype.find` returns, a date that may not
    parse, and the state slots that may be empty. */
module Optional {
  datatype Option<+T> = None | Some(value: T)
}
