/** An optional value: the model's stand-in for a Java reference that may
    be `null`, and for an `Optional` returned by a stream's `findFirst`. */
module Optional {

  datatype Option<+T> = None | Some(value: T)
}
