/** A value that may be absent: a DOM attribute that is not set, or a key missing from
    the browser's preference storage (`null` in the browser). */
module Optional {

  datatype Option<+T> = None | Some(value: T)
}
