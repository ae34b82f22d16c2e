/** A value that may be missing: a file that does not exist, a section
    with no readable image. */
module Optional {

  datatype Option<T> = None | Some(value: T)
}
