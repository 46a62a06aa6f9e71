/** An optional value: the database driver's error for one statement, when it reports one. */
module Options {

  datatype Option<T> = None | Some(value: T)
}
