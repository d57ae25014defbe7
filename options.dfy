/** The nullable values of the Java API: `None` stands for `null`. */
module Options {

  datatype Option<+T> = None | Some(value: T)
}
