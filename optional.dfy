/** The null-or-pointer results of the search routines, as a value. */
module Optional {

  /** `None` stands for the null pointer the C++ routines return on failure. */
  datatype Option<+T> = None | Some(value: T)
}
