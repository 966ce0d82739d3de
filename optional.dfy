/** The usual Some/None wrapper, used for optional regex groups and for the
    optional last-post timestamp of the configuration record. */
module Optional {

  datatype Option<+T> = None | Some(value: T)
}
