/** An optional value, used for lookups that can come back empty
    (no selected item, no row at an index). */
module Options {

  datatype Option<+T> = None | Some(value: T)

}
