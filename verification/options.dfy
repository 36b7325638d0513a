/** The optional value used where the source returns `None` for "absent"
    (a dict miss, a cache miss) or raises on an index outside the list. */
module Options {

  datatype Option<+T> = None | Some(value: T)

}
