/** The absent-or-present result every lookup of the skip list returns
    (the Go code uses a nil pointer or a nil interface for "absent"). */
module Options {

  datatype Option<+T> = None | Some(value: T)
}
