/** The optional value used where the C++ code keeps a possibly-null
    pointer or where parsing can fail. */
module Options {

  datatype Option<+T> = None | Some(value: T)
}
