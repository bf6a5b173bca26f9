/** Option and Result types shared by the models: `None` and `Err` stand for
    the places where the C++ code reads an empty container or throws. */
module Results {

  datatype Option<+T> = None | Some(value: T)

  datatype Result<+T, +E> = Ok(value: T) | Err(error: E)
}
