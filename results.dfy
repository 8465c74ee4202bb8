/** Option and Result values: a JavaScript `undefined`/`NaN` or a thrown error
    becomes an explicit value in the model. */
module Results {

  datatype Option<+T> = None | Some(value: T)

  datatype Result<+T, +E> = Ok(value: T) | Err(error: E)
}
