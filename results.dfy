/** The outcome of an operation that can fail: the value it computes, or the
    error it raises (the C++ source throws `std::runtime_error`). */
module Results {

  datatype Result<T, E> = Ok(value: T) | Err(error: E)
}
