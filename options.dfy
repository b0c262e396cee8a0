/** An optional value: the model of a pointer that may be null or of `std::optional`. */
module Options {

  datatype Option<+T> = None | Some(value: T)
}
