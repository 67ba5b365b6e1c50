/** Rust's `Option`, used for a particle's cell back-reference and for `get_index`'s result. */
module Options {

  datatype Option<+T> = None | Some(value: T)
}
