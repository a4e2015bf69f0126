/** Rust's `Option`: the type of the optional `head`/`tail` links, of the heap's root and of `allocate`'s result. */
module Options {
  datatype Option<+T> = None | Some(value: T)
}
