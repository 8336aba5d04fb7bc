/** The optional value used by the allocators' helpers and by the hash map. */
module Optional {
  datatype Option<+T> = None | Some(value: T)
}
