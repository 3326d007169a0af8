/** Optional values and success-or-error results, used for the free marker of
    a VLAN slot and for the errors the allocator raises. */
module Results {

  /** `None` plays the part of the free marker of a slot. */
  datatype Option<+T> = None | Some(value: T)

  /** A value, or the error that the Python code would have raised instead. */
  datatype Result<+T, +E> = Ok(value: T) | Err(error: E)
}
