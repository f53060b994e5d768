/** What several components share. */
module Common {

  datatype Option<T> = None | Some(value: T)

  /** The most that `palloc` hands out. */
  const MAX_ALLOC := 0x3fff_ffff
}
