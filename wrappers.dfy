/** Optional values: a field declared with `v.optional(...)`, a `ctx.db.get` that
    may find no document, and a `.first()` that may find no row. */
module Wrappers {
  datatype Option<+T> = None | Some(value: T)
}
