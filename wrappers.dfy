/** An optional value: a nullable column, an absent JSON member, a lookup that found nothing. */
module Wrappers {
  datatype Option<+T> = None | Some(value: T)
}
