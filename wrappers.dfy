/** Python's `None`-or-value attributes (the asteroid's `fragment_timer`, the
    result of `spritecollideany`). */
module Wrappers {

  datatype Option<+T> = None | Some(value: T)
}
