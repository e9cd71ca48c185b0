/** Optional values: an absent DOM attribute, an absent link target, storage
    that holds nothing readable. */
module Wrappers {

  datatype Option<+T> = None | Some(value: T)
}
