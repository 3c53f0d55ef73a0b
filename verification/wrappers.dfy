/** Optional values, used for lookups that may miss (`Array.prototype.find`)
    and for decoders that may reject their input. */
module Wrappers {

  datatype Option<+T> = None | Some(value: T)
}
