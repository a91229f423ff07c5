/** Optional values, used wherever the modelled code has a "nothing here" outcome:
    a missed intersection, a rejected candidate, a missing '=' in a query segment. */
module Wrappers {

  datatype Option<+T> = None | Some(value: T)
}
