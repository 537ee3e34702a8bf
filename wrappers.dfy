/** Optional values: a JavaScript `undefined` (an absent header, body field or
    array element) is `None`. */
module Wrappers {

  datatype Option<+T> = None | Some(value: T)
}
