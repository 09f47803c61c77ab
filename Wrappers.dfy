/** Optional values. In this model `None` stands for the JavaScript `false`
    (or `null`/`undefined`) that the library returns when there is no value. */
module Wrappers {

  datatype Option<+T> = None | Some(value: T)

}
