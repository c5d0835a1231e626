/** Optional values, standing in for the "found / not found" answers of the source
    (a QMap lookup, a QString-to-number conversion with its `ok` flag). */
module Wrappers {

  datatype Option<+T> = None | Some(value: T)

}
