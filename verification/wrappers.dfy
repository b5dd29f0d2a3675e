/** An optional value: used for the feed fields that may be absent (a parsed
    date, the iTunes extension, the latest episode) and for matches that may fail. */
module Wrappers {

  datatype Option<+T> = None | Some(value: T)
}
