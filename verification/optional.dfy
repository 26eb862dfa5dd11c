/** Optional values, used for request fields that a client may leave out and
    for lookups that may find nothing. */
module Optional {

  datatype Option<+T> = None | Some(value: T)

  /** JavaScript truthiness of an optional string field of a request body:
      a missing field and the empty string are both falsy. */
  predicate Falsy(o: Option<string>)
  {
    o.None? || o.value == ""
  }
}
