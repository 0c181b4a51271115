/** Optional values, standing for a JavaScript operation that either returns or throws. */
module Wrappers {

  datatype Option<+T> = None | Some(value: T)

  /** Puts `prefix` in front of a successful sequence result; a failure stays a failure. */
  function PrefixWith<T>(prefix: seq<T>, o: Option<seq<T>>): (r: Option<seq<T>>)
    ensures r.Some? <==> o.Some?
    ensures r.Some? ==> r.value == prefix + o.value
  {
    match o
    case None => None
    case Some(s) => Some(prefix + s)
  }
}
