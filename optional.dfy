/** A value that may be missing: JavaScript's null / undefined for one field. */
module Optional {

  datatype Option<T> = None | Some(value: T) {

    /** The value, or `default` when it is missing (the source's `x || default`). */
    function GetOr(default: T): T {
      match this
      case Some(v) => v
      case None => default
    }
  }

  /** The entry for `k`, or `default` when the map has none (the source's `m[k] || default`). */
  function Lookup<K, V>(m: map<K, V>, k: K, default: V): V
  {
    if k in m then m[k] else default
  }
}
