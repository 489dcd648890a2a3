/** The optional value used wherever the extension reads a possibly absent
    value: a storage key that was never set, a regex that did not match,
    an attribute `getAttribute` returned `null` for. */
module Maybe {

  datatype Option<+T> = None | Some(value: T) {

    /** The wrapped value, or `default` when absent. */
    function GetOr(default: T): T {
      match this
      case Some(v) => v
      case None => default
    }
  }
}
