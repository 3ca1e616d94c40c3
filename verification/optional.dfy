/** A minimal optional value, used for "no value" sentinels throughout the model. */
module Optional {

  /** `None` stands for a missing value: an unset selector, an absent key, a null parent. */
  datatype Option<+T> = None | Some(value: T) {

    /** The wrapped value, or `default` when there is none. */
    function GetOr(default: T): T {
      match this
      case Some(v) => v
      case None => default
    }
  }
}
