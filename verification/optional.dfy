/** A value a JSON object may lack, as `dict.get` sees a key that is absent. */
module Optional {

  datatype Option<T> = None | Some(value: T) {

    /** `dict.get(key, default)`: the value when present, otherwise `default`. */
    function OrElse(default: T): T {
      if Some? then value else default
    }
  }
}
