/** Optional values, standing in for JavaScript's `undefined`/`null` fields. */
module Options {

  datatype Option<+T> = None | Some(value: T) {

    /** The value, or `default` when absent. */
    function GetOr(default: T): T {
      match this
      case Some(v) => v
      case None => default
    }
  }

  /** A numeric response field read as `field || 0`: an absent (falsy) field becomes 0. */
  function OrZero(field: Option<nat>): (n: nat)
    ensures field.None? ==> n == 0
    ensures field.Some? ==> n == field.value
  {
    field.GetOr(0)
  }
}
