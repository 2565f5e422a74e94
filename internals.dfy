/** `Maybe` of src/_internals.ts: a mutable optional value. */
module Internals {
  import opened Wrappers

  /** `new Error("cannot call unwrap() on Maybe.none()")`. */
  datatype MaybeError = UnwrapOnNone

  class Maybe<T> {
    /** `#hasValue`. */
    var hasValue: bool
    /** `#value`, of type `T | null`; `None` is `null`. */
    var value: Option<T>

    /** `new Maybe(hasValue, value = null)`. */
    constructor(hasValue: bool, value: Option<T> := None)
      ensures this.hasValue == hasValue && this.value == value
    {
      this.hasValue := hasValue;
      this.value := value;
    }

    /** `unwrap()`: the stored value, which is `null` for `new Maybe(true)`, or an error. */
    function Unwrap(): (r: Result<Option<T>, MaybeError>)
      reads this
      ensures r.Failure? <==> !hasValue
      ensures r.Success? ==> r.value == value
    {
      if !hasValue then Failure(UnwrapOnNone) else Success(value)
    }

    /** `isNone()`. */
    function IsNone(): (r: bool)
      reads this
      ensures r <==> Unwrap().Failure?
    {
      !hasValue
    }

    /** `replace(value)`: whatever the state before, the value is there afterwards. */
    method Replace(v: T)
      modifies this
      ensures !IsNone() && Unwrap() == Success(Some(v))
    {
      hasValue := true;
      value := Some(v);
    }

    /** `Maybe.none()`. */
    static method MakeNone() returns (m: Maybe<T>)
      ensures fresh(m) && m.IsNone() && m.Unwrap() == Failure(UnwrapOnNone)
    {
      m := new Maybe(false);
    }

    /** `Maybe.some(value)`. */
    static method MakeSome(v: T) returns (m: Maybe<T>)
      ensures fresh(m) && !m.IsNone() && m.Unwrap() == Success(Some(v))
    {
      m := new Maybe(true, Some(v));
    }
  }
}
