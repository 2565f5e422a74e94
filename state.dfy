/** `state` of src/state.ts: a cell holding a value, changed by `update` with either a new
    value or a function of the previous one. */
module State {

  /** The argument of `update`: a JavaScript value that is a function (`typeof` is
      `"function"`), which is always taken as an updater, or any other value. */
  datatype StateUpdate<!T> = Set(v: T) | Dispatch(f: T -> T)

  /** `isUpdater(a)`. */
  predicate IsUpdater<T>(a: StateUpdate<T>) {
    a.Dispatch?
  }

  class State<T> {
    var value: T

    /** `state(defaultValue)`. */
    constructor(defaultValue: T)
      ensures value == defaultValue
    {
      value := defaultValue;
    }

    /** `update(item)`: the value only changes, and nothing is notified. */
    method Update(item: StateUpdate<T>)
      modifies this
      ensures item.Set? ==> value == item.v
      ensures item.Dispatch? ==> value == item.f(old(value))
    {
      if IsUpdater(item) {
        value := item.f(value);
      } else {
        value := item.v;
      }
    }
  }

}
