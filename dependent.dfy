/** `Dependent` of src/dependent.ts: a value derived from a source subscribable by a pure
    `gen`, recomputed and pushed to its own subscribers whenever the source notifies it. */
module Dependent {
  import opened Subscribable

  /** Subscribing twice means being called twice on every notification. */
  lemma DuplicateSubscriber<R>(subs: seq<Subscriber>, s: Subscriber, v: R)
    ensures CallsTo(Deliveries(subs + [s] + [s], v), s) == CallsTo(Deliveries(subs, v), s) + 2
  {
    CallsCount(subs + [s] + [s], v, s);
    CallsCount(subs, v, s);
    assert multiset(subs + [s] + [s]) == multiset(subs) + multiset{s, s};
  }

  class Dependent<T, R> {
    /** `#gen`. */
    const gen: T -> R
    /** `#value`: the last generated value. */
    var value: R
    /** `#subscribers`: an array, so the same subscriber may occur more than once. */
    var subscribers: seq<Subscriber>
    /** The source value the stored value was last generated from. */
    ghost var seen: T

    /** The stored value is `gen` of the last source value seen. */
    ghost predicate Valid()
      reads this
    {
      value == gen(seen)
    }

    /** `new Dependent(state, gen)`: the value is generated from the source's current value,
        and the change handler, a fresh closure whose identity is `handler`, is subscribed
        to the source. */
    constructor(source: BaseSubscribable<T>, gen: T -> R, handler: Subscriber)
      requires source.Valid() && handler !in source.subscribers
      modifies source
      ensures Valid() && seen == old(source.value)
      ensures this.gen == gen && value == gen(old(source.value)) && subscribers == []
      ensures source.Valid() && source.value == old(source.value)
      ensures source.subscribers == old(source.subscribers) + [handler]
    {
      this.gen := gen;
      value := gen(source.value);
      subscribers := [];
      seen := source.value;
      new;
      source.Subscribe(handler);
    }

    /** The handler the constructor subscribes, run with the source's new value `current`:
        the value is regenerated and every subscriber, in push order, receives it. */
    method OnSourceChange(current: T) returns (calls: seq<Call<R>>)
      modifies this
      ensures Valid() && seen == current
      ensures value == gen(current) && subscribers == old(subscribers)
      ensures calls == Deliveries(subscribers, gen(current))
    {
      var generated := gen(current);
      value := generated;
      seen := current;
      calls := [];
      for i := 0 to |subscribers|
        invariant |calls| == i
        invariant forall k :: 0 <= k < i ==> calls[k] == Call(subscribers[k], generated)
      {
        calls := calls + [Call(subscribers[i], generated)];
      }
    }

    /** The `value` getter: what `gen` gave for the last source value seen, without running
        `gen` again. */
    function Value(): (r: R)
      requires Valid()
      reads this
      ensures r == gen(seen)
    {
      value
    }

    /** `subscribe(subscriber)`: a push, duplicates included. */
    method Subscribe(subscriber: Subscriber)
      modifies this
      ensures subscribers == old(subscribers) + [subscriber]
      ensures value == old(value) && seen == old(seen)
    {
      subscribers := subscribers + [subscriber];
    }
  }
}
