/** `BaseSubscribable` of src/subscribable.ts: a value with an ordered registry of
    subscribers, keyed by subscriber identity, and an `emit` that calls each of them. */
module Subscribable {

  /** The identity of a subscriber callback; JavaScript compares functions by identity. */
  type Subscriber = nat

  /** One call of a subscriber with a value. */
  datatype Call<T> = Call(subscriber: Subscriber, value: T)

  /** The calls `subs.forEach((sub) => sub(v))` makes, in order. */
  function Deliveries<T>(subs: seq<Subscriber>, v: T): (r: seq<Call<T>>)
    ensures |r| == |subs|
    ensures forall i :: 0 <= i < |r| ==> r[i] == Call(subs[i], v)
    decreases |subs|
  {
    if subs == [] then [] else [Call(subs[0], v)] + Deliveries(subs[1..], v)
  }

  /** How many of `calls` go to `s`. */
  function CallsTo<T>(calls: seq<Call<T>>, s: Subscriber): nat
    decreases |calls|
  {
    if calls == [] then 0 else (if calls[0].subscriber == s then 1 else 0) + CallsTo(calls[1..], s)
  }

  /** A subscriber is called once for each time it occurs in the list. */
  lemma {:induction false} CallsCount<T>(subs: seq<Subscriber>, v: T, s: Subscriber)
    ensures CallsTo(Deliveries(subs, v), s) == multiset(subs)[s]
    decreases |subs|
  {
    if subs != [] {
      CallsCount(subs[1..], v, s);
      assert subs == [subs[0]] + subs[1..];
      assert Deliveries(subs, v)[1..] == Deliveries(subs[1..], v);
    }
  }

  predicate NoDuplicates(subs: seq<Subscriber>) {
    forall i, j :: 0 <= i < j < |subs| ==> subs[i] != subs[j]
  }

  /** A list without duplicates holds each subscriber at most once. */
  lemma {:induction false} NoDuplicatesOnce(subs: seq<Subscriber>, s: Subscriber)
    requires NoDuplicates(subs)
    ensures multiset(subs)[s] == if s in subs then 1 else 0
    decreases |subs|
  {
    if subs != [] {
      NoDuplicatesOnce(subs[1..], s);
      assert subs == [subs[0]] + subs[1..];
      assert subs[0] !in subs[1..] by {
        forall k | 0 <= k < |subs[1..]| ensures subs[1..][k] != subs[0] {
          assert subs[1..][k] == subs[k + 1];
        }
      }
    }
  }

  /** `Map.set(s, s)` on a Map used as an ordered set: a new key goes last, a present key
      keeps its place. */
  function Added(subs: seq<Subscriber>, s: Subscriber): seq<Subscriber> {
    if s in subs then subs else subs + [s]
  }

  /** `Map.delete(s)`: drop `s`, keeping the others in order. */
  function Removed(subs: seq<Subscriber>, s: Subscriber): (r: seq<Subscriber>)
    ensures forall t :: t in r <==> t in subs && t != s
    decreases |subs|
  {
    if subs == [] then []
    else if subs[0] == s then Removed(subs[1..], s)
    else [subs[0]] + Removed(subs[1..], s)
  }

  /** Adding keeps the registry free of duplicates, holds `s` afterwards, and doing it twice
      is doing it once. */
  lemma AddedSpec(subs: seq<Subscriber>, s: Subscriber)
    requires NoDuplicates(subs)
    ensures NoDuplicates(Added(subs, s)) && s in Added(subs, s)
    ensures forall t :: t in Added(subs, s) <==> t in subs || t == s
    ensures Added(Added(subs, s), s) == Added(subs, s)
    ensures s in subs ==> Added(subs, s) == subs
  {
    if s !in subs {
      var r := subs + [s];
      assert r[|subs|] == s;
      forall i, j | 0 <= i < j < |r| ensures r[i] != r[j] {
        if j == |subs| {
          assert r[i] == subs[i];
        }
      }
    }
  }

  /** Removing a subscriber that is absent changes nothing. */
  lemma {:induction false} RemovedAbsent(subs: seq<Subscriber>, s: Subscriber)
    requires s !in subs
    ensures Removed(subs, s) == subs
    decreases |subs|
  {
    if subs != [] {
      assert subs[1..] == subs[1..] && s !in subs[1..];
      RemovedAbsent(subs[1..], s);
    }
  }

  /** Removing `s` from `a + [s] + b`, where it occurs once, leaves `a + b` in order. */
  lemma {:induction false} RemovedOne(a: seq<Subscriber>, s: Subscriber, b: seq<Subscriber>)
    requires s !in a && s !in b
    ensures Removed(a + [s] + b, s) == a + b
    decreases |a|
  {
    if a == [] {
      assert (a + [s] + b)[1..] == b && a + b == b;
      RemovedAbsent(b, s);
    } else {
      assert (a + [s] + b)[1..] == a[1..] + [s] + b;
      assert (a + [s] + b)[0] == a[0];
      RemovedOne(a[1..], s, b);
      assert a + b == [a[0]] + (a[1..] + b);
    }
  }

  /** Removing keeps the registry free of duplicates. */
  lemma {:induction false} RemovedNoDuplicates(subs: seq<Subscriber>, s: Subscriber)
    requires NoDuplicates(subs)
    ensures NoDuplicates(Removed(subs, s))
    decreases |subs|
  {
    if subs != [] {
      assert NoDuplicates(subs[1..]) by {
        forall i, j | 0 <= i < j < |subs[1..]| ensures subs[1..][i] != subs[1..][j] {
          assert subs[1..][i] == subs[i + 1] && subs[1..][j] == subs[j + 1];
        }
      }
      RemovedNoDuplicates(subs[1..], s);
      if subs[0] != s {
        var rest := Removed(subs[1..], s);
        assert subs[0] !in subs[1..] by {
          forall k | 0 <= k < |subs[1..]| ensures subs[1..][k] != subs[0] {
            assert subs[1..][k] == subs[k + 1];
          }
        }
        assert subs[0] !in rest;
        var r := [subs[0]] + rest;
        forall i, j | 0 <= i < j < |r| ensures r[i] != r[j] {
          if i == 0 {
            assert r[j] == rest[j - 1];
          } else {
            assert r[i] == rest[i - 1] && r[j] == rest[j - 1];
          }
        }
      }
    }
  }

  /** Subscribing a new subscriber and unsubscribing it restores the registry. */
  lemma AddedRemoved(subs: seq<Subscriber>, s: Subscriber)
    requires s !in subs
    ensures Removed(Added(subs, s), s) == subs
  {
    RemovedOne(subs, s, []);
    assert subs + [s] + [] == subs + [s] && subs + [] == subs;
  }

  class BaseSubscribable<T> {
    /** The current value; assigning it notifies no one. */
    var value: T
    /** The keys of `#subscribers`, in insertion order. */
    var subscribers: seq<Subscriber>

    ghost predicate Valid()
      reads this
    {
      NoDuplicates(subscribers)
    }

    constructor(initial: T)
      ensures Valid() && value == initial && subscribers == []
    {
      value := initial;
      subscribers := [];
    }

    /** `subscribe(subscriber)`. */
    method Subscribe(subscriber: Subscriber)
      requires Valid()
      modifies this
      ensures Valid() && value == old(value)
      ensures subscribers == Added(old(subscribers), subscriber)
    {
      AddedSpec(subscribers, subscriber);
      subscribers := Added(subscribers, subscriber);
    }

    /** `unsubscribe(pointer)`. */
    method Unsubscribe(pointer: Subscriber)
      requires Valid()
      modifies this
      ensures Valid() && value == old(value)
      ensures subscribers == Removed(old(subscribers), pointer)
    {
      RemovedNoDuplicates(subscribers, pointer);
      subscribers := Removed(subscribers, pointer);
    }

    /** `this.value = v`: a plain assignment. */
    method SetValue(v: T)
      modifies this
      ensures value == v && subscribers == old(subscribers)
    {
      value := v;
    }

    /** `emit()`: the calls made, each subscriber once, in order, with the value read when
      `emit` began. */
    method Emit() returns (calls: seq<Call<T>>)
      requires Valid()
      ensures calls == Deliveries(subscribers, value)
      ensures forall s :: CallsTo(calls, s) == if s in subscribers then 1 else 0
    {
      var v := value;
      calls := [];
      for i := 0 to |subscribers|
        invariant |calls| == i
        invariant forall k :: 0 <= k < i ==> calls[k] == Call(subscribers[k], v)
      {
        calls := calls + [Call(subscribers[i], v)];
      }
      assert calls == Deliveries(subscribers, v);
      forall s ensures CallsTo(calls, s) == if s in subscribers then 1 else 0 {
        CallsCount(subscribers, v, s);
        NoDuplicatesOnce(subscribers, s);
      }
    }
  }
}
