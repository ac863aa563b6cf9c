/** The base loader of the contacts list's model-view-controller framework:
    its callback slot, held in a mutable field. The lifecycle operations
    (start, force, stop, destroy) are abstract in Java's `Loader` and have no
    behaviour to model here.
 */
module MvcFramework {
  import opened CallbackSlot

  class Loader<E(==)> {
    /** `mCallbacks`: the registered callback, or `None` for Java's null. */
    var callbacks: Option<E>

    /** A fresh loader holds no callback (the field starts out null). */
    constructor ()
      ensures callbacks == None
    {
      callbacks := None;
    }

    /** `registerCallbacks`: fails with IllegalState while a callback is held
        and then changes nothing; otherwise stores `cb`, which may be null. */
    method RegisterCallbacks(cb: Option<E>) returns (r: Outcome)
      modifies this
      ensures r == Ok <==> old(callbacks) == None
      ensures r == Ok ==> callbacks == cb
      ensures r != Ok ==> r == IllegalState && callbacks == old(callbacks)
      ensures Step(callbacks, r) == Register(old(callbacks), cb)
    {
      if callbacks != None {
        return IllegalState;
      }
      callbacks := cb;
      r := Ok;
    }

    /** `unregisterCallbacks`: fails with IllegalState when nothing is held
        (checked before the argument), with IllegalArgument when `cb` is not
        the held callback, and in both cases changes nothing; otherwise
        empties the slot. */
    method UnregisterCallbacks(cb: Option<E>) returns (r: Outcome)
      modifies this
      ensures r == IllegalState <==> old(callbacks) == None
      ensures r == IllegalArgument <==> old(callbacks) != None && old(callbacks) != cb
      ensures r == Ok <==> old(callbacks) != None && old(callbacks) == cb
      ensures r == Ok ==> callbacks == None
      ensures r != Ok ==> callbacks == old(callbacks)
      ensures Step(callbacks, r) == Unregister(old(callbacks), cb)
    {
      if callbacks == None {
        return IllegalState;
      }
      if callbacks != cb {
        return IllegalArgument;
      }
      callbacks := None;
      r := Ok;
    }
  }

  /** A client of the class: on a new loader, cb1 is registered, cb2 is refused
      and cb1 stays held, cb1 is unregistered, and then cb2 is registered. */
  method SwapCallbacks<E(==)>(cb1: E, cb2: E) returns (outcomes: seq<Outcome>, held: Option<E>)
    ensures outcomes == [Ok, IllegalState, Ok, Ok]
    ensures held == Some(cb2)
  {
    var loader := new Loader<E>();
    var a := loader.RegisterCallbacks(Some(cb1));
    var b := loader.RegisterCallbacks(Some(cb2));
    assert loader.callbacks == Some(cb1);
    var c := loader.UnregisterCallbacks(Some(cb1));
    var d := loader.RegisterCallbacks(Some(cb2));
    outcomes, held := [a, b, c, d], loader.callbacks;
  }

  /** A client of the class: unregistering on a new loader fails with
      IllegalState, even for a null argument or one never registered. */
  method UnregisterOnNewLoader<E(==)>(cb: Option<E>) returns (r: Outcome, held: Option<E>)
    ensures r == IllegalState && held == None
  {
    var loader := new Loader<E>();
    r := loader.UnregisterCallbacks(cb);
    held := loader.callbacks;
  }

  /** A client of the class: a wrong callback is refused with IllegalArgument
      and the held one stays registered and can still be unregistered. */
  method UnregisterWrongCallback<E(==)>(held: E, other: Option<E>)
    returns (first: Outcome, second: Outcome, after: Option<E>)
    requires other != Some(held)
    ensures first == IllegalArgument && second == Ok && after == None
  {
    var loader := new Loader<E>();
    var _ := loader.RegisterCallbacks(Some(held));
    first := loader.UnregisterCallbacks(other);
    assert loader.callbacks == Some(held);
    second := loader.UnregisterCallbacks(Some(held));
    after := loader.callbacks;
  }
}
