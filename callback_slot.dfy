/** The single callback slot of a loader, as a pure state machine.

    The slot is `Option<E>`: `None` is Java's `null` and `Some(c)` holds the
    callback `c`. Equality on `E` stands for Java reference identity, which is
    what `!=` compares on a reference type. The functions here are the
    reference definition that the imperative `MvcFramework.Loader` class is
    proved against, and the lemmas state what holds over whole sequences of
    calls.
 */
module CallbackSlot {

  datatype Option<T> = None | Some(value: T)

  /** How a call ends: normally, or with the exception the Java code throws. */
  datatype Outcome = Ok | IllegalState | IllegalArgument

  /** The slot after one call, and how the call ended. */
  datatype Step<E> = Step(slot: Option<E>, outcome: Outcome)

  /** One call on the loader's callback slot, with its (possibly null) argument. */
  datatype Op<E> = RegisterCall(cb: Option<E>) | UnregisterCall(cb: Option<E>)

  /** The slot after a sequence of calls, and how each call ended. */
  datatype Trace<E> = Trace(slot: Option<E>, outcomes: seq<Outcome>)

  /** `registerCallbacks(cb)`: refused while anything is held; otherwise the
      slot takes the argument, even a null one. */
  function Register<E(==)>(slot: Option<E>, cb: Option<E>): (r: Step<E>)
    ensures r.outcome != IllegalArgument
    ensures r.outcome == Ok <==> slot == None
    ensures r.outcome == Ok ==> r.slot == cb
    ensures r.outcome == IllegalState ==> r.slot == slot
  {
    if slot != None then Step(slot, IllegalState) else Step(cb, Ok)
  }

  /** `unregisterCallbacks(cb)`: refused when nothing is held (checked first),
      refused when the argument is not the held callback, otherwise the slot
      is emptied. */
  function Unregister<E(==)>(slot: Option<E>, cb: Option<E>): (r: Step<E>)
    ensures r.outcome == IllegalState <==> slot == None
    ensures r.outcome == IllegalArgument <==> slot != None && slot != cb
    ensures r.outcome == Ok <==> slot != None && slot == cb
    ensures r.outcome == Ok ==> r.slot == None
    ensures r.outcome != Ok ==> r.slot == slot
  {
    if slot == None then Step(slot, IllegalState)
    else if slot != cb then Step(slot, IllegalArgument)
    else Step(None, Ok)
  }

  /** One call of either kind. */
  function Apply<E(==)>(slot: Option<E>, op: Op<E>): (r: Step<E>)
    ensures r.outcome != Ok ==> r.slot == slot
  {
    match op
    case RegisterCall(cb) => Register(slot, cb)
    case UnregisterCall(cb) => Unregister(slot, cb)
  }

  /** Runs the calls `ops` one after the other, starting from `slot`. */
  function Run<E(==)>(slot: Option<E>, ops: seq<Op<E>>): (r: Trace<E>)
    ensures |r.outcomes| == |ops|
    ensures Ok !in r.outcomes ==> r.slot == slot
    decreases |ops|
  {
    if ops == [] then Trace(slot, [])
    else
      var st := Apply(slot, ops[0]);
      var rest := Run(st.slot, ops[1..]);
      Trace(rest.slot, [st.outcome] + rest.outcomes)
  }

  /** The calls among `ops` that changed the slot, in order: the successful
      unregistrations and the successful registrations of a non-null callback. */
  function Effective<E(==)>(slot: Option<E>, ops: seq<Op<E>>): seq<Op<E>>
    decreases |ops|
  {
    if ops == [] then []
    else
      var st := Apply(slot, ops[0]);
      var here := if st.outcome == Ok && ops[0] != RegisterCall(None) then [ops[0]] else [];
      here + Effective(st.slot, ops[1..])
  }

  /** Registrations and unregistrations strictly alternate, each unregistration
      naming the callback registered just before it, starting from `slot`. */
  ghost predicate Alternating<E>(slot: Option<E>, effective: seq<Op<E>>)
    decreases |effective|
  {
    effective == [] ||
    match slot
    case None =>
      effective[0].RegisterCall? && effective[0].cb != None &&
      Alternating(effective[0].cb, effective[1..])
    case Some(_) =>
      effective[0] == UnregisterCall(slot) && Alternating(None, effective[1..])
  }

  /** The slot that an alternating sequence of effective calls ends in. */
  function After<E>(slot: Option<E>, effective: seq<Op<E>>): Option<E>
    decreases |effective|
  {
    if effective == [] then slot
    else match effective[0]
      case RegisterCall(cb) => After(cb, effective[1..])
      case UnregisterCall(_) => After(None, effective[1..])
  }

  /** Whatever the calls, the ones that change the slot alternate: a
      registration of a non-null callback, then an unregistration naming the
      callback registered just before it; and the final slot is the one those
      calls lead to. */
  lemma {:induction false} RunAlternates<E>(slot: Option<E>, ops: seq<Op<E>>)
    ensures Alternating(slot, Effective(slot, ops))
    ensures Run(slot, ops).slot == After(slot, Effective(slot, ops))
    decreases |ops|
  {
    if ops != [] {
      var st := Apply(slot, ops[0]);
      RunAlternates(st.slot, ops[1..]);
      var tail := Effective(st.slot, ops[1..]);
      if st.outcome == Ok && ops[0] != RegisterCall(None) {
        assert Effective(slot, ops) == [ops[0]] + tail;
        assert ([ops[0]] + tail)[1..] == tail;
      } else {
        assert Effective(slot, ops) == tail;
        assert st.slot == slot;
      }
    }
  }

  /** A callback can be held at the end only if it was held at the start or
      some call registered it. */
  lemma {:induction false} HeldWasRegistered<E>(slot: Option<E>, ops: seq<Op<E>>, c: E)
    requires Run(slot, ops).slot == Some(c)
    ensures slot == Some(c) || RegisterCall(Some(c)) in ops
    decreases |ops|
  {
    if ops != [] {
      var st := Apply(slot, ops[0]);
      HeldWasRegistered(st.slot, ops[1..], c);
      if st.slot == Some(c) && slot != Some(c) {
        assert ops[0] == RegisterCall(Some(c));
      } else if slot != Some(c) {
        assert RegisterCall(Some(c)) in ops[1..];
        assert RegisterCall(Some(c)) in ops;
      }
    }
  }

  /** Registering `x` and then unregistering `x` returns an empty slot to
      empty, after which a registration of any `y` succeeds and holds `y`. */
  lemma RegisterUnregisterRoundTrip<E>(x: Option<E>, y: Option<E>)
    ensures Run(None, [RegisterCall(x), UnregisterCall(x)]) ==
      if x == None then Trace(None, [Ok, IllegalState]) else Trace(None, [Ok, Ok])
    ensures Register(Unregister(Register(None, x).slot, x).slot, y) == Step(y, Ok)
  {
  }

  /** Registering null on an empty loader succeeds but leaves it empty: a
      further registration still succeeds, a further unregistration of any
      argument fails with IllegalState. */
  lemma NullRegistration<E>(y: Option<E>)
    ensures Register<E>(None, None) == Step(None, Ok)
    ensures Register(Register<E>(None, None).slot, y) == Step(y, Ok)
    ensures Unregister(Register<E>(None, None).slot, y) == Step(None, IllegalState)
  {
  }

  /** Unregistering the held callback twice: the second call finds the slot
      empty and fails with IllegalState, whatever its argument. */
  lemma SecondUnregisterFails<E>(c: E, y: Option<E>)
    ensures Unregister(Unregister(Some(c), Some(c)).slot, y) == Step(None, IllegalState)
  {
  }

  /** The sequence cb1 registered, cb2 refused, cb1 unregistered, cb2
      registered, for a non-null cb1. */
  lemma {:induction false} SwapScenario<E>(cb1: E, cb2: Option<E>)
    ensures Run(None, [RegisterCall(Some(cb1)), RegisterCall(cb2), UnregisterCall(Some(cb1)), RegisterCall(cb2)])
      == Trace(cb2, [Ok, IllegalState, Ok, Ok])
  {
    var ops := [RegisterCall(Some(cb1)), RegisterCall(cb2), UnregisterCall(Some(cb1)), RegisterCall(cb2)];
    assert ops[1..][1..][1..] == [RegisterCall(cb2)];
    assert Run(None, ops[1..][1..][1..]) == Trace(cb2, [Ok]);
    assert ops[1..][1..] == [UnregisterCall(Some(cb1)), RegisterCall(cb2)];
    assert Run(Some(cb1), ops[1..][1..]) == Trace(cb2, [Ok, Ok]);
    assert ops[1..] == [RegisterCall(cb2), UnregisterCall(Some(cb1)), RegisterCall(cb2)];
    assert Run(Some(cb1), ops[1..]) == Trace(cb2, [IllegalState, Ok, Ok]);
  }
}
