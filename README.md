# Loader callback slot

A model of the abstract `Loader<E>` base class of the contacts application's
model-view-controller framework (`com.android.contacts.mvcframework`). The only
behaviour the base class implements is its single callback slot: the field
`mCallbacks` and the two methods that fill and empty it.

- `registerCallbacks(cb)` throws `IllegalStateException` if a callback is
  already held. Otherwise it stores `cb`. A null `cb` is accepted and leaves
  the slot empty.
- `unregisterCallbacks(cb)` throws `IllegalStateException` if nothing is held.
  This is checked first. It then throws `IllegalArgumentException` if `cb` is
  not the held callback, compared by reference. Otherwise it empties the slot.

The project has two modules:

- `CallbackSlot` (`callback_slot.dfy`) is the reference definition. It holds
  the slot as a value `Option<E>`, where `None` is Java's `null`. Equality on
  `E` stands for Java reference identity. It defines one transition function
  per method, a runner for sequences of calls, and lemmas over whole call
  sequences.
- `MvcFramework` (`loader.dfy`) has the class `Loader<E>` with the mutable
  field `callbacks` (Java's `mCallbacks`). Its two methods `modifies this`.
  Each one states its outcome and new field value case by case, and ties them
  to the matching `CallbackSlot` function. Three client methods build a
  loader and run the scenarios the class promises, using only the methods'
  contracts.

An exception thrown by the Java code is modelled as an `Outcome` value that the
method returns: `Ok`, `IllegalState` or `IllegalArgument`.

## Model

| member | source | states |
|---|---|---|
| CallbackSlot.Register | src/com/android/contacts/mvcframework/Loader.java:47-52 | registration succeeds exactly when the slot is empty, and then the slot holds the argument (even null); otherwise it fails with IllegalState and the slot is unchanged; it never raises IllegalArgument |
| CallbackSlot.Unregister | src/com/android/contacts/mvcframework/Loader.java:57-65 | IllegalState exactly when the slot is empty, whatever the argument; IllegalArgument exactly when something is held and it is not the argument; success exactly when the argument is the held callback, emptying the slot; a failure leaves the slot unchanged |
| CallbackSlot.Apply | src/com/android/contacts/mvcframework/Loader.java:47-65 | any single call that fails leaves the slot unchanged |
| CallbackSlot.Run | src/com/android/contacts/mvcframework/Loader.java:47-65 | a sequence of calls yields one outcome per call, and if none of them succeeded the slot is what it was |
| CallbackSlot.RunAlternates | src/com/android/contacts/mvcframework/Loader.java:23-65 | for any start and any calls, the calls that change the slot alternate: a registration of a non-null callback, then an unregistration naming the callback registered just before it; the final slot is the one this alternation leads to |
| CallbackSlot.HeldWasRegistered | src/com/android/contacts/mvcframework/Loader.java:47-65 | a callback held after a sequence of calls was held at the start or was the argument of some registration in it |
| CallbackSlot.RegisterUnregisterRoundTrip | src/com/android/contacts/mvcframework/Loader.java:47-65 | register(x) then unregister(x) on an empty slot leaves it empty (both calls succeed for non-null x; for null x the unregistration fails with IllegalState); a following register(y) succeeds for every y |
| CallbackSlot.NullRegistration | src/com/android/contacts/mvcframework/Loader.java:48-60 | registering null on an empty slot succeeds and leaves it empty; then any registration succeeds and any unregistration fails with IllegalState |
| CallbackSlot.SecondUnregisterFails | src/com/android/contacts/mvcframework/Loader.java:58-64 | after the held callback is unregistered, a second unregistration fails with IllegalState for every argument |
| CallbackSlot.SwapScenario | src/com/android/contacts/mvcframework/Loader.java:47-65 | on an empty slot, register(cb1), register(cb2), unregister(cb1), register(cb2) give Ok, IllegalState, Ok, Ok and end holding cb2 |
| MvcFramework.Loader.constructor | src/com/android/contacts/mvcframework/Loader.java:23 | a new loader holds no callback |
| MvcFramework.Loader.RegisterCallbacks | src/com/android/contacts/mvcframework/Loader.java:47-52 | succeeds exactly when no callback was held and then holds the argument; otherwise returns IllegalState and leaves the field unchanged; agrees with CallbackSlot.Register |
| MvcFramework.Loader.UnregisterCallbacks | src/com/android/contacts/mvcframework/Loader.java:57-65 | IllegalState exactly when nothing was held, IllegalArgument exactly when a different callback was held, both leaving the field unchanged; success exactly when the argument is the held callback, and then the field is empty; agrees with CallbackSlot.Unregister |
| MvcFramework.SwapCallbacks | src/com/android/contacts/mvcframework/Loader.java:47-65 | on a new loader, register(cb1), register(cb2), unregister(cb1), register(cb2) return Ok, IllegalState, Ok, Ok and leave cb2 held |
| MvcFramework.UnregisterOnNewLoader | src/com/android/contacts/mvcframework/Loader.java:57-60 | unregistering on a new loader returns IllegalState for any argument, null included, and the loader stays empty |
| MvcFramework.UnregisterWrongCallback | src/com/android/contacts/mvcframework/Loader.java:57-65 | unregistering a callback other than the held one returns IllegalArgument and keeps it held; unregistering the held one then succeeds and empties the loader |

## Left out

- `ForceLoadContentObserver` (Loader.java:25-39): it wraps the platform's `ContentObserver` and `Handler`. Its only behaviour is to call `forceLoad()` on every change, including self-originated ones. That is a call into code that is not part of this model.
- `startLoading`, `forceLoad`, `stopLoading` and `destroy` (Loader.java:76-92): these are abstract in Java's `Loader` and have no body. Their behaviour belongs to subclasses and the host platform, which are not part of this model.
- UI-thread confinement (Loader.java:45, 55, 74, 90): it is a documented threading precondition. The model is sequential.
- Exception messages (Loader.java:49, 59, 62): only the kind of exception is modelled, not its text.
- Reference identity: Java compares callbacks with `!=` on references. The model compares values of the type parameter `E` with `==`, and `E` stands for object identity. A user-defined `equals` plays no part in either.
