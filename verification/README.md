# gwt-storage: handler registry and storage-event emulation, in Dafny

This project models the core of the GWT Web Storage wrapper
(`org.gwtproject.storage.client`):

- **`StorageImpl`**: a process-wide ordered registry of storage-event
  handlers. The first registration attaches one native "storage" listener to
  the window; a removal that leaves the registry empty detaches it. Dispatch
  calls every handler in registration order; a handler that throws is
  reported to the exception sink, and the later handlers still run. The
  class also holds the out-of-range guard on `key(index)` and the rule that
  maps an event's storage area to local or session storage, and it delegates
  `getItem`/`setItem`/`removeItem`/`clear`/`getLength` to the browser's
  storage engine.
- **`StorageImplNonNativeEvents`**: the subclass used where browsers fire the
  storage event incompletely. `setItem`, `removeItem` and `clear` read the
  prior value, perform the base mutation, then build a storage event
  themselves. They dispatch it only when a handler is registered. The attach
  and detach hooks are no-ops here.
- **`StorageEvent.createEvent`**: copies every property of an init dictionary
  onto a new event, then forces `type` to "storage". The accessors read the
  event's fields back.

The native storage engine is modelled abstractly, following W3C Web Storage
section 4.1 "The Storage interface": an ordered list of key/value pairs with
distinct keys (module `WebStorage`). Everything else is pure functions over
an immutable `State` (module `StorageImpl`). That state holds the two storage
areas, the handler list (null until first used), the remembered native
listener, the window's attached listeners, a log of attach/detach hook calls,
and a trace of handler calls and reported failures. Which implementation
class is in use is a field of the state (`Variant`). The attach and detach
hooks dispatch on it, as the overriding methods do. Module `NonNativeEvents`
holds the overridden mutators. Module `StorageMachine` runs arbitrary
operation sequences on either class and proves the invariants.

Parameters stand in for things the code cannot see:
- `throws` decides whether a handler throws on an event, because handlers are
  user code.
- `outOfRange` is what a particular engine answers for `key(n)` outside
  the range, because the guard exists since engines disagree there.
- `href` is the current document location.

Where the code and a documented contract differ, the model follows the code:
- GWT's `HandlerRegistration.removeHandler` is documented as a no-op once the
  handler has been removed. Here it is not idempotent: each call removes the
  first occurrence of its handler, so if the same handler was added twice, a
  second call of one handle removes the other copy
  (`StorageMachine.RemoveHandlerTwiceAfterDuplicateAdd`).
- Detach is requested on every removal that leaves the list empty, not only
  on a 1 → 0 transition. This includes a removal from an already-empty list,
  which with native events calls `removeEventListener` again; the emulating
  class's detach hook is a no-op
  (`StorageMachine.RepeatedRemoveRequestsDetach`).
- The `key(n)` text of W3C Web Storage section 4.1 addresses only
  n ≥ length; the wrapper also answers null for every negative index.
- Keys and values are Java strings, so either may be null. The engine
  converts a null key or value to the string "null" (WebIDL `DOMString`
  conversion, `WebStorage.DomString`), while the emulated event carries the
  Java value unchanged. So `setItem(k, null)` stores "null" but announces a
  null new value, which listeners read as a removal
  (`StorageMachine.NullValueAnnouncedAsRemoval`), and `setItem(null, v)`
  stores under "null" but announces a null key, which listeners read as a
  `clear` (`StorageMachine.NullKeyAnnouncedAsClear`).

## Model

| member | source | states |
|---|---|---|
| WebStorage.DomString | src/main/java/org/gwtproject/storage/client/StorageImpl.java:140-142 | a Java string reaches the engine unchanged, and a null one as the string "null" |
| WebStorage.FindMeaning | src/main/java/org/gwtproject/storage/client/StorageImpl.java:140-142 | the engine's lookup answers the value of the first stored pair with that key, and null exactly when no stored pair has that key; on distinct keys, every stored pair's value is what the lookup answers for its key |
| WebStorage.AreaNamed | src/main/java/org/gwtproject/storage/client/StorageImpl.java:60-65 | "localStorage" names the local area and "sessionStorage" the session area, and nothing else does |
| WebStorage.Put | src/main/java/org/gwtproject/storage/client/StorageImpl.java:211-213 | the engine's setItem, to which the base class delegates: the key then reads the new value, every other key reads as before, the length grows only for a new key, and keys stay distinct |
| WebStorage.Delete | src/main/java/org/gwtproject/storage/client/StorageImpl.java:183-185 | the engine's removeItem: the key then reads null, every other key reads as before, the length drops only if the key was present, and keys stay distinct |
| WebStorage.NativeKeyEnumerates | src/main/java/org/gwtproject/storage/client/StorageImpl.java:165-173 | within [0, length) the engine's key(n) names a key that is present, and distinct indices name distinct keys |
| WebStorage.StoreLaws | src/main/java/org/gwtproject/storage/client/StorageImpl.java:127-142 | set-then-get returns the value, remove-then-get returns null, other keys are unaffected, clear leaves length 0 |
| StorageEvents.CreateEvent | src/main/java/org/gwtproject/storage/client/StorageEvent.java:89-96 | the event has exactly the dictionary's properties plus `type`; every property other than `type` is copied unchanged, and `type` is "storage" |
| StorageEvents.CreateEventByCopy | src/main/java/org/gwtproject/storage/client/StorageEvent.java:91-94 | copying the dictionary one property at a time, in any order, and then setting `type` builds that same event |
| StorageEvents.AccessorsReadInit | src/main/java/org/gwtproject/storage/client/StorageEvent.java:105-151 | getKey, getOldValue, getNewValue and getUrl return exactly the fields the event was created with, null included, and the type is "storage" |
| StorageEvents.TypeForcedToStorage | src/main/java/org/gwtproject/storage/client/StorageEvent.java:93-94 | the created event's type is "storage" even when the dictionary supplied another `type`; the dictionary's own `type` entry has no effect on the event |
| StorageImpl.HasStorageEventHandlers | src/main/java/org/gwtproject/storage/client/StorageImpl.java:87-89 | true exactly when the list exists and is non-empty; an uninitialised list counts as empty |
| StorageImpl.GetStorageEventHandlers | src/main/java/org/gwtproject/storage/client/StorageImpl.java:228-233 | afterwards the list exists, with the same handlers as before, and nothing else changed |
| StorageImpl.Attach | src/main/java/org/gwtproject/storage/client/StorageImpl.java:215-222 | the hook call is logged; only the remembered listener, the window's listeners and the listener counter can change; with native events, a window with no listener then has exactly the newly remembered listener; with emulated events nothing else changes |
| StorageImpl.Detach | src/main/java/org/gwtproject/storage/client/StorageImpl.java:249-252 | the hook call is logged; only the window's listeners can change, and the remembered listener is kept; with native events, removing the remembered sole listener leaves the window with none; with emulated events nothing else changes |
| StorageImpl.AddStorageEventHandler | src/main/java/org/gwtproject/storage/client/StorageImpl.java:105-118 | the handler is appended and the other entries keep their order; the attach hook runs exactly when the list was empty before, so duplicates and later adds do not attach; with native events that first add leaves exactly the newly remembered listener on a window that had none; only the registry, the hook log and the listener fields can change; the handle names the handler |
| StorageImpl.RemoveFirst | src/main/java/org/gwtproject/storage/client/StorageImpl.java:195 | an absent handler leaves the list unchanged; otherwise exactly one entry goes |
| StorageImpl.RemoveFirstCutsFirstOccurrence | src/main/java/org/gwtproject/storage/client/StorageImpl.java:195 | the entry removed is the first occurrence, and the others keep their order |
| StorageImpl.RemoveFirstMultiset | src/main/java/org/gwtproject/storage/client/StorageImpl.java:195 | as a bag, the list loses exactly one copy of the handler, or none if it was absent |
| StorageImpl.RemoveFirstEmpty | src/main/java/org/gwtproject/storage/client/StorageImpl.java:195-198 | the list is empty after a removal exactly when it was empty or held only that handler |
| StorageImpl.RemoveFirstInPrefix | src/main/java/org/gwtproject/storage/client/StorageImpl.java:195 | a removal whose first occurrence lies in a prefix leaves the rest of the list alone |
| StorageImpl.RemoveFirstAfterAbsentPrefix | src/main/java/org/gwtproject/storage/client/StorageImpl.java:195 | a removal leaves untouched every entry before the first occurrence |
| StorageImpl.RemoveStorageEventHandler | src/main/java/org/gwtproject/storage/client/StorageImpl.java:194-199 | the first occurrence is removed; the detach hook runs exactly when the list is empty afterwards, even if it was empty before; stores and trace are unchanged; while handlers remain, and always with emulated events, the listener state is unchanged; with native events, emptying the list takes the remembered sole listener off the window; only the registry, the hook log and the window's listeners can change, and no listener is ever added |
| StorageImpl.RemoveHandler | src/main/java/org/gwtproject/storage/client/StorageImpl.java:112-117 | the handle removes the first occurrence of its handler; the detach hook runs exactly when the list is empty afterwards; stores and trace are unchanged; while handlers remain, and always with emulated events, the listener state is unchanged; with native events, emptying the list takes the remembered sole listener off the window; only the registry, the hook log and the window's listeners can change, and no listener is ever added |
| StorageImpl.DeliveriesCallInOrder | src/main/java/org/gwtproject/storage/client/StorageImpl.java:74-80 | a dispatch pass calls every handler of the list exactly once, in list order |
| StorageImpl.DeliveriesShareEventAndView | src/main/java/org/gwtproject/storage/client/StorageImpl.java:74-76 | every call in a pass gets the same event and sees the same storage contents |
| StorageImpl.DeliveriesReportFailures | src/main/java/org/gwtproject/storage/client/StorageImpl.java:75-79 | a call is followed by a report exactly when that handler threw, every report follows its call, and the pass continues after a failure |
| StorageImpl.HandleStorageEvent | src/main/java/org/gwtproject/storage/client/StorageImpl.java:70-81 | with no handlers, or an uninitialised list, nothing happens; otherwise one pass over all handlers in order, failures reported and isolated, and only the trace changes |
| StorageImpl.GetItem | src/main/java/org/gwtproject/storage/client/StorageImpl.java:140-142 | the value read is the one paired with the key in the named area (a null key looked up as "null"), and null exactly when the area has no pair with that key |
| StorageImpl.GetLength | src/main/java/org/gwtproject/storage/client/StorageImpl.java:152-154 | the number of pairs in the named area; zero exactly when every key reads null there |
| StorageImpl.SetItem | src/main/java/org/gwtproject/storage/client/StorageImpl.java:211-213 | the named area maps the key to the data, a null key or value becoming "null"; every key with a different string form reads as before; the other area and the registry are untouched |
| StorageImpl.RemoveItem | src/main/java/org/gwtproject/storage/client/StorageImpl.java:183-185 | the key (a null one as "null") then reads null in the named area; keys with a different string form and the other area are untouched |
| StorageImpl.Clear | src/main/java/org/gwtproject/storage/client/StorageImpl.java:127-129 | the named area then has length 0 and every key reads null; the other area is untouched |
| StorageImpl.Key | src/main/java/org/gwtproject/storage/client/StorageImpl.java:165-173 | null whenever index < 0 or index >= length, whatever the engine would say; otherwise the engine's key at that index |
| StorageImpl.StorageFromEvent | src/main/java/org/gwtproject/storage/client/StorageImpl.java:240-247 | local exactly when the event's storageArea is the local store; session for any other value, including a missing one |
| StorageImpl.GetStorageArea | src/main/java/org/gwtproject/storage/client/StorageEvent.java:138-141 | the event's area is session exactly when its storageArea is not the local store, as the implementation maps it |
| NonNativeEvents.EventArea | src/main/java/org/gwtproject/storage/client/StorageImplNonNativeEvents.java:41-43 | the synthesised event names the local area exactly for "localStorage"; for a valid name this agrees with the name table |
| NonNativeEvents.CreateStorageEvent | src/main/java/org/gwtproject/storage/client/StorageImplNonNativeEvents.java:34-45 | the event reads back the key, old value, new value and document URL unchanged; its type is "storage"; its area is local exactly for "localStorage" |
| NonNativeEvents.FireStorageEvent | src/main/java/org/gwtproject/storage/client/StorageImplNonNativeEvents.java:47-53 | without handlers nothing changes, and no event is delivered; with handlers each one is called once, in order, all with the one event createStorageEvent builds from these fields; only the trace changes |
| NonNativeEvents.Clear | src/main/java/org/gwtproject/storage/client/StorageImplNonNativeEvents.java:55-59 | the area is emptied first; then an event with null key, null old value and null new value is announced, whatever the area held, and handlers see the emptied area |
| NonNativeEvents.RemoveItem | src/main/java/org/gwtproject/storage/client/StorageImplNonNativeEvents.java:61-66 | the key is removed; the event carries the key as given (null included), the value read before the removal, and a null new value; handlers see the store after the removal |
| NonNativeEvents.SetItem | src/main/java/org/gwtproject/storage/client/StorageImplNonNativeEvents.java:68-73 | the value is stored; the event carries the key and data as given (null included) and the value read before the write; handlers see the store after the write |
| StorageMachine.StepKeepsListeners | src/main/java/org/gwtproject/storage/client/StorageImpl.java:105-118 | every single operation, on either class and whatever the areas hold, keeps the listener invariant and the class |
| StorageMachine.RunKeepsListeners | src/main/java/org/gwtproject/storage/client/StorageImpl.java:194-199 | every sequence of operations, whatever the areas hold, keeps the listener invariant and the class |
| StorageMachine.StepInv | src/main/java/org/gwtproject/storage/client/StorageImpl.java:105-118 | every single operation, on either class, keeps the listener invariant and valid stores |
| StorageMachine.RunInv | src/main/java/org/gwtproject/storage/client/StorageImpl.java:194-199 | every sequence of operations keeps the listener invariant and valid stores |
| StorageMachine.AttachedIffRegistered | src/main/java/org/gwtproject/storage/client/StorageImpl.java:107-110 | with native events, from any initial storage contents and after any operation sequence, a listener is attached exactly when the registry is non-empty, and never more than one |
| StorageMachine.EmulationNeverAttaches | src/main/java/org/gwtproject/storage/client/StorageImplNonNativeEvents.java:75-83 | with emulated events, from any initial storage contents, no operation sequence ever attaches a native listener |
| StorageMachine.NativeEventDispatchedOnce | src/main/java/org/gwtproject/storage/client/StorageImpl.java:216-221 | with native events, a browser event reaches the handlers through the single attached listener: nothing without handlers, otherwise exactly one pass |
| StorageMachine.FacadeLaws | src/main/java/org/gwtproject/storage/client/StorageImplNonNativeEvents.java:55-73 | on either class, set-then-get returns the value (as a string, null becoming "null") and leaves keys with a different string form alone, remove-then-get returns null, and clear leaves length 0 |
| StorageMachine.KeyEnumeratesArea | src/main/java/org/gwtproject/storage/client/StorageImpl.java:165-173 | key's answer never depends on what the engine says out of range; inside the range it names present keys, without repetition |
| StorageMachine.RemoveHandlerTwiceAfterDuplicateAdd | src/main/java/org/gwtproject/storage/client/StorageImpl.java:112-117 | after adding one handler twice, each call of the same handle's removeHandler removes one copy |
| StorageMachine.AddThenRemove | src/main/java/org/gwtproject/storage/client/StorageImpl.java:105-118 | add followed by remove of the same handler restores the registry as a bag; it restores the exact list when the handler was new, and otherwise moves its earlier copy to the end |
| StorageMachine.RepeatedRemoveRequestsDetach | src/main/java/org/gwtproject/storage/client/StorageImpl.java:194-199 | each removal from an empty registry calls the detach hook again |
| StorageMachine.FirstSetAnnouncesNoOldValue | src/main/java/org/gwtproject/storage/client/StorageImplNonNativeEvents.java:68-73 | with one handler, storing "1" under a new key "a" delivers exactly one event: key "a", null old value, new value "1" |
| StorageMachine.SecondSetAnnouncesPreviousValue | src/main/java/org/gwtproject/storage/client/StorageImplNonNativeEvents.java:69-72 | a second store to a key announces the first stored value, as the engine stored it, as the old value |
| StorageMachine.NullValueAnnouncedAsRemoval | src/main/java/org/gwtproject/storage/client/StorageImplNonNativeEvents.java:68-73 | with emulated events, storing a null value stores "null" while every handler is told the new value is null |
| StorageMachine.NullKeyAnnouncedAsClear | src/main/java/org/gwtproject/storage/client/StorageImplNonNativeEvents.java:68-73 | with emulated events, storing under a null key stores under "null" while every handler is told the key is null |
| StorageMachine.FailingHandlerDoesNotStopLaterOne | src/main/java/org/gwtproject/storage/client/StorageImpl.java:74-80 | when the first of two handlers throws, it is reported, and the second handler still receives the same event |

## Left out

- Browser plumbing is not modelled. `window.addEventListener` and `removeEventListener` become a list of attached listener identities. The elemental2/JsInterop casts are not modelled. The static `nameToStorage` table becomes `WebStorage.AreaNamed`.
- A storage name other than "localStorage" or "sessionStorage" is excluded by `requires IsStorageName`, because the code documents these two names as the only ones a caller may pass. With any other name, `getItem`, `setItem`, `removeItem`, `clear` and `getLength`, and `key` with a non-negative index, fail with a null dereference in the name table. `key` with a negative index returns null without reaching the table; the model does not cover that call.
- `GwtMigrationUtils.reportUncaughtException` only logs to the console. It is modelled as a `Reported` entry in the trace.
- The native storage engine is an ordered list of distinct keys in insertion order, which is one order W3C Web Storage section 4.1 allows. Quota errors, persistence and engine-specific key order are not modelled.
- Cross-document delivery of native events is not modelled. The `NativeEvent` operation only models the browser calling this window's attached listeners with some event.
- Re-entrant handlers are not modelled: a handler here can only succeed or throw, and cannot register, deregister or write storage during dispatch. In the code such actions have these effects, none of which the model covers:
  - A storage write from a handler under emulated events starts a nested dispatch pass over the same list, with no exception.
  - A handler that removes itself from `[h1, h2]` during the pass ends the loop: the iterator's `hasNext` compares its cursor with the new size, so `h2` is skipped silently.
  - An addition during the pass can make the iterator's `next()` throw `ConcurrentModificationException` (always in standard Java; in GWT's compiled emulation only at the stricter runtime-check levels). That call is outside the `try`, so the exception escapes `handleStorageEvent`.
- `Storage.getLocalStorageIfSupported` / `getSessionStorageIfSupported` are not part of this model. These may return null where storage is unsupported; `StorageFromEvent` and `GetStorageArea` return the area instead.
- The native `StorageEvent` constructor that `createEvent` calls first is not modelled. Its result is taken to have no own properties before the copy.
- Java's 32-bit `int` index of `key` is not modelled. The guard does not depend on the width, so the model uses an unbounded integer.
- StorageEvents.AccessorsReadInit: it covers events built from the wrapper's own init dictionaries. An accessor applied to a property holding a non-string value (an unchecked cast in Java) reads as null in the model.
- StorageImpl.RemoveItem: "the key then reads null" is stated only for an area whose keys are distinct. That holds in every reachable state (`StorageMachine.RunInv`).
- NonNativeEvents.RemoveItem: the same distinct-keys condition applies to "the key then reads null".
