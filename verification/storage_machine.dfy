/**
 The whole wrapper as a state machine: the operations application code and
 the browser can perform, applied to either implementation class, and the
 invariants every run keeps.
 */
module StorageMachine {
  import opened Nullables
  import opened WebStorage
  import opened StorageEvents
  import opened StorageImpl
  import NonNativeEvents

  datatype Op =
    | AddHandler(handler: HandlerId)
    | RemoveHandler(handler: HandlerId)
      /** key and value as Java strings, either of which may be null */
    | SetItem(area: Area, key: Nullable<string>, data: Nullable<string>)
    | RemoveItem(area: Area, key: Nullable<string>)
    | Clear(area: Area)
      /** the browser calling the attached "storage" listeners with a native event */
    | NativeEvent(event: StorageEvent)

  /** One operation, on whichever implementation class the state runs. */
  function Step(s: State, op: Op, throws: Throws): State {
    match op
    case AddHandler(h) => AddStorageEventHandler(s, h).0
    case RemoveHandler(h) => RemoveStorageEventHandler(s, h)
    case SetItem(a, k, v) =>
      if s.variant == NativeEvents then StorageImpl.SetItem(s, NameOf(a), k, v)
      else NonNativeEvents.SetItem(s, NameOf(a), k, v, throws)
    case RemoveItem(a, k) =>
      if s.variant == NativeEvents then StorageImpl.RemoveItem(s, NameOf(a), k)
      else NonNativeEvents.RemoveItem(s, NameOf(a), k, throws)
    case Clear(a) =>
      if s.variant == NativeEvents then StorageImpl.Clear(s, NameOf(a))
      else NonNativeEvents.Clear(s, NameOf(a), throws)
    case NativeEvent(e) => FireNativeListeners(s, s.windowListeners, e, throws)
  }

  function Run(s: State, ops: seq<Op>, throws: Throws): State
    decreases |ops|
  {
    if ops == [] then s else Run(Step(s, ops[0], throws), ops[1..], throws)
  }

  /**
   With native events, a single listener is attached exactly while a handler
   is registered, and it is the one the wrapper remembers (so it can be
   detached). With emulated events no listener is ever attached.
   */
  predicate ListenerInvariant(s: State) {
    match s.variant
    case NativeEvents =>
      if HasStorageEventHandlers(s) then s.jsHandler.NonNull? && s.windowListeners == [s.jsHandler.value]
      else s.windowListeners == []
    case NonNativeEvents => s.windowListeners == [] && s.jsHandler == Null
  }

  predicate Inv(s: State) {
    ListenerInvariant(s) && Valid(s.local) && Valid(s.session)
  }

  lemma InitInv(variant: Variant, local: Store, session: Store, href: string)
    requires Valid(local) && Valid(session)
    ensures Inv(Init(variant, local, session, href))
  {
  }

  /** Every operation, on either class, keeps the listener invariant, whatever the areas hold. */
  lemma StepKeepsListeners(s: State, op: Op, throws: Throws)
    requires ListenerInvariant(s)
    ensures ListenerInvariant(Step(s, op, throws))
    ensures Step(s, op, throws).variant == s.variant
  {
  }

  lemma {:induction false} RunKeepsListeners(s: State, ops: seq<Op>, throws: Throws)
    requires ListenerInvariant(s)
    ensures ListenerInvariant(Run(s, ops, throws))
    ensures Run(s, ops, throws).variant == s.variant
    decreases |ops|
  {
    if ops != [] {
      StepKeepsListeners(s, ops[0], throws);
      RunKeepsListeners(Step(s, ops[0], throws), ops[1..], throws);
    }
  }

  /** Every operation, on either class, keeps the invariant. */
  lemma StepInv(s: State, op: Op, throws: Throws)
    requires Inv(s)
    ensures Inv(Step(s, op, throws))
    ensures Step(s, op, throws).variant == s.variant
  {
  }

  /** Every run from a state satisfying the invariant keeps it. */
  lemma {:induction false} RunInv(s: State, ops: seq<Op>, throws: Throws)
    requires Inv(s)
    ensures Inv(Run(s, ops, throws))
    ensures Run(s, ops, throws).variant == s.variant
    decreases |ops|
  {
    if ops != [] {
      StepInv(s, ops[0], throws);
      RunInv(Step(s, ops[0], throws), ops[1..], throws);
    }
  }

  /**
   With native events, after any sequence of operations the listener is
   attached exactly when the registry is non-empty, and never twice.
   */
  lemma AttachedIffRegistered(local: Store, session: Store, href: string, ops: seq<Op>, throws: Throws)
    ensures var s := Run(Init(NativeEvents, local, session, href), ops, throws);
      && (s.windowListeners != [] <==> HasStorageEventHandlers(s))
      && |s.windowListeners| <= 1
  {
    RunKeepsListeners(Init(NativeEvents, local, session, href), ops, throws);
  }

  /** With emulated events, no operation sequence ever attaches a listener. */
  lemma EmulationNeverAttaches(local: Store, session: Store, href: string, ops: seq<Op>, throws: Throws)
    ensures Run(Init(NonNativeEvents, local, session, href), ops, throws).windowListeners == []
  {
    RunKeepsListeners(Init(NonNativeEvents, local, session, href), ops, throws);
  }

  /**
   With native events, a native event reaches the handlers through the one
   attached listener: nothing happens without handlers, otherwise exactly one
   dispatch pass.
   */
  lemma NativeEventDispatchedOnce(s: State, e: StorageEvent, throws: Throws)
    requires ListenerInvariant(s) && s.variant == NativeEvents
    ensures !HasStorageEventHandlers(s) ==> Step(s, NativeEvent(e), throws) == s
    ensures HasStorageEventHandlers(s) ==> OnePass(s, Step(s, NativeEvent(e), throws), e, throws)
  {
  }

  /** The storage laws hold of both implementation classes in any valid state. */
  lemma FacadeLaws(s: State, a: Area, key: Nullable<string>, other: Nullable<string>, data: Nullable<string>,
                   throws: Throws)
    requires Inv(s)
    requires DomString(other) != DomString(key)
    ensures var r := Step(s, SetItem(a, key, data), throws);
      StorageImpl.GetItem(r, NameOf(a), key) == NonNull(DomString(data))
      && StorageImpl.GetItem(r, NameOf(a), other) == StorageImpl.GetItem(s, NameOf(a), other)
    ensures StorageImpl.GetItem(Step(s, RemoveItem(a, key), throws), NameOf(a), key) == Null
    ensures GetLength(Step(s, Clear(a), throws), NameOf(a)) == 0
  {
  }

  /**
   `key` answers null outside [0, length) whatever the engine would have
   answered there, and inside that range enumerates the stored keys without
   repetition.
   */
  lemma KeyEnumeratesArea(s: State, a: Area, i: int, j: int,
                          engine1: int -> Nullable<string>, engine2: int -> Nullable<string>)
    requires Inv(s)
    ensures Key(s, NameOf(a), i, engine1) == Key(s, NameOf(a), i, engine2)
    ensures 0 <= i < GetLength(s, NameOf(a)) ==>
      Key(s, NameOf(a), i, engine1).NonNull?
      && StorageImpl.GetItem(s, NameOf(a), Key(s, NameOf(a), i, engine1)).NonNull?
    ensures 0 <= i < GetLength(s, NameOf(a)) && 0 <= j < GetLength(s, NameOf(a)) && i != j ==>
      Key(s, NameOf(a), i, engine1) != Key(s, NameOf(a), j, engine1)
  {
    var st := StoreOf(s, a);
    if 0 <= i < Length(st) && 0 <= j < Length(st) {
      NativeKeyEnumerates(st, i, j, engine1);
    } else if 0 <= i < Length(st) {
      NativeKeyEnumerates(st, i, i, engine1);
    }
  }

  /** A handle removes one occurrence per call, so a second call is not always a no-op. */
  lemma RemoveHandlerTwiceAfterDuplicateAdd(s: State, h: HandlerId)
    requires Registered(s) == []
    ensures var (s1, reg1) := AddStorageEventHandler(s, h);
      var (s2, reg2) := AddStorageEventHandler(s1, h);
      var s3 := StorageImpl.RemoveHandler(s2, reg1);
      && Registered(s3) == [h]
      && Registered(StorageImpl.RemoveHandler(s3, reg1)) == []
  {
  }

  /**
   Adding then removing a handler gives back the same registry when the
   handler was not registered before; otherwise the same handlers with the
   earlier copy of `h` moved to the end.
   */
  lemma AddThenRemove(s: State, h: HandlerId)
    ensures var r := RemoveStorageEventHandler(AddStorageEventHandler(s, h).0, h);
      && multiset(Registered(r)) == multiset(Registered(s))
      && (h !in Registered(s) ==> Registered(r) == Registered(s))
      && (h in Registered(s) ==>
            var i := FirstIndex(Registered(s), h);
            Registered(r) == Registered(s)[..i] + Registered(s)[i + 1..] + [h])
  {
    var hs := Registered(s);
    RemoveFirstMultiset(hs + [h], h);
    assert multiset(hs + [h]) == multiset(hs) + multiset{h};
    if h in hs {
      RemoveFirstInPrefix(hs, [h], h);
      RemoveFirstCutsFirstOccurrence(hs, h);
    } else {
      RemoveFirstAfterAbsentPrefix(hs, [h], h);
      assert RemoveFirst([h], h) == [];
    }
  }

  /** Removing from an empty registry still calls the detach hook, every time. */
  lemma RepeatedRemoveRequestsDetach(s: State, reg: Registration)
    requires Registered(s) == []
    ensures var r := StorageImpl.RemoveHandler(s, reg);
      && r.hooks == s.hooks + [DetachHook]
      && StorageImpl.RemoveHandler(r, reg).hooks == s.hooks + [DetachHook, DetachHook]
  {
  }

  /**
   With one handler registered and nothing stored locally, storing "1" under
   "a" delivers exactly one event, with key "a", no old value and new value "1".
   */
  lemma FirstSetAnnouncesNoOldValue(s: State, h: HandlerId, throws: Throws)
    requires s.variant == NonNativeEvents && Registered(s) == [h] && s.local == EmptyStore
    requires !throws(h, NonNativeEvents.CreateStorageEvent(NonNull("a"), Null, NonNull("1"), LOCAL_STORAGE, s.href))
    ensures var r := Step(s, SetItem(Local, NonNull("a"), NonNull("1")), throws);
      && |r.trace| == |s.trace| + 1
      && r.trace[|s.trace|].Delivered? && r.trace[|s.trace|].handler == h
      && GetKey(r.trace[|s.trace|].event) == NonNull("a")
      && GetOldValue(r.trace[|s.trace|].event) == Null
      && GetNewValue(r.trace[|s.trace|].event) == NonNull("1")
  {
    var s1 := StorageImpl.SetItem(s, LOCAL_STORAGE, NonNull("a"), NonNull("1"));
    var e := NonNativeEvents.CreateStorageEvent(NonNull("a"), Null, NonNull("1"), LOCAL_STORAGE, s.href);
    assert StorageImpl.GetItem(s, LOCAL_STORAGE, NonNull("a")) == Null;
    var r := Step(s, SetItem(Local, NonNull("a"), NonNull("1")), throws);
    assert r == NonNativeEvents.SetItem(s, LOCAL_STORAGE, NonNull("a"), NonNull("1"), throws);
    assert r == HandleStorageEvent(s1, e, throws);
    assert [h][1..] == [];
    assert Deliveries([h], e, s1.local, s1.session, throws) == [Delivered(h, e, s1.local, s1.session)];
    assert r.trace == s.trace + [Delivered(h, e, s1.local, s1.session)];
  }

  /**
   A second store to the same key announces the value the first one wrote,
   as the engine stored it ("null" for a null value).
   */
  lemma SecondSetAnnouncesPreviousValue(s: State, key: Nullable<string>, first: Nullable<string>,
                                        second: Nullable<string>, throws: Throws)
    requires Inv(s) && s.variant == NonNativeEvents && HasStorageEventHandlers(s)
    ensures var s1 := Step(s, SetItem(Local, key, first), throws);
      var r := Step(s1, SetItem(Local, key, second), throws);
      && s1.trace <= r.trace && |r.trace| > |s1.trace|
      && forall i :: |s1.trace| <= i < |r.trace| ==> GetOldValue(r.trace[i].event) == NonNull(DomString(first))
  {
  }

  /**
   With emulated events, storing a null value stores the string "null", yet
   every handler is told the new value is null, which is what a removal
   announces.
   */
  lemma NullValueAnnouncedAsRemoval(s: State, a: Area, key: Nullable<string>, throws: Throws)
    requires Inv(s) && s.variant == NonNativeEvents && HasStorageEventHandlers(s)
    ensures var r := Step(s, SetItem(a, key, Null), throws);
      && StorageImpl.GetItem(r, NameOf(a), key) == NonNull("null")
      && s.trace <= r.trace && |r.trace| > |s.trace|
      && forall i :: |s.trace| <= i < |r.trace| ==> GetNewValue(r.trace[i].event) == Null
  {
  }

  /**
   With emulated events, storing under a null key stores under the key
   "null", yet every handler is told the key is null, which is what a
   `clear` announces.
   */
  lemma NullKeyAnnouncedAsClear(s: State, a: Area, data: string, throws: Throws)
    requires Inv(s) && s.variant == NonNativeEvents && HasStorageEventHandlers(s)
    ensures var r := Step(s, SetItem(a, Null, NonNull(data)), throws);
      && StorageImpl.GetItem(r, NameOf(a), NonNull("null")) == NonNull(data)
      && s.trace <= r.trace && |r.trace| > |s.trace|
      && forall i :: |s.trace| <= i < |r.trace| ==> GetKey(r.trace[i].event) == Null
  {
  }

  /** A handler that throws does not keep a later handler from the same event. */
  lemma FailingHandlerDoesNotStopLaterOne(s: State, e: StorageEvent, bad: HandlerId, good: HandlerId, throws: Throws)
    requires Registered(s) == [bad, good]
    requires throws(bad, e) && !throws(good, e)
    ensures HandleStorageEvent(s, e, throws).trace ==
      s.trace + [Delivered(bad, e, s.local, s.session), Reported(bad, e), Delivered(good, e, s.local, s.session)]
  {
    assert [bad, good][1..] == [good];
    assert [good][1..] == [];
    assert Deliveries([good], e, s.local, s.session, throws) == [Delivered(good, e, s.local, s.session)];
    assert Deliveries([bad, good], e, s.local, s.session, throws)
        == [Delivered(bad, e, s.local, s.session), Reported(bad, e)] + [Delivered(good, e, s.local, s.session)];
  }
}
