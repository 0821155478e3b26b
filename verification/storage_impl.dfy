/**
 The storage wrapper shared by both event strategies: a process-wide ordered
 registry of storage-event handlers, the lazily attached native "storage"
 listener, dispatch of an event to every handler, and the storage operations
 that delegate to the native engine.
 */
module StorageImpl {
  import opened Nullables
  import opened WebStorage
  import opened StorageEvents

  /** Handlers and native listeners are objects compared by identity. */
  type HandlerId = nat
  type ListenerId = nat

  /** Whether a handler throws when given an event (handlers are user code). */
  type Throws = (HandlerId, StorageEvent) -> bool

  /** Which implementation class is in use: native events, or emulated ones. */
  datatype Variant = NativeEvents | NonNativeEvents

  /** A call of the attach or detach hook. */
  datatype Hook = AttachHook | DetachHook

  /**
   What dispatch leaves behind: a handler called with an event (and the two
   storage areas as it could observe them at that moment), or a failure of a
   handler passed to the exception sink.
   */
  datatype Entry =
    | Delivered(handler: HandlerId, event: StorageEvent, local: Store, session: Store)
    | Reported(handler: HandlerId, event: StorageEvent)

  datatype State = State(
    variant: Variant,
    local: Store,
    session: Store,
    /** the handler list; null until first used */
    handlers: Nullable<seq<HandlerId>>,
    /** the most recently created native listener */
    jsHandler: Nullable<ListenerId>,
    /** the "storage" listeners attached to the window */
    windowListeners: seq<ListenerId>,
    /** identity of the next listener object to be created */
    nextListener: ListenerId,
    hooks: seq<Hook>,
    trace: seq<Entry>,
    /** the current document location */
    href: string)

  /** A fresh process: nothing registered, nothing attached. */
  function Init(variant: Variant, local: Store, session: Store, href: string): State {
    State(variant, local, session, Null, Null, [], 0, [], [], href)
  }

  /** The registered handlers, an uninitialised list reading as empty. */
  function Registered(s: State): seq<HandlerId> {
    s.handlers.OrElse([])
  }

  function StoreOf(s: State, a: Area): Store {
    match a
    case Local => s.local
    case Session => s.session
  }

  function WithStore(s: State, a: Area, st: Store): (r: State)
    ensures StoreOf(r, a) == st
  {
    match a
    case Local => s.(local := st)
    case Session => s.(session := st)
  }

  /** Only the storage areas differ between `s` and `r`. */
  predicate SameExceptStores(s: State, r: State) {
    r == s.(local := r.local, session := r.session)
  }

  // ---------------------------------------------------------------------
  // Registry

  /** True exactly when the list exists and is non-empty. */
  function HasStorageEventHandlers(s: State): (b: bool)
    ensures b <==> Registered(s) != []
  {
    s.handlers.NonNull? && |s.handlers.value| > 0
  }

  /** Creates the handler list on first use; nothing else changes. */
  function GetStorageEventHandlers(s: State): (r: State)
    ensures r.handlers.NonNull?
    ensures Registered(r) == Registered(s)
    ensures r == s.(handlers := r.handlers)
  {
    if s.handlers.Null? then s.(handlers := NonNull([])) else s
  }

  /** The window's `addEventListener`: a listener already attached is not added twice. */
  function AddEventListener(ls: seq<ListenerId>, l: ListenerId): seq<ListenerId> {
    if l in ls then ls else ls + [l]
  }

  /** The window's `removeEventListener`. */
  function RemoveEventListener(ls: seq<ListenerId>, l: ListenerId): (r: seq<ListenerId>)
    ensures l !in r
    ensures forall x :: x != l ==> (x in r <==> x in ls)
    decreases |ls|
  {
    if ls == [] then []
    else if ls[0] == l then RemoveEventListener(ls[1..], l)
    else [ls[0]] + RemoveEventListener(ls[1..], l)
  }

  /**
   The attach hook. With native events it creates a new listener object,
   remembers it and attaches it to the window; the emulating class overrides
   the hook with a no-op.
   */
  function Attach(s: State): (r: State)
    ensures r.hooks == s.hooks + [AttachHook]
    ensures s.variant == NonNativeEvents ==> r == s.(hooks := r.hooks)
    ensures r == s.(hooks := r.hooks, jsHandler := r.jsHandler, windowListeners := r.windowListeners,
                    nextListener := r.nextListener)
    ensures s.variant == NativeEvents && s.windowListeners == [] ==>
      r.jsHandler.NonNull? && r.windowListeners == [r.jsHandler.value]
  {
    var s' := s.(hooks := s.hooks + [AttachHook]);
    match s.variant
    case NativeEvents =>
      s'.(jsHandler := NonNull(s.nextListener),
          windowListeners := AddEventListener(s.windowListeners, s.nextListener),
          nextListener := s.nextListener + 1)
    case NonNativeEvents => s'
  }

  /**
   The detach hook. With native events it detaches the remembered listener
   (a no-op when there is none); the emulating class overrides it with a no-op.
   */
  function Detach(s: State): (r: State)
    ensures r.hooks == s.hooks + [DetachHook]
    ensures s.variant == NonNativeEvents ==> r == s.(hooks := r.hooks)
    ensures r == s.(hooks := r.hooks, windowListeners := r.windowListeners)
    ensures s.variant == NativeEvents && s.jsHandler.NonNull? && s.windowListeners == [s.jsHandler.value] ==>
      r.windowListeners == []
    ensures s.variant == NativeEvents && s.windowListeners == [] ==> r.windowListeners == []
  {
    var s' := s.(hooks := s.hooks + [DetachHook]);
    match s.variant
    case NativeEvents =>
      if s.jsHandler.NonNull? then
        var remaining := RemoveEventListener(s.windowListeners, s.jsHandler.value);
        assert RemoveEventListener([s.jsHandler.value], s.jsHandler.value) == [] by {
          assert [s.jsHandler.value][1..] == [];
        }
        s'.(windowListeners := remaining)
      else s'
    case NonNativeEvents => s'
  }

  /** The handle `addStorageEventHandler` returns; `removeHandler` deregisters its handler. */
  datatype Registration = Registration(handler: HandlerId)

  /**
   Appends the handler (duplicates allowed) and calls the attach hook when the
   list was empty before, i.e. when its size has just become 1.
   */
  function AddStorageEventHandler(s: State, h: HandlerId): (res: (State, Registration))
    ensures Registered(res.0) == Registered(s) + [h]
    ensures res.0.hooks == s.hooks + (if Registered(s) == [] then [AttachHook] else [])
    ensures res.1 == Registration(h)
    ensures res.0.local == s.local && res.0.session == s.session && res.0.trace == s.trace
    ensures res.0.variant == s.variant && res.0.href == s.href
    ensures Registered(s) != [] || s.variant == NonNativeEvents ==>
      res.0.jsHandler == s.jsHandler && res.0.windowListeners == s.windowListeners
    ensures s.variant == NativeEvents && Registered(s) == [] && s.windowListeners == [] ==>
      res.0.jsHandler.NonNull? && res.0.windowListeners == [res.0.jsHandler.value]
    ensures res.0 == s.(handlers := res.0.handlers, hooks := res.0.hooks, jsHandler := res.0.jsHandler,
                        windowListeners := res.0.windowListeners, nextListener := res.0.nextListener)
  {
    var s1 := GetStorageEventHandlers(s);
    var s2 := s1.(handlers := NonNull(s1.handlers.value + [h]));
    var s3 := if |s2.handlers.value| == 1 then Attach(s2) else s2;
    (s3, Registration(h))
  }

  /** Index of the first occurrence of `h`. */
  function FirstIndex(hs: seq<HandlerId>, h: HandlerId): (i: nat)
    requires h in hs
    ensures i < |hs| && hs[i] == h && h !in hs[..i]
    decreases |hs|
  {
    if hs[0] == h then 0 else 1 + FirstIndex(hs[1..], h)
  }

  /** `List.remove(Object)`: drops the first occurrence only. */
  function RemoveFirst(hs: seq<HandlerId>, h: HandlerId): (r: seq<HandlerId>)
    ensures h !in hs ==> r == hs
    ensures |r| == if h in hs then |hs| - 1 else |hs|
    decreases |hs|
  {
    if hs == [] then []
    else if hs[0] == h then hs[1..]
    else [hs[0]] + RemoveFirst(hs[1..], h)
  }

  /** The removal cuts out exactly the first occurrence; the rest keep their order. */
  lemma {:induction false} RemoveFirstCutsFirstOccurrence(hs: seq<HandlerId>, h: HandlerId)
    requires h in hs
    ensures RemoveFirst(hs, h) == hs[..FirstIndex(hs, h)] + hs[FirstIndex(hs, h) + 1..]
    decreases |hs|
  {
    if hs[0] != h {
      assert h in hs[1..] by {
        var k :| 0 <= k < |hs| && hs[k] == h;
        assert hs[1..][k - 1] == h;
      }
      RemoveFirstCutsFirstOccurrence(hs[1..], h);
      var j := FirstIndex(hs[1..], h);
      assert hs[..j + 1] == [hs[0]] + hs[1..][..j];
      assert hs[j + 2..] == hs[1..][j + 1..];
    }
  }

  /** As a bag, the removal takes away one copy of `h` (none if absent). */
  lemma {:induction false} RemoveFirstMultiset(hs: seq<HandlerId>, h: HandlerId)
    ensures multiset(RemoveFirst(hs, h)) == multiset(hs) - multiset{h}
    decreases |hs|
  {
    if hs != [] {
      assert hs == [hs[0]] + hs[1..];
      RemoveFirstMultiset(hs[1..], h);
    }
  }

  /** Removing an occurrence that lies in a prefix leaves the rest of the list alone. */
  lemma {:induction false} RemoveFirstInPrefix(hs: seq<HandlerId>, rest: seq<HandlerId>, h: HandlerId)
    requires h in hs
    ensures RemoveFirst(hs + rest, h) == RemoveFirst(hs, h) + rest
    decreases |hs|
  {
    assert (hs + rest)[0] == hs[0];
    if hs[0] == h {
      assert (hs + rest)[1..] == hs[1..] + rest;
    } else {
      assert h in hs[1..] by {
        var k :| 0 <= k < |hs| && hs[k] == h;
        assert hs[1..][k - 1] == h;
      }
      assert (hs + rest)[1..] == hs[1..] + rest;
      RemoveFirstInPrefix(hs[1..], rest, h);
    }
  }

  /** Before the first occurrence nothing is touched. */
  lemma {:induction false} RemoveFirstAfterAbsentPrefix(hs: seq<HandlerId>, rest: seq<HandlerId>, h: HandlerId)
    requires h !in hs
    ensures RemoveFirst(hs + rest, h) == hs + RemoveFirst(rest, h)
    decreases |hs|
  {
    if hs == [] {
      assert hs + rest == rest;
    } else {
      assert (hs + rest)[0] == hs[0];
      assert (hs + rest)[1..] == hs[1..] + rest;
      RemoveFirstAfterAbsentPrefix(hs[1..], rest, h);
    }
  }

  /** The list is empty after removing `h` exactly when it was empty or held only `h`. */
  lemma RemoveFirstEmpty(hs: seq<HandlerId>, h: HandlerId)
    ensures RemoveFirst(hs, h) == [] <==> hs == [] || hs == [h]
  {
    if hs != [] && hs[0] == h && |hs| == 1 {
      assert hs == [h];
    }
  }

  /**
   Removes the first occurrence of the handler, creating the list if needed,
   and calls the detach hook whenever the list is empty afterwards, even if
   it was empty already.
   */
  function RemoveStorageEventHandler(s: State, h: HandlerId): (r: State)
    ensures Registered(r) == RemoveFirst(Registered(s), h)
    ensures r.hooks == s.hooks + (if Registered(r) == [] then [DetachHook] else [])
    ensures r.local == s.local && r.session == s.session && r.trace == s.trace
    ensures r.variant == s.variant && r.href == s.href
    ensures s.variant == NonNativeEvents ==> r.jsHandler == s.jsHandler && r.windowListeners == s.windowListeners
    ensures Registered(r) != [] ==> r.jsHandler == s.jsHandler && r.windowListeners == s.windowListeners
    ensures s.variant == NativeEvents && Registered(r) == [] && s.jsHandler.NonNull? &&
            s.windowListeners == [s.jsHandler.value] ==>
              r.windowListeners == []
    ensures r == s.(handlers := r.handlers, hooks := r.hooks, windowListeners := r.windowListeners)
    ensures forall l :: l in r.windowListeners ==> l in s.windowListeners
  {
    var s1 := GetStorageEventHandlers(s);
    var s2 := s1.(handlers := NonNull(RemoveFirst(s1.handlers.value, h)));
    if |s2.handlers.value| == 0 then Detach(s2) else s2
  }

  /** The returned handle's `removeHandler`. */
  function RemoveHandler(s: State, reg: Registration): (r: State)
    ensures Registered(r) == RemoveFirst(Registered(s), reg.handler)
    ensures r.hooks == s.hooks + (if Registered(r) == [] then [DetachHook] else [])
    ensures r.local == s.local && r.session == s.session && r.trace == s.trace
    ensures r.variant == s.variant && r.href == s.href
    ensures s.variant == NonNativeEvents ==> r.jsHandler == s.jsHandler && r.windowListeners == s.windowListeners
    ensures Registered(r) != [] ==> r.jsHandler == s.jsHandler && r.windowListeners == s.windowListeners
    ensures s.variant == NativeEvents && Registered(r) == [] && s.jsHandler.NonNull? &&
            s.windowListeners == [s.jsHandler.value] ==>
              r.windowListeners == []
    ensures r == s.(handlers := r.handlers, hooks := r.hooks, windowListeners := r.windowListeners)
    ensures forall l :: l in r.windowListeners ==> l in s.windowListeners
  {
    RemoveStorageEventHandler(s, reg.handler)
  }

  // ---------------------------------------------------------------------
  // Dispatch

  /** One handler call: a delivery, followed by a report if the handler threw. */
  function Deliver(h: HandlerId, e: StorageEvent, local: Store, session: Store, throws: Throws): seq<Entry> {
    [Delivered(h, e, local, session)] + (if throws(h, e) then [Reported(h, e)] else [])
  }

  /** The loop over the handler list, each call guarded by its own catch. */
  function Deliveries(hs: seq<HandlerId>, e: StorageEvent, local: Store, session: Store, throws: Throws): seq<Entry>
    decreases |hs|
  {
    if hs == [] then []
    else Deliver(hs[0], e, local, session, throws) + Deliveries(hs[1..], e, local, session, throws)
  }

  /** The handlers called, in call order. */
  function DeliveredTo(entries: seq<Entry>): seq<HandlerId>
    decreases |entries|
  {
    if entries == [] then []
    else (if entries[0].Delivered? then [entries[0].handler] else []) + DeliveredTo(entries[1..])
  }

  /** Every entry is about event `e`. */
  predicate AllCarry(entries: seq<Entry>, e: StorageEvent) {
    forall i :: 0 <= i < |entries| ==> entries[i].event == e
  }

  /** Every handler call saw the areas as `local` and `session`. */
  predicate AllObserve(entries: seq<Entry>, local: Store, session: Store) {
    forall i :: 0 <= i < |entries| && entries[i].Delivered? ==>
      entries[i].local == local && entries[i].session == session
  }

  /** The entry after call `i` is a report of it exactly when the handler threw. */
  predicate ReportFollowsIffThrown(entries: seq<Entry>, throws: Throws, i: nat)
    requires i < |entries| && entries[i].Delivered?
  {
    throws(entries[i].handler, entries[i].event) <==>
      i + 1 < |entries| && entries[i + 1] == Reported(entries[i].handler, entries[i].event)
  }

  /** Report `i` directly follows the call it reports. */
  predicate ReportFollowsCall(entries: seq<Entry>, i: nat)
    requires i < |entries| && entries[i].Reported?
  {
    0 < i && entries[i - 1].Delivered? && entries[i - 1].handler == entries[i].handler
    && entries[i - 1].event == entries[i].event
  }

  /**
   A call is followed by a report of the same handler and event exactly when
   that handler threw, and every report directly follows the call it reports.
   */
  predicate FailuresReported(entries: seq<Entry>, throws: Throws) {
    && (forall i: nat :: i < |entries| && entries[i].Delivered? ==> ReportFollowsIffThrown(entries, throws, i))
    && (forall i: nat :: i < |entries| && entries[i].Reported? ==> ReportFollowsCall(entries, i))
  }

  /** A pass calls every handler of the list once, in list order. */
  lemma {:induction false} DeliveriesCallInOrder(hs: seq<HandlerId>, e: StorageEvent, local: Store, session: Store, throws: Throws)
    ensures DeliveredTo(Deliveries(hs, e, local, session, throws)) == hs
    decreases |hs|
  {
    if hs != [] {
      var head := Deliver(hs[0], e, local, session, throws);
      var tail := Deliveries(hs[1..], e, local, session, throws);
      DeliveriesCallInOrder(hs[1..], e, local, session, throws);
      DeliveredToAppend(head, tail);
      assert DeliveredTo(head) == [hs[0]] by {
        if throws(hs[0], e) {
          assert head[1..] == [Reported(hs[0], e)];
          assert head[1..][1..] == [];
        } else {
          assert head[1..] == [];
        }
      }
      assert hs == [hs[0]] + hs[1..];
    }
  }

  /** A pass carries one event and one view of the storage areas throughout. */
  lemma {:induction false} DeliveriesShareEventAndView(hs: seq<HandlerId>, e: StorageEvent, local: Store, session: Store, throws: Throws)
    ensures AllCarry(Deliveries(hs, e, local, session, throws), e)
    ensures AllObserve(Deliveries(hs, e, local, session, throws), local, session)
    decreases |hs|
  {
    if hs != [] {
      DeliveriesShareEventAndView(hs[1..], e, local, session, throws);
      var head := Deliver(hs[0], e, local, session, throws);
      var tail := Deliveries(hs[1..], e, local, session, throws);
      var d := head + tail;
      forall i | 0 <= i < |d|
        ensures d[i].event == e
        ensures d[i].Delivered? ==> d[i].local == local && d[i].session == session
      {
        if i >= |head| {
          assert d[i] == tail[i - |head|];
        }
      }
    }
  }

  /** A failing handler is reported right after its call, and the pass goes on. */
  lemma {:induction false} DeliveriesReportFailures(hs: seq<HandlerId>, e: StorageEvent, local: Store, session: Store, throws: Throws)
    ensures FailuresReported(Deliveries(hs, e, local, session, throws), throws)
    ensures Deliveries(hs, e, local, session, throws) != [] ==> Deliveries(hs, e, local, session, throws)[0].Delivered?
    decreases |hs|
  {
    if hs != [] {
      DeliveriesReportFailures(hs[1..], e, local, session, throws);
      var head := Deliver(hs[0], e, local, session, throws);
      var tail := Deliveries(hs[1..], e, local, session, throws);
      var d := head + tail;
      assert d == Deliveries(hs, e, local, session, throws);
      forall i: nat | i < |d| && d[i].Delivered?
        ensures ReportFollowsIffThrown(d, throws, i)
      {
        if i >= |head| {
          var j := i - |head|;
          assert d[i] == tail[j];
          if i + 1 < |d| {
            assert d[i + 1] == tail[j + 1];
          }
          assert ReportFollowsIffThrown(tail, throws, j);
        } else {
          assert d[i] == head[i];
          assert i == 0;
          if throws(hs[0], e) {
            assert head == [Delivered(hs[0], e, local, session), Reported(hs[0], e)];
            assert d[1] == head[1];
          } else {
            assert head == [Delivered(hs[0], e, local, session)];
            if 1 < |d| {
              assert d[1] == tail[0];
            }
          }
        }
      }
      forall i: nat | i < |d| && d[i].Reported?
        ensures ReportFollowsCall(d, i)
      {
        if i >= |head| {
          assert d[i] == tail[i - |head|];
          if i - 1 >= |head| {
            assert d[i - 1] == tail[i - 1 - |head|];
          }
        }
      }
    }
  }

  lemma {:induction false} DeliveredToAppend(a: seq<Entry>, b: seq<Entry>)
    ensures DeliveredTo(a + b) == DeliveredTo(a) + DeliveredTo(b)
    decreases |a|
  {
    if a != [] {
      assert (a + b)[1..] == a[1..] + b;
      DeliveredToAppend(a[1..], b);
    } else {
      assert a + b == b;
    }
  }

  /**
   `r` is `s` after one dispatch pass of `e`: only the trace changed, every
   registered handler was called once, in registration order, with `e`,
   seeing the storage areas of `s`, and each failure was reported without
   stopping the later handlers.
   */
  predicate OnePass(s: State, r: State, e: StorageEvent, throws: Throws) {
    && r == s.(trace := r.trace)
    && s.trace <= r.trace
    && (var added := r.trace[|s.trace|..];
        && DeliveredTo(added) == Registered(s)
        && AllCarry(added, e)
        && AllObserve(added, s.local, s.session)
        && FailuresReported(added, throws))
  }

  /** `handleStorageEvent`: nothing happens without handlers, otherwise one pass. */
  function HandleStorageEvent(s: State, e: StorageEvent, throws: Throws): (r: State)
    ensures !HasStorageEventHandlers(s) ==> r == s
    ensures HasStorageEventHandlers(s) ==> OnePass(s, r, e, throws)
  {
    if !HasStorageEventHandlers(s) then s
    else
      var d := Deliveries(s.handlers.value, e, s.local, s.session, throws);
      DeliveriesCallInOrder(s.handlers.value, e, s.local, s.session, throws);
      DeliveriesShareEventAndView(s.handlers.value, e, s.local, s.session, throws);
      DeliveriesReportFailures(s.handlers.value, e, s.local, s.session, throws);
      var r := s.(trace := s.trace + d);
      assert r.trace[|s.trace|..] == d;
      r
  }

  /**
   The browser calling every attached "storage" listener with a native event;
   each listener this wrapper attaches forwards the event to `handleStorageEvent`.
   */
  function FireNativeListeners(s: State, listeners: seq<ListenerId>, e: StorageEvent, throws: Throws): (r: State)
    ensures listeners == [] ==> r == s
    ensures |listeners| == 1 ==> r == HandleStorageEvent(s, e, throws)
    decreases |listeners|
  {
    if listeners == [] then s
    else FireNativeListeners(HandleStorageEvent(s, e, throws), listeners[1..], e, throws)
  }

  // ---------------------------------------------------------------------
  // Delegating storage operations and pure rules

  /**
   `getItem`: the value of the pair in the named area whose key is the
   argument (a null key is looked up as "null"), or null when no pair has
   that key.
   */
  function GetItem(s: State, storage: string, key: Nullable<string>): (v: Nullable<string>)
    requires IsStorageName(storage)
    ensures var items := StoreOf(s, AreaNamed(storage)).items;
      && (v.NonNull? ==> exists i :: 0 <= i < |items| && items[i] == Item(DomString(key), v.value))
      && (v.Null? ==> forall i :: 0 <= i < |items| ==> items[i].key != DomString(key))
  {
    var st := StoreOf(s, AreaNamed(storage));
    FindMeaning(st.items, DomString(key));
    WebStorage.GetItem(st, DomString(key))
  }

  /** `getLength`: the number of pairs in the named area; zero exactly when no key reads a value. */
  function GetLength(s: State, storage: string): (n: nat)
    requires IsStorageName(storage)
    ensures n == |StoreOf(s, AreaNamed(storage)).items|
    ensures n == 0 <==> forall k :: GetItem(s, storage, k) == Null
  {
    var st := StoreOf(s, AreaNamed(storage));
    if |st.items| > 0 then
      assert GetItem(s, storage, NonNull(st.items[0].key)).NonNull?;
      Length(st)
    else
      Length(st)
  }

  /**
   Base `setItem`: stores the value in the named area; nothing else changes.
   A null key or value reaches the engine as the string "null".
   */
  function SetItem(s: State, storage: string, key: Nullable<string>, data: Nullable<string>): (r: State)
    requires IsStorageName(storage)
    ensures SameExceptStores(s, r)
    ensures GetItem(r, storage, key) == NonNull(DomString(data))
    ensures forall k :: DomString(k) != DomString(key) ==> GetItem(r, storage, k) == GetItem(s, storage, k)
    ensures StoreOf(r, OtherArea(AreaNamed(storage))) == StoreOf(s, OtherArea(AreaNamed(storage)))
  {
    var a := AreaNamed(storage);
    WithStore(s, a, WebStorage.SetItem(StoreOf(s, a), DomString(key), DomString(data)))
  }

  /**
   Base `removeItem`: drops the key from the named area; nothing else
   changes. A null key removes the key "null".
   */
  function RemoveItem(s: State, storage: string, key: Nullable<string>): (r: State)
    requires IsStorageName(storage)
    ensures SameExceptStores(s, r)
    ensures Valid(StoreOf(s, AreaNamed(storage))) ==> GetItem(r, storage, key) == Null
    ensures forall k :: DomString(k) != DomString(key) ==> GetItem(r, storage, k) == GetItem(s, storage, k)
    ensures StoreOf(r, OtherArea(AreaNamed(storage))) == StoreOf(s, OtherArea(AreaNamed(storage)))
  {
    var a := AreaNamed(storage);
    WithStore(s, a, WebStorage.RemoveItem(StoreOf(s, a), DomString(key)))
  }

  /** Base `clear`: empties the named area; nothing else changes. */
  function Clear(s: State, storage: string): (r: State)
    requires IsStorageName(storage)
    ensures SameExceptStores(s, r)
    ensures GetLength(r, storage) == 0
    ensures forall k :: GetItem(r, storage, k) == Null
    ensures StoreOf(r, OtherArea(AreaNamed(storage))) == StoreOf(s, OtherArea(AreaNamed(storage)))
  {
    var a := AreaNamed(storage);
    WithStore(s, a, WebStorage.Clear(StoreOf(s, a)))
  }

  function OtherArea(a: Area): Area {
    match a
    case Local => Session
    case Session => Local
  }

  /**
   `key(storage, index)`: null for any index outside [0, length) whatever the
   engine itself would answer there, the engine's key otherwise.
   */
  function Key(s: State, storage: string, index: int, outOfRange: int -> Nullable<string>): (r: Nullable<string>)
    requires IsStorageName(storage)
    ensures index < 0 || index >= GetLength(s, storage) ==> r == Null
    ensures 0 <= index < GetLength(s, storage) ==> r == NonNull(StoreOf(s, AreaNamed(storage)).items[index].key)
  {
    var st := StoreOf(s, AreaNamed(storage));
    if index >= 0 && index < Length(st) then NativeKey(st, index, outOfRange) else Null
  }

  /**
   `getStorageFromEvent`: the local area exactly when the event's
   `storageArea` is the local storage object; the session area for anything
   else, including a missing or null property.
   */
  function StorageFromEvent(e: StorageEvent): (a: Area)
    ensures a == Local <==> STORAGE_AREA in e.properties && e.properties[STORAGE_AREA] == JsStorage(Local)
  {
    if STORAGE_AREA in e.properties && e.properties[STORAGE_AREA] == JsStorage(Local) then Local else Session
  }

  /** The event's `getStorageArea`, which asks the implementation for the area. */
  function GetStorageArea(e: StorageEvent): (a: Area)
    ensures a == Session <==> STORAGE_AREA !in e.properties || e.properties[STORAGE_AREA] != JsStorage(Local)
  {
    StorageFromEvent(e)
  }
}
