/**
 The implementation used where the browser's own storage event is missing or
 incomplete: every mutation reads the prior value, performs the base
 mutation, then builds a storage event itself and dispatches it to the
 registered handlers. The native listener is never attached (its attach and
 detach hooks are no-ops, see `StorageImpl.Attach` and `StorageImpl.Detach`).
 */
module NonNativeEvents {
  import opened Nullables
  import opened WebStorage
  import opened StorageEvents
  import opened StorageImpl

  /** The area named in the synthesised event: local only for "localStorage". */
  function EventArea(storageName: string): (a: Area)
    ensures a == Local <==> storageName == LOCAL_STORAGE
    ensures IsStorageName(storageName) ==> a == AreaNamed(storageName)
  {
    if storageName == LOCAL_STORAGE then Local else Session
  }

  /** The fields a synthesised event reads back through its accessors. */
  predicate EventReads(e: StorageEvent, key: Nullable<string>, oldValue: Nullable<string>,
                       newValue: Nullable<string>, url: string, area: Area)
  {
    && GetType(e) == NonNull(EVENT_TYPE)
    && GetKey(e) == key
    && GetOldValue(e) == oldValue
    && GetNewValue(e) == newValue
    && GetUrl(e) == NonNull(url)
    && GetStorageArea(e) == area
  }

  /**
   `createStorageEvent`: an event whose accessors give back the key, the two
   values and the document location unchanged, whose type is "storage", and
   whose storage area is local exactly for the name "localStorage".
   */
  function CreateStorageEvent(key: Nullable<string>, oldValue: Nullable<string>, newValue: Nullable<string>,
                              storageName: string, href: string): (e: StorageEvent)
    ensures EventReads(e, key, oldValue, newValue, href, EventArea(storageName))
    ensures GetStorageArea(e) == Local <==> storageName == LOCAL_STORAGE
  {
    AccessorsReadInit(key, oldValue, newValue, href, EventArea(storageName));
    CreateEvent(EventInit(key, oldValue, newValue, href, EventArea(storageName)))
  }

  /**
   `r` is `s` after an emulated event with these fields, for the area named
   `storage`: nothing but the trace changed; with no handler registered the
   trace is unchanged too; otherwise each registered handler was called once,
   in registration order, all with the one event `createStorageEvent` builds
   from these fields (so reading them back), seeing the storage areas of
   `s`, each failure reported and the later handlers still called.
   */
  predicate Announced(s: State, r: State, key: Nullable<string>, oldValue: Nullable<string>,
                      newValue: Nullable<string>, storage: string, throws: Throws)
  {
    && r == s.(trace := r.trace)
    && s.trace <= r.trace
    && (var added := r.trace[|s.trace|..];
        && (!HasStorageEventHandlers(s) ==> added == [])
        && DeliveredTo(added) == Registered(s)
        && FailuresReported(added, throws)
        && AllCarry(added, CreateStorageEvent(key, oldValue, newValue, storage, s.href))
        && (forall i :: 0 <= i < |added| ==> EventReads(added[i].event, key, oldValue, newValue, s.href, EventArea(storage)))
        && AllObserve(added, s.local, s.session))
  }

  /** `fireStorageEvent`: builds and dispatches an event only if a handler is registered. */
  function FireStorageEvent(s: State, key: Nullable<string>, oldValue: Nullable<string>,
                            newValue: Nullable<string>, storage: string, throws: Throws): (r: State)
    ensures Announced(s, r, key, oldValue, newValue, storage, throws)
  {
    if HasStorageEventHandlers(s) then
      var e := CreateStorageEvent(key, oldValue, newValue, storage, s.href);
      var r := HandleStorageEvent(s, e, throws);
      assert forall i :: 0 <= i < |r.trace[|s.trace|..]| ==> r.trace[|s.trace|..][i].event == e;
      r
    else
      assert s.trace[|s.trace|..] == [];
      s
  }

  /**
   `clear`: empties the area, then announces an event whose key, old value
   and new value are all null, whatever the area held.
   */
  function Clear(s: State, storage: string, throws: Throws): (r: State)
    requires IsStorageName(storage)
    ensures GetLength(r, storage) == 0
    ensures StoreOf(r, OtherArea(AreaNamed(storage))) == StoreOf(s, OtherArea(AreaNamed(storage)))
    ensures Announced(StorageImpl.Clear(s, storage), r, Null, Null, Null, storage, throws)
  {
    var s1 := StorageImpl.Clear(s, storage);
    FireStorageEvent(s1, Null, Null, Null, storage, throws)
  }

  /**
   `removeItem`: reads the value first, removes the key, then announces an
   event carrying the key, the value read before the removal, and a null new
   value. The event carries the key as given, null included, while the
   engine removed the key "null" for it.
   */
  function RemoveItem(s: State, storage: string, key: Nullable<string>, throws: Throws): (r: State)
    requires IsStorageName(storage)
    ensures Valid(StoreOf(s, AreaNamed(storage))) ==> StorageImpl.GetItem(r, storage, key) == Null
    ensures forall k :: DomString(k) != DomString(key) ==> StorageImpl.GetItem(r, storage, k) == StorageImpl.GetItem(s, storage, k)
    ensures StoreOf(r, OtherArea(AreaNamed(storage))) == StoreOf(s, OtherArea(AreaNamed(storage)))
    ensures Announced(StorageImpl.RemoveItem(s, storage, key), r,
                      key, StorageImpl.GetItem(s, storage, key), Null, storage, throws)
  {
    var oldValue := StorageImpl.GetItem(s, storage, key);
    var s1 := StorageImpl.RemoveItem(s, storage, key);
    FireStorageEvent(s1, key, oldValue, Null, storage, throws)
  }

  /**
   `setItem`: reads the value first, stores the new one, then announces an
   event carrying the key, the value read before the write, and the new value.
   The event carries the key and value as given, null included, while the
   engine stored the string "null" for either.
   */
  function SetItem(s: State, storage: string, key: Nullable<string>, data: Nullable<string>, throws: Throws): (r: State)
    requires IsStorageName(storage)
    ensures StorageImpl.GetItem(r, storage, key) == NonNull(DomString(data))
    ensures forall k :: DomString(k) != DomString(key) ==> StorageImpl.GetItem(r, storage, k) == StorageImpl.GetItem(s, storage, k)
    ensures StoreOf(r, OtherArea(AreaNamed(storage))) == StoreOf(s, OtherArea(AreaNamed(storage)))
    ensures Announced(StorageImpl.SetItem(s, storage, key, data), r,
                      key, StorageImpl.GetItem(s, storage, key), data, storage, throws)
  {
    var oldValue := StorageImpl.GetItem(s, storage, key);
    var s1 := StorageImpl.SetItem(s, storage, key, data);
    FireStorageEvent(s1, key, oldValue, data, storage, throws)
  }
}
