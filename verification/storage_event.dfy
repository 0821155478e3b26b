/**
 The storage event record. An event is a JavaScript object, so it is modelled
 as its own-property map; `createEvent` builds one from an init dictionary and
 the accessors read single properties back.
 */
module StorageEvents {
  import opened Nullables
  import opened WebStorage

  /** A property value as the event code stores it. */
  datatype JsValue = JsNull | JsString(str: string) | JsStorage(area: Area)

  type PropertyMap = map<string, JsValue>

  const EVENT_TYPE: string := "storage"

  /** Property names of a storage event (W3C Web Storage section 4.4). */
  const TYPE: string := "type"
  const KEY: string := "key"
  const OLD_VALUE: string := "oldValue"
  const NEW_VALUE: string := "newValue"
  const URL: string := "url"
  const STORAGE_AREA: string := "storageArea"

  datatype StorageEvent = StorageEvent(properties: PropertyMap)

  /** A nullable Java string as the property value it becomes. */
  function ToJs(s: Nullable<string>): (v: JsValue)
    ensures v.JsNull? <==> s.Null?
    ensures s.NonNull? ==> v == JsString(s.value)
  {
    match s
    case Null => JsNull
    case NonNull(str) => JsString(str)
  }

  /**
   `createEvent`: every property of the init dictionary is copied onto the
   new event, and `type` is set to "storage" afterwards, so it wins over any
   `type` the dictionary carried.
   */
  function CreateEvent(init: PropertyMap): (e: StorageEvent)
    ensures e.properties.Keys == init.Keys + {TYPE}
    ensures forall p :: p in init && p != TYPE ==> e.properties[p] == init[p]
    ensures e.properties[TYPE] == JsString(EVENT_TYPE)
  {
    StorageEvent(init[TYPE := JsString(EVENT_TYPE)])
  }

  /**
   The same construction written as the property-by-property copy the
   wrapper performs (one `set` per property of the dictionary, in whatever
   order the dictionary yields them), then the `type` override.
   */
  method CreateEventByCopy(init: PropertyMap) returns (e: StorageEvent)
    ensures e == CreateEvent(init)
  {
    var copied: PropertyMap := map[];
    var pending := init.Keys;
    while pending != {}
      invariant pending <= init.Keys
      invariant copied.Keys == init.Keys - pending
      invariant forall p :: p in copied ==> copied[p] == init[p]
      decreases |pending|
    {
      var p :| p in pending;
      copied := copied[p := init[p]];
      pending := pending - {p};
    }
    assert copied == init;
    e := StorageEvent(copied[TYPE := JsString(EVENT_TYPE)]);
  }

  /** A string-typed property: null when absent or not a string. */
  function StringProperty(e: StorageEvent, name: string): Nullable<string> {
    if name in e.properties && e.properties[name].JsString? then NonNull(e.properties[name].str) else Null
  }

  function GetType(e: StorageEvent): Nullable<string> {
    StringProperty(e, TYPE)
  }

  function GetKey(e: StorageEvent): Nullable<string> {
    StringProperty(e, KEY)
  }

  function GetOldValue(e: StorageEvent): Nullable<string> {
    StringProperty(e, OLD_VALUE)
  }

  function GetNewValue(e: StorageEvent): Nullable<string> {
    StringProperty(e, NEW_VALUE)
  }

  function GetUrl(e: StorageEvent): Nullable<string> {
    StringProperty(e, URL)
  }

  /** The init dictionary of a storage event with these fields. */
  function EventInit(key: Nullable<string>, oldValue: Nullable<string>, newValue: Nullable<string>,
                     url: string, area: Area): PropertyMap
  {
    map[KEY := ToJs(key), OLD_VALUE := ToJs(oldValue), NEW_VALUE := ToJs(newValue),
        URL := JsString(url), STORAGE_AREA := JsStorage(area)]
  }

  /**
   The accessors return exactly what was put in: an event created from an
   init dictionary reads back each of its fields unchanged, null included,
   and its type is "storage".
   */
  lemma AccessorsReadInit(key: Nullable<string>, oldValue: Nullable<string>, newValue: Nullable<string>,
                          url: string, area: Area)
    ensures var e := CreateEvent(EventInit(key, oldValue, newValue, url, area));
      && GetKey(e) == key
      && GetOldValue(e) == oldValue
      && GetNewValue(e) == newValue
      && GetUrl(e) == NonNull(url)
      && GetType(e) == NonNull(EVENT_TYPE)
      && e.properties[STORAGE_AREA] == JsStorage(area)
  {
  }

  /**
   Whatever `type` the dictionary supplied, the created event's type is
   "storage": the event does not depend on the dictionary's own `type` entry.
   */
  lemma TypeForcedToStorage(init: PropertyMap)
    ensures GetType(CreateEvent(init)) == NonNull(EVENT_TYPE)
    ensures CreateEvent(init) == CreateEvent(init - {TYPE})
  {
  }
}
