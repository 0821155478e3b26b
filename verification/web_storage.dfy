/**
 The browser's native storage engine, as W3C Web Storage section 4.1
 ("The Storage interface") describes it: an ordered list of key/value pairs
 with distinct keys. The wrapper code delegates every storage operation to
 this engine; the model fixes one legal key order (insertion order, with an
 update keeping the key in place).
 */
module WebStorage {
  import opened Nullables

  /** The two storage areas of a browsing context. */
  datatype Area = Local | Session

  /** The names under which the wrapper looks the two areas up. */
  const LOCAL_STORAGE: string := "localStorage"
  const SESSION_STORAGE: string := "sessionStorage"

  predicate IsStorageName(name: string) {
    name == LOCAL_STORAGE || name == SESSION_STORAGE
  }

  /** The area a storage name resolves to (the wrapper's name table). */
  function AreaNamed(name: string): (a: Area)
    requires IsStorageName(name)
    ensures a == Local <==> name == LOCAL_STORAGE
    ensures a == Session <==> name == SESSION_STORAGE
  {
    if name == LOCAL_STORAGE then Local else Session
  }

  /** The storage name of an area; inverse of `AreaNamed`. */
  function NameOf(a: Area): (name: string)
    ensures IsStorageName(name) && AreaNamed(name) == a
  {
    match a
    case Local => LOCAL_STORAGE
    case Session => SESSION_STORAGE
  }

  /**
   A Java string as the engine receives it: the storage methods take
   DOMString arguments, and the conversion turns null into "null".
   */
  function DomString(v: Nullable<string>): (str: string)
    ensures v.NonNull? ==> str == v.value
    ensures v.Null? ==> str == "null"
  {
    match v
    case Null => "null"
    case NonNull(x) => x
  }

  datatype Item = Item(key: string, value: string)

  /** One storage area's contents, in the engine's key order. */
  datatype Store = Store(items: seq<Item>)

  const EmptyStore: Store := Store([])

  /** The value stored under `key`, or null. */
  function Find(items: seq<Item>, key: string): Nullable<string>
    decreases |items|
  {
    if items == [] then Null
    else if items[0].key == key then NonNull(items[0].value)
    else Find(items[1..], key)
  }

  /** No key occurs twice. */
  predicate DistinctKeys(items: seq<Item>)
    decreases |items|
  {
    items == [] || (Find(items[1..], items[0].key) == Null && DistinctKeys(items[1..]))
  }

  predicate Valid(st: Store) {
    DistinctKeys(st.items)
  }

  /** `setItem`: update the value in place, or append a new pair. */
  function Put(items: seq<Item>, key: string, value: string): (r: seq<Item>)
    ensures Find(r, key) == NonNull(value)
    ensures forall k :: k != key ==> Find(r, k) == Find(items, k)
    ensures |r| == if Find(items, key).NonNull? then |items| else |items| + 1
    ensures DistinctKeys(items) ==> DistinctKeys(r)
    decreases |items|
  {
    if items == [] then [Item(key, value)]
    else if items[0].key == key then [Item(key, value)] + items[1..]
    else [items[0]] + Put(items[1..], key, value)
  }

  /** `removeItem`: drop the pair with this key, if there is one. */
  function Delete(items: seq<Item>, key: string): (r: seq<Item>)
    ensures DistinctKeys(items) ==> Find(r, key) == Null
    ensures forall k :: k != key ==> Find(r, k) == Find(items, k)
    ensures |r| == if Find(items, key).NonNull? then |items| - 1 else |items|
    ensures DistinctKeys(items) ==> DistinctKeys(r)
    decreases |items|
  {
    if items == [] then []
    else if items[0].key == key then items[1..]
    else [items[0]] + Delete(items[1..], key)
  }

  function GetItem(st: Store, key: string): Nullable<string> {
    Find(st.items, key)
  }

  function SetItem(st: Store, key: string, value: string): Store {
    Store(Put(st.items, key, value))
  }

  function RemoveItem(st: Store, key: string): Store {
    Store(Delete(st.items, key))
  }

  function Clear(st: Store): Store {
    EmptyStore
  }

  function Length(st: Store): nat {
    |st.items|
  }

  /**
   The engine's own `key(n)`. W3C Web Storage section 4.1 requires null for an index at or
   past the length, but several engines answer something else there, so the
   out-of-range answer is whatever the engine at hand chooses.
   */
  function NativeKey(st: Store, n: int, outOfRange: int -> Nullable<string>): Nullable<string> {
    if 0 <= n < |st.items| then NonNull(st.items[n].key) else outOfRange(n)
  }

  lemma {:induction false} FindAtIndex(items: seq<Item>, i: nat)
    requires i < |items|
    requires DistinctKeys(items)
    ensures Find(items, items[i].key) == NonNull(items[i].value)
    decreases i
  {
    if i > 0 {
      FindNullNotAtIndex(items[1..], items[0].key, i - 1);
      FindAtIndex(items[1..], i - 1);
    }
  }

  /**
   `Find` answers the value of the first pair with that key, or null when no
   pair has it; on distinct keys, any stored pair's value is what it answers.
   */
  lemma {:induction false} FindMeaning(items: seq<Item>, key: string)
    ensures Find(items, key).NonNull? ==>
      exists i :: 0 <= i < |items| && items[i] == Item(key, Find(items, key).value)
        && forall j :: 0 <= j < i ==> items[j].key != key
    ensures Find(items, key).Null? ==> forall i :: 0 <= i < |items| ==> items[i].key != key
    ensures DistinctKeys(items) ==>
      forall i :: 0 <= i < |items| && items[i].key == key ==> Find(items, key) == NonNull(items[i].value)
    decreases |items|
  {
    if items != [] && items[0].key == key {
      assert items[0] == Item(key, Find(items, key).value);
    } else if items != [] {
      FindMeaning(items[1..], key);
      if Find(items, key).NonNull? {
        var i :| 0 <= i < |items[1..]| && items[1..][i] == Item(key, Find(items, key).value)
          && forall j :: 0 <= j < i ==> items[1..][j].key != key;
        assert items[i + 1] == items[1..][i];
        forall j | 0 <= j < i + 1
          ensures items[j].key != key
        {
          if j > 0 {
            assert items[j] == items[1..][j - 1];
          }
        }
      } else {
        forall i | 0 <= i < |items|
          ensures items[i].key != key
        {
          if i > 0 {
            assert items[i] == items[1..][i - 1];
          }
        }
      }
    }
    if DistinctKeys(items) {
      forall i | 0 <= i < |items| && items[i].key == key
        ensures Find(items, key) == NonNull(items[i].value)
      {
        FindAtIndex(items, i);
      }
    }
  }

  lemma {:induction false} FindNullNotAtIndex(items: seq<Item>, key: string, i: nat)
    requires i < |items|
    requires Find(items, key) == Null
    ensures items[i].key != key
    decreases i
  {
    if i > 0 {
      FindNullNotAtIndex(items[1..], key, i - 1);
    }
  }

  /** In a valid store, different positions hold different keys. */
  lemma {:induction false} DistinctKeysAtIndices(items: seq<Item>, i: nat, j: nat)
    requires DistinctKeys(items)
    requires i < j < |items|
    ensures items[i].key != items[j].key
    decreases i
  {
    if i == 0 {
      FindNullNotAtIndex(items[1..], items[0].key, j - 1);
    } else {
      DistinctKeysAtIndices(items[1..], i - 1, j - 1);
    }
  }

  /**
   The enumeration promise of W3C Web Storage section 4.1: every index below the length names a
   key that is present, and distinct indices name distinct keys.
   */
  lemma NativeKeyEnumerates(st: Store, i: int, j: int, outOfRange: int -> Nullable<string>)
    requires Valid(st)
    requires 0 <= i < Length(st) && 0 <= j < Length(st)
    ensures NativeKey(st, i, outOfRange).NonNull?
    ensures GetItem(st, NativeKey(st, i, outOfRange).value).NonNull?
    ensures i != j ==> NativeKey(st, i, outOfRange) != NativeKey(st, j, outOfRange)
  {
    FindAtIndex(st.items, i);
    if i < j {
      DistinctKeysAtIndices(st.items, i, j);
    } else if j < i {
      DistinctKeysAtIndices(st.items, j, i);
    }
  }

  /** The store laws of W3C Web Storage section 4.1 that the wrapper relies on. */
  lemma StoreLaws(st: Store, key: string, other: string, value: string)
    requires Valid(st)
    requires other != key
    ensures GetItem(SetItem(st, key, value), key) == NonNull(value)
    ensures GetItem(SetItem(st, key, value), other) == GetItem(st, other)
    ensures GetItem(RemoveItem(st, key), key) == Null
    ensures GetItem(RemoveItem(st, key), other) == GetItem(st, other)
    ensures Length(Clear(st)) == 0 && GetItem(Clear(st), key) == Null
    ensures Valid(SetItem(st, key, value)) && Valid(RemoveItem(st, key)) && Valid(Clear(st))
  {
  }
}
