/** The per-device trip-list state kept in the browser's local storage, as in
    src/lib/trip-storage.ts. The storage is an object whose string map the
    operations change in place; where no storage is available (outside a
    browser, or when reading `window.localStorage` throws) it is `null`.
    `JSON.stringify` and `JSON.parse` are parameters. */
module TripStorage {
  import opened Wrappers

  const StorageKeyPrefix: string := "device.trips.state"

  /** `PersistedTripState`; each trip is kept as its JSON text. */
  datatype PersistedTripState = PersistedTripState(deviceId: string, cursor: Option<string>, hasMore: bool, trips: seq<string>)

  /** `JSON.parse(payload)` read as a state, then its `deviceId` read: `None`
      where either throws, that is a payload that is not JSON or is `null`.
      Any other JSON value is `Some` state; one that is not an object carrying
      this device's id as a string (`42`, `[]`, `{"deviceId":5}`) stands for a
      state whose `deviceId` is another string, so the load answers null and
      keeps the key. */
  type Parse = string -> Option<PersistedTripState>
  type Stringify = PersistedTripState -> string

  /** `${STORAGE_KEY_PREFIX}:${deviceId}` */
  function StorageKey(deviceId: string): string {
    StorageKeyPrefix + ":" + deviceId
  }

  /** Different devices never share a key. */
  lemma StorageKeyInjective(a: string, b: string)
    ensures StorageKey(a) == StorageKey(b) <==> a == b
  {
    if StorageKey(a) == StorageKey(b) {
      var n := |StorageKeyPrefix| + 1;
      assert a == StorageKey(a)[n..];
      assert b == StorageKey(b)[n..];
    }
  }

  /** `window.localStorage`: a map from keys to strings. */
  class LocalStorage {
    var items: map<string, string>

    constructor ()
      ensures items == map[]
    {
      items := map[];
    }

    /** `getItem`: `null` for a missing key. */
    method GetItem(key: string) returns (value: Option<string>)
      ensures value == (if key in items then Some(items[key]) else None)
    {
      value := if key in items then Some(items[key]) else None;
    }

    method SetItem(key: string, value: string)
      modifies this
      ensures items == old(items)[key := value]
    {
      items := items[key := value];
    }

    method RemoveItem(key: string)
      modifies this
      ensures items == old(items) - {key}
    {
      items := items - {key};
    }
  }

  // ---------------------------------------------------------------------------
  // The three operations, as functions of the stored map

  /** The map after `saveTripsState`. */
  function Saved(items: map<string, string>, state: PersistedTripState, stringify: Stringify): map<string, string> {
    items[StorageKey(state.deviceId) := stringify(state)]
  }

  /** What `loadTripsState` returns, and the map after it. */
  function Loaded(items: map<string, string>, deviceId: string, parse: Parse): (Option<PersistedTripState>, map<string, string>) {
    var key := StorageKey(deviceId);
    if key !in items || items[key] == "" then (None, items)
    else match parse(items[key])
      case None => (None, items - {key})
      case Some(state) => if state.deviceId != deviceId then (None, items) else (Some(state), items)
  }

  /** The map after `clearTripsState`. */
  function Cleared(items: map<string, string>, deviceId: string): map<string, string> {
    items - {StorageKey(deviceId)}
  }

  /** Saving a state and then loading it for the same device gives it back and
      changes nothing, provided the state's JSON parses back to it. */
  lemma SaveThenLoad(items: map<string, string>, state: PersistedTripState, stringify: Stringify, parse: Parse)
    requires parse(stringify(state)) == Some(state) && stringify(state) != ""
    ensures Loaded(Saved(items, state, stringify), state.deviceId, parse) == (Some(state), Saved(items, state, stringify))
  {
  }

  /** Loading answers null when nothing is stored, or when the stored state
      belongs to another device, and then leaves the storage as it was; it
      answers null and deletes the entry when the payload does not parse. It
      answers a state only when one for this device is stored. */
  lemma LoadSpec(items: map<string, string>, deviceId: string, parse: Parse)
    ensures var key := StorageKey(deviceId);
      var (r, after) := Loaded(items, deviceId, parse);
      && (key !in items ==> r.None? && after == items)
      && (key in items && items[key] != "" && parse(items[key]).None? ==> r.None? && after == items - {key})
      && (key in items && parse(items[key]).Some? && parse(items[key]).value.deviceId != deviceId ==>
            r.None? && after == items)
      && (r.Some? ==> key in items && parse(items[key]) == r && r.value.deviceId == deviceId && after == items)
      && (after == items || after == items - {key})
  {
  }

  /** Clearing one device's state removes only its key. */
  lemma ClearedSpec(items: map<string, string>, deviceId: string)
    ensures StorageKey(deviceId) !in Cleared(items, deviceId)
    ensures forall k :: k != StorageKey(deviceId) ==>
      (k in Cleared(items, deviceId) <==> k in items) && (k in items ==> Cleared(items, deviceId)[k] == items[k])
  {
  }

  /** Saving or clearing the state of one device does not change what loading
      another device's state answers. */
  lemma OtherDevicesUnaffected(items: map<string, string>, state: PersistedTripState, other: string,
                               stringify: Stringify, parse: Parse)
    requires other != state.deviceId
    ensures Loaded(Saved(items, state, stringify), other, parse).0 == Loaded(items, other, parse).0
    ensures Loaded(Cleared(items, state.deviceId), other, parse).0 == Loaded(items, other, parse).0
  {
    StorageKeyInjective(other, state.deviceId);
  }

  // ---------------------------------------------------------------------------
  // The operations on the storage object

  /** `saveTripsState`: stores the state's JSON under the device's key; nothing
      without storage. */
  method SaveTripsState(storage: LocalStorage?, state: PersistedTripState, stringify: Stringify)
    modifies storage
    ensures storage != null ==> storage.items == Saved(old(storage.items), state, stringify)
  {
    if storage == null {
      return;
    }
    var key := StorageKey(state.deviceId);
    var payload := stringify(state);
    storage.SetItem(key, payload);
  }

  /** `loadTripsState`: null without storage; otherwise the answer and the
      storage afterwards are those of `Loaded`. */
  method LoadTripsState(storage: LocalStorage?, deviceId: string, parse: Parse) returns (r: Option<PersistedTripState>)
    modifies storage
    ensures storage == null ==> r.None?
    ensures storage != null ==> (r, storage.items) == Loaded(old(storage.items), deviceId, parse)
  {
    if storage == null {
      return None;
    }
    var key := StorageKey(deviceId);
    var payload := storage.GetItem(key);
    if payload.None? || payload.value == "" {
      return None;
    }
    var state := parse(payload.value);
    if state.None? {
      storage.RemoveItem(key);
      return None;
    }
    if state.value.deviceId != deviceId {
      return None;
    }
    return state;
  }

  /** `clearTripsState`: removes the device's key; nothing without storage. */
  method ClearTripsState(storage: LocalStorage?, deviceId: string)
    modifies storage
    ensures storage != null ==> storage.items == Cleared(old(storage.items), deviceId)
  {
    if storage == null {
      return;
    }
    var key := StorageKey(deviceId);
    storage.RemoveItem(key);
  }
}
