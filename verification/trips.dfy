/** The trip queries of src/lib/trips.ts after the database answers: status
    normalisation, the active-trip rule, the filtering of a query page, the
    page cursor and the checks on a single trip. The database calls are left
    out; their answers are inputs. Records come from the database untyped, so
    the `status` and `deleted` attributes are JavaScript values. */
module Trips {
  import opened Wrappers
  import opened JsStrings
  import Cursor

  /** The JavaScript values an attribute can hold, as far as the rules below
      tell them apart (`Other` is any object or array). NaN is not represented. */
  datatype JsValue = Undefined | Null | Bool(b: bool) | Num(n: real) | Str(s: string) | Other

  /** JavaScript truthiness. */
  predicate Truthy(v: JsValue) {
    match v
    case Undefined => false
    case Null => false
    case Bool(b) => b
    case Num(n) => n != 0.0
    case Str(s) => s != ""
    case Other => true
  }

  /** The attributes of a `TripRecord` the rules read; the rest of the record is
      carried along unchanged in `payload`. */
  datatype TripRecord = TripRecord(id: string, deviceId: JsValue, status: JsValue, deleted: JsValue, payload: seq<int>)

  const AllowedStatuses: seq<string> := ["FINISH", "FINISHED", "PART_FINISHED", "PART_FINISH"]
  const DefaultPageSize: nat := 10

  // ---------------------------------------------------------------------------
  // The rules

  /** `normalizeStatus`: `""` for a falsy or non-string status, the upper-cased
      string otherwise. */
  function NormalizeStatus(status: JsValue): (r: string)
    ensures !Truthy(status) || !status.Str? ==> r == ""
    ensures status.Str? ==> |r| == |status.s| && forall i :: 0 <= i < |r| ==> r[i] == UpperChar(status.s[i])
  {
    if !Truthy(status) then ""
    else ToUpper(if status.Str? then status.s else "")
  }

  /** The `deleted` values that count as not deleted. */
  predicate NotDeleted(deleted: JsValue) {
    deleted == Undefined || deleted == Null || deleted == Bool(false) || deleted == Str("false") || deleted == Num(0.0)
  }

  /** `isActiveTrip` */
  predicate IsActiveTrip(record: TripRecord) {
    NotDeleted(record.deleted) && NormalizeStatus(record.status) in AllowedStatuses
  }

  /** A trip is active exactly when it is not deleted and its status, in any
      letter case, is one of the four finished statuses. */
  lemma IsActiveTripSpec(record: TripRecord)
    ensures IsActiveTrip(record) <==>
      && (record.deleted in {Undefined, Null, Bool(false), Str("false"), Num(0.0)})
      && record.status.Str?
      && ToUpper(record.status.s) in {"FINISH", "FINISHED", "PART_FINISHED", "PART_FINISH"}
  {
    if record.status.Str? && record.status.s == "" {
      assert ToUpper(record.status.s) == "";
    }
  }

  /** A status that normalises to the empty string never belongs to an active trip. */
  lemma EmptyStatusInactive(record: TripRecord)
    requires NormalizeStatus(record.status) == ""
    ensures !IsActiveTrip(record)
  {
  }

  /** `getTableName`: `TRIPS_TABLE_NAME || TRIP_TABLE_NAME`, an error when that
      is missing or empty. */
  function GetTableName(tripsTableName: Option<string>, tripTableName: Option<string>): (r: Result<string, string>)
    ensures r.Ok? ==> r.value != ""
    ensures tripsTableName.Some? && tripsTableName.value != "" ==> r == Ok(tripsTableName.value)
    ensures (tripsTableName.None? || tripsTableName.value == "") ==>
      (if tripTableName.Some? && tripTableName.value != "" then r == Ok(tripTableName.value) else r.Err?)
  {
    var tableName := if tripsTableName.Some? && tripsTableName.value != "" then tripsTableName else tripTableName;
    if tableName.None? || tableName.value == "" then Err("TRIPS_TABLE_NAME is not configured")
    else Ok(tableName.value)
  }

  // ---------------------------------------------------------------------------
  // queryTripsByDevice

  /** `items.filter(isActiveTrip)` */
  function FilterActive(items: seq<TripRecord>): (r: seq<TripRecord>)
    ensures |r| <= |items|
  {
    if items == [] then []
    else (if IsActiveTrip(items[0]) then [items[0]] else []) + FilterActive(items[1..])
  }

  /** The filter keeps exactly the active trips, and keeps them in order: it
      distributes over concatenation. */
  lemma {:induction false} FilterActiveSpec(items: seq<TripRecord>)
    ensures forall t :: t in FilterActive(items) <==> t in items && IsActiveTrip(t)
    decreases |items|
  {
    if items != [] {
      FilterActiveSpec(items[1..]);
      assert items == [items[0]] + items[1..];
    }
  }

  lemma {:induction false} FilterActiveAppend(a: seq<TripRecord>, b: seq<TripRecord>)
    ensures FilterActive(a + b) == FilterActive(a) + FilterActive(b)
    decreases |a|
  {
    if a != [] {
      assert (a + b)[1..] == a[1..] + b;
      FilterActiveAppend(a[1..], b);
    } else {
      assert a + b == b;
    }
  }

  /** The request parameters that depend on the caller: the page size and the
      start key decoded from the cursor. */
  datatype QueryRequest<K> = QueryRequest(deviceId: string, limit: nat, exclusiveStartKey: Option<K>)

  /** The query's answer: the page's items (absent or a list) and the key to
      continue after, if any. */
  datatype QueryResponse<K> = QueryResponse(items: Option<seq<TripRecord>>, lastEvaluatedKey: Option<K>)

  datatype QueryTripsResult = QueryTripsResult(trips: seq<TripRecord>, nextCursor: Option<string>)

  /** The JSON and UTF-8 conversions the cursors go through. */
  datatype Codec<!K> = Codec(stringify: K -> string, parse: string -> Option<K>,
                            utf8Encode: string -> seq<Cursor.byte>, utf8Decode: seq<Cursor.byte> -> string)

  /** The request `queryTripsByDevice` sends: page size 10 unless given, and the
      start key decoded from the cursor. */
  function QueryRequestOf<K>(deviceId: string, pageSize: Option<nat>, cursor: Option<string>, codec: Codec<K>): (r: QueryRequest<K>)
    ensures r.limit == pageSize.GetOr(DefaultPageSize)
    ensures cursor.None? || cursor == Some("") ==> r.exclusiveStartKey.None?
  {
    QueryRequest(deviceId, pageSize.GetOr(DefaultPageSize), Cursor.DecodeCursor(cursor, codec.parse, codec.utf8Decode))
  }

  /** What `queryTripsByDevice` returns for an answer: the active items in
      order (none when the answer has no items), and a cursor exactly when the
      answer has a key to continue after. */
  function QueryTripsResultOf<K>(response: QueryResponse<K>, codec: Codec<K>): (r: QueryTripsResult)
    ensures response.items.None? ==> r.trips == []
    ensures response.items.Some? ==> r.trips == FilterActive(response.items.value)
    ensures r.nextCursor.Some? <==> response.lastEvaluatedKey.Some?
  {
    var items := if response.items.Some? then FilterActive(response.items.value) else [];
    var nextCursor := if response.lastEvaluatedKey.Some?
      then Some(Cursor.EncodeCursor(response.lastEvaluatedKey.value, codec.stringify, codec.utf8Encode))
      else None;
    QueryTripsResult(items, nextCursor)
  }

  /** `queryTripsByDevice`: an error when no table is configured, the result
      for the database's answer otherwise. */
  function QueryTripsByDevice<K>(tripsTableName: Option<string>, tripTableName: Option<string>,
                                 response: QueryResponse<K>, codec: Codec<K>): (r: Result<QueryTripsResult, string>)
    ensures GetTableName(tripsTableName, tripTableName).Err? <==> r.Err?
    ensures r.Ok? ==> r.value == QueryTripsResultOf(response, codec)
  {
    match GetTableName(tripsTableName, tripTableName)
    case Err(e) => Err(e)
    case Ok(_) => Ok(QueryTripsResultOf(response, codec))
  }

  /** Paging: passing a page's `nextCursor` back as the cursor makes the next
      query start after that page's last key, when the key's JSON and UTF-8
      conversions round-trip. */
  lemma NextPageStartsAfter<K>(deviceId: string, pageSize: Option<nat>, response: QueryResponse<K>, codec: Codec<K>)
    requires response.lastEvaluatedKey.Some?
    requires var key := response.lastEvaluatedKey.value;
      && codec.parse(codec.stringify(key)) == Some(key)
      && codec.utf8Decode(codec.utf8Encode(codec.stringify(key))) == codec.stringify(key)
      && codec.stringify(key) != "" && codec.utf8Decode([]) == ""
    ensures var next := QueryTripsResultOf(response, codec).nextCursor;
      QueryRequestOf(deviceId, pageSize, next, codec).exclusiveStartKey == response.lastEvaluatedKey
  {
    var key := response.lastEvaluatedKey.value;
    Cursor.CursorRoundTrip(key, codec.stringify, codec.parse, codec.utf8Encode, codec.utf8Decode);
  }

  // ---------------------------------------------------------------------------
  // getTripById

  /** The checks `getTripById` makes on the item it fetched. */
  function TripFor(deviceId: string, item: Option<TripRecord>): Option<TripRecord> {
    if item.None? || NormalizeStatus(item.value.status) == "" then None
    else if item.value.deviceId != Str(deviceId) then None
    else if IsActiveTrip(item.value) then item
    else None
  }

  /** The trip is returned exactly when it exists, belongs to the device and is
      active; in every other case the answer is null. */
  lemma TripForSpec(deviceId: string, item: Option<TripRecord>)
    ensures TripFor(deviceId, item).Some? <==>
      item.Some? && item.value.deviceId == Str(deviceId) && IsActiveTrip(item.value)
    ensures TripFor(deviceId, item).Some? ==> TripFor(deviceId, item) == item
  {
    if item.Some? && NormalizeStatus(item.value.status) == "" {
      EmptyStatusInactive(item.value);
    }
  }

  /** `getTripById`: an error when no table is configured. */
  function GetTripById(tripsTableName: Option<string>, tripTableName: Option<string>,
                       deviceId: string, item: Option<TripRecord>): (r: Result<Option<TripRecord>, string>)
    ensures GetTableName(tripsTableName, tripTableName).Err? <==> r.Err?
    ensures r.Ok? ==> r.value == TripFor(deviceId, item)
  {
    match GetTableName(tripsTableName, tripTableName)
    case Err(e) => Err(e)
    case Ok(_) => Ok(TripFor(deviceId, item))
  }
}
