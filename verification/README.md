# trip-data-resolver core, modelled in Dafny

The modelled system turns GPS logs from a vehicle tracker into trajectories. It
parses the tracker's comma-separated lines and thins them by time. It then
snaps the result to roads. With Mapbox, it cuts the trajectory into overlapping
chunks of 100 points, groups each chunk's points by the matching the service
assigned them, and stitches the returned segments together. Stitching drops
only each segment's leading points that repeat the last emitted point. With
AMap, it converts the path between WGS-84 and GCJ-02 around a single request. Around this core sit:

- the paging cursor of the trip list (base64url of JSON);
- the trip filters and lookups over DynamoDB answers;
- a browser cache of the trip list in `localStorage`;
- two maintenance scripts: one copies a table into LocalStack, the other
  deletes short trips. Both have an argument parser, environment lookups and a
  batch-write loop with exponential backoff.

Each source component is one Dafny module:

| Module | Models |
|---|---|
| `Seams` | ε-equality of points, `dropLeadingDuplicates`, and the segment fold shared by all three stitching loops |
| `ChunkPlanner` | `chunkCoordinates` |
| `MapboxMatching` | `callMapMatchingAPI`, `batchMapMatching`, `mapMatchTrajectory` |
| `AmapMatching` | `mapMatchTrajectoryAmap` |
| `Geo` | coordinate transforms |
| `Simplification` | time filter, simplification entry point, statistics |
| `GpsParser` | line parser |
| `Cursor` | base64url and cursor codec |
| `Trips` | trip queries |
| `TripStorage` | the `localStorage` cache, as a class over a map |
| `CliArgs`, `SyncScript`, `DeleteScript` | the scripts' configuration and batch loops |
| `BatchRetry` | the shared retry loop |

Shared modules:

- `Types`: the records of `src/types/index.ts`.
- `Wrappers`: Option and Result.
- `JsStrings`: the JavaScript string built-ins the code uses.
- `JsMath`: `Math.round`, `Math.trunc` and `%`.

Where the code loops, the model is a method with loop invariants, proved equal
to a specification function. The properties live in lemmas about that
function.

Inputs the model takes as parameters:

- Network replies: the Mapbox reply per chunk, the AMap reply, the DynamoDB
  answers, and the batch-write service as an oracle indexed by group, attempt
  and request.
- Functions whose code is not part of the repository: `parseFloat`,
  `parseInt`, `Date` construction, `Number`, JSON, UTF-8, `path.resolve`, the
  GCJ-02 offset `delta`, the bearing, `toFixed`, `Math.random` and
  `simplify-js`.

Two consequences of the code are worth knowing:

- With the defaults (100 points, overlap 3), a 250-point input is cut at 0, 97
  and 194 into chunks of 100, 100 and 56 points (`DefaultPlanOf250`).
- Only duplicates at segment seams are removed. Repeats inside a segment stay
  (`InteriorDuplicatesKept`). Overlap points that differ from the last emitted
  point come out again, as after a chunk's raw fallback
  (`OverlapRepeatedAfterRawFallback`).

## Model

| member | source | states |
|---|---|---|
| Seams.NearReflexiveSymmetric | src/lib/mapMatching.ts:77-83 | ε-equality holds of a point with itself and does not depend on the argument order |
| Seams.NearNotTransitive | src/lib/mapMatching.ts:77-83 | ε-equality is not transitive: there are points a, b, c with a≈b and b≈c but not a≈c |
| Seams.DropLeadingSpec | src/lib/mapMatching.ts:85-102 | what is dropped is exactly the longest prefix ε-equal to the last point: the result is a suffix, every dropped point is a duplicate, the first kept one is not, and nothing is dropped without a last point |
| Seams.DropLeadingDuplicates | src/lib/mapMatching.ts:85-102 | the index loop returns the input without its leading duplicates, as specified by DropLeading |
| Seams.SeamlessAt | src/lib/mapMatching.ts:184-198 | in fold output every segment is non-empty, the first does not repeat the incoming last point, and each later one does not start with a duplicate of the end of the one before |
| Seams.LastOfIsLastPoint | src/lib/mapMatching.ts:196-197 | after seamless segments, the tracked last coordinate is the final point of the last segment |
| Seams.StitchCons | src/lib/mapMatching.ts:271-282 | the fold over a segment followed by others emits that segment's normalised form, then folds the rest from the updated last point |
| Seams.StitchAt | src/lib/mapMatching.ts:271-282 | the same unfolding, taken at any position of the segment list |
| Seams.FoldStep | src/lib/mapMatching.ts:188-197 | one step emits nothing and keeps the last point when no point survives, and otherwise emits the survivors and moves the last point to their end |
| Seams.NormalizeStep | src/lib/mapMatching.ts:188-197 | one step emits at most one segment, of the input's type, non-empty and not starting with a duplicate, and moves the last point to its end |
| Seams.StitchIsSeamless | src/lib/mapMatching.ts:271-282 | the fold always yields seamless output, and its final last coordinate is the last emitted point |
| Seams.StitchKeepsSeamless | src/lib/mapMatching.ts:337-362 | the fold leaves already seamless input unchanged |
| Seams.StitchFixedIffSeamless | src/lib/mapMatching.ts:337-362 | the fold leaves a segment list unchanged if and only if it is seamless |
| Seams.StitchIdempotent | src/lib/mapMatching.ts:337-362 | folding the fold's output again changes nothing |
| Seams.StitchAppend | src/lib/mapMatching.ts:257-289 | the fold over two concatenated lists is the fold over the first, then the fold over the second started from the first's last point (one shared last coordinate across chunks) |
| Seams.InteriorDuplicatesKept | src/lib/mapMatching.ts:337-362 | a segment that repeats a point inside itself passes the fold unchanged, so the trajectory can hold consecutive duplicates |
| Seams.OverlapRepeatedAfterRawFallback | src/lib/mapMatching.ts:85-102 | stitching a chunk's raw fallback and the next chunk emits the shared overlap points twice, since only points ε-equal to the last emitted one are dropped |
| Seams.FlattenSnoc | src/lib/mapMatching.ts:360 | collecting points after one more segment appends exactly that segment's points |
| Seams.CoordsOfKindSnoc | src/lib/mapMatching.ts:349-353 | one more segment extends only the bucket of its own type |
| ChunkPlanner.ChunkCoordinates | src/lib/mapMatching.ts:45-71 | short input is one chunk; otherwise chunks are non-empty, at most maxSize long, and the first chunk plus every later one minus its overlap rebuilds the input |
| ChunkPlanner.PlanBounds | src/lib/mapMatching.ts:57-68 | the plan has at least one chunk and for non-empty input every chunk holds 1 to maxSize points |
| ChunkPlanner.PlanReassembles | src/lib/mapMatching.ts:57-68 | dropping each later chunk's first overlap points and concatenating gives exactly the input |
| ChunkPlanner.PlanWindows | src/lib/mapMatching.ts:57-68 | chunk k is the window starting at k·(maxSize − overlap) and running for maxSize points or to the end |
| ChunkPlanner.PlanLastEndsAtEnd | src/lib/mapMatching.ts:63-67 | the last chunk ends where the input ends |
| ChunkPlanner.PlanSeams | src/lib/mapMatching.ts:63-64 | consecutive chunks share exactly overlap points: each chunk's head repeats the previous chunk's tail |
| ChunkPlanner.DefaultPlanOf250 | src/lib/mapMatching.ts:4-5 | with the defaults a 250-point input is cut at 0, 97, 194 into chunks of 100, 100, 56 |
| MapboxMatching.NewRun | src/lib/mapMatching.ts:161 | a new run carries the given key and just the given point |
| MapboxMatching.Grow | src/lib/mapMatching.ts:155-156 | growing a run keeps its key and appends the point |
| MapboxMatching.ExtendOpen | src/lib/mapMatching.ts:163-167 | a point with the open run's key joins that run |
| MapboxMatching.ExtendClose | src/lib/mapMatching.ts:168-172 | a point with another key closes the open run and opens a new one |
| MapboxMatching.ExtendPartition | src/lib/mapMatching.ts:149-174 | one loop step keeps the runs a partition of the points read so far |
| MapboxMatching.GrowPartition | src/lib/mapMatching.ts:155-167 | adding a point to the open run keeps the partition |
| MapboxMatching.StartPartition | src/lib/mapMatching.ts:157-172 | opening a run with a key different from the open run's keeps the partition |
| MapboxMatching.GroupRunsPartition | src/lib/mapMatching.ts:149-178 | the runs concatenate to the input, every point sits in a run with its own key, no run is empty, and neighbouring runs have different keys |
| MapboxMatching.BuildRuns | src/lib/mapMatching.ts:144-178 | the run loop with its open segment returns the maximal constant-key partition of the chunk's points |
| MapboxMatching.ClassifyAt | src/lib/mapMatching.ts:200-220 | a run yields raw unless it is a match run not yet emitted, in which case the reference decision applies |
| MapboxMatching.ClassifyMatchesDecision | src/lib/mapMatching.ts:200-220 | run j is matched, with its matching's geometry, exactly when its matching exists, its confidence (missing = 0) reaches the threshold, and no earlier run has that index; otherwise it is raw with its own points |
| MapboxMatching.MatchedAtMostOnce | src/lib/mapMatching.ts:212-219 | two matched segments of one call come from different matching indices |
| MapboxMatching.PushSegment | src/lib/mapMatching.ts:184-198 | appends the segment without its leading duplicates, or nothing when none is left, and updates the last coordinate |
| MapboxMatching.CallMapMatchingApi | src/lib/mapMatching.ts:107-227 | an unusable or failed reply gives one raw segment holding the chunk; a usable one gives seamless segments |
| MapboxMatching.MatchChunkSeamless | src/lib/mapMatching.ts:121-226 | the segments of a call on a non-empty chunk are always seamless |
| MapboxMatching.BatchIsOneFold | src/lib/mapMatching.ts:246-289 | the single-chunk shortcut and the multi-chunk loop compute the same fold over all chunk results, so the batch is seamless |
| MapboxMatching.BatchMapMatching | src/lib/mapMatching.ts:232-290 | empty input gives no segments; otherwise the chunk results, called in order, are stitched through one shared last coordinate into seamless output |
| MapboxMatching.OrderSegments | src/lib/mapMatching.ts:331-362 | the final loop re-stitches the segments, puts each into the matched or raw bucket by type and collects all points in order |
| MapboxMatching.MapMatchTrajectory | src/lib/mapMatching.ts:295-372 | the ordered segments are the batch output unchanged; when that output is empty (an empty input, or replies that yield no segment) the input points come back as the trajectory with every bucket empty; otherwise the trajectory is the segments' points in order and the buckets are them filtered by type |
| AmapMatching.Speed | src/lib/mapMatchingAmap.ts:84 | the synthetic speed always lies in [5, 30] |
| AmapMatching.SpeedUnclamped | src/lib/mapMatchingAmap.ts:92 | inside the clamp the speed is the rounded value itself |
| AmapMatching.SpeedOfUnitDraw | src/lib/mapMatchingAmap.ts:84 | for a random draw in [0, 1) the speed lies in [10, 30], never reaching the lower clamp |
| AmapMatching.RequestPoints | src/lib/mapMatchingAmap.ts:69-97 | one request point per path point |
| AmapMatching.RequestPointsShape | src/lib/mapMatchingAmap.ts:86-94 | request timestamps start at the base, are one second apart and strictly increase; speeds lie in [5, 30] |
| AmapMatching.ChooseMatchedPath | src/lib/mapMatchingAmap.ts:101-129 | an unusable reply keeps the input path; a usable one gives one point per reply point, each coordinate the service's when numeric and the input's at that index (or its last point) otherwise |
| AmapMatching.MapMatchTrajectoryAmap | src/lib/mapMatchingAmap.ts:50-155 | empty input sends nothing and gives the empty result; otherwise one request point per input point, and exactly one segment typed matched (even on fallback), matched bucket its path, raw bucket empty |
| AmapMatching.FallbackPath | src/lib/mapMatchingAmap.ts:120-136 | on fallback each output point is the input point sent through both transforms, and equals it outside the box |
| AmapMatching.ReplyPath | src/lib/mapMatchingAmap.ts:101-136 | with a usable reply the output has one point per reply point, each the back-transform of the service's point with a missing coordinate taken from the GCJ-02 form of the input point at that index, or of the last input point past the input's end |
| Geo.Wgs84ToGcj02 | src/lib/geo.ts:50-56 | a point outside the box is returned unchanged |
| Geo.Gcj02ToWgs84 | src/lib/geo.ts:58-64 | a point outside the box is returned unchanged |
| Geo.OppositeOffsets | src/lib/geo.ts:50-64 | the two directions move a point by opposite offsets, so the point is the midpoint of its two images |
| Geo.RoundTripResidual | src/lib/geo.ts:50-64 | inside the box a round trip is off by exactly the difference of the offsets at the point and at its shifted image |
| Geo.RoundTripOutside | src/lib/geo.ts:5-7 | outside the box both round trips are exact |
| Geo.Wgs84PathToGcj | src/lib/geo.ts:66-68 | the path transform keeps the length and transforms each point in place |
| Geo.Gcj02PathToWgs | src/lib/geo.ts:70-72 | the path transform keeps the length and transforms each point in place |
| Types.ToCoordinates | src/lib/simplification.ts:75-76 | one pair per point, longitude from x and latitude from y |
| Types.ToTrajectory | src/lib/mapMatchingAmap.ts:25-27 | one point per pair, x from the longitude and y from the latitude |
| Types.CoordinatesRoundTrip | src/lib/mapMatching.ts:310-326 | the two conversions are inverse to each other in both directions |
| Simplification.ScanKept | src/lib/simplification.ts:26-34 | every index the loop keeps lies within the data, after the starting index |
| Simplification.KeptIndicesShape | src/lib/simplification.ts:21-39 | the output indices start at 0, end at the last input index and strictly increase, so the output is a subsequence of the input |
| Simplification.LoopKeptGaps | src/lib/simplification.ts:26-34 | each point the loop keeps is at least the interval after the point kept before it |
| Simplification.LoopKeptSkipsBetween | src/lib/simplification.ts:26-34 | each point the loop passes over is less than the interval after the point kept before it |
| Simplification.LoopKeptSkipsAfterLast | src/lib/simplification.ts:26-39 | every point after the last one the loop keeps is less than the interval after it, which is why the last point is appended |
| Simplification.FilterByTimeInterval | src/lib/simplification.ts:17-42 | empty input or a non-positive interval returns the input; otherwise the result is the loop's kept points plus the last point when the loop did not keep it |
| Simplification.FilterByTimeEnds | src/lib/simplification.ts:23-39 | the filter keeps the first and the last point and never adds points |
| Simplification.SimplifyTrajectory | src/lib/simplification.ts:44-52 | trajectories of at most two points are returned as they are; longer ones are handed to the simplification library |
| Simplification.ConvertGpsToTrajectory | src/lib/simplification.ts:4-9 | one point per record, x its longitude and y its latitude |
| Simplification.GpsToCoordinates | src/lib/simplification.ts:4-9 | converting records and then taking pairs reads each record's longitude and latitude |
| Simplification.CalculateStats | src/lib/simplification.ts:54-73 | the counts and the file size are passed through and an empty original gives ratio 0 |
| Simplification.CompressionRatioBounds | src/lib/simplification.ts:63-70 | the rounded ratio is within 0.005 of the exact one; when points were not added it lies in [0, 100], is 0 when nothing was removed and 100 when everything was |
| GpsParser.DdmmOfNonNegative | src/lib/gpsParser.ts:114-128 | a non-negative field gives whole degrees plus minutes in [0, 100) over 60, negated for S and W |
| GpsParser.DdmmOfUnparseable | src/lib/gpsParser.ts:115-116 | an unparseable field gives NaN |
| GpsParser.ParseDateTime | src/lib/gpsParser.ts:130-147 | a date or time field not six characters long gives no date |
| GpsParser.DateFields | src/lib/gpsParser.ts:134-142 | six-character fields build the date from year 2000 + YY and 0-based month MM − 1 |
| GpsParser.StripSemicolon | src/lib/gpsParser.ts:76 | exactly one trailing semicolon is removed, and a line without one is unchanged |
| GpsParser.ParseLineSpec | src/lib/gpsParser.ts:73-105 | a line gives a record iff it is not blank, has at least 9 fields, field 0 is A, both coordinates and the date convert; the record then carries those fields, and speed and the x, y, z accelerations are the parsed numbers of fields 7-10, or 0 where a field is absent or does not parse |
| GpsParser.ParseLinesOrder | src/lib/gpsParser.ts:69-111 | the output holds the records of exactly the lines that parse, in line order |
| GpsParser.AllValid | src/lib/gpsParser.ts:83 | every output record has valid = A |
| GpsParser.ParseGpsData | src/lib/gpsParser.ts:68-112 | the loop over the trimmed content's lines returns the records of the lines that parse, never more than there are lines |
| JsMath.Round | src/lib/simplification.ts:70 | `Math.round` gives the integer within half of the value, halves upward |
| JsMath.Trunc | src/lib/gpsParser.ts:119 | truncation rounds towards zero: for a non-negative value the greatest integer not above it, for a negative value the least integer not below it |
| JsMath.RemHundredBounds | src/lib/gpsParser.ts:119 | the remainder by 100 has the sign of the dividend and is below 100 in magnitude |
| JsMath.RemOfNonNegative | src/lib/gpsParser.ts:118-119 | for a non-negative dividend the truncated remainder agrees with the floored one |
| Cursor.AlphaInverse | src/lib/cursor.ts:24 | every base64 digit reads back as its value and is never `=`, `-` or `_` |
| Cursor.SextetsLength | src/lib/cursor.ts:24 | the encoding has four characters per three bytes plus two or three for a tail, never a length of 1 modulo 4, and is empty only for no bytes |
| Cursor.DecodeSextetsOfSextets | src/lib/cursor.ts:36 | decoding the 6-bit groups of some bytes gives those bytes back |
| Cursor.GroupRoundTrip | src/lib/cursor.ts:36 | splitting 24 bits into four 6-bit values and joining them again is the identity |
| Cursor.BodyShape | src/lib/cursor.ts:24 | the unpadded body has no whitespace and no `=`, `-` or `_`, reads back as its 6-bit values and has the length remainder above |
| Cursor.AtobOfEncodeStd | src/lib/cursor.ts:24-36 | `atob(btoa(x))` gives back the bytes |
| Cursor.UrlAlphabetRoundTrip | src/lib/cursor.ts:25-29 | the URL alphabet has no `+` or `/`, the reverse substitution has no `-` or `_`, and each undoes the other on text free of the characters it introduces, so decoding restores base64 text |
| Cursor.StripTrailingEquals | src/lib/cursor.ts:25 | the result is the longest prefix not ending in `=`, everything removed being `=` |
| Cursor.EncodeUrlShape | src/lib/cursor.ts:5-26 | the URL-safe text is the body in the URL alphabet and holds no `+`, `/` or `=` |
| Cursor.PadCount | src/lib/cursor.ts:35 | the pad count is the number of `=` that makes the length a multiple of 4 |
| Cursor.DecodeUrlOfEncodeUrl | src/lib/cursor.ts:28-36 | normalising and re-padding an encoding restores the padded base64 text, so `atob` gives the bytes back |
| Cursor.BinaryString | src/lib/cursor.ts:16-22 | the slice-by-slice loop builds the same one-character-per-byte string as all bytes at once |
| Cursor.BinaryToBytes | src/lib/cursor.ts:37-41 | the loop stores each character code, kept to its low 8 bits |
| Cursor.ToBase64UrlBrowser | src/lib/cursor.ts:14-25 | the path without Buffer produces the same text as the Buffer path and holds no `+`, `/` or `=` |
| Cursor.FromBase64UrlBrowser | src/lib/cursor.ts:28-45 | the decoder normalises, re-pads, decodes and fails exactly where `atob` throws |
| Cursor.Base64UrlRoundTrip | src/lib/cursor.ts:5-45 | decoding an encoding gives the text back whenever the text survives the UTF-8 round trip |
| Cursor.DecodeCursor | src/lib/cursor.ts:51-60 | an absent or empty cursor decodes to nothing |
| Cursor.CursorRoundTrip | src/lib/cursor.ts:47-60 | a cursor made from a payload decodes to that payload when its JSON and UTF-8 round-trip |
| Trips.NormalizeStatus | src/lib/trips.ts:23-26 | a falsy or non-string status gives the empty string; a string gives its upper-cased form, character by character |
| Trips.IsActiveTripSpec | src/lib/trips.ts:28-40 | a trip is active exactly when `deleted` is undefined, null, false, "false" or 0 and its status, in any letter case, is one of the four finished statuses |
| Trips.EmptyStatusInactive | src/lib/trips.ts:113-121 | a status normalising to "" never belongs to an active trip, so the early check in getTripById agrees with the final one |
| Trips.GetTableName | src/lib/trips.ts:14-21 | the first non-empty of the two variables is used; with neither the call fails; a success is never empty |
| Trips.FilterActiveSpec | src/lib/trips.ts:86-87 | the filter keeps exactly the active trips |
| Trips.FilterActiveAppend | src/lib/trips.ts:86-87 | the filter keeps order: it distributes over concatenation |
| Trips.QueryRequestOf | src/lib/trips.ts:53-82 | the page size defaults to 10 and an absent or empty cursor gives no start key |
| Trips.QueryTripsResultOf | src/lib/trips.ts:86-92 | the trips are the active items in order (none when there are no items), and a next cursor exists exactly when the answer has a last key |
| Trips.QueryTripsByDevice | src/lib/trips.ts:53-93 | the query fails exactly when no table name is configured, and otherwise returns the result for the answer |
| Trips.NextPageStartsAfter | src/lib/trips.ts:80-90 | feeding a page's next cursor back makes the next query start after that page's last key |
| Trips.TripForSpec | src/lib/trips.ts:111-121 | the trip is returned exactly when it exists, belongs to the device and is active, and then unchanged |
| Trips.GetTripById | src/lib/trips.ts:95-122 | the lookup fails exactly when no table name is configured, and otherwise returns the checked trip or null |
| TripStorage.StorageKeyInjective | src/lib/trip-storage.ts:24 | two devices share a storage key only when they are the same device |
| TripStorage.LocalStorage.constructor | src/lib/trip-storage.ts:10-18 | a fresh storage holds no items |
| TripStorage.LocalStorage.GetItem | src/lib/trip-storage.ts:34 | the stored value of the key, or null when it is missing |
| TripStorage.LocalStorage.SetItem | src/lib/trip-storage.ts:26 | the key now maps to the value and every other key is unchanged |
| TripStorage.LocalStorage.RemoveItem | src/lib/trip-storage.ts:43 | the key is gone and every other key is unchanged |
| TripStorage.SaveThenLoad | src/lib/trip-storage.ts:20-46 | loading right after saving gives the saved state back and leaves the storage alone, when the state's JSON parses back to it |
| TripStorage.LoadSpec | src/lib/trip-storage.ts:29-46 | nothing stored or another device's state gives null and no change; an unparsable payload gives null and removes the key; a state is answered only when this device's is stored |
| TripStorage.ClearedSpec | src/lib/trip-storage.ts:48-54 | clearing removes the device's key and nothing else |
| TripStorage.OtherDevicesUnaffected | src/lib/trip-storage.ts:20-54 | saving or clearing one device's state does not change what loading another device's state answers |
| TripStorage.SaveTripsState | src/lib/trip-storage.ts:20-27 | with storage, the device's key holds the state's JSON; without, nothing happens |
| TripStorage.LoadTripsState | src/lib/trip-storage.ts:29-46 | without storage the answer is null; with it, answer and storage afterwards are those the load specification gives |
| TripStorage.ClearTripsState | src/lib/trip-storage.ts:48-54 | with storage, the device's key is removed |
| CliArgs.Key | src/script/sync-ddb-to-localstack.js:27-30 | the key is the text after `--` up to the first `=` (or the end), and holds no `=` |
| CliArgs.InlineValue | src/script/sync-ddb-to-localstack.js:31-33 | the inline value is the text after the first `=`, so the token is `--` key `=` value |
| CliArgs.AssignKeys | src/script/sync-ddb-to-localstack.js:36 | the object's keys after the assignments are the old ones plus the assigned ones |
| CliArgs.AssignLastWins | src/script/sync-ddb-to-localstack.js:36 | the last assignment to a key decides its value |
| CliArgs.AssignUntouched | src/script/sync-ddb-to-localstack.js:36 | a key no assignment names keeps its value |
| CliArgs.AssignCons | src/script/sync-ddb-to-localstack.js:24-36 | one more assignment first is one more update first |
| CliArgs.SplitOption | src/script/sync-ddb-to-localstack.js:28-33 | cutting the token at its first `=` (or not at all) gives its key and its inline value |
| SyncScript.ParseArgs | src/script/sync-ddb-to-localstack.js:22-40 | the loop, with its index skip over a consumed flag value, returns the object the assignments specify |
| SyncScript.OptionStep | src/script/sync-ddb-to-localstack.js:26-37 | an option token assigns its key and value first, and parsing resumes after it, or after the following token when that token was taken as the value |
| SyncScript.PositionsMembers | src/script/sync-ddb-to-localstack.js:25-26 | the listed positions are exactly the option tokens |
| SyncScript.OptionsByPosition | src/script/sync-ddb-to-localstack.js:24-37 | each option token makes exactly one assignment of its own key, in order, and no other token makes one; an option is never swallowed as a value |
| SyncScript.ParsedKeyFromToken | src/script/sync-ddb-to-localstack.js:22-40 | every parsed key is the key of some option token |
| SyncScript.TokenKeyParsed | src/script/sync-ddb-to-localstack.js:22-40 | the key of every option token is parsed |
| SyncScript.ParsedLastWins | src/script/sync-ddb-to-localstack.js:31-36 | a key's value is what its last option token gives: the inline value, the following token, or "true" |
| SyncScript.OptionsLastWins | src/script/sync-ddb-to-localstack.js:31-36 | reading from any point with any object so far, the last option token of a key decides its value |
| SyncScript.GetSpec | src/script/sync-ddb-to-localstack.js:45-54 | the lookup finds nothing iff no key is on the command line or set non-empty under either environment name; a value found comes from one of those places |
| SyncScript.ResumeFile | src/script/sync-ddb-to-localstack.js:62-69 | "off" disables the resume file; no value resolves the default name |
| SyncScript.ReadConfig | src/script/sync-ddb-to-localstack.js:44-86 | the configuration fails exactly when the table name is missing or empty; otherwise it carries the found table name and disables the resume file exactly for "off" |
| SyncScript.OnlyTableGiven | src/script/sync-ddb-to-localstack.js:71-85 | with only --table given every other setting takes its documented default |
| SyncScript.NothingGiven | src/script/sync-ddb-to-localstack.js:45-54 | with no key on the command line and an empty environment nothing is found |
| SyncScript.Chunk | src/script/sync-ddb-to-localstack.js:112-116 | the pieces concatenate to the input; each holds size items except the last, which holds 1 to size |
| BatchRetry.ChunksSpec | src/script/delete-low-mileage.js:132-137 | the slices of 25 concatenate to the input, all full except the last, which is non-empty |
| BatchRetry.Backoff | src/script/sync-ddb-to-localstack.js:149 | the backoff lies between 1 s and 15 s |
| BatchRetry.BackoffSchedule | src/script/delete-low-mileage.js:160 | the backoff is 2 s, 4 s, 8 s on the first three retries and 15 s from the fourth on |
| BatchRetry.GroupRunWritten | src/script/sync-ddb-to-localstack.js:131-154 | a group that gets through adds exactly its size to the count, whatever was unprocessed on the way; one that gives up reports some items left |
| BatchRetry.PersistentFailureThrows | src/script/sync-ddb-to-localstack.js:139-151 | a service that never finishes a group makes the loop throw, and only after the first attempt and max(maxRetries, 0) retries: the waits are exactly the backoffs of retries 1 to maxRetries |
| BatchRetry.FinishesAt | src/script/sync-ddb-to-localstack.js:136-146 | a service that first finishes the group at attempt a: the group gets through iff a is the first attempt or a ≤ maxRetries, and then after the backoffs of retries 1 to a |
| BatchRetry.GroupWaitsCount | src/script/sync-ddb-to-localstack.js:139-151 | a group's waits are the backoffs of retries 1, 2, … in order, at most maxRetries of them, and exactly maxRetries when the group gives up |
| BatchRetry.RunWaitsBound | src/script/sync-ddb-to-localstack.js:125-155 | the groups from one index on wait at most maxRetries backoffs each |
| BatchRetry.RunWaitsOnError | src/script/sync-ddb-to-localstack.js:125-155 | a run that gives up ends with the backoffs of retries 1 to maxRetries of the group that ran out |
| BatchRetry.BatchWaitsCount | src/script/sync-ddb-to-localstack.js:121-158 | a batch call waits at most maxRetries backoffs per group of 25, and one that throws ends with all maxRetries backoffs of its last group |
| BatchRetry.BackoffsRange | src/script/sync-ddb-to-localstack.js:149 | every retry's backoff, from the first retry on, lies in [2 s, 15 s] |
| BatchRetry.RunWaitsRange | src/script/sync-ddb-to-localstack.js:125-155 | every wait of a run of groups lies in [2 s, 15 s] |
| BatchRetry.BatchWaitsRange | src/script/sync-ddb-to-localstack.js:121-158 | every wait of a batch call lies in [2 s, 15 s] |
| BatchRetry.NextSlice | src/script/delete-low-mileage.js:132-137 | walking the keys in steps of 25, the slice at `i` is the next group of 25 and the walk lines up with the following group |
| BatchRetry.FirstSendSucceeds | src/script/sync-ddb-to-localstack.js:137-139 | a group finished on the first send counts its size with no retry |
| BatchRetry.RunGroupsWritten | src/script/sync-ddb-to-localstack.js:125-157 | when every group gets through the count grows by the total number of items |
| BatchRetry.BatchOutcomeWritten | src/script/sync-ddb-to-localstack.js:121-158 | a batch call that returns reports every item as written |
| SyncScript.WriteGroup | src/script/sync-ddb-to-localstack.js:126-154 | one group's retry loop returns what GroupRun gives and waits what GroupWaits gives |
| SyncScript.BatchWriteAll | src/script/sync-ddb-to-localstack.js:121-158 | empty input returns 0 with no wait; success returns the number of items; every wait before a retry lies in [2 s, 15 s]; at most maxRetries waits per group of 25; a call that throws reports the items left and ends with all maxRetries backoffs of the group that ran out |
| DeleteScript.SameAsSync | src/script/delete-low-mileage.js:24-37 | the delete script's parser makes the same assignments as the sync script's, despite consuming the token after `--k=v` |
| DeleteScript.OptionStep | src/script/delete-low-mileage.js:26-34 | an option token assigns its key and value first, and parsing resumes after it, or after the following token whenever that token can be a value |
| DeleteScript.OptionAssigned | src/script/delete-low-mileage.js:26-34 | parsing on from an option token makes its assignment first, then goes on past the token and the value it took |
| DeleteScript.ReadOption | src/script/delete-low-mileage.js:30-34 | one option token gives its key, its value and the index after it and after the token taken by `argv[++i]` |
| DeleteScript.ParseArgs | src/script/delete-low-mileage.js:24-37 | the loop returns the object its assignments specify, the same object as the sync script's parser |
| DeleteScript.GetSpec | src/script/delete-low-mileage.js:42-49 | the lookup finds nothing iff no key is on the command line or present in the environment, empty values counting |
| DeleteScript.GetSkipsUnset | src/script/delete-low-mileage.js:42-49 | keys set nowhere are passed over; the first key set anywhere decides, command line first |
| DeleteScript.DryRunSpec | src/script/delete-low-mileage.js:78-80 | a dry run happens exactly when a value is given and it is 1, true or yes in any case |
| DeleteScript.ReadConfig | src/script/delete-low-mileage.js:41-82 | the configuration fails exactly when the table name is missing or empty or the threshold is not a finite non-negative number; otherwise it carries both |
| DeleteScript.OnlyTableGiven | src/script/delete-low-mileage.js:57-80 | with only --table given the threshold is 100, the partition key id, no sort key, and the run is real |
| DeleteScript.NothingGiven | src/script/delete-low-mileage.js:42-49 | with no key on the command line and an empty environment nothing is found |
| DeleteScript.AttrValueToPrimitive | src/script/delete-low-mileage.js:95-102 | the first present member among S, N, BOOL, NULL decides the result in that order; a missing value gives undefined and anything else its JSON |
| DeleteScript.ExtractKeyFromItem | src/script/delete-low-mileage.js:104-125 | fails exactly when the partition key or a configured sort key is missing; otherwise the key holds exactly those attributes, copied from the item |
| DeleteScript.AboveLimit | src/script/delete-low-mileage.js:154 | comparing a whole attempt count with a fractional limit is comparing it with the limit's floor |
| DeleteScript.DeleteSlice | src/script/delete-low-mileage.js:133-163 | one slice's retry loop returns what GroupRun gives and waits what GroupWaits gives, with the limit's floor as the retry limit |
| DeleteScript.BatchDelete | src/script/delete-low-mileage.js:127-168 | empty input returns 0 with no wait; success returns the number of keys; every wait before a retry lies in [2 s, 15 s]; at most floor(maxRetries) waits per slice of 25; a call that throws reports the keys left and ends with all the backoffs of the slice that ran out |
| Seams.DropLeading | src/lib/mapMatching.ts:85-102 | the input without its leading run of points ε-equal to the last point; never longer than the input (its meaning is DropLeadingSpec) |
| Seams.Stitch | src/lib/mapMatching.ts:271-282 | the segments the reconciling fold emits from a given last point; its properties are the Stitch lemmas above |
| MapboxMatching.Classify | src/lib/mapMatching.ts:200-220 | the segment each run yields, one per run, with the emitted-set bookkeeping (characterised by ClassifyAt and ClassifyMatchesDecision) |
| MapboxMatching.MatchChunk | src/lib/mapMatching.ts:121-226 | one raw copy of the chunk for an unusable reply, else the runs classified and stitched (CallMapMatchingApi is proved equal to it) |
| MapboxMatching.BatchMatch | src/lib/mapMatching.ts:232-290 | no segments for empty input, else the stitched results of the default chunk plan in call order (BatchMapMatching is proved equal to it) |
| AmapMatching.MatchedGcj | src/lib/mapMatchingAmap.ts:101-129 | the input path for an unusable reply, else the reply's points with missing coordinates filled from the input |
| AmapMatching.AmapOutcome | src/lib/mapMatchingAmap.ts:50-155 | the empty result for empty input, else one matched segment holding the back-transformed matched path |
| GpsParser.DdmmToDecimal | src/lib/gpsParser.ts:114-128 | degrees and minutes to decimal degrees, NaN for an unparseable field (DdmmOfNonNegative, DdmmOfUnparseable) |
| GpsParser.ParseLine | src/lib/gpsParser.ts:73-105 | the record one line gives, or none when the loop skips it (ParseLineSpec) |
| Cursor.Atob | src/lib/cursor.ts:36 | forgiving-base64 decoding: whitespace removed, padding checked, the bytes or a failure where `atob` throws |
| Cursor.ToBase64Url | src/lib/cursor.ts:5-12 | the unpadded URL-alphabet base64 of the UTF-8 bytes (EncodeUrlShape, Base64UrlRoundTrip) |
| Cursor.FromBase64Url | src/lib/cursor.ts:28-45 | normalise, re-pad, `atob`, UTF-8 decode; none where `atob` throws (Base64UrlRoundTrip) |
| Cursor.EncodeCursor | src/lib/cursor.ts:47-49 | the base64url text of the payload's JSON (CursorRoundTrip) |
| Trips.IsActiveTrip | src/lib/trips.ts:28-40 | the active-trip test (IsActiveTripSpec states it as an iff) |
| Trips.FilterActive | src/lib/trips.ts:86-87 | the active items in order, never more than the input (FilterActiveSpec, FilterActiveAppend) |
| Trips.TripFor | src/lib/trips.ts:111-121 | the checks on a fetched trip (TripForSpec) |
| TripStorage.Saved | src/lib/trip-storage.ts:20-27 | the storage after a save: the device's key maps to the state's JSON (SaveThenLoad, OtherDevicesUnaffected) |
| TripStorage.Loaded | src/lib/trip-storage.ts:29-46 | the answer of a load and the storage after it (LoadSpec) |
| TripStorage.Cleared | src/lib/trip-storage.ts:48-54 | the storage after a clear (ClearedSpec) |
| BatchRetry.GroupRun | src/script/sync-ddb-to-localstack.js:131-154 | the retry loop of one group: the count, or the items left when retries run out (GroupRunWritten, PersistentFailureThrows, FinishesAt, FirstSendSucceeds) |
| BatchRetry.GroupWaits | src/script/sync-ddb-to-localstack.js:139-151 | the backoffs one group waits before its retries (GroupWaitsCount, PersistentFailureThrows, FinishesAt) |
| BatchRetry.BatchWaits | src/script/sync-ddb-to-localstack.js:121-158 | the backoffs a whole batch call waits (BatchWaitsCount, BatchWaitsRange) |
| BatchRetry.RunGroups | src/script/sync-ddb-to-localstack.js:125-157 | the groups one after the other, stopping at the first that gives up (RunGroupsWritten) |
| BatchRetry.BatchOutcome | src/script/sync-ddb-to-localstack.js:121-158 | 0 for no items, else the run over the groups of 25 (BatchOutcomeWritten) |
| SyncScript.Options | src/script/sync-ddb-to-localstack.js:22-40 | the assignments the parser makes, in order (OptionsByPosition, OptionsLastWins) |
| SyncScript.Get | src/script/sync-ddb-to-localstack.js:45-54 | the first key found on the command line or, non-empty, in the environment under either name (GetSpec) |
| DeleteScript.Parsed | src/script/delete-low-mileage.js:24-37 | the object this script's parser returns: its assignments made in order (ParseArgs, SameAsSync) |
| DeleteScript.Get | src/script/delete-low-mileage.js:42-49 | the first key found on the command line or in the environment, empty values counting (GetSpec, GetSkipsUnset) |
| DeleteScript.DryRun | src/script/delete-low-mileage.js:78-80 | whether the dry-run setting is one of 1, true, yes in any case (DryRunSpec) |

## Left out

- Network calls are not modelled: the `fetch` calls to Mapbox and AMap, and the DynamoDB `QueryCommand`, `GetCommand`, `BatchWriteItemCommand` and `paginateScan`. Their parsed answers are inputs. A non-ok status, an unreadable body and a thrown error are one "failed" reply, because all three take the same path.
- The server-side `FilterExpression`, the index name and the scan direction of the trip query are not modelled. They only shape what DynamoDB returns, and the answer is an input.
- The `onProgress` callbacks, the 250 ms delay between chunks, and the `sleep` before each retry are not modelled, because they do not affect the result.
- The random jitter added to each backoff is not modelled; the waits list holds the backoff only.
- `console` logging and `process.exit` are not modelled; exit becomes an error result.
- `delta`, `transformLat` and `transformLon` are not modelled. The floating-point offset is an uninterpreted parameter, so no bound on the transform round trip inside the box is claimed.
- `calculateBearing`, `Math.random` and `toFixed` are parameters. Only the speed clamp and the timestamps are stated about the request points.
- AmapMatching.RequestPoints: the `index === 0` branch is identical to the other one, so both are one expression.
- `simplify-js` is an opaque parameter. No Douglas–Peucker guarantee is claimed.
- JSZip, `File`, `parseGPSFile`, `parseZipFile` and `extractTimestampFromFilename` are not modelled, because they are file I/O and a foreign library.
- `parseFloat`, `parseInt` and `Date` construction are parameters, with NaN and an invalid date as `None`.
- The `try`/`catch` around each line of `parseGPSData` is not modelled: no modelled step throws.
- `Date.now()` in the AMap code is a parameter (`baseTimestamp`).
- Floating-point arithmetic is exact real arithmetic in the model. `Number` wrap-around, rounding error and NaN propagation are not modelled. The ε comparison and the compression ratio are therefore exact.
- Cursor: the Node `Buffer` decoder is not modelled. The model uses the path without `Buffer` (`atob`). Buffer's acceptance of malformed input differs from `atob`, and that leniency is not modelled. The two encoders are proved to give the same text.
- UTF-8 encoding and decoding and `JSON.stringify`/`JSON.parse` are parameters. The round trips assume that they round-trip.
- Case mapping in `toUpperCase`/`toLowerCase` covers ASCII letters only.
- TripStorage.Loaded: the stored state's `deviceId` is a string. A payload whose `deviceId` is missing or not a string is read as a state with some other device's id; the model does not say which.
- GpsParser.ParseLine: `parseFloat` is a parameter that gives no number for a non-finite result. A speed or acceleration field reading `Infinity` is kept by the source but is 0 in the model.
- Trip attributes are undefined, null, a boolean, a number, a string or "other" (any object or array). NaN is not represented, so a NaN `deleted` or `status` is not modelled.
- Simplification.FilterByTimeInterval: the identity test `!==` on the last point compares positions. Two indices holding the same object are not modelled.
- getStorage's `window` check and its `try` are folded into a nullable storage argument (`null` = no storage). The storage's quota errors are not modelled.
- PersistedTripState's `trips: unknown[]` is a sequence of opaque strings.
- `dynamodb.ts`, both scripts' `main` drivers, the resume-state file I/O (`loadResumeState`, `saveResumeState`, `clearResumeState`) and `formatFileSize` are not modelled. They are SDK clients, file I/O and float formatting.
- Object keys such as `__proto__` that a JavaScript object treats specially are ordinary map keys in the model.
- SyncScript.Chunk: requires a positive size, because a size of 0 or less never ends the source loop; its only caller passes 25.
- SyncScript.BatchWriteAll: `maxRetries` is an integer here. A NaN limit from `parseInt` makes `attempt > NaN` false, so the source retries forever; that case is not modelled.
- DeleteScript.BatchDelete: `maxRetries` is a finite real. A NaN or +Infinity limit from `Number` retries forever in the source, and -Infinity gives up on the first failed send like any negative limit; these non-finite limits are not modelled.
- DeleteScript.ReadConfig: only the settings' values are modelled; `pageLimit` and `rateSleepMs` feed the scan driver, which is not modelled.
