/** The tracepoint-indexed provider of src/lib/mapMatching.ts
    (`callMapMatchingAPI`, `batchMapMatching`, `mapMatchTrajectory`).
    The HTTP exchange is not modelled: each call's parsed reply is an input. */
module MapboxMatching {
  import opened Wrappers
  import opened Types
  import opened Seams
  import CP = ChunkPlanner

  /** `MAP_MATCH_DEFAULT_CONFIDENCE` */
  const DefaultConfidence: real := 0.5

  /** One entry of `tracepoints`; a `null` entry is `None` in the list. */
  datatype Tracepoint = Tracepoint(matchingsIndex: Option<int>)

  /** One entry of `matchings`: its snapped geometry and its (optional) confidence. */
  datatype Matching = Matching(geometry: seq<Coord>, confidence: Option<real>)

  /** What one call to the service yields: `Failed` when `fetch` throws, the
      status is not ok or the body does not parse; otherwise the parsed body. */
  datatype MatchingReply =
    | Failed
    | Reply(code: string, matchings: Option<seq<Matching>>, tracepoints: Option<seq<Option<Tracepoint>>>)

  /** `data.tracepoints?.[index]?.matchings_index`, with undefined and null both `None`. */
  function TraceKey(tracepoints: Option<seq<Option<Tracepoint>>>, i: nat): Option<int> {
    if tracepoints.None? || i >= |tracepoints.value| || tracepoints.value[i].None? then None
    else tracepoints.value[i].value.matchingsIndex
  }

  function TraceKeys(tracepoints: Option<seq<Option<Tracepoint>>>, n: nat): (r: seq<Option<int>>)
    ensures |r| == n && forall i :: 0 <= i < n ==> r[i] == TraceKey(tracepoints, i)
  {
    seq(n, i requires 0 <= i < n => TraceKey(tracepoints, i))
  }

  // ---------------------------------------------------------------------------
  // Runs: maximal stretches of consecutive points with the same tracepoint key

  /** A `{type: "raw"}` or `{type: "match", matchIndex}` run of input points. */
  datatype Run = RawRun(coords: seq<Coord>) | MatchRun(matchIndex: int, coords: seq<Coord>) {
    function Key(): Option<int> {
      if RawRun? then None else Some(matchIndex)
    }
  }

  function NewRun(key: Option<int>, c: Coord): (r: Run)
    ensures r.Key() == key && r.coords == [c]
  {
    if key.None? then RawRun([c]) else MatchRun(key.value, [c])
  }

  /** One loop step: the point joins the open run when its key is the run's key,
      else the open run is closed and a new one is opened. */
  function Extend(runs: seq<Run>, key: Option<int>, c: Coord): seq<Run> {
    if runs != [] && runs[|runs| - 1].Key() == key then
      runs[..|runs| - 1] + [Grow(runs[|runs| - 1], c)]
    else runs + [NewRun(key, c)]
  }

  /** The open run with one more point. */
  function Grow(r: Run, c: Coord): (g: Run)
    ensures g.Key() == r.Key() && g.coords == r.coords + [c]
  {
    r.(coords := r.coords + [c])
  }

  /** The runs the grouping loop has built after reading `coords` with their `keys`. */
  function GroupRuns(coords: seq<Coord>, keys: seq<Option<int>>): seq<Run>
    requires |keys| == |coords|
    decreases |coords|
  {
    if coords == [] then []
    else
      var n := |coords| - 1;
      Extend(GroupRuns(coords[..n], keys[..n]), keys[n], coords[n])
  }

  /** All points of the runs, in order. */
  function RunPoints(runs: seq<Run>): seq<Coord>
    decreases |runs|
  {
    if runs == [] then [] else RunPoints(runs[..|runs| - 1]) + runs[|runs| - 1].coords
  }

  /** The key of every point of one run. */
  function KeysOf(r: Run): seq<Option<int>> {
    Repeat(r.Key(), |r.coords|)
  }

  function Repeat<T>(x: T, n: nat): (r: seq<T>)
    ensures |r| == n
    decreases n
  {
    if n == 0 then [] else Repeat(x, n - 1) + [x]
  }

  /** The key of every point of the runs, in order. */
  function RunKeys(runs: seq<Run>): seq<Option<int>>
    decreases |runs|
  {
    if runs == [] then [] else RunKeys(runs[..|runs| - 1]) + KeysOf(runs[|runs| - 1])
  }

  lemma RunsSnoc(runs: seq<Run>, r: Run)
    ensures RunPoints(runs + [r]) == RunPoints(runs) + r.coords
    ensures RunKeys(runs + [r]) == RunKeys(runs) + KeysOf(r)
  {
    assert (runs + [r])[..|runs|] == runs;
  }

  lemma KeysOfGrow(r: Run, c: Coord)
    ensures KeysOf(Grow(r, c)) == KeysOf(r) + [r.Key()]
  {
    assert |Grow(r, c).coords| == |r.coords| + 1;
  }

  /** The runs form a partition into maximal constant-key stretches. */
  ghost predicate IsRunPartition(runs: seq<Run>, coords: seq<Coord>, keys: seq<Option<int>>) {
    && (forall j :: 0 <= j < |runs| ==> runs[j].coords != [])
    && (forall i, j :: 0 <= i < j < |runs| && j == i + 1 ==> runs[i].Key() != runs[j].Key())
    && RunPoints(runs) == coords
    && RunKeys(runs) == keys
  }

  lemma ExtendPartition(runs: seq<Run>, coords: seq<Coord>, keys: seq<Option<int>>, k: Option<int>, c: Coord)
    requires IsRunPartition(runs, coords, keys)
    ensures IsRunPartition(Extend(runs, k, c), coords + [c], keys + [k])
  {
    if runs != [] && runs[|runs| - 1].Key() == k {
      var n := |runs| - 1;
      assert runs == runs[..n] + [runs[n]];
      GrowPartition(runs[..n], runs[n], coords, keys, c);
    } else {
      StartPartition(runs, coords, keys, k, c);
    }
  }

  lemma GrowPartition(closed: seq<Run>, open: Run, coords: seq<Coord>, keys: seq<Option<int>>, c: Coord)
    requires IsRunPartition(closed + [open], coords, keys)
    ensures IsRunPartition(closed + [Grow(open, c)], coords + [c], keys + [open.Key()])
  {
    var runs, grown := closed + [open], Grow(open, c);
    var ext := closed + [grown];
    assert RunPoints(ext) == coords + [c] by {
      RunsSnoc(closed, open);
      RunsSnoc(closed, grown);
      assert RunPoints(ext) == RunPoints(closed) + (open.coords + [c]);
    }
    assert RunKeys(ext) == keys + [open.Key()] by {
      RunsSnoc(closed, open);
      RunsSnoc(closed, grown);
      KeysOfGrow(open, c);
      assert RunKeys(ext) == RunKeys(closed) + (KeysOf(open) + [open.Key()]);
    }
    assert forall j :: 0 <= j < |ext| ==> ext[j].coords != [] by {
      forall j | 0 <= j < |ext| ensures ext[j].coords != [] {
        if j < |closed| {
          assert ext[j] == runs[j];
        }
      }
    }
    assert forall i, j :: 0 <= i < j < |ext| && j == i + 1 ==> ext[i].Key() != ext[j].Key() by {
      forall i, j | 0 <= i < j < |ext| && j == i + 1 ensures ext[i].Key() != ext[j].Key() {
        assert ext[i] == runs[i] && ext[j].Key() == runs[j].Key();
      }
    }
  }

  lemma StartPartition(runs: seq<Run>, coords: seq<Coord>, keys: seq<Option<int>>, k: Option<int>, c: Coord)
    requires IsRunPartition(runs, coords, keys)
    requires runs != [] ==> runs[|runs| - 1].Key() != k
    ensures IsRunPartition(runs + [NewRun(k, c)], coords + [c], keys + [k])
  {
    var started := NewRun(k, c);
    var ext := runs + [started];
    RunsSnoc(runs, started);
    assert KeysOf(started) == [k];
    forall j | 0 <= j < |ext| ensures ext[j].coords != [] {
      if j < |runs| {
        assert ext[j] == runs[j];
      }
    }
    forall i, j | 0 <= i < j < |ext| && j == i + 1 ensures ext[i].Key() != ext[j].Key() {
      assert ext[i] == runs[i];
      if j < |runs| {
        assert ext[j] == runs[j];
      }
    }
  }

  /** Grouping partitions the points in order: concatenating the runs gives the
      input back, every point sits in a run carrying its own key (raw exactly when
      the key is missing), no run is empty, and neighbouring runs have different
      keys, so neighbouring points with the same key share a run. */
  lemma {:induction false} GroupRunsPartition(coords: seq<Coord>, keys: seq<Option<int>>)
    requires |keys| == |coords|
    ensures IsRunPartition(GroupRuns(coords, keys), coords, keys)
    decreases |coords|
  {
    if coords != [] {
      var n := |coords| - 1;
      var prefix, keysPrefix := coords[..n], keys[..n];
      GroupRunsPartition(prefix, keysPrefix);
      ExtendPartition(GroupRuns(prefix, keysPrefix), prefix, keysPrefix, keys[n], coords[n]);
      assert prefix + [coords[n]] == coords;
      assert keysPrefix + [keys[n]] == keys;
    }
  }

  /** A point whose key is the open run's key grows that run. */
  lemma ExtendOpen(closed: seq<Run>, open: Run, c: Coord)
    ensures Extend(closed + [open], open.Key(), c) == closed + [Grow(open, c)]
  {
    assert (closed + [open])[..|closed|] == closed;
  }

  /** A point with another key closes the open run and opens a new one. */
  lemma ExtendClose(closed: seq<Run>, open: Run, key: Option<int>, c: Coord)
    requires open.Key() != key
    ensures Extend(closed + [open], key, c) == (closed + [open]) + [NewRun(key, c)]
  {
  }

  /** The run loop of `callMapMatchingAPI` with its open `currentSegment`. */
  method BuildRuns(coordinates: seq<Coord>, tracepoints: Option<seq<Option<Tracepoint>>>) returns (segments: seq<Run>)
    ensures segments == GroupRuns(coordinates, TraceKeys(tracepoints, |coordinates|))
    ensures IsRunPartition(segments, coordinates, TraceKeys(tracepoints, |coordinates|))
  {
    var keys := TraceKeys(tracepoints, |coordinates|);
    segments := [];
    var currentSegment: Option<Run> := None;
    for index := 0 to |coordinates|
      invariant currentSegment.None? <==> index == 0
      invariant segments + (if currentSegment.Some? then [currentSegment.value] else [])
             == GroupRuns(coordinates[..index], keys[..index])
    {
      var matchIndex := TraceKey(tracepoints, index);
      var coordinate := coordinates[index];
      ghost var before := GroupRuns(coordinates[..index], keys[..index]);
      assert GroupRuns(coordinates[..index + 1], keys[..index + 1]) == Extend(before, matchIndex, coordinate) by {
        assert coordinates[..index + 1][..index] == coordinates[..index];
        assert keys[..index + 1][..index] == keys[..index];
      }
      if currentSegment.Some? {
        if currentSegment.value.Key() == matchIndex {
          ExtendOpen(segments, currentSegment.value, coordinate);
        } else {
          ExtendClose(segments, currentSegment.value, matchIndex, coordinate);
        }
      }
      if matchIndex.None? {
        if currentSegment.Some? && currentSegment.value.RawRun? {
          currentSegment := Some(RawRun(currentSegment.value.coords + [coordinate]));
        } else {
          if currentSegment.Some? {
            segments := segments + [currentSegment.value];
          }
          currentSegment := Some(RawRun([coordinate]));
        }
      } else if currentSegment.Some? && currentSegment.value.MatchRun?
             && currentSegment.value.matchIndex == matchIndex.value {
        currentSegment := Some(MatchRun(matchIndex.value, currentSegment.value.coords + [coordinate]));
      } else {
        if currentSegment.Some? {
          segments := segments + [currentSegment.value];
        }
        currentSegment := Some(MatchRun(matchIndex.value, [coordinate]));
      }
    }
    if currentSegment.Some? {
      segments := segments + [currentSegment.value];
    }
    assert coordinates[..|coordinates|] == coordinates && keys[..|coordinates|] == keys;
    GroupRunsPartition(coordinates, keys);
  }

  // ---------------------------------------------------------------------------
  // Classification: each run becomes a `matched` or a `raw` segment

  /** `matching?.confidence ?? 0` for an existing matching. */
  function Confidence(m: Matching): real {
    m.confidence.GetOr(0.0)
  }

  /** The run's matching exists and its confidence reaches the threshold. */
  predicate Trusted(matchings: seq<Matching>, k: int, threshold: real) {
    0 <= k < |matchings| && Confidence(matchings[k]) >= threshold
  }

  /** A matched run is accepted when its matching is trusted and not yet in
      `emitted`. */
  predicate Accepts(r: Run, matchings: seq<Matching>, threshold: real, emitted: set<int>) {
    r.MatchRun? && Trusted(matchings, r.matchIndex, threshold) && r.matchIndex !in emitted
  }

  /** The segment one run yields: an accepted run yields its matching's geometry,
      any other run its own points as raw. */
  function ClassOf(r: Run, matchings: seq<Matching>, threshold: real, emitted: set<int>): Segment {
    if Accepts(r, matchings, threshold, emitted) then Segment(Matched, matchings[r.matchIndex].geometry)
    else Segment(Raw, r.coords)
  }

  /** The emitted set after one run. */
  function EmittedAfter(r: Run, matchings: seq<Matching>, threshold: real, emitted: set<int>): set<int> {
    if Accepts(r, matchings, threshold, emitted) then emitted + {r.matchIndex} else emitted
  }

  /** The segment each run yields, before seam deduplication, one per run. */
  function Classify(runs: seq<Run>, matchings: seq<Matching>, threshold: real, emitted: set<int>): (r: seq<Segment>)
    ensures |r| == |runs|
    decreases |runs|
  {
    if runs == [] then []
    else
      [ClassOf(runs[0], matchings, threshold, emitted)]
        + Classify(runs[1..], matchings, threshold, EmittedAfter(runs[0], matchings, threshold, emitted))
  }

  /** No earlier run carries the key of run `j`. */
  predicate FirstWithKey(runs: seq<Run>, j: nat)
    requires j < |runs|
  {
    forall i :: 0 <= i < j ==> runs[i].Key() != runs[j].Key()
  }

  /** The reference decision for run `j`, stated without the emitted-set
      bookkeeping: matched, with the matching's own geometry, exactly when the run
      has a trusted matching and is the first run with that index. */
  function Decision(runs: seq<Run>, matchings: seq<Matching>, threshold: real, j: nat): Segment
    requires j < |runs|
  {
    var r := runs[j];
    if r.MatchRun? && Trusted(matchings, r.matchIndex, threshold) && FirstWithKey(runs, j)
    then Segment(Matched, matchings[r.matchIndex].geometry)
    else Segment(Raw, r.coords)
  }

  lemma {:induction false} ClassifyAt(runs: seq<Run>, matchings: seq<Matching>, threshold: real, emitted: set<int>, j: nat)
    requires j < |runs|
    ensures Classify(runs, matchings, threshold, emitted)[j]
         == if runs[j].MatchRun? && runs[j].matchIndex !in emitted then Decision(runs, matchings, threshold, j)
            else Segment(Raw, runs[j].coords)
    decreases |runs|
  {
    var r := runs[0];
    var emitted' := EmittedAfter(r, matchings, threshold, emitted);
    if j > 0 {
      var tail := runs[1..];
      ClassifyAt(tail, matchings, threshold, emitted', j - 1);
      assert tail[j - 1] == runs[j];
      var rj := runs[j];
      if rj.MatchRun? && Trusted(matchings, rj.matchIndex, threshold) {
        var k := rj.matchIndex;
        assert FirstWithKey(runs, j) <==> r.Key() != Some(k) && FirstWithKey(tail, j - 1) by {
          if FirstWithKey(runs, j) {
            forall i | 0 <= i < j - 1 ensures tail[i].Key() != tail[j - 1].Key() {
              assert tail[i] == runs[i + 1];
            }
          }
          if r.Key() != Some(k) && FirstWithKey(tail, j - 1) {
            forall i | 0 <= i < j ensures runs[i].Key() != runs[j].Key() {
              if i > 0 { assert runs[i] == tail[i - 1]; }
            }
          }
        }
      }
    }
  }

  /** Classification with nothing emitted yet agrees with the reference decision
      for every run. */
  lemma ClassifyMatchesDecision(runs: seq<Run>, matchings: seq<Matching>, threshold: real)
    ensures forall j :: 0 <= j < |runs| ==>
      Classify(runs, matchings, threshold, {})[j] == Decision(runs, matchings, threshold, j)
  {
    forall j | 0 <= j < |runs|
      ensures Classify(runs, matchings, threshold, {})[j] == Decision(runs, matchings, threshold, j)
    {
      ClassifyAt(runs, matchings, threshold, {}, j);
    }
  }

  /** Each matching index yields a `matched` segment at most once per call. */
  lemma MatchedAtMostOnce(runs: seq<Run>, matchings: seq<Matching>, threshold: real, i: nat, j: nat)
    requires i < j < |runs|
    requires Classify(runs, matchings, threshold, {})[i].kind == Matched
    requires Classify(runs, matchings, threshold, {})[j].kind == Matched
    ensures runs[i].MatchRun? && runs[j].MatchRun? && runs[i].matchIndex != runs[j].matchIndex
  {
    ClassifyAt(runs, matchings, threshold, {}, i);
    ClassifyAt(runs, matchings, threshold, {}, j);
  }

  // ---------------------------------------------------------------------------
  // One provider call

  /** The reply cannot be used: failed exchange, `code` other than "Ok", or no
      matchings. */
  predicate Unusable(reply: MatchingReply) {
    reply.Failed? || reply.code != "Ok" || reply.matchings.None? || |reply.matchings.value| == 0
  }

  /** What `callMapMatchingAPI` returns for `coords` given the service's reply. */
  function MatchChunk(coords: seq<Coord>, reply: MatchingReply, threshold: real): seq<Segment> {
    if Unusable(reply) then [Segment(Raw, coords)]
    else
      var runs := GroupRuns(coords, TraceKeys(reply.tracepoints, |coords|));
      Stitch(Classify(runs, reply.matchings.value, threshold, {}), None)
  }

  /** `pushSegment`: append the segment without its leading duplicates, unless
      nothing is left, and move `lastCoordinate`. */
  method PushSegment(chunkSegments: seq<Segment>, lastCoordinate: Option<Coord>, kind: Kind, segmentCoordinates: seq<Coord>)
    returns (segments': seq<Segment>, last': Option<Coord>)
    ensures segments' == chunkSegments + Normalize(Segment(kind, segmentCoordinates), lastCoordinate)
    ensures last' == NextLast(Segment(kind, segmentCoordinates), lastCoordinate)
  {
    var normalized := DropLeadingDuplicates(segmentCoordinates, lastCoordinate);
    if |normalized| == 0 {
      return chunkSegments, lastCoordinate;
    }
    segments' := chunkSegments + [Segment(kind, normalized)];
    last' := Some(normalized[|normalized| - 1]);
  }

  /** `callMapMatchingAPI` with the reply given: the run loop, then the emission
      loop over runs with its `emittedMatchings` set. Any unusable reply falls
      back to one raw segment holding the input; a usable one gives seamless
      output. */
  method CallMapMatchingApi(coordinates: seq<Coord>, reply: MatchingReply, confidenceThreshold: real)
    returns (chunkSegments: seq<Segment>)
    ensures chunkSegments == MatchChunk(coordinates, reply, confidenceThreshold)
    ensures Unusable(reply) ==> chunkSegments == [Segment(Raw, coordinates)]
    ensures !Unusable(reply) ==> Seamless(chunkSegments, None)
  {
    if Unusable(reply) {
      return [Segment(Raw, coordinates)];
    }
    var segments := BuildRuns(coordinates, reply.tracepoints);
    var matchings := reply.matchings.value;
    var emittedMatchings: set<int> := {};
    chunkSegments := [];
    var lastCoordinate: Option<Coord> := None;
    ghost var total := Stitch(Classify(segments, matchings, confidenceThreshold, {}), None);
    for j := 0 to |segments|
      invariant chunkSegments + Stitch(Classify(segments[j..], matchings, confidenceThreshold, emittedMatchings), lastCoordinate)
             == total
    {
      var segment := segments[j];
      ghost var rest := Classify(segments[j + 1..], matchings, confidenceThreshold,
        EmittedAfter(segment, matchings, confidenceThreshold, emittedMatchings));
      ghost var here := ClassOf(segment, matchings, confidenceThreshold, emittedMatchings);
      assert segments[j..][0] == segment && segments[j..][1..] == segments[j + 1..];
      assert Classify(segments[j..], matchings, confidenceThreshold, emittedMatchings) == [here] + rest;
      StitchCons(chunkSegments, here, rest, lastCoordinate);
      ghost var old_emitted := emittedMatchings;
      var kind: Kind;
      var pushed: seq<Coord>;
      if segment.RawRun? {
        kind, pushed := Raw, segment.coords;
      } else if !Trusted(matchings, segment.matchIndex, confidenceThreshold) || segment.matchIndex in emittedMatchings {
        kind, pushed := Raw, segment.coords;
      } else {
        assert Accepts(segment, matchings, confidenceThreshold, emittedMatchings);
        var matching := matchings[segment.matchIndex];
        kind, pushed := Matched, matching.geometry;
        emittedMatchings := emittedMatchings + {segment.matchIndex};
      }
      assert here == Segment(kind, pushed);
      ghost var before := chunkSegments;
      ghost var previous := lastCoordinate;
      chunkSegments, lastCoordinate := PushSegment(chunkSegments, lastCoordinate, kind, pushed);
      assert emittedMatchings == EmittedAfter(segment, matchings, confidenceThreshold, old_emitted);
      assert chunkSegments == before + Normalize(here, previous);
      assert lastCoordinate == NextLast(here, previous);
    }
    assert segments[|segments|..] == [];
    StitchIsSeamless(Classify(segments, matchings, confidenceThreshold, {}), None);
  }

  /** A call on a non-empty chunk always returns seamless segments. */
  lemma MatchChunkSeamless(coords: seq<Coord>, reply: MatchingReply, threshold: real)
    requires coords != []
    ensures Seamless(MatchChunk(coords, reply, threshold), None)
  {
    if !Unusable(reply) {
      var runs := GroupRuns(coords, TraceKeys(reply.tracepoints, |coords|));
      StitchIsSeamless(Classify(runs, reply.matchings.value, threshold, {}), None);
    }
  }

  // ---------------------------------------------------------------------------
  // Batches of chunks

  /** The per-chunk results of chunks `i..`, in call order; the i-th call is
      answered by `respond(i)`. */
  function ChunkOutputs(chunks: seq<seq<Coord>>, respond: nat -> MatchingReply, threshold: real, i: nat): seq<Segment>
    decreases |chunks| - i
  {
    if i >= |chunks| then []
    else MatchChunk(chunks[i], respond(i), threshold) + ChunkOutputs(chunks, respond, threshold, i + 1)
  }

  function DefaultPlan(coords: seq<Coord>): seq<seq<Coord>> {
    CP.ChunkPlan(coords, CP.MaxCoordinatesPerRequest, CP.ChunkOverlap)
  }

  /** What `batchMapMatching` returns. */
  function BatchMatch(coords: seq<Coord>, respond: nat -> MatchingReply, threshold: real): seq<Segment> {
    if coords == [] then []
    else
      var chunks := DefaultPlan(coords);
      if |chunks| == 1 then MatchChunk(chunks[0], respond(0), threshold)
      else Stitch(ChunkOutputs(chunks, respond, threshold, 0), None)
  }

  /** Both branches of `batchMapMatching` compute the one fold over all chunk
      results, so the batch output is always seamless. */
  lemma BatchIsOneFold(coords: seq<Coord>, respond: nat -> MatchingReply, threshold: real)
    requires coords != []
    ensures BatchMatch(coords, respond, threshold) == Stitch(ChunkOutputs(DefaultPlan(coords), respond, threshold, 0), None)
    ensures Seamless(BatchMatch(coords, respond, threshold), None)
  {
    var chunks := DefaultPlan(coords);
    CP.PlanBounds(coords, CP.MaxCoordinatesPerRequest, CP.ChunkOverlap);
    if |chunks| == 1 {
      var only := MatchChunk(chunks[0], respond(0), threshold);
      assert ChunkOutputs(chunks, respond, threshold, 0) == only + [];
      MatchChunkSeamless(chunks[0], respond(0), threshold);
      StitchKeepsSeamless(only, None);
      assert only + [] == only;
    } else {
      StitchIsSeamless(ChunkOutputs(chunks, respond, threshold, 0), None);
    }
  }

  lemma PeelFirst<T>(a: seq<T>, j: nat, rest: seq<T>)
    requires j < |a|
    ensures a[j..] == [a[j]] + a[j + 1..]
    ensures a[j..] + rest == [a[j]] + (a[j + 1..] + rest)
  {
    assert a[j..] == [a[j]] + a[j + 1..];
  }

  /** `batchMapMatching`: chunk, call the provider once per chunk in order, and
      fold every returned segment through one `lastCoordinate` shared by all
      chunks. */
  method BatchMapMatching(coordinates: seq<Coord>, respond: nat -> MatchingReply, confidenceThreshold: real)
    returns (aggregatedSegments: seq<Segment>)
    ensures aggregatedSegments == BatchMatch(coordinates, respond, confidenceThreshold)
    ensures coordinates == [] ==> aggregatedSegments == []
    ensures Seamless(aggregatedSegments, None)
  {
    if |coordinates| == 0 {
      return [];
    }
    var chunks := CP.ChunkCoordinates(coordinates, CP.MaxCoordinatesPerRequest, CP.ChunkOverlap);
    if |chunks| == 1 {
      aggregatedSegments := CallMapMatchingApi(chunks[0], respond(0), confidenceThreshold);
      BatchIsOneFold(coordinates, respond, confidenceThreshold);
      return;
    }
    aggregatedSegments := [];
    var lastCoordinate: Option<Coord> := None;
    ghost var total := Stitch(ChunkOutputs(chunks, respond, confidenceThreshold, 0), None);
    for i := 0 to |chunks|
      invariant aggregatedSegments + Stitch(ChunkOutputs(chunks, respond, confidenceThreshold, i), lastCoordinate) == total
    {
      var chunkSegments := CallMapMatchingApi(chunks[i], respond(i), confidenceThreshold);
      ghost var later := ChunkOutputs(chunks, respond, confidenceThreshold, i + 1);
      assert chunkSegments[0..] + later == ChunkOutputs(chunks, respond, confidenceThreshold, i) by {
        assert chunkSegments[0..] == chunkSegments;
      }
      for j := 0 to |chunkSegments|
        invariant aggregatedSegments + Stitch(chunkSegments[j..] + later, lastCoordinate) == total
      {
        var segment := chunkSegments[j];
        assert aggregatedSegments + Stitch(chunkSegments[j..] + later, lastCoordinate)
            == (aggregatedSegments + Normalize(segment, lastCoordinate))
               + Stitch(chunkSegments[j + 1..] + later, NextLast(segment, lastCoordinate)) by {
          PeelFirst(chunkSegments, j, later);
          StitchCons(aggregatedSegments, segment, chunkSegments[j + 1..] + later, lastCoordinate);
        }
        var normalized := DropLeadingDuplicates(segment.coordinates, lastCoordinate);
        if |normalized| == 0 {
          assert aggregatedSegments + Normalize(segment, lastCoordinate) == aggregatedSegments
              && NextLast(segment, lastCoordinate) == lastCoordinate by {
            FoldStep(aggregatedSegments, segment, lastCoordinate, normalized);
          }
          continue;
        }
        assert aggregatedSegments + Normalize(segment, lastCoordinate) == aggregatedSegments + [Segment(segment.kind, normalized)]
            && NextLast(segment, lastCoordinate) == Some(normalized[|normalized| - 1]) by {
          FoldStep(aggregatedSegments, segment, lastCoordinate, normalized);
        }
        aggregatedSegments := aggregatedSegments + [Segment(segment.kind, normalized)];
        lastCoordinate := Some(normalized[|normalized| - 1]);
      }
      assert chunkSegments[|chunkSegments|..] + later == later by {
        assert chunkSegments[|chunkSegments|..] == [];
      }
    }
    BatchIsOneFold(coordinates, respond, confidenceThreshold);
  }

  // ---------------------------------------------------------------------------
  // The whole trajectory

  /** `MapMatchedSegments` */
  datatype MatchedSegments = MatchedSegments(matched: seq<seq<Coord>>, raw: seq<seq<Coord>>, ordered: seq<Segment>)

  /** `MapMatchingResult` */
  datatype MatchResult = MatchResult(trajectory: seq<TrajectoryPoint>, segments: MatchedSegments)

  const NoSegments := MatchedSegments([], [], [])

  /** What `mapMatchTrajectory` returns. */
  function MapMatchOutcome(trajectory: seq<TrajectoryPoint>, respond: nat -> MatchingReply, threshold: real): MatchResult {
    if trajectory == [] then MatchResult([], NoSegments)
    else
      var coordinates := ToCoordinates(trajectory);
      var segments := BatchMatch(coordinates, respond, threshold);
      if segments == [] then MatchResult(ToTrajectory(coordinates), NoSegments)
      else
        var ordered := Stitch(segments, None);
        MatchResult(ToTrajectory(Flatten(ordered)),
          MatchedSegments(CoordsOfKind(ordered, Matched), CoordsOfKind(ordered, Raw), ordered))
  }

  /** The final fold of `mapMatchTrajectory`: re-stitch the segments, sort each
      kept segment into the `matched` or `raw` bucket and collect all points. */
  method OrderSegments(segments: seq<Segment>)
    returns (matchedSegments: seq<seq<Coord>>, rawSegments: seq<seq<Coord>>, orderedSegments: seq<Segment>, combined: seq<Coord>)
    ensures orderedSegments == Stitch(segments, None)
    ensures matchedSegments == CoordsOfKind(orderedSegments, Matched)
    ensures rawSegments == CoordsOfKind(orderedSegments, Raw)
    ensures combined == Flatten(orderedSegments)
  {
    matchedSegments, rawSegments, orderedSegments, combined := [], [], [], [];
    var lastCoordinate: Option<Coord> := None;
    for j := 0 to |segments|
      invariant orderedSegments + Stitch(segments[j..], lastCoordinate) == Stitch(segments, None)
      invariant matchedSegments == CoordsOfKind(orderedSegments, Matched)
      invariant rawSegments == CoordsOfKind(orderedSegments, Raw)
      invariant combined == Flatten(orderedSegments)
    {
      var segment := segments[j];
      StitchAt(orderedSegments, segments, j, lastCoordinate);
      var coords: seq<Coord>;
      if lastCoordinate.Some? {
        coords := DropLeadingDuplicates(segment.coordinates, lastCoordinate);
      } else {
        coords := segment.coordinates;
      }
      FoldStep(orderedSegments, segment, lastCoordinate, coords);
      if |coords| == 0 {
        continue;
      }
      var emitted := Segment(segment.kind, coords);
      FlattenSnoc(orderedSegments, emitted);
      CoordsOfKindSnoc(orderedSegments, emitted, Matched);
      CoordsOfKindSnoc(orderedSegments, emitted, Raw);
      if segment.kind == Matched {
        matchedSegments := matchedSegments + [coords];
      } else {
        rawSegments := rawSegments + [coords];
      }
      orderedSegments := orderedSegments + [emitted];
      combined := combined + coords;
      lastCoordinate := Some(coords[|coords| - 1]);
    }
    assert segments[|segments|..] == [];
  }

  /** `mapMatchTrajectory`: match the trajectory's points, then run the final
      fold. When the batch output is empty (an empty input, or a reply that
      yields no segment at all) the input points come back as the trajectory with
      every bucket empty. Otherwise, because the batch output is already
      seamless, the fold keeps it as it is: `ordered` is the batch output, the
      trajectory is its points in order and the buckets are it filtered by
      type. */
  method MapMatchTrajectory(trajectory: seq<TrajectoryPoint>, respond: nat -> MatchingReply, confidenceThreshold: real)
    returns (result: MatchResult)
    ensures result == MapMatchOutcome(trajectory, respond, confidenceThreshold)
    ensures trajectory == [] ==> result == MatchResult([], NoSegments)
    ensures result.segments.ordered == [] ==> result.trajectory == trajectory && result.segments == NoSegments
    ensures result.segments.ordered == BatchMatch(ToCoordinates(trajectory), respond, confidenceThreshold)
    ensures Seamless(result.segments.ordered, None)
    ensures result.segments.ordered != [] ==>
      && result.trajectory == ToTrajectory(Flatten(result.segments.ordered))
      && result.segments.matched == CoordsOfKind(result.segments.ordered, Matched)
      && result.segments.raw == CoordsOfKind(result.segments.ordered, Raw)
  {
    if |trajectory| == 0 {
      return MatchResult([], NoSegments);
    }
    var coordinates := ToCoordinates(trajectory);
    var segments := BatchMapMatching(coordinates, respond, confidenceThreshold);
    if |segments| == 0 {
      CoordinatesRoundTrip(trajectory, coordinates);
      return MatchResult(ToTrajectory(coordinates), NoSegments);
    }
    StitchKeepsSeamless(segments, None);
    var matchedSegments, rawSegments, orderedSegments, combined := OrderSegments(segments);
    result := MatchResult(ToTrajectory(combined), MatchedSegments(matchedSegments, rawSegments, orderedSegments));
  }
}
