/** Trajectory reduction in src/lib/simplification.ts: the time-interval filter,
    the guard around the line-simplification library, the record-to-point mapper
    and the statistics. */
module Simplification {
  import opened Types
  import opened Wrappers
  import JsMath

  // ---------------------------------------------------------------------------
  // Time-interval filter

  /** The gap between two timestamps in seconds, `(later - earlier) / 1000`. */
  function GapSeconds(later: int, earlier: int): real {
    (later - earlier) as real / 1000.0
  }

  /** The indices in `i..` the filter loop keeps when the last kept point has
      timestamp `lastTimestamp`: a point is kept when it is at least
      `intervalSeconds` after the last kept point, and then becomes it. */
  function ScanKept(data: seq<GpsDataPoint>, intervalSeconds: real, i: nat, lastTimestamp: int): (r: seq<nat>)
    requires i <= |data|
    ensures forall k :: 0 <= k < |r| ==> i <= r[k] < |data|
    decreases |data| - i
  {
    if i == |data| then []
    else if GapSeconds(data[i].timestamp, lastTimestamp) >= intervalSeconds then
      [i] + ScanKept(data, intervalSeconds, i + 1, data[i].timestamp)
    else ScanKept(data, intervalSeconds, i + 1, lastTimestamp)
  }

  /** The indices strictly increase. */
  ghost predicate Increasing(r: seq<nat>) {
    forall k, l :: 0 <= k < l < |r| ==> r[k] < r[l]
  }

  /** The scan's indices strictly increase. */
  lemma {:induction false} ScanIncreasing(data: seq<GpsDataPoint>, intervalSeconds: real, i: nat, lastTimestamp: int)
    requires i <= |data|
    ensures Increasing(ScanKept(data, intervalSeconds, i, lastTimestamp))
    decreases |data| - i
  {
    if i < |data| {
      if GapSeconds(data[i].timestamp, lastTimestamp) >= intervalSeconds {
        var rest := ScanKept(data, intervalSeconds, i + 1, data[i].timestamp);
        ScanIncreasing(data, intervalSeconds, i + 1, data[i].timestamp);
        ConsIncreasing(i, rest);
      } else {
        ScanIncreasing(data, intervalSeconds, i + 1, lastTimestamp);
      }
    }
  }

  /** An index below every entry of an increasing sequence extends it. */
  lemma ConsIncreasing(i: nat, rest: seq<nat>)
    requires Increasing(rest)
    requires forall k :: 0 <= k < |rest| ==> i < rest[k]
    ensures Increasing([i] + rest)
  {
    var r := [i] + rest;
    forall k, l | 0 <= k < l < |r| ensures r[k] < r[l] {
      assert r[l] == rest[l - 1];
      if k > 0 {
        assert r[k] == rest[k - 1];
      }
    }
  }

  /** The indices kept by the loop: the first point, then the scan from the second. */
  function LoopKept(data: seq<GpsDataPoint>, intervalSeconds: real): seq<nat>
    requires data != []
  {
    [0] + ScanKept(data, intervalSeconds, 1, data[0].timestamp)
  }

  /** The indices of the output: the loop's, plus the last input index when the
      loop did not keep it. */
  function KeptIndices(data: seq<GpsDataPoint>, intervalSeconds: real): seq<nat>
    requires data != []
  {
    var kept := LoopKept(data, intervalSeconds);
    if kept[|kept| - 1] != |data| - 1 then kept + [|data| - 1] else kept
  }

  /** The points at the given indices, in the order of the indices. */
  function Pick(data: seq<GpsDataPoint>, indices: seq<nat>): (r: seq<GpsDataPoint>)
    requires forall k :: 0 <= k < |indices| ==> indices[k] < |data|
    ensures |r| == |indices|
    ensures forall k :: 0 <= k < |indices| ==> r[k] == data[indices[k]]
  {
    seq(|indices|, k requires 0 <= k < |indices| => data[indices[k]])
  }

  /** What `filterByTimeInterval` returns. */
  function FilterByTime(data: seq<GpsDataPoint>, intervalSeconds: real): seq<GpsDataPoint> {
    if |data| == 0 || intervalSeconds <= 0.0 then data
    else
      KeptIndicesShape(data, intervalSeconds);
      Pick(data, KeptIndices(data, intervalSeconds))
  }

  /** The output indices start at 0, end at the last input index and strictly
      increase, so the output is a subsequence of the input no longer than it. */
  lemma KeptIndicesShape(data: seq<GpsDataPoint>, intervalSeconds: real)
    requires data != []
    ensures var r := KeptIndices(data, intervalSeconds);
      && |r| >= 1 && r[0] == 0 && r[|r| - 1] == |data| - 1
      && (forall k :: 0 <= k < |r| ==> r[k] < |data|)
      && Increasing(r)
      && |r| <= |data|
  {
    var kept := LoopKept(data, intervalSeconds);
    LoopKeptShape(data, intervalSeconds);
    var r := KeptIndices(data, intervalSeconds);
    if kept[|kept| - 1] != |data| - 1 {
      assert r == kept + [|data| - 1];
      SnocIncreasing(kept, |data| - 1);
      assert r[0] == kept[0];
    } else {
      assert r == kept;
    }
    EndsBelow(r, |data|);
  }

  /** Indices that increase up to `n - 1` all lie below `n`, at most `n` of them. */
  lemma EndsBelow(r: seq<nat>, n: nat)
    requires |r| >= 1 && Increasing(r) && r[|r| - 1] + 1 == n
    ensures forall k :: 0 <= k < |r| ==> r[k] < n
    ensures |r| <= n
  {
    forall k | 0 <= k < |r| ensures r[k] < n {
      if k < |r| - 1 {
        assert r[k] < r[|r| - 1];
      }
    }
    IncreasingFitsBelow(r, n);
  }

  /** The indices the loop keeps start at 0, stay inside the data and increase. */
  lemma LoopKeptShape(data: seq<GpsDataPoint>, intervalSeconds: real)
    requires data != []
    ensures var kept := LoopKept(data, intervalSeconds);
      && |kept| >= 1 && kept[0] == 0
      && (forall k :: 0 <= k < |kept| ==> kept[k] < |data|)
      && Increasing(kept)
  {
    var scan := ScanKept(data, intervalSeconds, 1, data[0].timestamp);
    ScanIncreasing(data, intervalSeconds, 1, data[0].timestamp);
    ConsIncreasing(0, scan);
    assert LoopKept(data, intervalSeconds) == [0] + scan;
  }

  /** An index above the last entry of an increasing sequence extends it. */
  lemma SnocIncreasing(init: seq<nat>, i: nat)
    requires Increasing(init)
    requires init != [] ==> init[|init| - 1] < i
    ensures Increasing(init + [i])
  {
    var r := init + [i];
    forall k, l | 0 <= k < l < |r| ensures r[k] < r[l] {
      assert r[k] == init[k];
      if l < |init| {
        assert r[l] == init[l];
      } else if k < |init| - 1 {
        assert init[k] < init[|init| - 1];
      }
    }
  }

  /** A strictly increasing sequence of indices below `n` has at most `n` entries. */
  lemma {:induction false} IncreasingFitsBelow(r: seq<nat>, n: nat)
    requires forall k :: 0 <= k < |r| ==> r[k] < n
    requires Increasing(r)
    ensures |r| <= n
    decreases |r|
  {
    if r != [] {
      var init := r[..|r| - 1];
      IncreasingFitsBelow(init, r[|r| - 1]);
    }
  }

  /** Every point the loop keeps after the first is at least `intervalSeconds`
      after the point kept before it; the point the scan starts from is `last`. */
  lemma {:induction false} ScanSpacing(data: seq<GpsDataPoint>, intervalSeconds: real, i: nat, lastTimestamp: int)
    requires i <= |data|
    ensures var r := ScanKept(data, intervalSeconds, i, lastTimestamp);
      && (r != [] ==> GapSeconds(data[r[0]].timestamp, lastTimestamp) >= intervalSeconds)
      && (forall k, l :: 0 <= k < l < |r| && l == k + 1 ==>
            GapSeconds(data[r[l]].timestamp, data[r[k]].timestamp) >= intervalSeconds)
    decreases |data| - i
  {
    if i < |data| {
      var r := ScanKept(data, intervalSeconds, i, lastTimestamp);
      if GapSeconds(data[i].timestamp, lastTimestamp) >= intervalSeconds {
        var rest := ScanKept(data, intervalSeconds, i + 1, data[i].timestamp);
        ScanSpacing(data, intervalSeconds, i + 1, data[i].timestamp);
        assert r == [i] + rest;
        forall k, l | 0 <= k < l < |r| && l == k + 1
          ensures GapSeconds(data[r[l]].timestamp, data[r[k]].timestamp) >= intervalSeconds
        {
          if k > 0 {
            assert r[k] == rest[k - 1] && r[l] == rest[l - 1];
          }
        }
      } else {
        ScanSpacing(data, intervalSeconds, i + 1, lastTimestamp);
      }
    }
  }

  /** Every point the scan passes over before the first one it keeps is less
      than `intervalSeconds` after the starting point. */
  lemma {:induction false} ScanSkipsBeforeFirst(data: seq<GpsDataPoint>, intervalSeconds: real, i: nat, lastTimestamp: int)
    requires i <= |data|
    ensures var r := ScanKept(data, intervalSeconds, i, lastTimestamp);
      forall j :: i <= j < |data| && (r == [] || j < r[0]) ==>
        GapSeconds(data[j].timestamp, lastTimestamp) < intervalSeconds
    decreases |data| - i
  {
    if i < |data| && GapSeconds(data[i].timestamp, lastTimestamp) < intervalSeconds {
      ScanSkipsBeforeFirst(data, intervalSeconds, i + 1, lastTimestamp);
    }
  }

  /** Every point the scan passes over between two consecutive kept points is
      less than `intervalSeconds` after the first of them. */
  lemma {:induction false} ScanSkipsBetween(data: seq<GpsDataPoint>, intervalSeconds: real, i: nat, lastTimestamp: int)
    requires i <= |data|
    ensures var r := ScanKept(data, intervalSeconds, i, lastTimestamp);
      forall k, l, j :: 0 <= k < l < |r| && l == k + 1 && r[k] < j < r[l] ==>
        GapSeconds(data[j].timestamp, data[r[k]].timestamp) < intervalSeconds
    decreases |data| - i, 0
  {
    if i < |data| {
      var r := ScanKept(data, intervalSeconds, i, lastTimestamp);
      if GapSeconds(data[i].timestamp, lastTimestamp) >= intervalSeconds {
        var rest := ScanKept(data, intervalSeconds, i + 1, data[i].timestamp);
        assert r == [i] + rest;
        forall k, l, j | 0 < k < l < |r| && l == k + 1 && r[k] < j < r[l]
          ensures GapSeconds(data[j].timestamp, data[r[k]].timestamp) < intervalSeconds
        {
          assert r[k] == rest[k - 1] && r[l] == rest[l - 1];
          ScanSkipsBetweenAt(data, intervalSeconds, i + 1, data[i].timestamp, k - 1, j);
        }
        forall j | 1 < |r| && r[0] < j < r[1]
          ensures GapSeconds(data[j].timestamp, data[r[0]].timestamp) < intervalSeconds
        {
          assert r[0] == i && r[1] == rest[0];
          ScanSkipsBeforeFirst(data, intervalSeconds, i + 1, data[i].timestamp);
        }
      } else {
        ScanSkipsBetween(data, intervalSeconds, i + 1, lastTimestamp);
        assert r == ScanKept(data, intervalSeconds, i + 1, lastTimestamp);
      }
    }
  }

  /** ScanSkipsBetween for one pair of consecutive kept points. */
  lemma ScanSkipsBetweenAt(data: seq<GpsDataPoint>, intervalSeconds: real, i: nat, lastTimestamp: int, k: nat, j: nat)
    requires i <= |data|
    requires var r := ScanKept(data, intervalSeconds, i, lastTimestamp);
      k + 1 < |r| && r[k] < j < r[k + 1]
    ensures j < |data|
    ensures GapSeconds(data[j].timestamp, data[ScanKept(data, intervalSeconds, i, lastTimestamp)[k]].timestamp) < intervalSeconds
    decreases |data| - i, 1
  {
    ScanSkipsBetween(data, intervalSeconds, i, lastTimestamp);
  }

  /** Every point after the last kept one is less than `intervalSeconds` after it. */
  lemma {:induction false} ScanSkipsAfterLast(data: seq<GpsDataPoint>, intervalSeconds: real, i: nat, lastTimestamp: int)
    requires i <= |data|
    ensures var r := ScanKept(data, intervalSeconds, i, lastTimestamp);
      r != [] ==> forall j :: r[|r| - 1] < j < |data| ==>
        GapSeconds(data[j].timestamp, data[r[|r| - 1]].timestamp) < intervalSeconds
    decreases |data| - i
  {
    if i < |data| {
      var r := ScanKept(data, intervalSeconds, i, lastTimestamp);
      if GapSeconds(data[i].timestamp, lastTimestamp) >= intervalSeconds {
        var rest := ScanKept(data, intervalSeconds, i + 1, data[i].timestamp);
        ScanSkipsAfterLast(data, intervalSeconds, i + 1, data[i].timestamp);
        if rest == [] {
          ScanSkipsBeforeFirst(data, intervalSeconds, i + 1, data[i].timestamp);
        }
        assert r == [i] + rest;
      } else {
        ScanSkipsAfterLast(data, intervalSeconds, i + 1, lastTimestamp);
      }
    }
  }

  /** Each point the loop keeps after the first is at least `intervalSeconds`
      after the point kept before it. */
  lemma LoopKeptGaps(data: seq<GpsDataPoint>, intervalSeconds: real)
    requires data != []
    ensures var r := LoopKept(data, intervalSeconds);
      forall k, l :: 0 <= k < l < |r| && l == k + 1 ==>
        GapSeconds(data[r[l]].timestamp, data[r[k]].timestamp) >= intervalSeconds
  {
    var rest := ScanKept(data, intervalSeconds, 1, data[0].timestamp);
    var r := LoopKept(data, intervalSeconds);
    ScanSpacing(data, intervalSeconds, 1, data[0].timestamp);
    assert r == [0] + rest;
    forall k, l | 0 <= k < l < |r| && l == k + 1
      ensures GapSeconds(data[r[l]].timestamp, data[r[k]].timestamp) >= intervalSeconds
    {
      assert r[l] == rest[l - 1];
      if k > 0 {
        assert r[k] == rest[k - 1];
      }
    }
  }

  /** Every point the loop passes over is less than `intervalSeconds` after the
      point kept before it. */
  lemma LoopKeptSkipsBetween(data: seq<GpsDataPoint>, intervalSeconds: real)
    requires data != []
    ensures var r := LoopKept(data, intervalSeconds);
      forall k, l, j :: 0 <= k < l < |r| && l == k + 1 && r[k] < j < r[l] ==>
        GapSeconds(data[j].timestamp, data[r[k]].timestamp) < intervalSeconds
  {
    var rest := ScanKept(data, intervalSeconds, 1, data[0].timestamp);
    var r := LoopKept(data, intervalSeconds);
    assert r == [0] + rest;
    forall k, l, j | 0 <= k < l < |r| && l == k + 1 && r[k] < j < r[l]
      ensures GapSeconds(data[j].timestamp, data[r[k]].timestamp) < intervalSeconds
    {
      assert r[l] == rest[l - 1];
      if k > 0 {
        assert r[k] == rest[k - 1];
        ScanSkipsBetweenAt(data, intervalSeconds, 1, data[0].timestamp, k - 1, j);
      } else {
        assert r[k] == 0 && 1 <= j < rest[0];
        ScanSkipsBeforeFirst(data, intervalSeconds, 1, data[0].timestamp);
        assert GapSeconds(data[j].timestamp, data[0].timestamp) < intervalSeconds;
      }
    }
  }

  /** Every point after the last one the loop keeps is less than
      `intervalSeconds` after it. */
  lemma LoopKeptSkipsAfterLast(data: seq<GpsDataPoint>, intervalSeconds: real)
    requires data != []
    ensures var r := LoopKept(data, intervalSeconds);
      forall j :: r[|r| - 1] < j < |data| ==>
        GapSeconds(data[j].timestamp, data[r[|r| - 1]].timestamp) < intervalSeconds
  {
    var rest := ScanKept(data, intervalSeconds, 1, data[0].timestamp);
    var r := LoopKept(data, intervalSeconds);
    ScanSkipsBeforeFirst(data, intervalSeconds, 1, data[0].timestamp);
    ScanSkipsAfterLast(data, intervalSeconds, 1, data[0].timestamp);
    assert r == [0] + rest;
  }

  /** Pick over one more index. */
  lemma PickSnoc(data: seq<GpsDataPoint>, indices: seq<nat>, i: nat)
    requires forall k :: 0 <= k < |indices| ==> indices[k] < |data|
    requires i < |data|
    ensures Pick(data, indices + [i]) == Pick(data, indices) + [data[i]]
  {
  }

  /** `filterByTimeInterval`. The identity test that decides whether the last
      point is appended compares positions: `lastKept` is the index of the last
      point in `result`. */
  method FilterByTimeInterval(gpsData: seq<GpsDataPoint>, intervalSeconds: real) returns (result: seq<GpsDataPoint>)
    ensures result == FilterByTime(gpsData, intervalSeconds)
    ensures |gpsData| == 0 || intervalSeconds <= 0.0 ==> result == gpsData
  {
    if |gpsData| == 0 || intervalSeconds <= 0.0 {
      return gpsData;
    }
    result := [gpsData[0]];
    var lastTimestamp := gpsData[0].timestamp;
    var lastKept := 0;
    ghost var kept: seq<nat> := [0];
    for i := 1 to |gpsData|
      invariant |kept| >= 1 && kept[|kept| - 1] == lastKept < i
      invariant forall k :: 0 <= k < |kept| ==> kept[k] < |gpsData|
      invariant lastTimestamp == gpsData[lastKept].timestamp
      invariant kept + ScanKept(gpsData, intervalSeconds, i, lastTimestamp) == LoopKept(gpsData, intervalSeconds)
      invariant result == Pick(gpsData, kept)
    {
      var currentTimestamp := gpsData[i].timestamp;
      var timeDiff := (currentTimestamp - lastTimestamp) as real / 1000.0;
      ghost var scan := ScanKept(gpsData, intervalSeconds, i, lastTimestamp);
      if timeDiff >= intervalSeconds {
        ghost var next := ScanKept(gpsData, intervalSeconds, i + 1, currentTimestamp);
        assert scan == [i] + next;
        assert (kept + [i]) + next == kept + scan;
        assert result + [gpsData[i]] == Pick(gpsData, kept + [i]) by {
          PickSnoc(gpsData, kept, i);
        }
        result := result + [gpsData[i]];
        lastTimestamp := currentTimestamp;
        lastKept := i;
        kept := kept + [i];
      } else {
        assert scan == ScanKept(gpsData, intervalSeconds, i + 1, lastTimestamp);
      }
    }
    assert kept == LoopKept(gpsData, intervalSeconds) by {
      assert ScanKept(gpsData, intervalSeconds, |gpsData|, lastTimestamp) == [];
    }
    FilterTail(gpsData, intervalSeconds, result);
    if lastKept != |gpsData| - 1 {
      result := result + [gpsData[|gpsData| - 1]];
    }
  }

  /** After the loop: the last point is appended when the loop did not keep it. */
  lemma FilterTail(data: seq<GpsDataPoint>, intervalSeconds: real, result: seq<GpsDataPoint>)
    requires data != [] && intervalSeconds > 0.0
    requires forall k :: 0 <= k < |LoopKept(data, intervalSeconds)| ==> LoopKept(data, intervalSeconds)[k] < |data|
    requires result == Pick(data, LoopKept(data, intervalSeconds))
    ensures var kept := LoopKept(data, intervalSeconds);
      FilterByTime(data, intervalSeconds) ==
        if kept[|kept| - 1] != |data| - 1 then result + [data[|data| - 1]] else result
  {
    var kept := LoopKept(data, intervalSeconds);
    if kept[|kept| - 1] != |data| - 1 {
      PickSnoc(data, kept, |data| - 1);
    }
  }

  /** The filter keeps the first and the last point and never adds points. */
  lemma FilterByTimeEnds(data: seq<GpsDataPoint>, intervalSeconds: real)
    requires data != [] && intervalSeconds > 0.0
    ensures var r := FilterByTime(data, intervalSeconds);
      && 1 <= |r| <= |data|
      && r[0] == data[0]
      && r[|r| - 1] == data[|data| - 1]
  {
    KeptIndicesShape(data, intervalSeconds);
  }

  // ---------------------------------------------------------------------------
  // Line simplification and conversions

  /** `simplifyTrajectory`: trajectories of at most two points are returned as
      they are; longer ones go to the line-simplification library, which is the
      parameter `simplify` (called with the tolerance and quality flag). */
  function SimplifyTrajectory(trajectory: seq<TrajectoryPoint>, tolerance: real, highQuality: bool,
                              simplify: (seq<TrajectoryPoint>, real, bool) -> seq<TrajectoryPoint>): (r: seq<TrajectoryPoint>)
    ensures |trajectory| <= 2 ==> r == trajectory
    ensures |trajectory| > 2 ==> r == simplify(trajectory, tolerance, highQuality)
  {
    if |trajectory| <= 2 then trajectory else simplify(trajectory, tolerance, highQuality)
  }

  /** The tolerance and quality flag used when the caller gives none. */
  const DefaultTolerance: real := 0.0001
  const DefaultHighQuality: bool := true

  /** `convertGPSToTrajectory`: one point per record, x the longitude and y the
      latitude. */
  function ConvertGpsToTrajectory(gpsData: seq<GpsDataPoint>): (r: seq<TrajectoryPoint>)
    ensures |r| == |gpsData|
    ensures forall i :: 0 <= i < |r| ==> r[i] == TrajectoryPoint(gpsData[i].longitude, gpsData[i].latitude)
  {
    if gpsData == [] then []
    else [TrajectoryPoint(gpsData[0].longitude, gpsData[0].latitude)] + ConvertGpsToTrajectory(gpsData[1..])
  }

  /** Converting the records and then taking pairs reads each record's
      longitude and latitude. */
  lemma GpsToCoordinates(gpsData: seq<GpsDataPoint>)
    ensures var c := ToCoordinates(ConvertGpsToTrajectory(gpsData));
      && |c| == |gpsData|
      && forall i :: 0 <= i < |c| ==> c[i] == Coord(gpsData[i].longitude, gpsData[i].latitude)
  {
  }

  // ---------------------------------------------------------------------------
  // Statistics

  /** `TrajectoryStats` without the `mapMatchedCount` field, which
      `calculateStats` never sets. */
  datatype TrajectoryStats = TrajectoryStats(
    originalCount: nat,
    timeFilteredCount: Option<nat>,
    rdpSimplifiedCount: Option<nat>,
    finalCount: nat,
    compressionRatio: real,
    fileSize: real)

  /** The unrounded percentage of points removed, 0 for an empty original. */
  function RawCompression(originalCount: nat, finalCount: nat): real {
    if originalCount > 0 then (1.0 - finalCount as real / originalCount as real) * 100.0 else 0.0
  }

  /** `calculateStats`: the counts as given and the compression ratio rounded to
      two decimals (`Math.round(ratio * 100) / 100`). */
  function CalculateStats(originalTrajectory: seq<TrajectoryPoint>, finalTrajectory: seq<TrajectoryPoint>,
                          fileSize: real, timeFilteredCount: Option<nat>, rdpSimplifiedCount: Option<nat>): (r: TrajectoryStats)
    ensures r.originalCount == |originalTrajectory| && r.finalCount == |finalTrajectory|
    ensures r.timeFilteredCount == timeFilteredCount && r.rdpSimplifiedCount == rdpSimplifiedCount
    ensures r.fileSize == fileSize
    ensures |originalTrajectory| == 0 ==> r.compressionRatio == 0.0
  {
    var ratio := RawCompression(|originalTrajectory|, |finalTrajectory|);
    TrajectoryStats(|originalTrajectory|, timeFilteredCount, rdpSimplifiedCount, |finalTrajectory|,
      JsMath.Round(ratio * 100.0) as real / 100.0, fileSize)
  }

  /** The rounded ratio is within half a hundredth of the exact one, and when
      the final trajectory is no longer than the original it lies in [0, 100]:
      0 when nothing was removed, 100 when everything was. */
  lemma CompressionRatioBounds(originalTrajectory: seq<TrajectoryPoint>, finalTrajectory: seq<TrajectoryPoint>,
                               fileSize: real, timeFilteredCount: Option<nat>, rdpSimplifiedCount: Option<nat>)
    ensures var r := CalculateStats(originalTrajectory, finalTrajectory, fileSize, timeFilteredCount, rdpSimplifiedCount);
      var exact := RawCompression(|originalTrajectory|, |finalTrajectory|);
      && exact - 0.005 < r.compressionRatio <= exact + 0.005
      && (|finalTrajectory| <= |originalTrajectory| ==> 0.0 <= r.compressionRatio <= 100.0)
      && (|finalTrajectory| == |originalTrajectory| ==> r.compressionRatio == 0.0)
      && (|originalTrajectory| > 0 && |finalTrajectory| == 0 ==> r.compressionRatio == 100.0)
  {
    var o := |originalTrajectory|;
    var f := |finalTrajectory|;
    var exact := RawCompression(o, f);
    var n := JsMath.Round(exact * 100.0);
    if 0 < o && f <= o {
      var q := f as real / o as real;
      FractionInUnit(f as real, o as real);
      assert 0.0 <= q <= 1.0;
      assert 0.0 <= exact <= 100.0;
      assert 0 <= n <= 10000;
    }
    if f == o && o > 0 {
      assert f as real / o as real == 1.0;
    }
  }

  /** A part of a positive whole, as a fraction of it, lies in [0, 1]. */
  lemma FractionInUnit(part: real, whole: real)
    requires 0.0 <= part <= whole && whole > 0.0
    ensures 0.0 <= part / whole <= 1.0
  {
    var q := part / whole;
    assert q * whole == part;
    assert (1.0 - q) * whole == whole - part;
  }
}
