/** Result assembly of `mapMatchTrajectoryAmap` in src/lib/mapMatchingAmap.ts:
    the request payload built from the GCJ-02 path, the choice between the
    service's points and the fallback path, and the single `matched` segment the
    function always returns. The HTTP exchange is an input: the parsed reply, or
    a transport failure standing for a non-ok status, an unreadable body or a
    thrown error. */
module AmapMatching {
  import opened Wrappers
  import opened Types
  import opened Seams
  import Geo
  import opened JsMath
  import MM = MapboxMatching

  /** One point of the service's reply as the code reads it: a coordinate that
      is missing or not a number is `None`. */
  datatype RoadPoint = RoadPoint(x: Option<real>, y: Option<real>)

  /** The outcome of the POST to the road-grasping service. */
  datatype AmapReply =
    | TransportFailure
    | Reply(errcode: int, points: Option<seq<RoadPoint>>)

  /** One `AMapRoadPoint` of the request. */
  datatype RequestPoint = RequestPoint(x: real, y: real, sp: int, ag: real, tm: int)

  // ---------------------------------------------------------------------------
  // The request payload

  /** The synthetic speed of a request point: `draw * 20 + 10` rounded, then
      clamped to [5, 30]. */
  function Speed(draw: real): (sp: int)
    ensures 5 <= sp <= 30
  {
    var r := Round(draw * 20.0 + 10.0);
    if r < 5 then 5 else if r > 30 then 30 else r
  }

  /** Inside the clamp the speed is the rounded value itself. */
  lemma SpeedUnclamped(draw: real)
    requires 5 <= Round(draw * 20.0 + 10.0) <= 30
    ensures Speed(draw) == Round(draw * 20.0 + 10.0)
  {
  }

  /** A draw in [0, 1), as `Math.random` returns, never reaches the clamp. */
  lemma SpeedOfUnitDraw(draw: real)
    requires 0.0 <= draw < 1.0
    ensures 10 <= Speed(draw) <= 30
  {
    var v := draw * 20.0 + 10.0;
    assert 10.0 <= v < 30.0;
    assert 10 <= Round(v) <= 30;
  }

  /** The neighbours the bearing of point `i` is taken between: the previous and
      the next point, each replaced by the point itself at the ends. */
  function Prev(gcjPath: seq<Coord>, i: nat): Coord
    requires i < |gcjPath|
  {
    if i > 0 then gcjPath[i - 1] else gcjPath[i]
  }

  function Next(gcjPath: seq<Coord>, i: nat): Coord
    requires i < |gcjPath|
  {
    if i < |gcjPath| - 1 then gcjPath[i + 1] else gcjPath[i]
  }

  /** The request points. The decimal rounding (`toFixed`), the bearing formula
      and `Math.random` are parameters: `round6` and `round2` stand for
      `Number(v.toFixed(6))` and `Number(v.toFixed(2))`, `bearing` for
      `calculateBearing`, and `draws(i)` for the random number drawn for point `i`. */
  function RequestPoints(gcjPath: seq<Coord>, baseTimestamp: int, draws: nat -> real,
                         bearing: (Coord, Coord) -> real, round6: real -> real, round2: real -> real): (r: seq<RequestPoint>)
    ensures |r| == |gcjPath|
  {
    seq(|gcjPath|, i requires 0 <= i < |gcjPath| =>
      RequestPoint(round6(gcjPath[i].lng), round6(gcjPath[i].lat), Speed(draws(i)),
        round2(bearing(Prev(gcjPath, i), Next(gcjPath, i))), baseTimestamp + i * 1000))
  }

  /** Request timestamps start at the base, are one second apart and strictly
      increase; every speed lies in [5, 30]. */
  lemma RequestPointsShape(gcjPath: seq<Coord>, baseTimestamp: int, draws: nat -> real,
                           bearing: (Coord, Coord) -> real, round6: real -> real, round2: real -> real)
    ensures var r := RequestPoints(gcjPath, baseTimestamp, draws, bearing, round6, round2);
      && (forall i :: 0 <= i < |r| ==> r[i].tm == baseTimestamp + i * 1000 && 5 <= r[i].sp <= 30)
      && (forall i, j :: 0 <= i < j < |r| ==> r[i].tm < r[j].tm)
  {
    var r := RequestPoints(gcjPath, baseTimestamp, draws, bearing, round6, round2);
    forall i, j | 0 <= i < j < |r| ensures r[i].tm < r[j].tm {
      assert r[i].tm == baseTimestamp + i * 1000 && r[j].tm == baseTimestamp + j * 1000;
    }
  }

  // ---------------------------------------------------------------------------
  // The matched path

  /** The reply cannot be used: transport failure, non-zero `errcode`, or no
      points. */
  predicate Unusable(reply: AmapReply) {
    reply.TransportFailure? || reply.errcode != 0 || reply.points.None? || |reply.points.value| == 0
  }

  /** `gcjPath[index] ?? gcjPath[gcjPath.length - 1]` */
  function FallbackPoint(gcjPath: seq<Coord>, i: nat): Coord
    requires gcjPath != []
  {
    if i < |gcjPath| then gcjPath[i] else gcjPath[|gcjPath| - 1]
  }

  /** A reply point with each missing coordinate taken from the fallback point. */
  function Fill(p: RoadPoint, fallback: Coord): Coord {
    Coord(p.x.GetOr(fallback.lng), p.y.GetOr(fallback.lat))
  }

  /** The GCJ-02 path the function goes on with. */
  function MatchedGcj(gcjPath: seq<Coord>, reply: AmapReply): seq<Coord>
    requires gcjPath != []
  {
    if Unusable(reply) then gcjPath
    else
      var pts := reply.points.value;
      seq(|pts|, i requires 0 <= i < |pts| => Fill(pts[i], FallbackPoint(gcjPath, i)))
  }

  /** `let matchedPathGcj = gcjPath`, replaced inside the `try` when the reply is
      usable. An unusable reply leaves the input path; a usable one gives one
      point per reply point, each coordinate the service's own when it sent a
      number and the input's at that index (or the input's last point past the
      end) otherwise. */
  method ChooseMatchedPath(gcjPath: seq<Coord>, reply: AmapReply) returns (matchedPathGcj: seq<Coord>)
    requires gcjPath != []
    ensures matchedPathGcj == MatchedGcj(gcjPath, reply)
    ensures Unusable(reply) ==> matchedPathGcj == gcjPath
    ensures !Unusable(reply) ==>
      var pts := reply.points.value;
      && |matchedPathGcj| == |pts|
      && forall i :: 0 <= i < |pts| ==>
           && matchedPathGcj[i].lng == (if pts[i].x.Some? then pts[i].x.value
                                        else if i < |gcjPath| then gcjPath[i].lng else gcjPath[|gcjPath| - 1].lng)
           && matchedPathGcj[i].lat == (if pts[i].y.Some? then pts[i].y.value
                                        else if i < |gcjPath| then gcjPath[i].lat else gcjPath[|gcjPath| - 1].lat)
  {
    matchedPathGcj := gcjPath;
    if !Unusable(reply) {
      var pts := reply.points.value;
      matchedPathGcj := seq(|pts|, i requires 0 <= i < |pts| => Fill(pts[i], FallbackPoint(gcjPath, i)));
    }
  }

  // ---------------------------------------------------------------------------
  // The whole function

  /** What `mapMatchTrajectoryAmap` returns. */
  function AmapOutcome(trajectory: seq<TrajectoryPoint>, reply: AmapReply, delta: Coord -> Geo.Offset): MM.MatchResult {
    if trajectory == [] then MM.MatchResult([], MM.NoSegments)
    else
      var gcjPath := Geo.Wgs84PathToGcj(ToCoordinates(trajectory), delta);
      var path := Geo.Gcj02PathToWgs(MatchedGcj(gcjPath, reply), delta);
      MM.MatchResult(ToTrajectory(path), MM.MatchedSegments([path], [], [Segment(Matched, path)]))
  }

  /** `mapMatchTrajectoryAmap`, returning the request it sends with its result.
      Empty input gives the empty result and sends nothing. Otherwise the result
      is always exactly one segment, typed matched even on the fallback path, the
      `matched` bucket holds its path, `raw` is empty and the trajectory is that
      path as points. */
  method MapMatchTrajectoryAmap(trajectory: seq<TrajectoryPoint>, reply: AmapReply, delta: Coord -> Geo.Offset,
                                baseTimestamp: int, draws: nat -> real, bearing: (Coord, Coord) -> real,
                                round6: real -> real, round2: real -> real)
    returns (request: seq<RequestPoint>, result: MM.MatchResult)
    ensures result == AmapOutcome(trajectory, reply, delta)
    ensures trajectory == [] ==> request == [] && result == MM.MatchResult([], MM.NoSegments)
    ensures trajectory != [] ==>
      var gcjPath := Geo.Wgs84PathToGcj(ToCoordinates(trajectory), delta);
      && request == RequestPoints(gcjPath, baseTimestamp, draws, bearing, round6, round2)
      && |request| == |trajectory|
      && exists path ::
           && result.segments.ordered == [Segment(Matched, path)]
           && result.segments.matched == [path]
           && result.segments.raw == []
           && result.trajectory == ToTrajectory(path)
           && path == Geo.Gcj02PathToWgs(MatchedGcj(gcjPath, reply), delta)
  {
    if |trajectory| == 0 {
      return [], MM.MatchResult([], MM.NoSegments);
    }
    var gcjPath := Geo.Wgs84PathToGcj(ToCoordinates(trajectory), delta);
    request := RequestPoints(gcjPath, baseTimestamp, draws, bearing, round6, round2);
    var matchedPathGcj := ChooseMatchedPath(gcjPath, reply);
    var matchedPathWgs := Geo.Gcj02PathToWgs(matchedPathGcj, delta);
    var matchedSegment := Segment(Matched, matchedPathWgs);
    var segments := MM.MatchedSegments([matchedPathWgs], [], [matchedSegment]);
    result := MM.MatchResult(ToTrajectory(matchedPathWgs), segments);
  }

  /** On the fallback path the result is the input sent through both transforms,
      point for point; outside the box that is the input itself. */
  lemma FallbackPath(trajectory: seq<TrajectoryPoint>, reply: AmapReply, delta: Coord -> Geo.Offset)
    requires trajectory != [] && Unusable(reply)
    ensures var path := AmapOutcome(trajectory, reply, delta).segments.matched[0];
      && |path| == |trajectory|
      && forall i :: 0 <= i < |path| ==>
           var p := Coord(trajectory[i].x, trajectory[i].y);
           && path[i] == Geo.Gcj02ToWgs84(Geo.Wgs84ToGcj02(p, delta), delta)
           && (!Geo.InBox(p) ==> path[i] == p)
  {
    var coords := ToCoordinates(trajectory);
    var gcjPath := Geo.Wgs84PathToGcj(coords, delta);
    var path := Geo.Gcj02PathToWgs(gcjPath, delta);
    forall i | 0 <= i < |path|
      ensures var p := Coord(trajectory[i].x, trajectory[i].y);
        && path[i] == Geo.Gcj02ToWgs84(Geo.Wgs84ToGcj02(p, delta), delta)
        && (!Geo.InBox(p) ==> path[i] == p)
    {
      var p := coords[i];
      if !Geo.InBox(p) {
        Geo.RoundTripOutside(p, delta);
      }
    }
  }

  /** With a usable reply the result has one point per reply point. Each is the
      back-transform of the reply point, a missing coordinate taken from the
      input point at that index (the last input point past the input's end)
      sent to GCJ-02; a point the service gave in full, outside the box, comes
      back unchanged. */
  lemma ReplyPath(trajectory: seq<TrajectoryPoint>, reply: AmapReply, delta: Coord -> Geo.Offset)
    requires trajectory != [] && !Unusable(reply)
    ensures var path := AmapOutcome(trajectory, reply, delta).segments.matched[0];
      var pts := reply.points.value;
      && |path| == |pts|
      && (forall i :: 0 <= i < |pts| ==>
           var j := if i < |trajectory| then i else |trajectory| - 1;
           var g := Geo.Wgs84ToGcj02(Coord(trajectory[j].x, trajectory[j].y), delta);
           path[i] == Geo.Gcj02ToWgs84(Coord(pts[i].x.GetOr(g.lng), pts[i].y.GetOr(g.lat)), delta))
      && forall i :: 0 <= i < |pts| && pts[i].x.Some? && pts[i].y.Some? ==>
           var q := Coord(pts[i].x.value, pts[i].y.value);
           && path[i] == Geo.Gcj02ToWgs84(q, delta)
           && (!Geo.InBox(q) ==> path[i] == q)
  {
  }
}
