/** The records of src/types/index.ts that the modelled code reads and builds.
    Numbers are `real` (degrees, metres per second, accelerations) or `int`
    (epoch milliseconds); the optional display fields that no modelled function
    sets are left off. */
module Types {

  /** A `[longitude, latitude]` pair, the coordinate form of the map-matching code. */
  datatype Coord = Coord(lng: real, lat: real)

  /** `TrajectoryPoint`: x is the longitude, y the latitude. */
  datatype TrajectoryPoint = TrajectoryPoint(x: real, y: real)

  datatype Acceleration = Acceleration(x: real, y: real, z: real)

  /** `GPSDataPoint`; `timestamp` is the instant the record's `Date` stands for,
      in epoch milliseconds. */
  datatype GpsDataPoint = GpsDataPoint(
    valid: string,
    date: string,
    time: string,
    latitude: real,
    longitude: real,
    speed: real,
    acceleration: Acceleration,
    timestamp: int)

  /** `trajectory.map((point) => [point.x, point.y])`, the pair form the
      map-matching code works on (`trajectoryToCoordinates`). */
  function ToCoordinates(trajectory: seq<TrajectoryPoint>): (r: seq<Coord>)
    ensures |r| == |trajectory|
    ensures forall i :: 0 <= i < |r| ==> r[i] == Coord(trajectory[i].x, trajectory[i].y)
  {
    if trajectory == [] then [] else [Coord(trajectory[0].x, trajectory[0].y)] + ToCoordinates(trajectory[1..])
  }

  /** `coords.map(([x, y]) => ({ x, y }))`, back to trajectory points. */
  function ToTrajectory(coords: seq<Coord>): (r: seq<TrajectoryPoint>)
    ensures |r| == |coords|
    ensures forall i :: 0 <= i < |r| ==> r[i] == TrajectoryPoint(coords[i].lng, coords[i].lat)
  {
    if coords == [] then [] else [TrajectoryPoint(coords[0].lng, coords[0].lat)] + ToTrajectory(coords[1..])
  }

  /** The two conversions are inverse to each other. */
  lemma CoordinatesRoundTrip(trajectory: seq<TrajectoryPoint>, coords: seq<Coord>)
    ensures ToTrajectory(ToCoordinates(trajectory)) == trajectory
    ensures ToCoordinates(ToTrajectory(coords)) == coords
  {
  }
}
