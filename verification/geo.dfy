/** The WGS-84 / GCJ-02 frame guard of src/lib/geo.ts.
    The empirical offset series (`transformLat`, `transformLon`, `delta`) is
    floating-point trigonometry; it is taken as a parameter `delta`, an arbitrary
    function of the point it is evaluated at. Everything proved here holds for
    every such function. */
module Geo {
  import opened Types

  /** The frame offset `delta(lng, lat)` returns. */
  datatype Offset = Offset(dLng: real, dLat: real)

  /** `outOfChina`: the point lies outside the fixed bounding box. */
  predicate OutOfChina(lng: real, lat: real) {
    lng < 72.004 || lng > 137.8347 || lat < 0.8293 || lat > 55.8271
  }

  predicate InBox(p: Coord) {
    !OutOfChina(p.lng, p.lat)
  }

  /** `wgs84ToGcj02` */
  function Wgs84ToGcj02(p: Coord, delta: Coord -> Offset): (r: Coord)
    ensures !InBox(p) ==> r == p
  {
    if OutOfChina(p.lng, p.lat) then p
    else
      var d := delta(p);
      Coord(p.lng + d.dLng, p.lat + d.dLat)
  }

  /** `gcj02ToWgs84` */
  function Gcj02ToWgs84(p: Coord, delta: Coord -> Offset): (r: Coord)
    ensures !InBox(p) ==> r == p
  {
    if OutOfChina(p.lng, p.lat) then p
    else
      var d := delta(p);
      Coord(p.lng - d.dLng, p.lat - d.dLat)
  }

  /** The two directions move a point by opposite offsets: the forward and the
      backward image of any point have that point as their midpoint. */
  lemma OppositeOffsets(p: Coord, delta: Coord -> Offset)
    ensures var f, b := Wgs84ToGcj02(p, delta), Gcj02ToWgs84(p, delta);
      f.lng - p.lng == p.lng - b.lng && f.lat - p.lat == p.lat - b.lat
    ensures var f, b := Wgs84ToGcj02(p, delta), Gcj02ToWgs84(p, delta);
      (f.lng + b.lng) / 2.0 == p.lng && (f.lat + b.lat) / 2.0 == p.lat
  {
  }

  /** Inside the box the backward transform is only an approximate inverse: it
      subtracts the offset taken at the shifted point, so the residual of a round
      trip is exactly the difference of the offsets at the two points. */
  lemma RoundTripResidual(p: Coord, delta: Coord -> Offset)
    requires InBox(p) && InBox(Wgs84ToGcj02(p, delta))
    ensures var q := Wgs84ToGcj02(p, delta);
      var back := Gcj02ToWgs84(q, delta);
      back.lng - p.lng == delta(p).dLng - delta(q).dLng
      && back.lat - p.lat == delta(p).dLat - delta(q).dLat
  {
  }

  /** Outside the box both directions leave the point alone, so a round trip is exact. */
  lemma RoundTripOutside(p: Coord, delta: Coord -> Offset)
    requires !InBox(p)
    ensures Gcj02ToWgs84(Wgs84ToGcj02(p, delta), delta) == p
    ensures Wgs84ToGcj02(Gcj02ToWgs84(p, delta), delta) == p
  {
  }

  /** `wgs84PathToGcj`: the point transform applied to every point, in order. */
  function Wgs84PathToGcj(path: seq<Coord>, delta: Coord -> Offset): (r: seq<Coord>)
    ensures |r| == |path|
    ensures forall i :: 0 <= i < |path| ==> r[i] == Wgs84ToGcj02(path[i], delta)
  {
    if path == [] then [] else [Wgs84ToGcj02(path[0], delta)] + Wgs84PathToGcj(path[1..], delta)
  }

  /** `gcj02PathToWgs`: the point transform applied to every point, in order. */
  function Gcj02PathToWgs(path: seq<Coord>, delta: Coord -> Offset): (r: seq<Coord>)
    ensures |r| == |path|
    ensures forall i :: 0 <= i < |path| ==> r[i] == Gcj02ToWgs84(path[i], delta)
  {
    if path == [] then [] else [Gcj02ToWgs84(path[0], delta)] + Gcj02PathToWgs(path[1..], delta)
  }
}
