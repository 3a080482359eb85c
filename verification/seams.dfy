/** Seam deduplication in src/lib/mapMatching.ts: `coordinatesEqual`,
    `dropLeadingDuplicates`, and the fold that all three accumulator loops of that
    file run (`pushSegment` inside `callMapMatchingAPI`, the chunk loop of
    `batchMapMatching`, the final loop of `mapMatchTrajectory`): drop the leading
    points of each segment that equal the last emitted point, skip a segment left
    empty, remember the last point of what was emitted. */
module Seams {
  import opened Wrappers
  import opened Types

  /** The default `epsilon` of `coordinatesEqual`, 1e-9 degrees. */
  const Epsilon: real := 0.000000001

  function Abs(x: real): real {
    if x < 0.0 then -x else x
  }

  /** `coordinatesEqual(a, b, epsilon)` */
  predicate CoordinatesEqual(a: Coord, b: Coord, epsilon: real) {
    Abs(a.lng - b.lng) <= epsilon && Abs(a.lat - b.lat) <= epsilon
  }

  /** `coordinatesEqual` with its default tolerance, as every caller uses it. */
  predicate Near(a: Coord, b: Coord) {
    CoordinatesEqual(a, b, Epsilon)
  }

  /** ε-equality is reflexive and symmetric ... */
  lemma NearReflexiveSymmetric(a: Coord, b: Coord)
    ensures Near(a, a)
    ensures Near(a, b) <==> Near(b, a)
  {
  }

  /** ... but not transitive: points 1e-9 apart chain to points 2e-9 apart. */
  lemma NearNotTransitive()
    ensures exists a: Coord, b: Coord, c: Coord :: Near(a, b) && Near(b, c) && !Near(a, c)
  {
    var a, b, c := Coord(0.0, 0.0), Coord(Epsilon, 0.0), Coord(2.0 * Epsilon, 0.0);
    assert Near(a, b) && Near(b, c) && !Near(a, c);
  }

  /** The result of `dropLeadingDuplicates(coordinates, last)`: the input without
      its leading run of points ε-equal to `last`; the whole input when there is
      no last point. */
  function DropLeading(coordinates: seq<Coord>, last: Option<Coord>): (r: seq<Coord>)
    ensures |r| <= |coordinates|
  {
    if last.None? || coordinates == [] then coordinates
    else if Near(coordinates[0], last.value) then DropLeading(coordinates[1..], last)
    else coordinates
  }

  /** What is dropped is exactly the longest prefix of points ε-equal to `last`:
      the result is a suffix of the input, every dropped point is ε-equal to
      `last`, and the first kept point is not. */
  lemma {:induction false} DropLeadingSpec(coordinates: seq<Coord>, last: Option<Coord>)
    ensures var r := DropLeading(coordinates, last);
      && r == coordinates[|coordinates| - |r|..]
      && (last.None? ==> r == coordinates)
      && (last.Some? && r != [] ==> !Near(r[0], last.value))
      && (last.Some? ==> forall i :: 0 <= i < |coordinates| - |r| ==> Near(coordinates[i], last.value))
    decreases |coordinates|
  {
    if last.Some? && coordinates != [] && Near(coordinates[0], last.value) {
      var tail := coordinates[1..];
      DropLeadingSpec(tail, last);
      var r := DropLeading(tail, last);
      assert DropLeading(coordinates, last) == r;
      assert tail[|tail| - |r|..] == coordinates[|coordinates| - |r|..];
      forall i | 0 <= i < |coordinates| - |r|
        ensures Near(coordinates[i], last.value)
      {
        if i > 0 {
          assert coordinates[i] == tail[i - 1];
        }
      }
    }
  }

  /** `dropLeadingDuplicates`: the index loop that skips the leading duplicates. */
  method DropLeadingDuplicates(coordinates: seq<Coord>, lastCoordinate: Option<Coord>) returns (r: seq<Coord>)
    ensures r == DropLeading(coordinates, lastCoordinate)
  {
    if lastCoordinate.None? || |coordinates| == 0 {
      return coordinates;
    }
    var startIndex := 0;
    while startIndex < |coordinates| && CoordinatesEqual(coordinates[startIndex], lastCoordinate.value, Epsilon)
      invariant 0 <= startIndex <= |coordinates|
      invariant DropLeading(coordinates[startIndex..], lastCoordinate) == DropLeading(coordinates, lastCoordinate)
    {
      assert coordinates[startIndex..][1..] == coordinates[startIndex + 1..];
      startIndex := startIndex + 1;
    }
    r := coordinates[startIndex..];
  }

  /** `MapMatchingSegment.type` */
  datatype Kind = Matched | Raw

  /** `MapMatchingSegment` */
  datatype Segment = Segment(kind: Kind, coordinates: seq<Coord>)

  function LastPoint(s: Segment): Coord
    requires s.coordinates != []
  {
    s.coordinates[|s.coordinates| - 1]
  }

  /** What one step of the fold emits for `seg`: the segment without its leading
      duplicates of `last`, or nothing when no point is left. */
  function Normalize(seg: Segment, last: Option<Coord>): seq<Segment> {
    var normalized := DropLeading(seg.coordinates, last);
    if normalized == [] then [] else [Segment(seg.kind, normalized)]
  }

  /** The fold's `lastCoordinate` after one step. */
  function NextLast(seg: Segment, last: Option<Coord>): Option<Coord> {
    var normalized := DropLeading(seg.coordinates, last);
    if normalized == [] then last else Some(normalized[|normalized| - 1])
  }

  /** The segments the reconciling fold emits for `segs` when the last emitted
      point so far is `last`. */
  function Stitch(segs: seq<Segment>, last: Option<Coord>): seq<Segment>
    decreases |segs|
  {
    if segs == [] then [] else Normalize(segs[0], last) + Stitch(segs[1..], NextLast(segs[0], last))
  }

  /** The fold's `lastCoordinate` after it has consumed `segs`. */
  function StitchLast(segs: seq<Segment>, last: Option<Coord>): Option<Coord>
    decreases |segs|
  {
    if segs == [] then last else StitchLast(segs[1..], NextLast(segs[0], last))
  }

  /** The shape the fold produces: every segment is non-empty and does not start
      with a point ε-equal to the point emitted just before it (`last` for the
      first segment). */
  predicate Seamless(segs: seq<Segment>, last: Option<Coord>)
    decreases |segs|
  {
    segs != [] ==>
      && segs[0].coordinates != []
      && (last.Some? ==> !Near(segs[0].coordinates[0], last.value))
      && Seamless(segs[1..], Some(LastPoint(segs[0])))
  }

  /** The last point of seamless segments, or `last` if there are none. */
  function LastOf(segs: seq<Segment>, last: Option<Coord>): Option<Coord>
    requires Seamless(segs, last)
    decreases |segs|
  {
    if segs == [] then last else LastOf(segs[1..], Some(LastPoint(segs[0])))
  }

  /** Seamless segments, position by position: each is non-empty, the first does
      not start with a duplicate of `last`, every later one does not start with a
      duplicate of the final point of the one before. */
  lemma {:induction false} SeamlessAt(segs: seq<Segment>, last: Option<Coord>, j: nat)
    requires Seamless(segs, last) && j < |segs|
    ensures segs[j].coordinates != []
    ensures j == 0 && last.Some? ==> !Near(segs[0].coordinates[0], last.value)
    ensures j > 0 ==> segs[j - 1].coordinates != [] && !Near(segs[j].coordinates[0], LastPoint(segs[j - 1]))
    decreases j
  {
    if j > 0 {
      var tail := segs[1..];
      SeamlessAt(tail, Some(LastPoint(segs[0])), j - 1);
      assert tail[j - 1] == segs[j];
      if j > 1 {
        assert tail[j - 2] == segs[j - 1];
      }
    }
  }

  /** The last point of seamless segments is the final point of the last one. */
  lemma {:induction false} LastOfIsLastPoint(segs: seq<Segment>, last: Option<Coord>)
    requires Seamless(segs, last) && segs != []
    ensures segs[|segs| - 1].coordinates != []
    ensures LastOf(segs, last) == Some(LastPoint(segs[|segs| - 1]))
    decreases |segs|
  {
    var tail := segs[1..];
    if tail != [] {
      LastOfIsLastPoint(tail, Some(LastPoint(segs[0])));
      assert tail[|tail| - 1] == segs[|segs| - 1];
    }
  }

  /** Unfolding the fold at a segment followed by the rest, behind an output
      already produced. */
  lemma StitchCons(done: seq<Segment>, s: Segment, rest: seq<Segment>, last: Option<Coord>)
    ensures done + Stitch([s] + rest, last) == (done + Normalize(s, last)) + Stitch(rest, NextLast(s, last))
  {
    assert ([s] + rest)[0] == s && ([s] + rest)[1..] == rest;
  }

  /** Unfolding the fold at position `j` of `segs`. */
  lemma StitchAt(done: seq<Segment>, segs: seq<Segment>, j: nat, last: Option<Coord>)
    requires j < |segs|
    ensures done + Stitch(segs[j..], last)
         == (done + Normalize(segs[j], last)) + Stitch(segs[j + 1..], NextLast(segs[j], last))
  {
    assert segs[j..] == [segs[j]] + segs[j + 1..];
    StitchCons(done, segs[j], segs[j + 1..], last);
  }

  /** One step of the fold in the form the loops of the source take it: when
      nothing is left after dropping duplicates, nothing is emitted and `last`
      stays; otherwise the rest is emitted and `last` moves to its final point. */
  lemma FoldStep(done: seq<Segment>, seg: Segment, last: Option<Coord>, normalized: seq<Coord>)
    requires normalized == DropLeading(seg.coordinates, last)
    ensures normalized == [] ==> done + Normalize(seg, last) == done && NextLast(seg, last) == last
    ensures normalized != [] ==>
      && done + Normalize(seg, last) == done + [Segment(seg.kind, normalized)]
      && NextLast(seg, last) == Some(normalized[|normalized| - 1])
  {
    if normalized == [] {
      assert done + [] == done;
    }
  }

  lemma SeamlessCons(s: Segment, rest: seq<Segment>, last: Option<Coord>)
    requires s.coordinates != [] && (last.Some? ==> !Near(s.coordinates[0], last.value))
    requires Seamless(rest, Some(LastPoint(s)))
    ensures Seamless([s] + rest, last)
    ensures LastOf([s] + rest, last) == LastOf(rest, Some(LastPoint(s)))
  {
    assert ([s] + rest)[0] == s && ([s] + rest)[1..] == rest;
  }

  /** One step of the fold emits at most one segment, non-empty, not starting
      with a duplicate of `last`, and moves `last` to its final point. */
  lemma NormalizeStep(seg: Segment, last: Option<Coord>)
    ensures |Normalize(seg, last)| <= 1
    ensures Normalize(seg, last) == [] ==> NextLast(seg, last) == last
    ensures Normalize(seg, last) != [] ==>
      var head := Normalize(seg, last)[0];
      && head.kind == seg.kind
      && head.coordinates != []
      && (last.Some? ==> !Near(head.coordinates[0], last.value))
      && NextLast(seg, last) == Some(LastPoint(head))
  {
    DropLeadingSpec(seg.coordinates, last);
  }

  /** The fold always yields seamless output, and its final `lastCoordinate` is
      the last emitted point (or the incoming one when nothing was emitted). */
  lemma {:induction false} StitchIsSeamless(segs: seq<Segment>, last: Option<Coord>)
    ensures Seamless(Stitch(segs, last), last)
    ensures StitchLast(segs, last) == LastOf(Stitch(segs, last), last)
    decreases |segs|
  {
    if segs != [] {
      var next := NextLast(segs[0], last);
      var rest := Stitch(segs[1..], next);
      StitchIsSeamless(segs[1..], next);
      NormalizeStep(segs[0], last);
      var emitted := Normalize(segs[0], last);
      assert Stitch(segs, last) == emitted + rest;
      assert StitchLast(segs, last) == StitchLast(segs[1..], next);
      if emitted == [] {
        assert emitted + rest == rest;
      } else {
        var head := emitted[0];
        assert emitted == [head];
        SeamlessCons(head, rest, last);
      }
    }
  }

  /** On seamless input the fold changes nothing. */
  lemma {:induction false} StitchKeepsSeamless(segs: seq<Segment>, last: Option<Coord>)
    requires Seamless(segs, last)
    ensures Stitch(segs, last) == segs
    ensures StitchLast(segs, last) == LastOf(segs, last)
    decreases |segs|
  {
    if segs != [] {
      var s0, tail := segs[0], segs[1..];
      var next := Some(LastPoint(s0));
      assert segs == [s0] + tail;
      assert DropLeading(s0.coordinates, last) == s0.coordinates;
      FoldStep([], s0, last, s0.coordinates);
      StitchKeepsSeamless(tail, next);
      StitchCons([], s0, tail, last);
      assert StitchLast(segs, last) == StitchLast(tail, next);
    }
  }

  /** The fold leaves a segment list unchanged exactly when it is seamless. */
  lemma StitchFixedIffSeamless(segs: seq<Segment>, last: Option<Coord>)
    ensures Stitch(segs, last) == segs <==> Seamless(segs, last)
  {
    StitchIsSeamless(segs, last);
    if Seamless(segs, last) {
      StitchKeepsSeamless(segs, last);
    }
  }

  /** Running the fold again on its own output changes nothing. */
  lemma StitchIdempotent(segs: seq<Segment>, last: Option<Coord>)
    ensures Stitch(Stitch(segs, last), last) == Stitch(segs, last)
  {
    StitchIsSeamless(segs, last);
    StitchKeepsSeamless(Stitch(segs, last), last);
  }

  /** The fold over a concatenation is the fold over the first part followed by
      the fold over the second part started from the first part's last point. */
  lemma {:induction false} StitchAppend(a: seq<Segment>, b: seq<Segment>, last: Option<Coord>)
    ensures Stitch(a + b, last) == Stitch(a, last) + Stitch(b, StitchLast(a, last))
    ensures StitchLast(a + b, last) == StitchLast(b, StitchLast(a, last))
    decreases |a|
  {
    if a == [] {
      assert a + b == b;
    } else {
      var ab := a + b;
      var next := NextLast(a[0], last);
      assert ab[0] == a[0] && ab[1..] == a[1..] + b;
      StitchAppend(a[1..], b, next);
      calc {
        Stitch(ab, last);
        Normalize(a[0], last) + Stitch(a[1..] + b, next);
        Normalize(a[0], last) + (Stitch(a[1..], next) + Stitch(b, StitchLast(a[1..], next)));
        (Normalize(a[0], last) + Stitch(a[1..], next)) + Stitch(b, StitchLast(a[1..], next));
      }
    }
  }

  /** The fold keeps interior duplicates: a segment whose own consecutive points
      are equal passes unchanged, so the flat trajectory can hold two consecutive
      ε-equal points. */
  lemma InteriorDuplicatesKept(p: Coord)
    ensures Stitch([Segment(Raw, [p, p])], None) == [Segment(Raw, [p, p])]
  {
  }

  /** The fold removes only the leading points that repeat the last emitted
      point: when a chunk fell back to its raw points, the overlap points the
      next chunk repeats come out a second time. */
  lemma OverlapRepeatedAfterRawFallback()
    ensures var a, b, c, d := Coord(0.0, 0.0), Coord(1.0, 0.0), Coord(2.0, 0.0), Coord(3.0, 0.0);
      Flatten(Stitch([Segment(Raw, [a, b, c]), Segment(Raw, [b, c, d])], None)) == [a, b, c, b, c, d]
  {
    var a, b, c, d := Coord(0.0, 0.0), Coord(1.0, 0.0), Coord(2.0, 0.0), Coord(3.0, 0.0);
    var s0, s1 := Segment(Raw, [a, b, c]), Segment(Raw, [b, c, d]);
    assert DropLeading(s0.coordinates, None) == s0.coordinates;
    assert NextLast(s0, None) == Some(c);
    assert !Near(b, c);
    assert DropLeading(s1.coordinates, Some(c)) == s1.coordinates;
    assert Normalize(s1, Some(c)) == [s1];
    assert [s0, s1][1..] == [s1];
    assert Stitch([s1], Some(c)) == [s1] + Stitch([], NextLast(s1, Some(c)));
    assert Stitch([Segment(Raw, [a, b, c]), Segment(Raw, [b, c, d])], None)
        == [Segment(Raw, [a, b, c]), Segment(Raw, [b, c, d])];
    FlattenSnoc([Segment(Raw, [a, b, c])], Segment(Raw, [b, c, d]));
    FlattenSnoc([], Segment(Raw, [a, b, c]));
    assert [Segment(Raw, [a, b, c])] + [Segment(Raw, [b, c, d])] == [Segment(Raw, [a, b, c]), Segment(Raw, [b, c, d])];
  }

  /** All points of a segment list, in order (`combined.push(...coords)`). */
  function Flatten(segs: seq<Segment>): seq<Coord>
    decreases |segs|
  {
    if segs == [] then [] else Flatten(segs[..|segs| - 1]) + segs[|segs| - 1].coordinates
  }

  /** The coordinate lists of the segments of one kind, in order (the `matched`
      and `raw` buckets). */
  function CoordsOfKind(segs: seq<Segment>, k: Kind): seq<seq<Coord>>
    decreases |segs|
  {
    if segs == [] then []
    else
      var last := segs[|segs| - 1];
      CoordsOfKind(segs[..|segs| - 1], k) + (if last.kind == k then [last.coordinates] else [])
  }

  lemma FlattenSnoc(segs: seq<Segment>, s: Segment)
    ensures Flatten(segs + [s]) == Flatten(segs) + s.coordinates
  {
    assert (segs + [s])[..|segs|] == segs;
  }

  lemma CoordsOfKindSnoc(segs: seq<Segment>, s: Segment, k: Kind)
    ensures CoordsOfKind(segs + [s], k) == CoordsOfKind(segs, k) + (if s.kind == k then [s.coordinates] else [])
  {
    assert (segs + [s])[..|segs|] == segs;
  }
}
