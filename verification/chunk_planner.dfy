/** `chunkCoordinates` of src/lib/mapMatching.ts: a long coordinate list is cut
    into windows of at most `maxSize` points, each window starting `overlap`
    points before the previous one ended, so that the provider sees every seam
    twice. */
module ChunkPlanner {

  /** `MAX_COORDINATES_PER_REQUEST` */
  const MaxCoordinatesPerRequest: nat := 100
  /** `CHUNK_OVERLAP` */
  const ChunkOverlap: nat := 3

  function Min(a: int, b: int): int {
    if a <= b then a else b
  }

  /** The windows the planning loop emits once it stands at `start`. */
  function ChunksFrom<T>(s: seq<T>, start: nat, maxSize: nat, overlap: nat): seq<seq<T>>
    requires overlap < maxSize && start < |s|
    decreases |s| - start
  {
    if start + maxSize >= |s| then [s[start..]]
    else [s[start..start + maxSize]] + ChunksFrom(s, start + maxSize - overlap, maxSize, overlap)
  }

  /** The whole plan: one chunk when everything fits, else the window walk from 0. */
  function ChunkPlan<T>(s: seq<T>, maxSize: nat, overlap: nat): seq<seq<T>>
    requires overlap < maxSize
  {
    if |s| <= maxSize then [s] else ChunksFrom(s, 0, maxSize, overlap)
  }

  /** Where the k-th window starts. */
  function ChunkStart(k: nat, maxSize: nat, overlap: nat): nat
    requires overlap < maxSize
  {
    k * (maxSize - overlap)
  }

  /** The first chunk, then every later chunk without its first `overlap` points. */
  function Reassemble<T>(chunks: seq<seq<T>>, overlap: nat): seq<T> {
    if chunks == [] then [] else chunks[0] + DropOverlaps(chunks[1..], overlap)
  }

  function DropOverlaps<T>(chunks: seq<seq<T>>, overlap: nat): seq<T> {
    if chunks == [] then []
    else chunks[0][Min(overlap, |chunks[0]|)..] + DropOverlaps(chunks[1..], overlap)
  }

  /** `chunkCoordinates`: the planning loop, with the early return for short input. */
  method ChunkCoordinates<T>(coordinates: seq<T>, maxSize: nat, overlap: nat) returns (chunks: seq<seq<T>>)
    requires overlap < maxSize
    ensures chunks == ChunkPlan(coordinates, maxSize, overlap)
    ensures |coordinates| <= maxSize ==> chunks == [coordinates]
    ensures |chunks| >= 1 && Reassemble(chunks, overlap) == coordinates
    ensures |coordinates| > 0 ==> forall k :: 0 <= k < |chunks| ==> 0 < |chunks[k]| <= maxSize
  {
    if |coordinates| <= maxSize {
      return [coordinates];
    }
    chunks := [];
    var startIndex := 0;
    while startIndex < |coordinates|
      invariant startIndex < |coordinates|
      invariant chunks + ChunksFrom(coordinates, startIndex, maxSize, overlap)
             == ChunksFrom(coordinates, 0, maxSize, overlap)
      decreases |coordinates| - startIndex
    {
      var endIndex := Min(startIndex + maxSize, |coordinates|);
      var chunk := coordinates[startIndex..endIndex];
      chunks := chunks + [chunk];
      if endIndex < |coordinates| {
        assert chunks + ChunksFrom(coordinates, endIndex - overlap, maxSize, overlap)
            == ChunksFrom(coordinates, 0, maxSize, overlap);
        startIndex := endIndex - overlap;
      } else {
        assert startIndex + maxSize >= |coordinates| && chunk == coordinates[startIndex..];
        assert ChunksFrom(coordinates, startIndex, maxSize, overlap) == [chunk];
        break;
      }
    }
    PlanBounds(coordinates, maxSize, overlap);
    PlanReassembles(coordinates, maxSize, overlap);
  }

  lemma {:induction false} ChunksFromBounds<T>(s: seq<T>, start: nat, maxSize: nat, overlap: nat)
    requires overlap < maxSize && start < |s|
    ensures var cs := ChunksFrom(s, start, maxSize, overlap);
      |cs| >= 1 && forall k :: 0 <= k < |cs| ==> 0 < |cs[k]| <= maxSize
    decreases |s| - start
  {
    if start + maxSize < |s| {
      ChunksFromBounds(s, start + maxSize - overlap, maxSize, overlap);
    }
  }

  /** Every chunk is non-empty and holds at most `maxSize` points. */
  lemma PlanBounds<T>(s: seq<T>, maxSize: nat, overlap: nat)
    requires overlap < maxSize
    ensures var cs := ChunkPlan(s, maxSize, overlap);
      |cs| >= 1 && (|s| > 0 ==> forall k :: 0 <= k < |cs| ==> 0 < |cs[k]| <= maxSize)
  {
    if |s| > maxSize {
      ChunksFromBounds(s, 0, maxSize, overlap);
    }
  }

  lemma DropOverlapsOfReassembled<T>(chunks: seq<seq<T>>, overlap: nat)
    requires chunks != [] && overlap <= |chunks[0]|
    ensures DropOverlaps(chunks, overlap) == Reassemble(chunks, overlap)[overlap..]
  {
  }

  lemma {:induction false} ChunksFromReassemble<T>(s: seq<T>, start: nat, maxSize: nat, overlap: nat)
    requires overlap < maxSize && start < |s|
    ensures Reassemble(ChunksFrom(s, start, maxSize, overlap), overlap) == s[start..]
    decreases |s| - start
  {
    if start + maxSize < |s| {
      var next := start + maxSize - overlap;
      var rest := ChunksFrom(s, next, maxSize, overlap);
      ChunksFromReassemble(s, next, maxSize, overlap);
      assert |rest[0]| > overlap;
      DropOverlapsOfReassembled(rest, overlap);
      calc {
        Reassemble(ChunksFrom(s, start, maxSize, overlap), overlap);
        s[start..start + maxSize] + DropOverlaps(rest, overlap);
        s[start..start + maxSize] + s[next..][overlap..];
        { assert s[next..][overlap..] == s[start + maxSize..]; }
        s[start..start + maxSize] + s[start + maxSize..];
        s[start..];
      }
    }
  }

  /** Reconstruction: the first chunk followed by every later chunk minus its
      first `overlap` points is exactly the input. */
  lemma PlanReassembles<T>(s: seq<T>, maxSize: nat, overlap: nat)
    requires overlap < maxSize
    ensures Reassemble(ChunkPlan(s, maxSize, overlap), overlap) == s
  {
    if |s| > maxSize {
      ChunksFromReassemble(s, 0, maxSize, overlap);
    } else {
      assert Reassemble([s], overlap) == s + DropOverlaps([], overlap);
    }
  }

  lemma {:induction false} ChunksFromWindows<T>(s: seq<T>, start: nat, maxSize: nat, overlap: nat, k: nat)
    requires overlap < maxSize && start < |s|
    requires k < |ChunksFrom(s, start, maxSize, overlap)|
    ensures start + ChunkStart(k, maxSize, overlap) < |s|
    ensures ChunksFrom(s, start, maxSize, overlap)[k]
         == s[start + ChunkStart(k, maxSize, overlap)..Min(start + ChunkStart(k, maxSize, overlap) + maxSize, |s|)]
    decreases |s| - start
  {
    if k > 0 {
      var step := maxSize - overlap;
      ChunksFromWindows(s, start + step, maxSize, overlap, k - 1);
      assert ChunkStart(k, maxSize, overlap) == step + ChunkStart(k - 1, maxSize, overlap) by {
        assert k * step == step + (k - 1) * step;
      }
    }
  }

  /** Window k starts at k·(maxSize − overlap) and runs for maxSize points or to the end. */
  lemma PlanWindows<T>(s: seq<T>, maxSize: nat, overlap: nat, k: nat)
    requires overlap < maxSize && |s| > maxSize
    requires k < |ChunkPlan(s, maxSize, overlap)|
    ensures ChunkStart(k, maxSize, overlap) < |s|
    ensures ChunkPlan(s, maxSize, overlap)[k]
         == s[ChunkStart(k, maxSize, overlap)..Min(ChunkStart(k, maxSize, overlap) + maxSize, |s|)]
  {
    ChunksFromWindows(s, 0, maxSize, overlap, k);
  }

  lemma {:induction false} ChunksFromLastEndsAtEnd<T>(s: seq<T>, start: nat, maxSize: nat, overlap: nat)
    requires overlap < maxSize && start < |s|
    ensures var cs := ChunksFrom(s, start, maxSize, overlap);
      exists b :: start <= b < |s| && cs[|cs| - 1] == s[b..]
    decreases |s| - start
  {
    var cs := ChunksFrom(s, start, maxSize, overlap);
    if start + maxSize < |s| {
      var next := start + maxSize - overlap;
      ChunksFromLastEndsAtEnd(s, next, maxSize, overlap);
      var rest := ChunksFrom(s, next, maxSize, overlap);
      assert cs[|cs| - 1] == rest[|rest| - 1];
    } else {
      assert cs[|cs| - 1] == s[start..];
    }
  }

  /** The last chunk ends where the input ends. */
  lemma PlanLastEndsAtEnd<T>(s: seq<T>, maxSize: nat, overlap: nat)
    requires overlap < maxSize
    ensures var cs := ChunkPlan(s, maxSize, overlap);
      exists b :: 0 <= b <= |s| && cs[|cs| - 1] == s[b..]
  {
    if |s| > maxSize {
      ChunksFromLastEndsAtEnd(s, 0, maxSize, overlap);
    } else {
      assert ChunkPlan(s, maxSize, overlap)[0] == s[0..];
    }
  }

  lemma {:induction false} ChunksFromSeams<T>(s: seq<T>, start: nat, maxSize: nat, overlap: nat, k: nat)
    requires overlap < maxSize && start < |s|
    requires k + 1 < |ChunksFrom(s, start, maxSize, overlap)|
    ensures var cs := ChunksFrom(s, start, maxSize, overlap);
      |cs[k]| == maxSize && overlap < |cs[k + 1]|
      && cs[k + 1][..overlap] == cs[k][maxSize - overlap..]
    decreases |s| - start
  {
    var next := start + maxSize - overlap;
    if k == 0 {
      var rest := ChunksFrom(s, next, maxSize, overlap);
      ChunksFromWindows(s, next, maxSize, overlap, 0);
      assert rest[0] == s[next..Min(next + maxSize, |s|)];
    } else {
      ChunksFromSeams(s, next, maxSize, overlap, k - 1);
    }
  }

  /** Consecutive chunks share exactly `overlap` points: the head of each chunk
      after the first repeats the tail of the one before it. */
  lemma PlanSeams<T>(s: seq<T>, maxSize: nat, overlap: nat, k: nat)
    requires overlap < maxSize
    requires k + 1 < |ChunkPlan(s, maxSize, overlap)|
    ensures var cs := ChunkPlan(s, maxSize, overlap);
      overlap < |cs[k + 1]| && overlap < |cs[k]|
      && cs[k + 1][..overlap] == cs[k][|cs[k]| - overlap..]
  {
    ChunksFromSeams(s, 0, maxSize, overlap, k);
  }

  /** With the defaults (100 points, overlap 3) a 250-point input is cut at 0, 97
      and 194 into chunks of 100, 100 and 56 points. */
  lemma DefaultPlanOf250<T>(s: seq<T>)
    requires |s| == 250
    ensures var cs := ChunkPlan(s, MaxCoordinatesPerRequest, ChunkOverlap);
      |cs| == 3
      && cs[0] == s[0..100] && cs[1] == s[97..197] && cs[2] == s[194..250]
      && |cs[0]| == 100 && |cs[1]| == 100 && |cs[2]| == 56
  {
    var c2 := ChunksFrom(s, 194, 100, 3);
    assert c2 == [s[194..]];
    var c1 := ChunksFrom(s, 97, 100, 3);
    assert c1 == [s[97..197]] + c2;
    assert ChunkPlan(s, 100, 3) == [s[0..100]] + c1;
  }
}
