/** The batch-write retry scheme both maintenance scripts use
    (src/script/sync-ddb-to-localstack.js, `batchWriteAll`, and
    src/script/delete-low-mileage.js, `batchDelete`): the items go out in
    groups of at most 25; each group is sent, and whatever the service reports
    as unprocessed is sent again after an exponential backoff, until nothing is
    left or the retries run out. The service is an oracle: for the group index,
    the attempt number and the request, the items it leaves unprocessed. */
module BatchRetry {
  import opened Wrappers

  /** The most items one batch request carries. */
  const BatchSize: nat := 25
  /** The longest backoff, in milliseconds. */
  const MaxBackoffMs: nat := 15000

  /** The unprocessed items the service answers for (group, attempt, request). */
  type Send<!T> = (nat, nat, seq<T>) -> seq<T>

  // ---------------------------------------------------------------------------
  // Groups

  /** `arr.slice(i, i + size)` for i = 0, size, 2·size, …: the fixed-size pieces. */
  function Chunks<T>(arr: seq<T>, size: nat): seq<seq<T>>
    requires size > 0
    decreases |arr|
  {
    if arr == [] then []
    else if |arr| <= size then [arr]
    else [arr[..size]] + Chunks(arr[size..], size)
  }

  /** The pieces concatenated. */
  function Concat<T>(pieces: seq<seq<T>>): seq<T> {
    if pieces == [] then [] else pieces[0] + Concat(pieces[1..])
  }

  /** The pieces put back together give the input; every piece holds `size`
      items except the last, which holds between 1 and `size`. */
  lemma {:induction false} ChunksSpec<T>(arr: seq<T>, size: nat)
    requires size > 0
    ensures Concat(Chunks(arr, size)) == arr
    ensures var c := Chunks(arr, size);
      forall k :: 0 <= k < |c| ==> 0 < |c[k]| <= size && (k < |c| - 1 ==> |c[k]| == size)
    decreases |arr|
  {
    if |arr| > size {
      ChunksSpec(arr[size..], size);
      assert arr == arr[..size] + arr[size..];
      var c := Chunks(arr, size);
      var rest := Chunks(arr[size..], size);
      assert c[1..] == rest;
      forall k | 0 <= k < |c| ensures 0 < |c[k]| <= size && (k < |c| - 1 ==> |c[k]| == size) {
        if k > 0 {
          assert c[k] == rest[k - 1];
        }
      }
    }
  }

  /** Walking the input in steps of `size`, position `i` of the input lines
      up with piece `g`: the pieces from `g` on are the pieces of the input
      from `i` on, and none are left once `i` has passed the end. */
  ghost predicate AtPiece<T>(arr: seq<T>, size: nat, pieces: seq<seq<T>>, i: nat, g: nat) {
    && size > 0
    && g <= |pieces|
    && (i < |arr| ==> pieces[g..] == Chunks(arr[i..], size))
    && (i >= |arr| ==> g == |pieces|)
  }

  /** The walk starts at the first piece. */
  lemma FirstPiece<T>(arr: seq<T>, size: nat)
    requires size > 0
    ensures AtPiece(arr, size, Chunks(arr, size), 0, 0)
  {
    assert arr[0..] == arr;
  }

  /** Piece `g` is `arr[i..i + size]` (or the rest), and the walk moves on to
      piece `g + 1` at `i + size`. */
  lemma NextSlice<T>(arr: seq<T>, size: nat, pieces: seq<seq<T>>, i: nat, g: nat)
    requires i < |arr| && AtPiece(arr, size, pieces, i, g)
    ensures g < |pieces|
    ensures pieces[g] == arr[i..if i + size < |arr| then i + size else |arr|]
    ensures AtPiece(arr, size, pieces, i + size, g + 1)
  {
    var rest := arr[i..];
    assert pieces[g..][0] == pieces[g];
    if i + size < |arr| {
      assert rest[size..] == arr[i + size..];
      assert pieces[g + 1..] == pieces[g..][1..];
    }
  }

  // ---------------------------------------------------------------------------
  // Backoff

  function Pow2(n: nat): (r: nat)
    ensures r >= 1
  {
    if n == 0 then 1 else 2 * Pow2(n - 1)
  }

  /** `Math.min(1000 * 2 ** attempt, 15000)` */
  function Backoff(attempt: nat): (ms: nat)
    ensures 1000 <= ms <= MaxBackoffMs
  {
    if 1000 * Pow2(attempt) < MaxBackoffMs then 1000 * Pow2(attempt) else MaxBackoffMs
  }

  /** The backoff doubles from 2 s on the first retry and stays at 15 s from the
      fourth retry on. */
  lemma BackoffSchedule(attempt: nat)
    ensures attempt == 1 ==> Backoff(attempt) == 2000
    ensures attempt == 2 ==> Backoff(attempt) == 4000
    ensures attempt == 3 ==> Backoff(attempt) == 8000
    ensures attempt >= 4 ==> Backoff(attempt) == MaxBackoffMs
  {
    if attempt >= 4 {
      Pow2Grows(4, attempt);
    }
  }

  lemma {:induction false} Pow2Grows(m: nat, n: nat)
    requires m <= n
    ensures Pow2(m) <= Pow2(n)
    decreases n - m
  {
    if m < n {
      Pow2Grows(m, n - 1);
    }
  }

  // ---------------------------------------------------------------------------
  // One group

  /** The retry loop of one group from attempt `attempt` with request `request`
      and `written` items counted so far: the final count, or the number of
      items still unprocessed when the retries run out. */
  function GroupRun<T>(send: Send<T>, group: nat, attempt: nat, request: seq<T>, maxRetries: int, written: int): Result<int, nat>
    decreases if attempt <= maxRetries then maxRetries - attempt + 1 else 0
  {
    var unprocessed := send(group, attempt, request);
    var counted := written + |request| - |unprocessed|;
    if unprocessed == [] then Ok(counted)
    else if attempt + 1 > maxRetries then Err(|unprocessed|)
    else GroupRun(send, group, attempt + 1, unprocessed, maxRetries, counted)
  }

  /** A group that gets through adds exactly its own size to the count, whatever
      the service answered on the way: the per-attempt differences telescope. */
  lemma {:induction false} GroupRunWritten<T>(send: Send<T>, group: nat, attempt: nat, request: seq<T>, maxRetries: int, written: int)
    ensures GroupRun(send, group, attempt, request, maxRetries, written).Ok? ==>
      GroupRun(send, group, attempt, request, maxRetries, written).value == written + |request|
    ensures GroupRun(send, group, attempt, request, maxRetries, written).Err? ==>
      GroupRun(send, group, attempt, request, maxRetries, written).error > 0
    decreases if attempt <= maxRetries then maxRetries - attempt + 1 else 0
  {
    var unprocessed := send(group, attempt, request);
    if unprocessed != [] && attempt + 1 <= maxRetries {
      GroupRunWritten(send, group, attempt + 1, unprocessed, maxRetries, written + |request| - |unprocessed|);
    }
  }

  /** The retries left after attempt `attempt`: the attempt numbers after it
      that do not exceed `maxRetries`. */
  function RetriesLeft(attempt: nat, maxRetries: int): nat {
    if maxRetries > attempt then maxRetries - attempt else 0
  }

  /** The backoffs of retries `from + 1` to `from + n`, in order. */
  function Backoffs(from: nat, n: nat): (r: seq<nat>)
    ensures |r| == n
    decreases n
  {
    if n == 0 then [] else [Backoff(from + 1)] + Backoffs(from + 1, n - 1)
  }

  /** The backoffs the retry loop of one group waits, from attempt `attempt` on:
      one before each retry, none once the group is through or the next
      attempt number exceeds `maxRetries`. */
  function GroupWaits<T>(send: Send<T>, group: nat, attempt: nat, request: seq<T>, maxRetries: int): seq<nat>
    decreases if attempt <= maxRetries then maxRetries - attempt + 1 else 0
  {
    var unprocessed := send(group, attempt, request);
    if unprocessed == [] || attempt + 1 > maxRetries then []
    else [Backoff(attempt + 1)] + GroupWaits(send, group, attempt + 1, unprocessed, maxRetries)
  }

  /** One step of the group's retry loop. */
  lemma GroupRunStep<T>(send: Send<T>, group: nat, attempt: nat, request: seq<T>, maxRetries: int, written: int)
    ensures var unprocessed := send(group, attempt, request);
      var counted := written + |request| - |unprocessed|;
      GroupRun(send, group, attempt, request, maxRetries, written) ==
        if unprocessed == [] then Ok(counted)
        else if attempt + 1 > maxRetries then Err(|unprocessed|)
        else GroupRun(send, group, attempt + 1, unprocessed, maxRetries, counted)
  {
  }

  /** One step of the group's waits: none when the send finishes the group or
      the next attempt is over the limit, else that retry's backoff first. */
  lemma GroupWaitsStep<T>(send: Send<T>, group: nat, attempt: nat, request: seq<T>, maxRetries: int)
    ensures var unprocessed := send(group, attempt, request);
      GroupWaits(send, group, attempt, request, maxRetries) ==
        if unprocessed == [] || attempt + 1 > maxRetries then []
        else [Backoff(attempt + 1)] + GroupWaits(send, group, attempt + 1, unprocessed, maxRetries)
  {
  }

  /** The same step seen from a loop that has already collected `before`:
      either nothing more is waited, or the next retry's backoff is appended. */
  lemma WaitsAfterSend<T>(send: Send<T>, group: nat, attempt: nat, request: seq<T>, maxRetries: int, before: seq<nat>, total: seq<nat>)
    requires before + GroupWaits(send, group, attempt, request, maxRetries) == total
    ensures var unprocessed := send(group, attempt, request);
      if unprocessed == [] || attempt + 1 > maxRetries then before == total
      else (before + [Backoff(attempt + 1)]) + GroupWaits(send, group, attempt + 1, unprocessed, maxRetries) == total
  {
    GroupWaitsStep(send, group, attempt, request, maxRetries);
    var unprocessed := send(group, attempt, request);
    if unprocessed == [] || attempt + 1 > maxRetries {
      assert before + [] == before;
    } else {
      var rest := GroupWaits(send, group, attempt + 1, unprocessed, maxRetries);
      AppendAssoc(before, [Backoff(attempt + 1)], rest);
    }
  }

  /** Giving up comes only after every retry the limit allows: a group that runs
      out of retries waited the backoffs of attempts `attempt + 1` up to
      `maxRetries`, and a group that gets through waited no more of them. */
  lemma {:induction false} GroupWaitsCount<T>(send: Send<T>, group: nat, attempt: nat, request: seq<T>, maxRetries: int, written: int)
    ensures var waits := GroupWaits(send, group, attempt, request, maxRetries);
      && waits == Backoffs(attempt, |waits|)
      && |waits| <= RetriesLeft(attempt, maxRetries)
      && (GroupRun(send, group, attempt, request, maxRetries, written).Err? ==> |waits| == RetriesLeft(attempt, maxRetries))
    decreases if attempt <= maxRetries then maxRetries - attempt + 1 else 0
  {
    var unprocessed := send(group, attempt, request);
    if unprocessed != [] && attempt + 1 <= maxRetries {
      GroupWaitsCount(send, group, attempt + 1, unprocessed, maxRetries, written + |request| - |unprocessed|);
    }
  }

  /** A service that never finishes the group makes the loop give up, and only
      after the first attempt and `maxRetries` retries (just the first attempt
      when `maxRetries` is below 1): the loop waited exactly the backoffs of
      retries 1 to `maxRetries`. */
  lemma {:induction false} PersistentFailureThrows<T>(send: Send<T>, group: nat, attempt: nat, request: seq<T>, maxRetries: int, written: int)
    requires forall a: nat, r: seq<T> :: send(group, a, r) != []
    ensures GroupRun(send, group, attempt, request, maxRetries, written).Err?
    ensures GroupWaits(send, group, attempt, request, maxRetries) == Backoffs(attempt, RetriesLeft(attempt, maxRetries))
    decreases if attempt <= maxRetries then maxRetries - attempt + 1 else 0
  {
    var unprocessed := send(group, attempt, request);
    assert unprocessed != [];
    if attempt + 1 <= maxRetries {
      PersistentFailureThrows(send, group, attempt + 1, unprocessed, maxRetries, written + |request| - |unprocessed|);
    }
  }

  /** A service that leaves items over on every send before attempt `a` and
      finishes whatever it gets at attempt `a`: the group gets through exactly
      when `a` is the starting attempt or within the limit, and then after the
      backoffs of the retries up to `a`. */
  lemma {:induction false} FinishesAt<T>(send: Send<T>, group: nat, attempt: nat, a: nat, request: seq<T>, maxRetries: int, written: int)
    requires attempt <= a
    requires forall b: nat, r: seq<T> :: attempt <= b < a ==> send(group, b, r) != []
    requires forall r: seq<T> :: send(group, a, r) == []
    ensures GroupRun(send, group, attempt, request, maxRetries, written).Ok? <==> a == attempt || a <= maxRetries
    ensures GroupRun(send, group, attempt, request, maxRetries, written).Ok? ==>
      GroupWaits(send, group, attempt, request, maxRetries) == Backoffs(attempt, a - attempt)
    decreases a - attempt
  {
    var unprocessed := send(group, attempt, request);
    if a > attempt {
      assert unprocessed != [];
      if attempt + 1 <= maxRetries {
        FinishesAt(send, group, attempt + 1, a, unprocessed, maxRetries, written + |request| - |unprocessed|);
      }
    }
  }

  /** A service that finishes the group on the first send needs no retry. */
  lemma FirstSendSucceeds<T>(send: Send<T>, group: nat, request: seq<T>, maxRetries: int, written: int)
    requires send(group, 0, request) == []
    ensures GroupRun(send, group, 0, request, maxRetries, written) == Ok(written + |request|)
  {
  }

  // ---------------------------------------------------------------------------
  // All groups

  /** The groups from index `k` on, one after the other; the first group that
      runs out of retries ends the whole call. */
  function RunGroups<T>(send: Send<T>, groups: seq<seq<T>>, k: nat, maxRetries: int, written: int): Result<int, nat>
    requires k <= |groups|
    decreases |groups| - k
  {
    if k == |groups| then Ok(written)
    else match GroupRun(send, k, 0, groups[k], maxRetries, written)
      case Err(n) => Err(n)
      case Ok(w) => RunGroups(send, groups, k + 1, maxRetries, w)
  }

  /** When every group gets through, the count is the total number of items. */
  lemma {:induction false} RunGroupsWritten<T>(send: Send<T>, groups: seq<seq<T>>, k: nat, maxRetries: int, written: int)
    requires k <= |groups|
    ensures RunGroups(send, groups, k, maxRetries, written).Ok? ==>
      RunGroups(send, groups, k, maxRetries, written).value == written + |Concat(groups[k..])|
    decreases |groups| - k
  {
    if k < |groups| {
      GroupRunWritten(send, k, 0, groups[k], maxRetries, written);
      var g := GroupRun(send, k, 0, groups[k], maxRetries, written);
      if g.Ok? {
        RunGroupsWritten(send, groups, k + 1, maxRetries, g.value);
        assert groups[k..] == [groups[k]] + groups[k + 1..];
        assert Concat(groups[k..]) == groups[k] + Concat(groups[k + 1..]);
      }
    }
  }

  /** What a whole batch call returns: 0 for no items, otherwise the run over
      the groups of 25. */
  function BatchOutcome<T>(send: Send<T>, items: seq<T>, maxRetries: int): Result<int, nat> {
    if |items| == 0 then Ok(0) else RunGroups(send, Chunks(items, BatchSize), 0, maxRetries, 0)
  }

  /** The backoffs waited over the groups from index `k` on: each group's own,
      up to and including the group that runs out of retries. */
  function RunWaits<T>(send: Send<T>, groups: seq<seq<T>>, k: nat, maxRetries: int, written: int): seq<nat>
    requires k <= |groups|
    decreases |groups| - k
  {
    if k == |groups| then []
    else
      GroupWaits(send, k, 0, groups[k], maxRetries) +
        match GroupRun(send, k, 0, groups[k], maxRetries, written)
        case Err(_) => []
        case Ok(w) => RunWaits(send, groups, k + 1, maxRetries, w)
  }

  /** One step of the run's waits: group `k`'s own, then the later groups'
      only when group `k` gets through. */
  lemma RunWaitsStep<T>(send: Send<T>, groups: seq<seq<T>>, k: nat, maxRetries: int, written: int)
    requires k < |groups|
    ensures var g := GroupRun(send, k, 0, groups[k], maxRetries, written);
      RunWaits(send, groups, k, maxRetries, written) ==
        GroupWaits(send, k, 0, groups[k], maxRetries) + if g.Ok? then RunWaits(send, groups, k + 1, maxRetries, g.value) else []
  {
  }

  /** A group that runs out of retries ends the run's waits. */
  lemma LastGroupWaits<T>(send: Send<T>, groups: seq<seq<T>>, k: nat, maxRetries: int, written: int, before: seq<nat>)
    requires k < |groups| && GroupRun(send, k, 0, groups[k], maxRetries, written).Err?
    ensures before + RunWaits(send, groups, k, maxRetries, written) == before + GroupWaits(send, k, 0, groups[k], maxRetries)
  {
    RunWaitsStep(send, groups, k, maxRetries, written);
    var head := GroupWaits(send, k, 0, groups[k], maxRetries);
    assert head + [] == head;
  }

  /** A group that gets through is followed by the later groups' waits. */
  lemma NextGroupWaits<T>(send: Send<T>, groups: seq<seq<T>>, k: nat, maxRetries: int, written: int, before: seq<nat>, w: int)
    requires k < |groups| && GroupRun(send, k, 0, groups[k], maxRetries, written) == Ok(w)
    ensures before + RunWaits(send, groups, k, maxRetries, written) ==
      (before + GroupWaits(send, k, 0, groups[k], maxRetries)) + RunWaits(send, groups, k + 1, maxRetries, w)
  {
    RunWaitsStep(send, groups, k, maxRetries, written);
    var head := GroupWaits(send, k, 0, groups[k], maxRetries);
    var tail := RunWaits(send, groups, k + 1, maxRetries, w);
    AppendAssoc(before, head, tail);
  }

  lemma AppendAssoc(a: seq<nat>, b: seq<nat>, c: seq<nat>)
    ensures (a + b) + c == a + (b + c)
  {
  }

  /** The waits so far followed by the run's from group `k` on: the waits so
      far and group `k`'s, then the later groups' only when group `k` gets
      through. */
  lemma WaitsAfterGroup<T>(send: Send<T>, groups: seq<seq<T>>, k: nat, maxRetries: int, written: int, before: seq<nat>)
    requires k < |groups|
    ensures var g := GroupRun(send, k, 0, groups[k], maxRetries, written);
      var waits := before + GroupWaits(send, k, 0, groups[k], maxRetries);
      && (g.Err? ==> before + RunWaits(send, groups, k, maxRetries, written) == waits)
      && (g.Ok? ==> before + RunWaits(send, groups, k, maxRetries, written) == waits + RunWaits(send, groups, k + 1, maxRetries, g.value))
  {
    match GroupRun(send, k, 0, groups[k], maxRetries, written)
    case Err(_) => LastGroupWaits(send, groups, k, maxRetries, written, before);
    case Ok(w) => NextGroupWaits(send, groups, k, maxRetries, written, before, w);
  }

  /** The backoffs a whole batch call waits. */
  function BatchWaits<T>(send: Send<T>, items: seq<T>, maxRetries: int): seq<nat> {
    if |items| == 0 then [] else RunWaits(send, Chunks(items, BatchSize), 0, maxRetries, 0)
  }

  /** At most `maxRetries` backoffs for each of `groups` groups. */
  predicate WithinRetryLimit(waits: seq<nat>, groups: nat, maxRetries: int) {
    |waits| <= groups * RetriesLeft(0, maxRetries)
  }

  /** The waits end with the backoffs of retries 1 to `maxRetries`: the group
      that gave up used every retry the limit allows. */
  predicate EndsWithAllRetries(waits: seq<nat>, maxRetries: int) {
    var n := RetriesLeft(0, maxRetries);
    n <= |waits| && waits[|waits| - n..] == Backoffs(0, n)
  }

  /** Each group from index `k` on waits at most `maxRetries` backoffs. */
  lemma {:induction false} RunWaitsBound<T>(send: Send<T>, groups: seq<seq<T>>, k: nat, maxRetries: int, written: int)
    requires k <= |groups|
    ensures WithinRetryLimit(RunWaits(send, groups, k, maxRetries, written), |groups| - k, maxRetries)
    decreases |groups| - k
  {
    if k < |groups| {
      var n := RetriesLeft(0, maxRetries);
      var m := |groups| - (k + 1);
      GroupWaitsCount(send, k, 0, groups[k], maxRetries, written);
      assert (m + 1) * n == n + m * n;
      match GroupRun(send, k, 0, groups[k], maxRetries, written)
      case Err(_) =>
      case Ok(w) => RunWaitsBound(send, groups, k + 1, maxRetries, w);
    }
  }

  /** A run that gives up ends with the full `maxRetries` backoffs 2 s, 4 s, …
      of the group that ran out of retries. */
  lemma {:induction false} RunWaitsOnError<T>(send: Send<T>, groups: seq<seq<T>>, k: nat, maxRetries: int, written: int)
    requires k <= |groups|
    ensures RunGroups(send, groups, k, maxRetries, written).Err? ==>
      EndsWithAllRetries(RunWaits(send, groups, k, maxRetries, written), maxRetries)
    decreases |groups| - k
  {
    if k < |groups| {
      var n := RetriesLeft(0, maxRetries);
      var g := GroupRun(send, k, 0, groups[k], maxRetries, written);
      var head := GroupWaits(send, k, 0, groups[k], maxRetries);
      RunWaitsStep(send, groups, k, maxRetries, written);
      GroupWaitsCount(send, k, 0, groups[k], maxRetries, written);
      if g.Err? {
        assert RunWaits(send, groups, k, maxRetries, written) == head + [];
        assert head[|head| - n..] == head;
      } else {
        RunWaitsOnError(send, groups, k + 1, maxRetries, g.value);
        var tail := RunWaits(send, groups, k + 1, maxRetries, g.value);
        if RunGroups(send, groups, k + 1, maxRetries, g.value).Err? {
          assert (head + tail)[|head + tail| - n..] == tail[|tail| - n..];
        }
      }
    }
  }

  /** Every retry waits between 2 s and 15 s. */
  lemma {:induction false} BackoffsRange(from: nat, n: nat)
    ensures forall w :: w in Backoffs(from, n) ==> 2000 <= w <= MaxBackoffMs
    decreases n
  {
    if n > 0 {
      Pow2Grows(1, from + 1);
      BackoffsRange(from + 1, n - 1);
    }
  }

  lemma {:induction false} RunWaitsRange<T>(send: Send<T>, groups: seq<seq<T>>, k: nat, maxRetries: int, written: int)
    requires k <= |groups|
    ensures forall w :: w in RunWaits(send, groups, k, maxRetries, written) ==> 2000 <= w <= MaxBackoffMs
    decreases |groups| - k
  {
    if k < |groups| {
      var head := GroupWaits(send, k, 0, groups[k], maxRetries);
      GroupWaitsCount(send, k, 0, groups[k], maxRetries, written);
      BackoffsRange(0, |head|);
      match GroupRun(send, k, 0, groups[k], maxRetries, written)
      case Err(_) =>
        assert RunWaits(send, groups, k, maxRetries, written) == head + [];
      case Ok(w) =>
        RunWaitsRange(send, groups, k + 1, maxRetries, w);
        assert RunWaits(send, groups, k, maxRetries, written) == head + RunWaits(send, groups, k + 1, maxRetries, w);
    }
  }

  /** A batch call waits between 2 s and 15 s before each retry. */
  lemma BatchWaitsRange<T>(send: Send<T>, items: seq<T>, maxRetries: int)
    ensures forall w :: w in BatchWaits(send, items, maxRetries) ==> 2000 <= w <= MaxBackoffMs
  {
    if |items| > 0 {
      RunWaitsRange(send, Chunks(items, BatchSize), 0, maxRetries, 0);
    }
  }

  /** A batch call waits at most `maxRetries` backoffs per group of 25, and one
      that gives up ends with the `maxRetries` backoffs of its last group. */
  lemma BatchWaitsCount<T>(send: Send<T>, items: seq<T>, maxRetries: int)
    ensures WithinRetryLimit(BatchWaits(send, items, maxRetries), |Chunks(items, BatchSize)|, maxRetries)
    ensures BatchOutcome(send, items, maxRetries).Err? ==> EndsWithAllRetries(BatchWaits(send, items, maxRetries), maxRetries)
  {
    if |items| > 0 {
      RunWaitsBound(send, Chunks(items, BatchSize), 0, maxRetries, 0);
      RunWaitsOnError(send, Chunks(items, BatchSize), 0, maxRetries, 0);
    }
  }

  /** A batch call that returns reports every item as written. */
  lemma BatchOutcomeWritten<T>(send: Send<T>, items: seq<T>, maxRetries: int)
    ensures BatchOutcome(send, items, maxRetries).Ok? ==> BatchOutcome(send, items, maxRetries).value == |items|
  {
    if |items| > 0 {
      var groups := Chunks(items, BatchSize);
      RunGroupsWritten(send, groups, 0, maxRetries, 0);
      ChunksSpec(items, BatchSize);
      assert groups[0..] == groups;
    }
  }
}
