/** The per-thread iteration handout of `thirdparty_schedules.h`: BIN+LPT runs
    (`gomp_iter_binlpt_next`) and the HSS chunk selection (`gomp_iter_hss_next`). */
module ThirdParty {
  import opened WorkShares
  import opened Sums

  // ---------------------------------------------------------------------------
  // BIN+LPT

  /** The first task from `from` on that `taskmap` gives to thread `tid`, or
      `|taskmap|` (or `from`, past the end) if there is none. */
  function FirstOwned(taskmap: seq<nat>, tid: nat, from: nat): (r: nat)
    ensures from <= r && (from <= |taskmap| ==> r <= |taskmap|)
    ensures r < |taskmap| ==> taskmap[r] == tid
    ensures forall k :: from <= k < r && k < |taskmap| ==> taskmap[k] != tid
    ensures r >= |taskmap| ==> forall k :: from <= k < |taskmap| ==> taskmap[k] != tid
    decreases |taskmap| - from
  {
    if from >= |taskmap| then from
    else if taskmap[from] == tid then from
    else FirstOwned(taskmap, tid, from + 1)
  }

  /** The end of the run of tasks of thread `tid` that starts at `i`: the first
      later task not given to `tid`, or `|taskmap|`. */
  function RunEnd(taskmap: seq<nat>, tid: nat, i: nat): (r: nat)
    requires i < |taskmap|
    ensures i < r <= |taskmap|
    ensures forall k :: i < k < r ==> taskmap[k] == tid
    ensures r < |taskmap| ==> taskmap[r] != tid
    decreases |taskmap| - i
  {
    if i + 1 == |taskmap| || taskmap[i + 1] != tid then i + 1
    else RunEnd(taskmap, tid, i + 1)
  }

  /** The run handed out after one that ended at `j` starts strictly after `j`, so
      successive calls of one thread return disjoint, increasing runs. */
  lemma NextRunAfter(taskmap: seq<nat>, tid: nat, i: nat)
    requires i < |taskmap| && taskmap[i] == tid
    ensures var j := RunEnd(taskmap, tid, i);
            FirstOwned(taskmap, tid, j) < |taskmap| ==> j < FirstOwned(taskmap, tid, j)
  {
  }

  /** `gomp_iter_binlpt_next(pstart, pend)` (thirdparty_schedules.h:270-305) for the
      thread `tid`, with `__ntasks` the length of the task map: from the thread's
      cursor, finds its next task `i` and the end `j` of its run, moves the cursor
      to `j` and hands out `[loop_start + i, loop_start + j)`; returns false when the
      thread has no task left. */
  method BinlptNext(ws: WorkShare, tid: nat) returns (ok: bool, start: int, end: int)
    requires tid < ws.threadStart.Length
    modifies ws.threadStart
    ensures var from := old(ws.threadStart[tid]);
            ok <==> FirstOwned(ws.taskmap, tid, from) < |ws.taskmap|
    ensures !ok ==> ws.threadStart[..] == old(ws.threadStart[..])
    ensures ok ==>
              var i := FirstOwned(ws.taskmap, tid, old(ws.threadStart[tid]));
              var j := RunEnd(ws.taskmap, tid, i);
              start == ws.loopStart + i && end == ws.loopStart + j &&
              ws.threadStart[..] == old(ws.threadStart[..])[tid := j]
  {
    var from := ws.threadStart[tid];
    var taskmap := ws.taskmap;
    var i := from;
    while i < |taskmap|
      invariant from <= i
      invariant FirstOwned(taskmap, tid, i) == FirstOwned(taskmap, tid, from)
      decreases |taskmap| - i
    {
      if taskmap[i] == tid {
        break;
      }
      i := i + 1;
    }
    if i >= |taskmap| {
      return false, 0, 0;
    }
    var j := i + 1;
    while j < |taskmap|
      invariant i < j <= |taskmap|
      invariant RunEnd(taskmap, tid, i) == RunEnd(taskmap, tid, j - 1)
      decreases |taskmap| - j
    {
      if taskmap[j] != tid {
        break;
      }
      j := j + 1;
    }
    ws.threadStart[tid] := j;
    start := ws.loopStart + i;
    end := ws.loopStart + j;
    ok := true;
  }

  // ---------------------------------------------------------------------------
  // HSS

  /** The chunk weight target of one HSS call: the computed `target` raised to
      at least the work share's `chunk_size` (thirdparty_schedules.h:329-331). */
  function HssTarget(target: int, chunkSize: int): (r: int)
    ensures chunkSize <= r && target <= r
    ensures r == target || r == chunkSize
  {
    if target < chunkSize then chunkSize else target
  }

  /** Whether the selection loop stops after taking the `k` tasks from `s`
      (thirdparty_schedules.h:343-356): the next task would push the weight past
      the target `c`, and taking it would not be closer to `c` than stopping. */
  ghost predicate Stops(tasks: seq<nat>, s: nat, k: nat, c: int)
    requires 1 <= k && s + k <= |tasks|
  {
    var w1 := Sum(tasks[s..s + k]);
    var w2 := if s + k < |tasks| then w1 + tasks[s + k] else 0;
    !(w2 <= c) && (w1 >= c || w2 - c > c - w1)
  }

  /** The number of tasks the selection loop takes from `s` on, given that it has
      taken `k` without stopping. */
  ghost function ScannedFrom(tasks: seq<nat>, s: nat, c: int, k: nat): (r: nat)
    requires s + k <= |tasks|
    ensures k <= r <= |tasks| - s
    ensures k < |tasks| - s ==> k < r
    ensures forall k' :: k < k' < r ==> !Stops(tasks, s, k', c)
    ensures r < |tasks| - s ==> Stops(tasks, s, r, c)
    decreases |tasks| - s - k
  {
    if s + k == |tasks| then k
    else if Stops(tasks, s, k + 1, c) then k + 1
    else ScannedFrom(tasks, s, c, k + 1)
  }

  /** The number of tasks one HSS call takes from `s`: at least one while tasks are
      left, then as many as keep the loop going, the first stop included; zero
      from `s >= |tasks|`. */
  ghost function Scanned(tasks: seq<nat>, s: nat, c: int): (r: nat)
    ensures s < |tasks| ==> 1 <= r <= |tasks| - s
    ensures s >= |tasks| ==> r == 0
    ensures forall k :: 1 <= k < r ==> !Stops(tasks, s, k, c)
    ensures 0 < r < |tasks| - s ==> Stops(tasks, s, r, c)
  {
    if s >= |tasks| then 0 else ScannedFrom(tasks, s, c, 0)
  }

  /** The selection loop of `gomp_iter_hss_next` (thirdparty_schedules.h:334-357):
      the number `k` of tasks taken from `s` on with target `c`, and their weight. */
  method HssScan(tasks: seq<nat>, s: nat, c: int) returns (k: nat, chunkweight: nat)
    ensures k == Scanned(tasks, s, c)
    ensures s < |tasks| ==> chunkweight == Sum(tasks[s..s + k])
    ensures s >= |tasks| ==> chunkweight == 0
  {
    chunkweight := 0;
    k := 0;
    var i: nat := s;
    while i < |tasks|
      invariant i == s + k
      invariant s < |tasks| ==> i <= |tasks| && chunkweight == Sum(tasks[s..i])
      invariant s < |tasks| ==> ScannedFrom(tasks, s, c, k) == Scanned(tasks, s, c)
      invariant s >= |tasks| ==> k == 0 && chunkweight == 0
      decreases |tasks| - i
    {
      k := k + 1;
      SumExtend(tasks, s, i);
      chunkweight := chunkweight + tasks[i];
      var w1 := chunkweight;
      var w2 := if i + 1 < |tasks| then chunkweight + tasks[i + 1] else 0;
      assert Stops(tasks, s, k, c) <==> !(w2 <= c) && (w1 >= c || w2 - c > c - w1);
      if w2 <= c {
        i := i + 1;
        continue;
      }
      if w1 >= c {
        break;
      }
      if w2 - c > c - w1 {
        break;
      }
      i := i + 1;
    }
  }

  /** `gomp_iter_hss_next(pstart, pend)` (thirdparty_schedules.h:307-371) with the
      tasks `__tasks` and the rounded-up weight target `target` as inputs: takes
      `k` tasks from `loop_start` on, hands out `[loop_start, loop_start + k + 1)`
      as written, advances `loop_start` by `k` and takes the chunk's weight off
      `wremaining`; returns false exactly when `loop_start` was `__ntasks`. */
  method HssNext(ws: WorkShare, tasks: seq<nat>, target: int) returns (ok: bool, start: int, end: int)
    requires 0 <= ws.loopStart
    modifies ws`loopStart, ws`wremaining
    ensures var s := old(ws.loopStart);
            var k := Scanned(tasks, s, HssTarget(target, ws.chunkSize));
            start == s && end == s + k + 1 && ws.loopStart == s + k &&
            (s < |tasks| ==> ws.wremaining == old(ws.wremaining) - Sum(tasks[s..s + k])) &&
            (s >= |tasks| ==> ws.wremaining == old(ws.wremaining))
    ensures ok <==> old(ws.loopStart) != |tasks|
  {
    var chunksize := target;
    if chunksize < ws.chunkSize {
      chunksize := ws.chunkSize;
    }
    var k, chunkweight := HssScan(tasks, ws.loopStart, chunksize);
    start := ws.loopStart;
    end := ws.loopStart + k + 1;
    ws.loopStart := ws.loopStart + k;
    ws.wremaining := ws.wremaining - chunkweight;
    ok := start != |tasks|;
  }
}
