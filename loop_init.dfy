/** The integer rules with which `gomp_loop_init` sets up a work share and
    `GOMP_loop_runtime_start` picks the start routine of a `schedule(runtime)`
    loop (libgomp/src/libgomp/loop.c:385-724 and 1047-1103).  The environment
    variables the source reads (`RANDMIN`, `RANDMAX`, `TRAPSTART`, `TRAPEND`)
    are inputs, already converted to integers; the team's thread count is an
    input too. */
module LoopInit {
  import opened WorkShares
  import opened TaskSort
  import opened Balance
  import opened Sums

  datatype Option<T> = None | Some(value: T)

  /** C's `/`: the quotient truncated toward zero (for a positive divisor). */
  function CDiv(a: int, b: int): int
    requires 1 <= b
  {
    if 0 <= a then a / b else -((-a) / b)
  }

  /** The truncated quotient leaves a remainder of `a`'s sign, smaller than
      the divisor. */
  lemma CDivBounds(a: int, b: int)
    requires 1 <= b
    ensures var q := CDiv(a, b);
            (0 <= a ==> 0 <= q && q * b <= a < q * b + b) &&
            (a < 0 ==> q <= 0 && q * b - b < a <= q * b)
  {
    if 0 <= a {
      assert a == (a / b) * b + a % b;
    } else {
      var d := (-a) / b;
      assert -a == d * b + (-a) % b;
      assert CDiv(a, b) * b == -(d * b) by {
        assert CDiv(a, b) == -d;
        NegMul(d, b);
      }
    }
  }

  lemma NegMul(d: int, b: int)
    ensures (-d) * b == -(d * b)
  {
  }

  /** `num_threads`, or the team's thread count (1 without a team) when it
      is zero (loop.c:440-445 and the same lines in the other cases). */
  function ResolveThreads(numThreads: nat, team: Option<nat>): (n: nat)
    requires team.Some? ==> 1 <= team.value
    ensures 1 <= n
    ensures numThreads != 0 ==> n == numThreads
  {
    if numThreads != 0 then numThreads
    else if team.Some? then team.value
    else 1
  }

  // ---------------------------------------------------------------------------
  // The iteration range

  /** `v` is an iteration of a loop from `start` to `end` by a non-zero `incr`. */
  predicate InLoop(v: int, start: int, end: int, incr: int)
  {
    (0 < incr && start <= v < end) || (incr < 0 && end < v <= start)
  }

  /** The `end` a work share records (loop.c:393-394): `start` for a loop
      that runs backwards with respect to `incr`, `end` otherwise. */
  function CanonicalEnd(start: int, end: int, incr: int): (e: int)
    ensures e == start || e == end
  {
    if (0 < incr && start > end) || (incr < 0 && start < end) then start else end
  }

  /** Canonicalising `end` keeps the loop's iterations. */
  lemma CanonicalKeepsIterations(start: int, end: int, incr: int, v: int)
    ensures InLoop(v, start, CanonicalEnd(start, end, incr), incr) <==> InLoop(v, start, end, incr)
  {
  }

  /** A loop without iterations is recorded with `next == end`, so the
      iterators find it exhausted on their first call. */
  lemma CanonicalEmpty(start: int, end: int, incr: int)
    requires incr != 0
    ensures (forall v :: !InLoop(v, start, end, incr)) <==> CanonicalEnd(start, end, incr) == start
  {
    if CanonicalEnd(start, end, incr) != start {
      assert InLoop(start, start, end, incr);
    }
  }

  // ---------------------------------------------------------------------------
  // RAND

  datatype RandRange = RandRange(min: int, max: int)

  /** The clamps of loop.c:452-453: `randmin` is raised to 1, and a
      `randmax` below it becomes `randmin + 1`. */
  function RandClamp(min0: int, max0: int): (r: RandRange)
    ensures 1 <= r.min && r.min <= r.max
  {
    var lo := if min0 < 1 then 1 else min0;
    RandRange(lo, if max0 < lo then lo + 1 else max0)
  }

  /** The clamps change only what breaks `1 <= randmin <= randmax`. */
  lemma RandClampRepairsOnly(min0: int, max0: int)
    ensures var r := RandClamp(min0, max0);
            (1 <= min0 ==> r.min == min0) && (min0 < 1 ==> r.min == 1) &&
            (r.min <= max0 ==> r.max == max0) && (max0 < r.min ==> r.max == r.min + 1)
  {
  }

  /** `randmin` and `randmax` after `gomp_loop_init` (loop.c:446-453): a
      hundredth and a half of each thread's share of the range, unless the
      environment gives them, then clamped. */
  function RandInit(start: int, end: int, nthreads: nat, envMin: Option<int>, envMax: Option<int>): (r: RandRange)
    requires 1 <= nthreads
    ensures 1 <= r.min && r.min <= r.max
  {
    var min0 := if envMin.Some? then envMin.value else CDiv(end - start, nthreads * 100);
    var max0 := if envMax.Some? then envMax.value else CDiv(end - start, nthreads * 2);
    RandClamp(min0, max0)
  }

  /** Without environment values, a loop of at least `100 * nthreads`
      iterations keeps the computed bounds: no clamp applies. */
  lemma RandDefaultsNeedNoClamp(start: int, end: int, nthreads: nat)
    requires 1 <= nthreads && nthreads * 100 <= end - start
    ensures RandInit(start, end, nthreads, None, None) ==
            RandRange((end - start) / (nthreads * 100), (end - start) / (nthreads * 2))
  {
    var a := end - start;
    DivLeast(a, nthreads * 100, 1);
    DivDivisorMono(a, nthreads * 2, nthreads * 100);
  }

  // ---------------------------------------------------------------------------
  // TRAP

  /** `startsize` (loop.c:626, 634): half of each thread's share of the range,
      unless `TRAPSTART` gives it. */
  function TrapStartSize(start: int, end: int, nthreads: nat, env: Option<int>): (r: int)
    requires 1 <= nthreads
    ensures env.Some? ==> r == env.value
  {
    if env.Some? then env.value else CDiv(end - start, nthreads * 2)
  }

  /** For a forward range, the computed `startsize` is the whole number of
      times a double team fits in it. */
  lemma TrapStartSizeBounds(start: int, end: int, nthreads: nat)
    requires 1 <= nthreads && 0 <= end - start
    ensures var r := TrapStartSize(start, end, nthreads, None);
            0 <= r && r * (nthreads * 2) <= end - start < r * (nthreads * 2) + nthreads * 2
  {
    CDivBounds(end - start, nthreads * 2);
  }

  /** The local `endsize` (loop.c:627-628, 635): a hundredth of each thread's
      share, raised to 1; a `TRAPEND` value replaces it after the clamp, so it
      is not clamped.  It only feeds the floating-point `decr_delta`. */
  function TrapEndSize(start: int, end: int, nthreads: nat, env: Option<int>): (r: int)
    requires 1 <= nthreads
    ensures env.Some? ==> r == env.value
    ensures env.None? ==> 1 <= r
  {
    if env.Some? then env.value
    else
      var e := CDiv(end - start, nthreads * 100);
      if e < 1 then 1 else e
  }

  /** For a range of at least `100 * nthreads`, the computed `endsize` is the
      whole number of times a hundredfold team fits in it. */
  lemma TrapEndSizeBounds(start: int, end: int, nthreads: nat)
    requires 1 <= nthreads && nthreads * 100 <= end - start
    ensures var r := TrapEndSize(start, end, nthreads, None);
            r * (nthreads * 100) <= end - start < r * (nthreads * 100) + nthreads * 100
  {
    CDivBounds(end - start, nthreads * 100);
    DivLeast(end - start, nthreads * 100, 1);
  }

  // ---------------------------------------------------------------------------
  // BINLPT

  /** `__nchunks` for BINLPT (loop.c:706-708): the chunk size clause, where 1
      stands for one chunk per task. */
  function BinlptChunkCount(chunkSize: int, ntasks: nat): (n: int)
    ensures chunkSize == 1 ==> n == ntasks
    ensures chunkSize != 1 ==> n == chunkSize
  {
    if chunkSize == 1 then ntasks else chunkSize
  }

  // ---------------------------------------------------------------------------
  // gomp_loop_init

  /** `gomp_loop_init(ws, start, end, incr, sched, chunk_size, num_threads)`
      (loop.c:385-724) for the integer parts of its schedules.  `tasks` is the
      workload `omp_set_workload` registered (loop.c:68-72); `nchunks` is the
      global `__nchunks`, returned with its new value. */
  method GompLoopInit(ws: WorkShare, start: int, end: int, incr: int, sched: ScheduleType,
                      chunkSize: int, numThreads: nat, team: Option<nat>,
                      tasks: array<nat>, nchunks0: nat,
                      randminEnv: Option<int>, randmaxEnv: Option<int>, trapStartEnv: Option<int>)
    returns (nchunks: int)
    requires team.Some? ==> 1 <= team.value
    requires sched == Binlpt ==> 1 <= BinlptChunkCount(chunkSize, tasks.Length) <= tasks.Length
    requires sched == Srr && tasks.Length % 2 == 1 ==> ResolveThreads(numThreads, team) <= tasks.Length
    modifies ws`sched, ws`chunkSize, ws`end, ws`incr, ws`next, ws`randmin, ws`randmax,
             ws`trapcounter, ws`startsize, ws`taskmap, ws`loopStart, ws`threadStart, tasks
    ensures ws.sched == sched && ws.incr == incr && ws.next == start
    ensures ws.end == CanonicalEnd(start, end, incr)
    ensures ws.chunkSize == if sched == Dynamic then chunkSize * incr else chunkSize
    ensures sched == Rand ==>
              RandRange(ws.randmin, ws.randmax) ==
              RandInit(start, end, ResolveThreads(numThreads, team), randminEnv, randmaxEnv)
    ensures sched != Rand ==> ws.randmin == old(ws.randmin) && ws.randmax == old(ws.randmax)
    ensures sched == Trap ==>
              ws.trapcounter == -1 &&
              ws.startsize == TrapStartSize(start, end, ResolveThreads(numThreads, team), trapStartEnv)
    ensures sched != Trap ==> ws.trapcounter == old(ws.trapcounter) && ws.startsize == old(ws.startsize)
    ensures nchunks == if sched == Binlpt then BinlptChunkCount(chunkSize, tasks.Length) else nchunks0
    ensures TasksBalanced(sched, old(tasks[..]), tasks[..], ws.taskmap, ResolveThreads(numThreads, team), nchunks)
    ensures sched == Binlpt || sched == Srr ==>
              ws.loopStart == start && fresh(ws.threadStart) &&
              ws.threadStart.Length == ResolveThreads(numThreads, team) &&
              forall t :: 0 <= t < ws.threadStart.Length ==> ws.threadStart[t] == 0
    ensures sched != Binlpt && sched != Srr ==>
              tasks[..] == old(tasks[..]) && ws.taskmap == old(ws.taskmap) &&
              ws.loopStart == old(ws.loopStart) && ws.threadStart == old(ws.threadStart)
  {
    var n := ResolveThreads(numThreads, team);
    InitFields(ws, start, end, incr, sched, chunkSize, n, randminEnv, randmaxEnv, trapStartEnv);
    nchunks := nchunks0;
    if sched == Binlpt {
      nchunks := chunkSize;
      if nchunks == 1 {
        nchunks := tasks.Length;
      }
    }
    BalanceTasks(ws, sched, start, tasks, n, nchunks);
  }

  /** The part of `gomp_loop_init` that sets the work share's own fields
      (loop.c:387-400, 438-455, 615-645). */
  method InitFields(ws: WorkShare, start: int, end: int, incr: int, sched: ScheduleType,
                    chunkSize: int, n: nat,
                    randminEnv: Option<int>, randmaxEnv: Option<int>, trapStartEnv: Option<int>)
    requires 1 <= n
    modifies ws`sched, ws`chunkSize, ws`end, ws`incr, ws`next, ws`randmin, ws`randmax,
             ws`trapcounter, ws`startsize
    ensures ws.sched == sched && ws.incr == incr && ws.next == start
    ensures ws.end == CanonicalEnd(start, end, incr)
    ensures ws.chunkSize == if sched == Dynamic then chunkSize * incr else chunkSize
    ensures sched == Rand ==> RandRange(ws.randmin, ws.randmax) == RandInit(start, end, n, randminEnv, randmaxEnv)
    ensures sched != Rand ==> ws.randmin == old(ws.randmin) && ws.randmax == old(ws.randmax)
    ensures sched == Trap ==> ws.trapcounter == -1 && ws.startsize == TrapStartSize(start, end, n, trapStartEnv)
    ensures sched != Trap ==> ws.trapcounter == old(ws.trapcounter) && ws.startsize == old(ws.startsize)
  {
    ws.sched := sched;
    ws.chunkSize := chunkSize;
    ws.end := if (incr > 0 && start > end) || (incr < 0 && start < end) then start else end;
    ws.incr := incr;
    ws.next := start;
    if sched == Dynamic {
      ws.chunkSize := ws.chunkSize * incr;
    }
    InitRand(ws, sched, start, end, n, randminEnv, randmaxEnv);
    InitTrap(ws, sched, start, end, n, trapStartEnv);
  }

  /** The `GFS_RAND` case (loop.c:438-455) once `num_threads` is resolved;
      the other schedules leave the bounds alone. */
  method InitRand(ws: WorkShare, sched: ScheduleType, start: int, end: int, nthreads: nat,
                  randminEnv: Option<int>, randmaxEnv: Option<int>)
    requires 1 <= nthreads
    modifies ws`randmin, ws`randmax
    ensures sched == Rand ==>
              RandRange(ws.randmin, ws.randmax) == RandInit(start, end, nthreads, randminEnv, randmaxEnv)
    ensures sched != Rand ==> ws.randmin == old(ws.randmin) && ws.randmax == old(ws.randmax)
  {
    if sched == Rand {
      ws.randmin := CDiv(end - start, nthreads * 100);
      ws.randmax := CDiv(end - start, nthreads * 2);
      if randminEnv.Some? {
        ws.randmin := randminEnv.value;
      }
      if randmaxEnv.Some? {
        ws.randmax := randmaxEnv.value;
      }
      if ws.randmin < 1 {
        ws.randmin := 1;
      }
      if ws.randmax < ws.randmin {
        ws.randmax := ws.randmin + 1;
      }
    }
  }

  /** The integer part of the `GFS_TRAP` case (loop.c:615-645) once
      `num_threads` is resolved; the other schedules leave the fields alone. */
  method InitTrap(ws: WorkShare, sched: ScheduleType, start: int, end: int, nthreads: nat,
                  trapStartEnv: Option<int>)
    requires 1 <= nthreads
    modifies ws`trapcounter, ws`startsize
    ensures sched == Trap ==>
              ws.trapcounter == -1 && ws.startsize == TrapStartSize(start, end, nthreads, trapStartEnv)
    ensures sched != Trap ==> ws.trapcounter == old(ws.trapcounter) && ws.startsize == old(ws.startsize)
  {
    if sched == Trap {
      ws.trapcounter := -1;
      ws.startsize := CDiv(end - start, nthreads * 2);
      if trapStartEnv.Some? {
        ws.startsize := trapStartEnv.value;
      }
    }
  }

  /** What `srr_balance` leaves behind: the workload `before` sorted in place
      into `after`, and a task map that sends the task sorted to position `x`
      to its sorted round-robin owner, always a valid thread. */
  ghost predicate SrrMapped(before: seq<nat>, after: seq<nat>, taskmap: seq<nat>, nthreads: nat)
  {
    var S := SortResult(before);
    1 <= nthreads && (|before| % 2 == 1 ==> nthreads <= |before|) &&
    after == S.a && |taskmap| == |before| &&
    (forall x :: 0 <= x < |S.m| ==> S.m[x] < |before|) &&
    (forall x :: 0 <= x < |before| ==> S.m[x] < |taskmap| && taskmap[S.m[x]] == SrrOwner(S.a, S.m, nthreads, x)) &&
    (forall t :: 0 <= t < |taskmap| ==> taskmap[t] < nthreads)
  }

  /** The task map `binlpt_balance` or `srr_balance` builds from the
      workload `before`, which `srr_balance` sorts in place into `after`. */
  ghost predicate TasksBalanced(sched: ScheduleType, before: seq<nat>, after: seq<nat>,
                                taskmap: seq<nat>, nthreads: nat, nchunks: int)
  {
    (sched == Binlpt ==>
       after == before && 1 <= nchunks <= |before| && 1 <= nthreads &&
       taskmap == BinlptMap(after, nchunks, nthreads)) &&
    (sched == Srr ==> SrrMapped(before, after, taskmap, nthreads))
  }

  /** The `GFS_SRR` case, which `GFS_BINLPT` falls into (loop.c:710-723):
      `srr_balance` or `binlpt_balance` fills the task map, and every thread's
      cursor starts as a zeroed `calloc` block; the other schedules leave the
      workload and the task fields alone. */
  method BalanceTasks(ws: WorkShare, sched: ScheduleType, start: int, tasks: array<nat>,
                      nthreads: nat, nchunks: int)
    requires 1 <= nthreads
    requires sched == Binlpt ==> 1 <= nchunks <= tasks.Length
    requires sched == Srr && tasks.Length % 2 == 1 ==> nthreads <= tasks.Length
    modifies ws`taskmap, ws`loopStart, ws`threadStart, tasks
    ensures TasksBalanced(sched, old(tasks[..]), tasks[..], ws.taskmap, nthreads, nchunks)
    ensures sched == Binlpt || sched == Srr ==>
              ws.loopStart == start && fresh(ws.threadStart) && ws.threadStart.Length == nthreads &&
              forall t :: 0 <= t < ws.threadStart.Length ==> ws.threadStart[t] == 0
    ensures sched != Binlpt && sched != Srr ==>
              tasks[..] == old(tasks[..]) && ws.taskmap == old(ws.taskmap) &&
              ws.loopStart == old(ws.loopStart) && ws.threadStart == old(ws.threadStart)
  {
    if sched == Binlpt || sched == Srr {
      var taskmap: array<nat>;
      if sched == Srr {
        taskmap := SrrBalance(tasks, nthreads);
      } else {
        taskmap := BinlptBalance(tasks[..], nthreads, nchunks);
      }
      ws.taskmap := taskmap[..];
      ws.loopStart := start;
      ws.threadStart := new nat[nthreads](_ => 0);
    }
  }

  // ---------------------------------------------------------------------------
  // GOMP_loop_runtime_start

  /** The start routine `GOMP_loop_runtime_start` calls, with the chunk size
      it passes, or `abort()`. */
  datatype StartCall = StartCall(sched: ScheduleType, chunkSize: int) | Abort

  /** The schedules the runtime switch has a start routine for (loop.c:1061-1095). */
  predicate HasStartRoutine(s: ScheduleType)
  {
    match s
    case Static | Dynamic | Guided | Fact | Tape | Frac | Wfac | Bold | Trap
       | Fsc | Afac | Binlpt | Srr | Fac2 | Rand => true
    case _ => false
  }

  /** `GOMP_loop_runtime_start` (loop.c:1047-1103) for the loop's `end`, the
      `run-sched-var` schedule and modifier, and the team's thread count. */
  function RuntimeStart(runSched: ScheduleType, modifier: int, end: int, team: Option<nat>): (c: StartCall)
    ensures c.StartCall? ==> HasStartRoutine(c.sched)
  {
    var nthreads := if team.Some? then team.value else 1;
    if end <= 2 * nthreads && runSched != Static then StartCall(Static, modifier)
    else if runSched == Auto then StartCall(Static, 0)
    else if HasStartRoutine(runSched) then StartCall(runSched, modifier)
    else Abort
  }

  /** A loop with at most two iterations per thread always runs statically
      with the modifier as chunk size, whatever the runtime schedule. */
  lemma SmallLoopsRunStatic(runSched: ScheduleType, modifier: int, end: int, team: Option<nat>)
    requires end <= 2 * (if team.Some? then team.value else 1)
    ensures RuntimeStart(runSched, modifier, end, team) == StartCall(Static, modifier)
  {
  }

  /** Otherwise the runtime schedule is used as it is, `auto` becomes static
      with chunk size 0, and a schedule without a start routine aborts. */
  lemma LargeLoopsFollowSchedule(runSched: ScheduleType, modifier: int, end: int, team: Option<nat>)
    requires 2 * (if team.Some? then team.value else 1) < end
    ensures var c := RuntimeStart(runSched, modifier, end, team);
            (HasStartRoutine(runSched) ==> c == StartCall(runSched, modifier)) &&
            (runSched == Auto ==> c == StartCall(Static, 0)) &&
            (c.Abort? <==> !HasStartRoutine(runSched) && runSched != Auto)
  {
  }
}
