/** The parts of libgomp's `enum gomp_schedule_type` and `struct gomp_work_share`
    that the loop schedulers of this model read and write. */
module WorkShares {

  /** The loop schedule kinds (`GFS_*`) and the two families of tunable
      schedules (`BO_*`, `FS_*`). */
  datatype ScheduleType =
    | Static | Dynamic | Guided | Auto
    | Fact | Fac2 | Tape | Frac | Wfac | Bold | Trap | Fsc | Afac | Awf | Rand
    | Binlpt | Srr
    | BoFss | BoCss | BoQss | BoTss | BoTape
    | FsFss | FsCss | FsTss | FsTape | FsFac2 | FsAf

  /** One work-share construct.  Integer fields are unbounded; the source's `long`
      and `unsigned` widths are not modelled. */
  class WorkShare {
    var sched: ScheduleType
    var chunkSize: int
    var end: int
    var incr: int
    var next: int
    var barrier: int
    var randmin: int
    var randmax: int
    var trapcounter: int
    var startsize: int
    var loopStart: int
    var wremaining: int
    var taskmap: seq<nat>
    var threadStart: array<nat>

    constructor (threads: nat)
      ensures threadStart.Length == threads && fresh(threadStart)
      ensures forall t :: 0 <= t < threads ==> threadStart[t] == 0
    {
      sched := Static;
      threadStart := new nat[threads](_ => 0);
    }
  }
}
