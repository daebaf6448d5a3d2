/** The schedule predicates of `bo_scheduling.h`. */
module BoScheduling {
  import opened WorkShares

  /** `is_bo_schedule`: the schedules whose parameter the optimiser tunes. */
  predicate IsBoSchedule(sched: ScheduleType)
  {
    sched == BoFss || sched == BoCss || sched == BoQss
  }

  /** `is_parameterized`: the tuned schedules and the fixed-parameter CSS one. */
  predicate IsParameterized(sched: ScheduleType)
  {
    IsBoSchedule(sched) || sched == FsCss
  }

  /** Exactly three schedules are tuned ones. */
  lemma BoSchedules(sched: ScheduleType)
    ensures IsBoSchedule(sched) <==> sched in {BoFss, BoCss, BoQss}
  {
  }

  /** Exactly four schedules take a parameter. */
  lemma ParameterizedSchedules(sched: ScheduleType)
    ensures IsParameterized(sched) <==> sched in {BoFss, BoCss, BoQss, FsCss}
  {
  }

  /** Every tuned schedule takes a parameter, and `FS_CSS` is the only untuned one. */
  lemma BoIsParameterized(sched: ScheduleType)
    ensures IsBoSchedule(sched) ==> IsParameterized(sched)
    ensures IsParameterized(sched) && !IsBoSchedule(sched) ==> sched == FsCss
  {
  }

  /** The other schedules of both families, and every `GFS_*` one, satisfy neither. */
  lemma OthersNeither(sched: ScheduleType)
    requires sched !in {BoFss, BoCss, BoQss, FsCss}
    ensures !IsBoSchedule(sched) && !IsParameterized(sched)
  {
  }
}
