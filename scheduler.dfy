/** app/scheduler.py: `BackgroundScheduler`, a list of tasks polled by a
    worker thread. The due-check `should_run_task` is a pure decision over a
    task and the clock; adding tasks, recording a completed run, one pass of
    the worker over the list, and the start/stop flag change the scheduler
    in place. The clock readings, and whether each scheduled function
    completes, are passed in. */
module Scheduler {
  import opened Common
  import opened Clock

  /** The `type` of a task and the fields that type carries. Only the
      three `add_*` methods create tasks; `Unknown` stands for a task dict
      of any other type handed to `should_run_task`. */
  datatype Schedule =
    | Weekly(dayOfWeek: int, hour: int, minute: int)
    | Daily(hour: int, minute: int)
    | Interval(minutes: int)
    | Unknown

  /** A task dict without its function: the schedule and `last_run`. */
  datatype Task = Task(schedule: Schedule, lastRun: Option<Instant>)

  /** `replace` with an hour or minute out of range raises `ValueError`. */
  const ReplaceError: Failure := Unhandled("ValueError")
  /** Indexing the seven weekday names with a day outside -7..6 raises. */
  const WeekdayIndexError: Failure := Unhandled("IndexError")

  /** The target time of today has been reached and the task has not run
      on today's date. */
  predicate DueToday(now: Instant, hour: nat, minute: nat, lastRun: Option<Instant>)
    requires ValidTime(hour, minute)
  {
    now >= AtTime(now, hour, minute) && (lastRun.None? || Day(lastRun.value) != Day(now))
  }

  /** `should_run_task` with `datetime.now()` read as `now`. A weekly task
      is checked against its weekday first, so its time is only used (and
      can only raise) on that weekday. */
  function ShouldRunTask(task: Task, now: Instant): (r: Result<bool>)
    ensures r.Err? <==>
              || (task.schedule.Weekly? && Weekday(now) == task.schedule.dayOfWeek
                  && !ValidTime(task.schedule.hour, task.schedule.minute))
              || (task.schedule.Daily? && !ValidTime(task.schedule.hour, task.schedule.minute))
    ensures r == Ok(true) ==> !task.schedule.Unknown?
    ensures r == Ok(true) && task.schedule.Weekly? ==> Weekday(now) == task.schedule.dayOfWeek
    ensures r.Ok? && (task.schedule.Daily? || (task.schedule.Weekly? && Weekday(now) == task.schedule.dayOfWeek)) ==>
              (r.value <==>
                 && Hour(now) * 60 + Minute(now) >= task.schedule.hour * 60 + task.schedule.minute
                 && (task.lastRun.None? || Day(task.lastRun.value) != Day(now)))
  {
    match task.schedule
    case Weekly(dayOfWeek, hour, minute) =>
      if Weekday(now) != dayOfWeek then Ok(false)
      else if !ValidTime(hour, minute) then Err(ReplaceError)
      else
        ReachedIff(now, hour, minute);
        Ok(DueToday(now, hour, minute, task.lastRun))
    case Daily(hour, minute) =>
      if !ValidTime(hour, minute) then Err(ReplaceError)
      else
        ReachedIff(now, hour, minute);
        Ok(DueToday(now, hour, minute, task.lastRun))
    case Interval(minutes) =>
      Ok(task.lastRun.None? || now >= task.lastRun.value + minutes * MicrosPerMinute)
    case Unknown => Ok(false)
  }

  /** A weekly task is never due on another weekday. */
  lemma WeeklyOnlyOnItsDay(dayOfWeek: int, hour: int, minute: int, lastRun: Option<Instant>, now: Instant)
    requires Weekday(now) != dayOfWeek
    ensures ShouldRunTask(Task(Weekly(dayOfWeek, hour, minute), lastRun), now) == Ok(false)
  {
  }

  /** Before the hour:minute target of the day, a weekly or daily task is
      not due. */
  lemma NotDueBeforeTarget(task: Task, now: Instant)
    requires task.schedule.Weekly? || task.schedule.Daily?
    requires ValidTime(task.schedule.hour, task.schedule.minute)
    requires Hour(now) * 60 + Minute(now) < task.schedule.hour * 60 + task.schedule.minute
    ensures ShouldRunTask(task, now) == Ok(false)
  {
  }

  /** A weekly or daily task that has never run is due from the target time
      on (for a weekly task, on its weekday). */
  lemma NeverRunDueAtTarget(task: Task, now: Instant)
    requires task.schedule.Weekly? || task.schedule.Daily?
    requires task.schedule.Weekly? ==> Weekday(now) == task.schedule.dayOfWeek
    requires ValidTime(task.schedule.hour, task.schedule.minute)
    requires Hour(now) * 60 + Minute(now) >= task.schedule.hour * 60 + task.schedule.minute
    requires task.lastRun.None?
    ensures ShouldRunTask(task, now) == Ok(true)
  {
    ReachedIff(now, task.schedule.hour, task.schedule.minute);
  }

  /** A weekly or daily task that last ran on today's date is not due, so
      it runs at most once a day. */
  lemma SameDayNotDue(task: Task, now: Instant)
    requires task.schedule.Weekly? || task.schedule.Daily?
    requires task.lastRun.Some? && Day(task.lastRun.value) == Day(now)
    ensures ShouldRunTask(task, now) != Ok(true)
  {
  }

  /** An interval task is due exactly when it never ran or the interval
      has passed since its last run. */
  lemma IntervalDueIff(minutes: int, lastRun: Option<Instant>, now: Instant)
    ensures ShouldRunTask(Task(Interval(minutes), lastRun), now).Ok?
    ensures ShouldRunTask(Task(Interval(minutes), lastRun), now).value <==>
              lastRun.None? || now >= lastRun.value + minutes * MicrosPerMinute
  {
  }

  /** A task of any other type is never due. */
  lemma UnknownNeverDue(lastRun: Option<Instant>, now: Instant)
    ensures ShouldRunTask(Task(Unknown, lastRun), now) == Ok(false)
  {
  }

  /** `run_task`: `last_run` is the clock reading taken after the function
      returned; a function that raised (`None`) leaves the task as it was. */
  function Completed(task: Task, finishedAt: Option<Instant>): (r: Task)
    ensures r.schedule == task.schedule
    ensures r.lastRun == if finishedAt.Some? then finishedAt else task.lastRun
  {
    if finishedAt.Some? then task.(lastRun := finishedAt) else task
  }

  /** What one iteration of the worker's `for` loop does to a task. */
  function Visit(task: Task, now: Instant, finishedAt: Option<Instant>): (r: Task)
    ensures r.schedule == task.schedule
    ensures r.lastRun == if ShouldRunTask(task, now) == Ok(true) && finishedAt.Some? then finishedAt else task.lastRun
  {
    if ShouldRunTask(task, now) == Ok(true) then Completed(task, finishedAt) else task
  }

  /** The first task whose due-check raises, or the length of the list: the
      exception leaves the worker's loop at that task. */
  function FirstFailure(tasks: seq<Task>, checkedAt: seq<Instant>): (k: nat)
    requires |checkedAt| == |tasks|
    ensures k <= |tasks|
    ensures forall j :: 0 <= j < k ==> ShouldRunTask(tasks[j], checkedAt[j]).Ok?
    ensures k < |tasks| ==> ShouldRunTask(tasks[k], checkedAt[k]).Err?
    decreases |tasks|
  {
    if |tasks| == 0 then 0
    else if ShouldRunTask(tasks[0], checkedAt[0]).Err? then 0
    else 1 + FirstFailure(tasks[1..], checkedAt[1..])
  }

  /** The task list after one pass of the worker: the tasks before the first
      failing check are visited, the rest are untouched. */
  function AfterPass(tasks: seq<Task>, checkedAt: seq<Instant>, finishedAt: seq<Option<Instant>>): (r: seq<Task>)
    requires |checkedAt| == |tasks| && |finishedAt| == |tasks|
    ensures |r| == |tasks|
    ensures forall j :: 0 <= j < |r| ==> r[j].schedule == tasks[j].schedule
  {
    var k := FirstFailure(tasks, checkedAt);
    seq(|tasks|, j requires 0 <= j < |tasks| =>
      if j < k then Visit(tasks[j], checkedAt[j], finishedAt[j]) else tasks[j])
  }

  /** A pass records a run exactly for the tasks that were due and whose
      function completed; every other `last_run` stays. */
  lemma PassRecordsCompletedRuns(tasks: seq<Task>, checkedAt: seq<Instant>, finishedAt: seq<Option<Instant>>, j: nat)
    requires |checkedAt| == |tasks| && |finishedAt| == |tasks| && j < |tasks|
    ensures AfterPass(tasks, checkedAt, finishedAt)[j].lastRun ==
              if j < FirstFailure(tasks, checkedAt) && ShouldRunTask(tasks[j], checkedAt[j]) == Ok(true)
                 && finishedAt[j].Some?
              then finishedAt[j]
              else tasks[j].lastRun
  {
  }

  /** A weekly or daily task that ran in a pass and finished on some date is
      not due again on that date. */
  lemma RanNotDueAgainToday(tasks: seq<Task>, checkedAt: seq<Instant>, finishedAt: seq<Option<Instant>>,
                            j: nat, later: Instant)
    requires |checkedAt| == |tasks| && |finishedAt| == |tasks| && j < |tasks|
    requires tasks[j].schedule.Weekly? || tasks[j].schedule.Daily?
    requires j < FirstFailure(tasks, checkedAt) && ShouldRunTask(tasks[j], checkedAt[j]) == Ok(true)
    requires finishedAt[j].Some? && Day(finishedAt[j].value) == Day(later)
    ensures ShouldRunTask(AfterPass(tasks, checkedAt, finishedAt)[j], later) != Ok(true)
  {
    PassRecordsCompletedRuns(tasks, checkedAt, finishedAt, j);
    SameDayNotDue(AfterPass(tasks, checkedAt, finishedAt)[j], later);
  }

  /** An interval task that ran in a pass is not due again until its
      interval has passed since the run finished. */
  lemma IntervalWaitsAfterRun(tasks: seq<Task>, checkedAt: seq<Instant>, finishedAt: seq<Option<Instant>>,
                              j: nat, later: Instant)
    requires |checkedAt| == |tasks| && |finishedAt| == |tasks| && j < |tasks|
    requires tasks[j].schedule.Interval?
    requires j < FirstFailure(tasks, checkedAt) && ShouldRunTask(tasks[j], checkedAt[j]) == Ok(true)
    requires finishedAt[j].Some?
    ensures ShouldRunTask(AfterPass(tasks, checkedAt, finishedAt)[j], later)
            == Ok(later >= finishedAt[j].value + tasks[j].schedule.minutes * MicrosPerMinute)
  {
    PassRecordsCompletedRuns(tasks, checkedAt, finishedAt, j);
  }

  /** What `get_status` reports, without the task names and the display
      strings of the schedules. */
  datatype Status = Status(running: bool, taskCount: nat, lastRuns: seq<Option<Instant>>)

  /** What rendering a task's schedule in `get_status` raises: a weekly
      task indexes the seven weekday names with its day, which fails
      outside -7..6, and a task of any other type has no `day_of_week`. */
  function DisplayFailure(schedule: Schedule): (r: Option<Failure>)
    ensures r.None? <==> schedule.Daily? || schedule.Interval? || (schedule.Weekly? && -7 <= schedule.dayOfWeek < 7)
    ensures schedule.Weekly? && r.Some? ==> r.value == WeekdayIndexError
  {
    match schedule
    case Weekly(dayOfWeek, _, _) => if -7 <= dayOfWeek < 7 then None else Some(WeekdayIndexError)
    case Daily(_, _) => None
    case Interval(_) => None
    case Unknown => Some(Unhandled("KeyError"))
  }

  /** The first task whose schedule cannot be rendered, or the length of
      the list: the comprehension stops at that task. */
  function FirstUndisplayable(tasks: seq<Task>): (k: nat)
    ensures k <= |tasks|
    ensures forall j :: 0 <= j < k ==> DisplayFailure(tasks[j].schedule).None?
    ensures k < |tasks| ==> DisplayFailure(tasks[k].schedule).Some?
    decreases |tasks|
  {
    if |tasks| == 0 then 0
    else if DisplayFailure(tasks[0].schedule).Some? then 0
    else 1 + FirstUndisplayable(tasks[1..])
  }

  /** A weekly task appended with a day outside -7..6 makes every later
      status report raise, whatever the tasks before it. */
  lemma BadWeekdayBreaksStatus(tasks: seq<Task>, dayOfWeek: int, hour: int, minute: int)
    requires !(-7 <= dayOfWeek < 7)
    ensures var all := tasks + [Task(Weekly(dayOfWeek, hour, minute), None)];
            FirstUndisplayable(all) < |all|
            && DisplayFailure(all[FirstUndisplayable(all)].schedule).Some?
  {
    var all := tasks + [Task(Weekly(dayOfWeek, hour, minute), None)];
    assert DisplayFailure(all[|tasks|].schedule).Some?;
  }

  class BackgroundScheduler {
    var tasks: seq<Task>
    var running: bool

    constructor()
      ensures tasks == [] && !running
    {
      tasks := [];
      running := false;
    }

    /** `add_weekly_task`: the task is appended before the log line indexes
        the weekday names, so a day outside -7..6 is added and then the
        call raises. */
    method AddWeeklyTask(dayOfWeek: int := 6, hour: int := 9, minute: int := 0) returns (r: Outcome)
      modifies this
      ensures tasks == old(tasks) + [Task(Weekly(dayOfWeek, hour, minute), None)]
      ensures running == old(running)
      ensures r == if -7 <= dayOfWeek < 7 then Pass else Fail(WeekdayIndexError)
    {
      tasks := tasks + [Task(Weekly(dayOfWeek, hour, minute), None)];
      r := if -7 <= dayOfWeek < 7 then Pass else Fail(WeekdayIndexError);
    }

    /** `add_daily_task`. */
    method AddDailyTask(hour: int := 9, minute: int := 0)
      modifies this
      ensures tasks == old(tasks) + [Task(Daily(hour, minute), None)]
      ensures running == old(running)
    {
      tasks := tasks + [Task(Daily(hour, minute), None)];
    }

    /** `add_interval_task`. */
    method AddIntervalTask(minutes: int := 1)
      modifies this
      ensures tasks == old(tasks) + [Task(Interval(minutes), None)]
      ensures running == old(running)
    {
      tasks := tasks + [Task(Interval(minutes), None)];
    }

    /** `run_task` on the task at index `i`; `finishedAt` is the clock after
        the function returned, or `None` when it raised. */
    method RunTask(i: nat, finishedAt: Option<Instant>)
      requires i < |tasks|
      modifies this
      ensures tasks == old(tasks)[i := Completed(old(tasks)[i], finishedAt)]
      ensures running == old(running)
    {
      tasks := tasks[i := Completed(tasks[i], finishedAt)];
    }

    /** One pass of `_scheduler_worker`'s `for` loop. Task `j` is checked at
        `checkedAt[j]` and, when due, its function finishes at
        `finishedAt[j]`. A check that raises ends the worker; `running`
        stays set, so `start` will not launch a new worker. */
    method WorkerPass(checkedAt: seq<Instant>, finishedAt: seq<Option<Instant>>) returns (r: Outcome)
      requires |checkedAt| == |tasks| && |finishedAt| == |tasks|
      modifies this
      ensures tasks == AfterPass(old(tasks), checkedAt, finishedAt)
      ensures running == old(running)
      ensures r == if FirstFailure(old(tasks), checkedAt) == |tasks| then Pass else Fail(ReplaceError)
    {
      var i := 0;
      while i < |tasks|
        invariant |tasks| == |old(tasks)|
        invariant 0 <= i <= |tasks|
        invariant i <= FirstFailure(old(tasks), checkedAt)
        invariant forall j :: 0 <= j < i ==> tasks[j] == Visit(old(tasks)[j], checkedAt[j], finishedAt[j])
        invariant forall j :: i <= j < |tasks| ==> tasks[j] == old(tasks)[j]
        invariant running == old(running)
      {
        var due := ShouldRunTask(tasks[i], checkedAt[i]);
        if due.Err? {
          return Fail(due.failure);
        }
        if due.value {
          RunTask(i, finishedAt[i]);
        }
        i := i + 1;
      }
      r := Pass;
    }

    /** `start`: a no-op while running. */
    method Start()
      modifies this
      ensures running && tasks == old(tasks)
    {
      if running {
        return;
      }
      running := true;
    }

    /** `stop`. */
    method Stop()
      modifies this
      ensures !running && tasks == old(tasks)
    {
      running := false;
    }

    /** `get_status`: the flag, the number of tasks and each `last_run`;
        it raises when some task's schedule cannot be rendered, which a
        weekly task added with a day outside -7..6 reaches. */
    method GetStatus() returns (r: Result<Status>)
      ensures r.Err? <==> exists j :: 0 <= j < |tasks| && DisplayFailure(tasks[j].schedule).Some?
      ensures r.Err? ==> r.failure == DisplayFailure(tasks[FirstUndisplayable(tasks)].schedule).value
      ensures r.Ok? ==> r.value.running == running && r.value.taskCount == |tasks|
      ensures r.Ok? ==>
                |r.value.lastRuns| == |tasks| && forall j :: 0 <= j < |tasks| ==> r.value.lastRuns[j] == tasks[j].lastRun
    {
      var k := FirstUndisplayable(tasks);
      if k < |tasks| {
        return Err(DisplayFailure(tasks[k].schedule).value);
      }
      r := Ok(Status(running, |tasks|, seq(|tasks|, j requires 0 <= j < |tasks| reads this => tasks[j].lastRun)));
    }
  }
}
