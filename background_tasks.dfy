/** app/background_tasks.py: `SimpleScheduler`, an asyncio loop that polls
    the clock and sends the weekly report e-mails on Sunday mornings. The
    next-Sunday computation and the trigger window are pure arithmetic on
    the clock; each poll updates the scheduler's counters in place. The
    clock readings and the outcome of the report send are passed in. */
module BackgroundTasks {
  import opened Common
  import opened Clock

  const Sunday: nat := 6
  const SendHour: nat := 9
  const WindowMinutes: nat := 5

  /** `days_until_sunday`: `(6 - weekday) % 7`, or 7 on a Sunday from nine
      o'clock on. The weekday is at most 6, so the remainder is taken of a
      non-negative number and Python's and Dafny's `%` agree. */
  function DaysUntilSunday(now: Instant): (days: nat)
    ensures days <= 7
    ensures (Weekday(now) + days) % 7 == Sunday
    ensures days == 7 <==> Weekday(now) == Sunday && Hour(now) >= SendHour
    ensures days == 0 <==> Weekday(now) == Sunday && Hour(now) < SendHour
  {
    var d := (6 - Weekday(now)) % 7;
    if d == 0 && Hour(now) >= SendHour then 7 else d
  }

  /** `_get_next_sunday_9am`: `now` moved forward by `days_until_sunday`
      days, then set to 09:00:00.000000. */
  function NextSunday9am(now: Instant): (r: Instant)
    ensures Weekday(r) == Sunday && Hour(r) == SendHour && Minute(r) == 0
    ensures TimeOfDay(r) == SendHour * MicrosPerHour
    ensures now < r <= now + 7 * MicrosPerDay
  {
    var r := AtTime(AddDays(now, DaysUntilSunday(now)), SendHour, 0);
    DaySplit(now);
    DaySplit(r);
    r
  }

  predicate IsSunday9am(t: Instant)
  {
    Weekday(t) == Sunday && TimeOfDay(t) == SendHour * MicrosPerHour
  }

  /** Every Sunday nine o'clock after `now` is at or after the result: it
      is the first one. */
  lemma NextSunday9amIsFirst(now: Instant, t: Instant)
    requires now < t && IsSunday9am(t)
    ensures NextSunday9am(now) <= t
  {
    var r := NextSunday9am(now);
    DaySplit(now);
    DaySplit(t);
    DaySplit(r);
    DayMonotone(now, t);
    var gap := Day(t) - Day(now);
    assert (Weekday(now) + gap) % 7 == Sunday;
    if gap == 0 {
      assert Hour(now) < SendHour;
    } else if DaysUntilSunday(now) == 7 || DaysUntilSunday(now) == 0 {
      assert gap % 7 == 0;
    } else {
      assert gap % 7 == DaysUntilSunday(now);
    }
  }

  /** On a Sunday before nine the result is the same day; from nine on it is
      a week later. */
  lemma SundayOffsets(now: Instant)
    requires Weekday(now) == Sunday
    ensures Hour(now) < SendHour ==> Day(NextSunday9am(now)) == Day(now)
    ensures Hour(now) >= SendHour ==> Day(NextSunday9am(now)) == Day(now) + 7
  {
  }

  /** The sender's trigger: Sunday, hour nine, minute below five. */
  predicate InWindow(now: Instant)
  {
    Weekday(now) == Sunday && Hour(now) == SendHour && Minute(now) < WindowMinutes
  }

  /** The window is the first five minutes after the instant the sender
      aims at. */
  lemma WindowFollowsTarget(now: Instant)
    ensures InWindow(now) <==>
              IsSunday9am(AtTime(now, SendHour, 0))
              && AtTime(now, SendHour, 0) <= now < AtTime(now, SendHour, 0) + WindowMinutes * MicrosPerMinute
  {
    DaySplit(now);
    MinuteOfDay(now);
    var tod := TimeOfDay(now);
    assert tod == (tod / MicrosPerMinute) * MicrosPerMinute + tod % MicrosPerMinute;
  }

  /** A firing poll pushes `next_run` to the following Sunday: the code
      computes it from the clock read after the send and the hour's sleep
      (`resumed`), and any reading from the check time up to the end of
      that Sunday's week gives the Sunday seven days on. */
  lemma FiringSchedulesNextWeek(checked: Instant, resumed: Instant)
    requires InWindow(checked)
    requires checked <= resumed && Day(resumed) < Day(checked) + 7
    ensures Day(NextSunday9am(resumed)) == Day(checked) + 7
  {
    DayMonotone(checked, resumed);
    var gap := Day(resumed) - Day(checked);
    if gap == 0 {
      DaySplit(checked);
      DaySplit(resumed);
      assert TimeOfDay(checked) <= TimeOfDay(resumed);
      assert Hour(resumed) >= SendHour;
      SundayOffsets(resumed);
    } else {
      assert Weekday(resumed) == gap - 1;
      assert DaysUntilSunday(resumed) == 7 - gap;
    }
  }

  /** One turn of the `while self.running` loop: the clock read at the top
      (`checkedAt`), the end time of the report send or `None` when it
      raised (`sentAt`), and the clock read by `_get_next_sunday_9am`
      afterwards (`resumedAt`). */
  datatype Poll = Poll(checkedAt: Instant, sentAt: Option<Instant>, resumedAt: Instant)

  /** The number of polls that fall in the window. */
  function Firings(polls: seq<Poll>): (n: nat)
    ensures n <= |polls|
  {
    if |polls| == 0 then 0
    else Firings(polls[..|polls| - 1]) + (if InWindow(polls[|polls| - 1].checkedAt) then 1 else 0)
  }

  /** The number of polls that fall in the window and whose send returned. */
  function Deliveries(polls: seq<Poll>): nat
  {
    if |polls| == 0 then 0
    else
      var p := polls[|polls| - 1];
      Deliveries(polls[..|polls| - 1]) + (if Delivered(p) then 1 else 0)
  }

  /** `run_count` is raised before the send, so it counts attempts: a send
      that raises is still counted. */
  lemma {:induction false} DeliveriesAtMostFirings(polls: seq<Poll>)
    ensures Deliveries(polls) <= Firings(polls)
    ensures Deliveries(polls) == Firings(polls) <==>
              forall i :: 0 <= i < |polls| && InWindow(polls[i].checkedAt) ==> polls[i].sentAt.Some?
  {
    if |polls| > 0 {
      var init := polls[..|polls| - 1];
      DeliveriesAtMostFirings(init);
      assert forall i :: 0 <= i < |init| ==> init[i] == polls[i];
    }
  }

  /** A poll in the window whose send returned: it sets `last_run`. */
  predicate Delivered(p: Poll)
  {
    InWindow(p.checkedAt) && p.sentAt.Some?
  }

  /** A poll that reaches the `next_run` assignment: one outside the
      window, or one whose send returned. */
  predicate Reschedules(p: Poll)
  {
    !InWindow(p.checkedAt) || p.sentAt.Some?
  }

  /** `last_run` after a run of polls: the end of the last completed send,
      or `before` when no send completed. */
  function LastSent(polls: seq<Poll>, before: Option<Instant>): (r: Option<Instant>)
    ensures (forall i :: 0 <= i < |polls| ==> !Delivered(polls[i])) ==> r == before
    ensures forall i :: 0 <= i < |polls| && Delivered(polls[i]) && (forall j :: i < j < |polls| ==> !Delivered(polls[j])) ==>
              r == polls[i].sentAt
  {
    if |polls| == 0 then before
    else
      var p := polls[|polls| - 1];
      if Delivered(p) then p.sentAt
      else
        var r := LastSent(polls[..|polls| - 1], before);
        assert forall i :: 0 <= i < |polls| - 1 ==> polls[..|polls| - 1][i] == polls[i];
        r
  }

  /** `next_run` after a run of polls: the Sunday 9am computed by the last
      poll that reached the assignment, or `before` when none did. */
  function NextRunAfter(polls: seq<Poll>, before: Option<Instant>): (r: Option<Instant>)
    ensures (forall i :: 0 <= i < |polls| ==> !Reschedules(polls[i])) ==> r == before
    ensures forall i :: 0 <= i < |polls| && Reschedules(polls[i]) && (forall j :: i < j < |polls| ==> !Reschedules(polls[j])) ==>
              r == Some(NextSunday9am(polls[i].resumedAt))
  {
    if |polls| == 0 then before
    else
      var p := polls[|polls| - 1];
      if Reschedules(p) then Some(NextSunday9am(p.resumedAt))
      else
        var r := NextRunAfter(polls[..|polls| - 1], before);
        assert forall i :: 0 <= i < |polls| - 1 ==> polls[..|polls| - 1][i] == polls[i];
        r
  }

  /** One more poll extends the three folds by that poll's effect. */
  lemma PollsSnoc(polls: seq<Poll>, i: nat, lastBefore: Option<Instant>, nextBefore: Option<Instant>)
    requires i < |polls|
    ensures Firings(polls[..i + 1]) == Firings(polls[..i]) + (if InWindow(polls[i].checkedAt) then 1 else 0)
    ensures LastSent(polls[..i + 1], lastBefore) ==
              if Delivered(polls[i]) then polls[i].sentAt else LastSent(polls[..i], lastBefore)
    ensures NextRunAfter(polls[..i + 1], nextBefore) ==
              if Reschedules(polls[i]) then Some(NextSunday9am(polls[i].resumedAt)) else NextRunAfter(polls[..i], nextBefore)
  {
    assert polls[..i + 1][..i] == polls[..i];
  }

  /** What `get_status` reports, without the ISO display strings. */
  datatype SchedulerStatus = SchedulerStatus(
    running: bool, taskAlive: bool, runCount: nat,
    lastRun: Option<Instant>, nextRun: Option<Instant>,
    secondsUntilNext: real, nextSunday9am: Instant)

  class SimpleScheduler {
    var running: bool
    /** Whether the sender's asyncio task exists and is not done. */
    var taskAlive: bool
    var lastRun: Option<Instant>
    var nextRun: Option<Instant>
    var runCount: nat

    constructor()
      ensures !running && !taskAlive && lastRun.None? && nextRun.None? && runCount == 0
    {
      running := false;
      taskAlive := false;
      lastRun := None;
      nextRun := None;
      runCount := 0;
    }

    /** One turn of `weekly_email_sender`'s loop. In the window the counter
        goes up first; a completed send sets `last_run`; `next_run` is set
        unless the send raised, whose handler only sleeps. */
    method PollOnce(p: Poll)
      modifies this
      ensures runCount == old(runCount) + (if InWindow(p.checkedAt) then 1 else 0)
      ensures lastRun == if InWindow(p.checkedAt) && p.sentAt.Some? then p.sentAt else old(lastRun)
      ensures nextRun == if Reschedules(p) then Some(NextSunday9am(p.resumedAt)) else old(nextRun)
      ensures Delivered(p) && p.checkedAt <= p.resumedAt && Day(p.resumedAt) < Day(p.checkedAt) + 7 ==>
                nextRun.Some? && Day(nextRun.value) == Day(p.checkedAt) + 7
      ensures running == old(running) && taskAlive == old(taskAlive)
    {
      if InWindow(p.checkedAt) {
        runCount := runCount + 1;
        if p.sentAt.None? {
          return;
        }
        lastRun := p.sentAt;
        if p.checkedAt <= p.resumedAt && Day(p.resumedAt) < Day(p.checkedAt) + 7 {
          FiringSchedulesNextWeek(p.checkedAt, p.resumedAt);
        }
      }
      nextRun := Some(NextSunday9am(p.resumedAt));
    }

    /** `weekly_email_sender`: the polls taken while `running` stays set. */
    method WeeklyEmailSender(polls: seq<Poll>)
      modifies this
      ensures runCount == old(runCount) + (if old(running) then Firings(polls) else 0)
      ensures lastRun == if old(running) then LastSent(polls, old(lastRun)) else old(lastRun)
      ensures nextRun == if old(running) then NextRunAfter(polls, old(nextRun)) else old(nextRun)
      ensures running == old(running) && taskAlive == old(taskAlive)
    {
      if !running {
        return;
      }
      var i := 0;
      while i < |polls|
        invariant 0 <= i <= |polls|
        invariant runCount == old(runCount) + Firings(polls[..i])
        invariant lastRun == LastSent(polls[..i], old(lastRun))
        invariant nextRun == NextRunAfter(polls[..i], old(nextRun))
        invariant running == old(running) && taskAlive == old(taskAlive)
      {
        PollsSnoc(polls, i, old(lastRun), old(nextRun));
        PollOnce(polls[i]);
        i := i + 1;
      }
      assert polls[..|polls|] == polls;
    }

    /** `start`: a no-op while running; otherwise sets the flag and creates
        the sender task. */
    method Start()
      modifies this
      ensures old(running) ==> taskAlive == old(taskAlive)
      ensures !old(running) ==> taskAlive
      ensures running
      ensures lastRun == old(lastRun) && nextRun == old(nextRun) && runCount == old(runCount)
    {
      if running {
        return;
      }
      running := true;
      taskAlive := true;
    }

    /** `stop`: clears the flag and cancels the sender task. */
    method Stop()
      modifies this
      ensures !running && !taskAlive
      ensures lastRun == old(lastRun) && nextRun == old(nextRun) && runCount == old(runCount)
    {
      running := false;
      taskAlive := false;
    }

    /** `seconds_until_next`: the time left to `next_run` in seconds, or 0
        when it is unset or not in the future. */
    function SecondsUntilNext(now: Instant): (s: real)
      reads this
      ensures s >= 0.0
      ensures s == 0.0 <==> nextRun.None? || nextRun.value <= now
      ensures s > 0.0 ==> s * 1000000.0 == (nextRun.value - now) as real
    {
      if nextRun.Some? && nextRun.value > now then (nextRun.value - now) as real / 1000000.0 else 0.0
    }

    /** `get_status`, with the clock read once at the top (`now`) and again
        inside `_get_next_sunday_9am` (`later`). */
    method GetStatus(now: Instant, later: Instant) returns (s: SchedulerStatus)
      ensures s.running == running && s.taskAlive == taskAlive && s.runCount == runCount
      ensures s.lastRun == lastRun && s.nextRun == nextRun
      ensures s.secondsUntilNext == SecondsUntilNext(now)
      ensures s.nextSunday9am == NextSunday9am(later)
    {
      s := SchedulerStatus(running, taskAlive, runCount, lastRun, nextRun, SecondsUntilNext(now), NextSunday9am(later));
    }
  }
}
