/** The scheduler: recurring jobs, fired one after another on every tick of its loop. */
module Scheduler {
  import opened Text
  import opened Calendar
  import opened CronSearch
  import opened CronExpr
  import Transfer

  datatype Job = Job(
    id: string, cron: string, enabled: bool,
    lastRun: Option<Instant>, nextRun: Option<Instant>, lastStatus: string)

  /** How a fired transfer ends: recorded with a status, or abandoned because the scheduler was stopped. */
  datatype Outcome = Recorded(status: string) | Interrupted

  predicate AtMost(a: Instant, b: Instant) {
    !b.Before(a)
  }

  function Later(a: Instant, b: Instant): Instant {
    if a.Before(b) then b else a
  }

  /** The test made on every tick. */
  predicate Due(job: Job, now: Instant) {
    job.enabled && (job.nextRun.None? || job.nextRun.value.Before(now))
  }

  /** The outcome of a cron search for an expression. */
  ghost predicate NextRun(cron: string, now: Instant, r: Option<Instant>) {
    match ParseSpec(cron)
    case Err(_) => r.None?
    case Ok(spec) => Answer(spec, now, r)
  }

  /** A matching minute of a cron expression. */
  predicate FiresAt(cron: string, minute: int) {
    var spec := ParseSpec(cron);
    spec.Ok? && Matches(spec.value, minute)
  }

  /** A search for the expression never fails. */
  ghost predicate AlwaysMatches(cron: string) {
    forall now :: !NextRun(cron, now, None)
  }

  /** The record of a finished run; a failed search keeps the old plan. */
  function AfterRun(job: Job, now: Instant, status: string, next: Option<Instant>): Job {
    job.(lastRun := Some(now), lastStatus := status, nextRun := if next.Some? then next else job.nextRun)
  }

  lemma NextRunIsLater(cron: string, now: Instant, r: Option<Instant>)
    requires NextRun(cron, now, r) && r.Some?
    ensures now.minute < r.value.minute && FiresAt(cron, r.value.minute)
  {
  }

  /** An expression printed from five lists fires at the minutes whose minute, hour, day, month and weekday they
      list. */
  lemma PrintedExpressionFires(
    minutes: seq<int>, hours: seq<int>, days: seq<int>, months: seq<int>, weekdays: seq<int>, minute: int)
    requires Within(minutes, 0, 59) && Within(hours, 0, 23) && Within(days, 1, 31)
    requires Within(months, 1, 12) && Within(weekdays, 0, 6)
    ensures
      FiresAt(
        Join([PrintList(minutes), PrintList(hours), PrintList(days), PrintList(months), PrintList(weekdays)], ' '),
        minute)
      <==>
      && minute % 60 in minutes && minute / 60 % 24 in hours && WeekdayOf(minute / 1440) in weekdays
      && exists month, d :: d in days && month % 12 + 1 in months && 1 <= d <= DaysIn(month)
                            && minute / 1440 == MonthStart(month) + d - 1
  {
    hide ParseSpec, PrintList, MonthStart, MonthOf, DaysIn, WeekdayOf;
    SpecRoundTrip(minutes, hours, days, months, weekdays);
    HourOfDay(minute);
    DayIsListed(minute / 1440, days, months);
  }

  lemma DayIsListed(day: int, days: seq<int>, months: seq<int>)
    ensures MonthOf(day) % 12 + 1 in months && DayOf(day) in days <==>
      exists month, d :: d in days && month % 12 + 1 in months && 1 <= d <= DaysIn(month)
                         && day == MonthStart(month) + d - 1
  {
    hide MonthStart, MonthOf, DaysIn;
    var m := MonthOf(day);
    assert 1 <= DayOf(day) <= DaysIn(m) && day == MonthStart(m) + DayOf(day) - 1;
    if month, d :| d in days && month % 12 + 1 in months && 1 <= d <= DaysIn(month)
                   && day == MonthStart(month) + d - 1 {
      MonthOfUnique(day, month);
    }
  }

  /** Expressions that fire on every day always match. */
  lemma DailyAlwaysMatches(minutes: seq<int>, hours: seq<int>)
    requires Within(minutes, 0, 59) && Within(hours, 0, 23)
    ensures AlwaysMatches(DailyText(minutes, hours))
  {
    hide Answer, Daily;
    DailyExpression(minutes, hours);
    var spec := Spec(Elements(minutes), Elements(hours), Range(1, 31), Range(1, 12), Range(0, 6));
    forall now ensures !NextRun(DailyText(minutes, hours), now, None) {
      DailyIsFound(spec, now);
    }
  }

  // ---- waiting for a transfer ----

  /** What one poll finds: the status of the transfer, if the engine knows it, and whether the scheduler is
      stopped before the next poll. */
  datatype Poll = Poll(answer: Option<Transfer.Status>, stopped: bool)

  predicate Decides(p: Poll) {
    p.answer in {None, Some(Transfer.Done), Some(Transfer.Failed)} || p.stopped
  }

  /** The polling loop; no outcome after all the polls means that it still waits. */
  method Await(polls: seq<Poll>) returns (r: Option<Outcome>)
    ensures r.Some? <==> exists i :: 0 <= i < |polls| && Decides(polls[i])
    ensures forall i | 0 <= i < |polls| && Decides(polls[i]) && (forall k | 0 <= k < i :: !Decides(polls[k])) ::
      r == Some(match polls[i].answer
                case None => Recorded("failed")
                case Some(status) =>
                  if status.Done? then Recorded("success")
                  else if status.Failed? then Recorded("failed")
                  else Interrupted)
  {
    for i := 0 to |polls|
      invariant forall k | 0 <= k < i :: !Decides(polls[k])
    {
      var p := polls[i];
      if p.answer.None? {
        return Some(Recorded("failed"));
      }
      if p.answer.value.Done? || p.answer.value.Failed? {
        var status := if p.answer.value.Failed? then "failed" else "success";
        return Some(Recorded(status));
      }
      if p.stopped {
        return Some(Interrupted);
      }
    }
    return None;
  }

  // ---- runs of the scheduler ----

  /** The store, the jobs listed at the last tick that have not fired since, the time of that tick, and the time
      so far. */
  datatype State = State(jobs: map<string, Job>, listed: map<string, Job>, tick: Instant, clock: Instant)

  /** One step: a tick lists the store, others update or remove a job at any time, or the transfer of a listed job
      ends. `next` is the answer of the cron search that the step makes. */
  datatype Op =
    | Tick(now: Instant)
    | Update(job: Job, now: Instant, next: Option<Instant>)
    | Remove(id: string, now: Instant)
    | Fire(id: string, over: Instant, outcome: Outcome, next: Option<Instant>)

  function TimeOf(op: Op): Instant {
    match op
    case Tick(now) => now
    case Update(_, now, _) => now
    case Remove(_, now) => now
    case Fire(_, over, _, _) => over
  }

  /** A job fires as it was listed; its record is searched for only if it is still in the store. */
  ghost predicate Possible(s: State, op: Op) {
    && AtMost(s.clock, TimeOf(op))
    && match op
       case Tick(_) => true
       case Update(job, now, next) => job.cron != "" ==> NextRun(job.cron, now, next)
       case Remove(_, _) => true
       case Fire(id, over, outcome, next) =>
         && id in s.listed && Due(s.listed[id], s.tick)
         && if outcome.Recorded? && id in s.jobs then NextRun(s.jobs[id].cron, over, next) else next.None?
  }

  /** A bad expression changes nothing; without an expression a job is stored as given. */
  function Step(s: State, op: Op): State {
    var t := s.(clock := TimeOf(op));
    match op
    case Tick(now) => t.(listed := s.jobs, tick := now)
    case Update(job, now, next) =>
      if job.cron == "" then t.(jobs := s.jobs[job.id := job])
      else if next.None? then t
      else t.(jobs := s.jobs[job.id := job.(nextRun := next)])
    case Remove(id, _) => t.(jobs := s.jobs - {id})
    case Fire(id, over, outcome, next) =>
      var rest := t.(listed := s.listed - {id});
      if outcome.Recorded? && id in s.jobs then
        rest.(jobs := s.jobs[id := AfterRun(s.jobs[id], over, outcome.status, next)])
      else rest
  }

  function Final(s: State, run: seq<Op>): State
    decreases |run|
  {
    if run == [] then s else Step(Final(s, run[..|run| - 1]), run[|run| - 1])
  }

  ghost predicate IsRun(s: State, run: seq<Op>)
    decreases |run|
  {
    run == [] || (IsRun(s, run[..|run| - 1]) && Possible(Final(s, run[..|run| - 1]), run[|run| - 1]))
  }

  lemma OneMore(s: State, run: seq<Op>, op: Op)
    requires IsRun(s, run) && Possible(Final(s, run), op)
    ensures IsRun(s, run + [op]) && Final(s, run + [op]) == Step(Final(s, run), op)
  {
    assert (run + [op])[..|run|] == run;
  }

  lemma {:induction false} PrefixIsRun(s: State, run: seq<Op>, n: nat)
    requires IsRun(s, run) && n <= |run|
    ensures IsRun(s, run[..n])
    ensures n < |run| ==> Possible(Final(s, run[..n]), run[n])
    decreases |run|
  {
    hide Possible;
    if n == |run| {
      assert run[..n] == run;
    } else {
      var before := run[..|run| - 1];
      if n < |run| - 1 {
        PrefixIsRun(s, before, n);
        assert before[..n] == run[..n];
      }
    }
  }

  /** The state before the n-th step, and what the step makes of it. */
  lemma StateStep(s: State, run: seq<Op>, n: nat)
    requires IsRun(s, run) && n < |run|
    ensures Possible(Final(s, run[..n]), run[n])
    ensures Final(s, run[..n + 1]) == Step(Final(s, run[..n]), run[n])
    ensures Final(s, run[..n + 1]).clock == TimeOf(run[n]) && AtMost(Final(s, run[..n]).clock, TimeOf(run[n]))
  {
    PrefixIsRun(s, run, n);
    assert run[..n + 1][..n] == run[..n];
  }

  lemma {:induction false} ClockGrows(s: State, run: seq<Op>, n: nat, m: nat)
    requires IsRun(s, run) && n <= m <= |run|
    ensures AtMost(Final(s, run[..n]).clock, Final(s, run[..m]).clock)
    decreases m
  {
    hide Possible, Step, IsRun, Final;
    if n < m {
      ClockGrows(s, run, n, m - 1);
      StateStep(s, run, m - 1);
    }
  }

  lemma TimesGrow(s: State, run: seq<Op>, i: nat, j: nat)
    requires IsRun(s, run) && i <= j < |run|
    ensures AtMost(TimeOf(run[i]), TimeOf(run[j]))
  {
    hide IsRun, Final, Step, Possible;
    StateStep(s, run, i);
    StateStep(s, run, j);
    if i < j {
      ClockGrows(s, run, i + 1, j);
    }
  }

  // ---- listings ----

  predicate FiresJob(op: Op, id: string) {
    op.Fire? && op.id == id
  }

  /** Where the store was last listed, or -1. */
  function LastTick(run: seq<Op>): (n: int)
    ensures -1 <= n < |run| && (n >= 0 ==> run[n].Tick?)
    decreases |run|
  {
    if run == [] then -1
    else if run[|run| - 1].Tick? then |run| - 1
    else LastTick(run[..|run| - 1])
  }

  /** A job waiting to be fired is as the last tick listed it, and has not fired since. */
  lemma {:induction false} ListedMeans(s: State, run: seq<Op>, id: string)
    requires IsRun(s, run) && s.listed == map[] && id in Final(s, run).listed
    ensures var n := LastTick(run);
      && n >= 0 && id in Final(s, run[..n]).jobs
      && Final(s, run).listed[id] == Final(s, run[..n]).jobs[id] && Final(s, run).tick == run[n].now
      && forall j | n <= j < |run| :: !FiresJob(run[j], id)
    decreases |run|
  {
    hide Possible;
    if run != [] {
      var before, op := run[..|run| - 1], run[|run| - 1];
      if !op.Tick? {
        ListedMeans(s, before, id);
        var n := LastTick(before);
        assert before[..n] == run[..n];
        assert forall j | n <= j < |before| :: before[j] == run[j];
      }
    }
  }

  /** The job as the k-th step, a firing, has it, and the time of the tick that listed it. */
  function Fired(s: State, run: seq<Op>, k: nat): Job
    requires k < |run| && run[k].Fire?
  {
    var listed := Final(s, run[..k]).listed;
    if run[k].id in listed then listed[run[k].id] else Job(run[k].id, "", false, None, None, "")
  }

  function TickOf(s: State, run: seq<Op>, k: nat): Instant
    requires k < |run|
  {
    Final(s, run[..k]).tick
  }

  /** The plan a firing uses. */
  function PlanOf(s: State, run: seq<Op>, k: nat): Option<Instant>
    requires k < |run| && run[k].Fire?
  {
    Fired(s, run, k).nextRun
  }

  lemma FiringMeans(s: State, run: seq<Op>, id: string, k: nat)
    requires IsRun(s, run) && s.listed == map[] && k < |run| && FiresJob(run[k], id)
    ensures var n := LastTick(run[..k]);
      && 0 <= n < k && id in Final(s, run[..n]).jobs
      && Fired(s, run, k) == Final(s, run[..n]).jobs[id]
      && TickOf(s, run, k) == run[n].now && Due(Fired(s, run, k), run[n].now)
      && Fired(s, run, k).enabled
      && (Fired(s, run, k).nextRun.None? || Fired(s, run, k).nextRun.value.Before(run[n].now))
      && AtMost(run[n].now, run[k].over)
      && forall j | n <= j < k :: !FiresJob(run[j], id)
  {
    hide Step, Final;
    PrefixIsRun(s, run, k);
    ListedMeans(s, run[..k], id);
    var n := LastTick(run[..k]);
    assert run[..k][..n] == run[..n] && run[..k][n] == run[n];
    assert forall j | n <= j < k :: run[..k][j] == run[j];
    StateStep(s, run, n);
    ClockGrows(s, run, n + 1, k);
  }

  /** A job that no tick lists as enabled never fires. */
  lemma {:induction false} DisabledNeverFires(s: State, run: seq<Op>, id: string)
    requires IsRun(s, run) && s.listed == map[]
    requires forall n | 0 <= n < |run| && run[n].Tick? ::
               id in Final(s, run[..n]).jobs ==> !Final(s, run[..n]).jobs[id].enabled
    ensures forall k | 0 <= k < |run| :: !FiresJob(run[k], id)
  {
    hide IsRun, Final, Due;
    forall k | 0 <= k < |run| ensures !FiresJob(run[k], id) {
      if FiresJob(run[k], id) {
        FiringMeans(s, run, id, k);
        assert false;
      }
    }
  }

  // ---- which plan a firing uses ----

  /** A step that stores a plan it has searched for. */
  predicate StoresPlan(op: Op, id: string) {
    || (op.Update? && op.job.id == id && op.job.cron != "" && op.next.Some?)
    || (FiresJob(op, id) && op.outcome.Recorded? && op.next.Some?)
  }

  predicate PlanStored(run: seq<Op>, id: string, l: int, m: int)
    requires 0 <= l && m <= |run|
  {
    exists j :: l <= j < m && StoresPlan(run[j], id)
  }

  /** The job is never stored without an expression, with a plan that nobody searched for. */
  predicate HasExpressions(run: seq<Op>, id: string) {
    forall i | 0 <= i < |run| && run[i].Update? && run[i].job.id == id :: run[i].job.cron != ""
  }

  /** While no plan is stored the job keeps the one it has. */
  lemma {:induction false} PlanKept(s: State, run: seq<Op>, id: string, l: nat, m: nat)
    requires IsRun(s, run) && HasExpressions(run, id) && l <= m <= |run|
    requires id in Final(s, run[..l]).jobs && !PlanStored(run, id, l, m)
    ensures id in Final(s, run[..m]).jobs ==>
      Final(s, run[..m]).jobs[id].nextRun == Final(s, run[..l]).jobs[id].nextRun
    decreases m
  {
    hide IsRun, Final, NextRun;
    if l < m {
      PlanKept(s, run, id, l, m - 1);
      StateStep(s, run, m - 1);
      assert !StoresPlan(run[m - 1], id);
    }
  }

  /** The job has a plan in a matching minute after `t`. */
  predicate PlannedAfter(job: Job, t: Instant) {
    job.nextRun.Some? && FiresAt(job.cron, job.nextRun.value.minute) && t.minute < job.nextRun.value.minute
  }

  /** Once a plan is stored the job has one after that time for good. */
  lemma {:induction false} PlanIsLater(s: State, run: seq<Op>, id: string, j: nat, m: nat)
    requires IsRun(s, run) && HasExpressions(run, id) && j < m <= |run| && StoresPlan(run[j], id)
    ensures id in Final(s, run[..m]).jobs ==> PlannedAfter(Final(s, run[..m]).jobs[id], TimeOf(run[j]))
    decreases m
  {
    hide IsRun, Final, NextRun, FiresAt;
    var before, op := Final(s, run[..m - 1]), run[m - 1];
    StateStep(s, run, m - 1);
    TimesGrow(s, run, j, m - 1);
    if j < m - 1 {
      PlanIsLater(s, run, id, j, m - 1);
    }
    if StoresPlan(op, id) {
      NextRunIsLater(if op.Update? then op.job.cron else before.jobs[id].cron, TimeOf(op), op.next);
    }
  }

  /** Two firings of a job use the same plan exactly if none was stored between the ticks that listed them. */
  lemma {:induction false} SamePlanExactly(s: State, run: seq<Op>, id: string, i: nat, k: nat)
    requires IsRun(s, run) && s.listed == map[] && HasExpressions(run, id)
    requires i < k < |run| && FiresJob(run[i], id) && FiresJob(run[k], id)
    ensures 0 <= LastTick(run[..i]) < i < LastTick(run[..k]) < k
    ensures PlanOf(s, run, i) == PlanOf(s, run, k) <==>
      !PlanStored(run, id, LastTick(run[..i]), LastTick(run[..k]))
  {
    hide IsRun, Final, FiresAt, Fired, TickOf, PlanStored, HasExpressions;
    FiringMeans(s, run, id, i);
    FiringMeans(s, run, id, k);
    var l, m := LastTick(run[..i]), LastTick(run[..k]);
    if PlanStored(run, id, l, m) {
      var j := StoringStep(run, id, l, m);
      PlanIsLater(s, run, id, j, m);
      TimesGrow(s, run, l, j);
    } else {
      PlanKept(s, run, id, l, m);
    }
  }

  lemma StoringStep(run: seq<Op>, id: string, l: nat, m: nat) returns (j: nat)
    requires l <= m <= |run| && PlanStored(run, id, l, m)
    ensures l <= j < m && StoresPlan(run[j], id)
    ensures run[l].Tick? ==> l < j
  {
    j :| l <= j < m && StoresPlan(run[j], id);
  }

  /** Without others in between: the next firing uses the same plan exactly if the first was cut short or its search
      failed. */
  lemma {:induction false} NextFiringRepeatsExactly(s: State, run: seq<Op>, id: string, i: nat, k: nat)
    requires IsRun(s, run) && s.listed == map[] && HasExpressions(run, id)
    requires i < k < |run| && FiresJob(run[i], id) && FiresJob(run[k], id)
    requires forall j | LastTick(run[..i]) < j < k && j != i ::
               !FiresJob(run[j], id) && !(run[j].Update? && run[j].job.id == id)
    ensures PlanOf(s, run, i) == PlanOf(s, run, k) <==> run[i].outcome.Interrupted? || run[i].next.None?
  {
    hide IsRun, Final, PlanOf, HasExpressions;
    SamePlanExactly(s, run, id, i, k);
    var l, m := LastTick(run[..i]), LastTick(run[..k]);
    assert run[l].Tick? by {
      assert run[..i][l] == run[l];
    }
    assert PlanStored(run, id, l, m) <==> StoresPlan(run[i], id);
  }

  lemma DuePlanHasPassed(job: Job, now: Instant)
    requires Due(job, now) && job.nextRun.Some?
    ensures job.nextRun.value.Before(now)
  {
  }

  // ---- once per matching minute ----

  /** If a plan was stored since a firing began to be recorded, the next one uses a plan in a matching minute that
      comes after the earlier one was over and not after its own tick. */
  lemma {:induction false} OncePerMatchingMinute(s: State, run: seq<Op>, id: string, i: nat, k: nat)
    requires IsRun(s, run) && s.listed == map[] && HasExpressions(run, id)
    requires i < k < |run| && FiresJob(run[i], id) && FiresJob(run[k], id)
    requires PlanStored(run, id, i, LastTick(run[..k]))
    ensures PlanOf(s, run, k).Some?
    ensures var minute := PlanOf(s, run, k).value.minute;
      && FiresAt(Fired(s, run, k).cron, minute)
      && TickOf(s, run, i).minute <= run[i].over.minute < minute <= TickOf(s, run, k).minute
  {
    hide IsRun, Final, FiresAt, Fired, TickOf, PlanStored, HasExpressions, Due, StoresPlan, Step, LastTick;
    FiringMeans(s, run, id, i);
    FiringMeans(s, run, id, k);
    var m := LastTick(run[..k]);
    var j := StoringStep(run, id, i, m);
    PlanIsLater(s, run, id, j, m);
    TimesGrow(s, run, i, j);
    DuePlanHasPassed(Fired(s, run, k), TickOf(s, run, k));
  }

  /** Every firing of the job but the last is followed by a stored plan before the next one is listed. */
  predicate AlwaysRenewed(run: seq<Op>, id: string) {
    forall i, k | 0 <= i < k < |run| && FiresJob(run[i], id) && FiresJob(run[k], id) ::
      PlanStored(run, id, i, LastTick(run[..k]))
  }

  /** Then its firings after the first, or all of them if it was created in the run, map injectively and in order to
      matching minutes. */
  lemma {:induction false} FiringsMapToMinutes(s: State, run: seq<Op>, id: string, i: nat, k: nat)
    requires IsRun(s, run) && s.listed == map[] && HasExpressions(run, id) && AlwaysRenewed(run, id)
    requires i < k < |run| && FiresJob(run[i], id) && FiresJob(run[k], id)
    requires id !in s.jobs || exists h :: 0 <= h < i && FiresJob(run[h], id)
    ensures PlanOf(s, run, i).Some? && PlanOf(s, run, k).Some?
    ensures FiresAt(Fired(s, run, i).cron, PlanOf(s, run, i).value.minute)
    ensures PlanOf(s, run, i).value.minute < PlanOf(s, run, k).value.minute
  {
    hide IsRun, Final, FiresAt, Fired, TickOf, PlanStored, HasExpressions;
    OncePerMatchingMinute(s, run, id, i, k);
    FiringMeans(s, run, id, i);
    if h: nat :| h < i && FiresJob(run[h], id) {
      OncePerMatchingMinute(s, run, id, h, i);
    } else {
      var n := LastTick(run[..i]);
      EmptyRun(s, run);
      var j := CreatedByStoring(s, run, id, 0, n);
      PlanIsLater(s, run, id, j, n);
    }
  }

  lemma EmptyRun(s: State, run: seq<Op>)
    ensures Final(s, run[..0]) == s
  {
  }

  lemma {:induction false} CreatedByStoring(s: State, run: seq<Op>, id: string, l: nat, m: nat) returns (j: nat)
    requires IsRun(s, run) && HasExpressions(run, id) && l <= m <= |run|
    requires id !in Final(s, run[..l]).jobs && id in Final(s, run[..m]).jobs
    ensures l <= j < m && StoresPlan(run[j], id)
    decreases m
  {
    hide IsRun, Final, NextRun;
    StateStep(s, run, m - 1);
    if StoresPlan(run[m - 1], id) {
      j := m - 1;
    } else {
      j := CreatedByStoring(s, run, id, l, m - 1);
    }
  }

  // ---- jobs whose expression always matches ----

  /** The expressions the job is given always match, and all its firings are recorded. */
  ghost predicate Steady(s: State, run: seq<Op>, id: string) {
    && (id in s.jobs ==> AlwaysMatches(s.jobs[id].cron))
    && forall i | 0 <= i < |run| ::
         && (run[i].Update? && run[i].job.id == id ==> AlwaysMatches(run[i].job.cron))
         && (FiresJob(run[i], id) ==> run[i].outcome.Recorded?)
  }

  lemma EmptyNeverMatches(now: Instant)
    ensures NextRun("", now, None) && !AlwaysMatches("")
  {
    assert Fields("") == [];
    assert NextRun("", now, None);
  }

  lemma {:induction false} AlwaysMatching(s: State, run: seq<Op>, id: string, n: nat)
    requires IsRun(s, run) && Steady(s, run, id) && n <= |run|
    ensures id in Final(s, run[..n]).jobs ==> AlwaysMatches(Final(s, run[..n]).jobs[id].cron)
    decreases n
  {
    hide AlwaysMatches, NextRun, IsRun;
    if n == 0 {
      EmptyRun(s, run);
    } else {
      hide Final;
      AlwaysMatching(s, run, id, n - 1);
      StateStep(s, run, n - 1);
    }
  }

  lemma MatchIsFound(cron: string, now: Instant, next: Option<Instant>)
    requires AlwaysMatches(cron)
    ensures NextRun(cron, now, next) ==> next.Some?
  {
  }

  /** Such a job is always renewed: so it fires at most once per matching minute. */
  lemma SteadyIsRenewed(s: State, run: seq<Op>, id: string)
    requires IsRun(s, run) && s.listed == map[] && Steady(s, run, id)
    ensures HasExpressions(run, id) && AlwaysRenewed(run, id)
  {
    hide AlwaysMatches, NextRun, IsRun, Final;
    EmptyNeverMatches(s.clock);
    forall i: nat, k: nat | i < k < |run| && FiresJob(run[i], id) && FiresJob(run[k], id)
      ensures PlanStored(run, id, i, LastTick(run[..k]))
    {
      FiringMeans(s, run, id, i);
      FiringMeans(s, run, id, k);
      StateStep(s, run, i);
      AlwaysMatching(s, run, id, i);
      if id in Final(s, run[..i]).jobs {
        MatchIsFound(Final(s, run[..i]).jobs[id].cron, run[i].over, run[i].next);
        assert StoresPlan(run[i], id);
      } else {
        var j := CreatedByStoring(s, run, id, i, LastTick(run[..k]));
      }
    }
  }

  /** So a job that is created in the run, for some times of every day, fires at most once for each of them, if its
      transfers all end. */
  lemma DailyJobsAreRenewed(s: State, run: seq<Op>, id: string, minutes: seq<int>, hours: seq<int>)
    requires Within(minutes, 0, 59) && Within(hours, 0, 23)
    requires IsRun(s, run) && s.listed == map[] && id !in s.jobs
    requires forall i | 0 <= i < |run| && run[i].Update? && run[i].job.id == id ::
               run[i].job.cron == DailyText(minutes, hours)
    requires forall i | 0 <= i < |run| && FiresJob(run[i], id) :: run[i].outcome.Recorded?
    ensures HasExpressions(run, id) && AlwaysRenewed(run, id)
  {
    hide AlwaysMatches, DailyText, IsRun, AlwaysRenewed;
    DailyAlwaysMatches(minutes, hours);
    SteadyIsRenewed(s, run, id);
  }

  /** After a run is recorded the job is due again at once exactly if the search for its next run failed;
      otherwise it is due again exactly when the instant found has passed. A run that was cut short leaves
      it due. */
  lemma {:induction false} DueAgain(
    job: Job, tick: Instant, over: Instant, status: string, next: Option<Instant>, later: Instant)
    requires Due(job, tick) && AtMost(tick, over) && AtMost(over, later) && NextRun(job.cron, over, next)
    ensures Due(AfterRun(job, over, status, next), later) <==> next.None? || next.value.Before(later)
    ensures Due(AfterRun(job, over, status, next), over) <==> next.None?
    ensures Due(job, later)
  {
    if next.Some? {
      NextRunIsLater(job.cron, over, next);
    }
  }

  // ---- a job that runs out of next runs ----

  const LEAP_DAY_JOB: Job := Job("j", LEAP_DAY_TEXT, true, None, None, "")

  lemma LeapDaySearches()
    ensures NextRun(LEAP_DAY_TEXT, JUNE_2027, Some(LEAP_DAY)) && NextRun(LEAP_DAY_TEXT, LEAP_DAY_LATER, None)
    ensures AtMost(JUNE_2027, LEAP_DAY_LATER) && LEAP_DAY.Before(LEAP_DAY_LATER)
  {
    hide ParseSpec, Answer, MonthStart;
    LeapDayExpression();
    LeapDayRunsOut();
    LeapDayClock();
  }

  /** Created in June 2027 for midnight on 29 February, the job fires once on that day, and as no next run is found
      within two years, it fires again, with the same plan, at any tick after that. */
  lemma LeapDayFiresAgain(later: Instant) returns (s: State, run: seq<Op>)
    requires AtMost(LEAP_DAY_LATER, later)
    ensures |run| == 5 && IsRun(s, run) && s == State(map[], map[], JUNE_2027, JUNE_2027)
    ensures run[0] == Update(LEAP_DAY_JOB, JUNE_2027, Some(LEAP_DAY))
    ensures FiresJob(run[2], "j") && run[2].outcome.Recorded? && FiresJob(run[4], "j")
    ensures PlanOf(s, run, 2) == PlanOf(s, run, 4) == Some(LEAP_DAY)
  {
    hide IsRun, Final, NextRun;
    LeapDaySearches();
    s := State(map[], map[], JUNE_2027, JUNE_2027);
    var create := Update(LEAP_DAY_JOB, JUNE_2027, Some(LEAP_DAY));
    var fire := Fire("j", LEAP_DAY_LATER, Recorded("success"), None);
    var again := Fire("j", later, Interrupted, None);
    EmptyIsRun(s);
    OneMore(s, [], create);
    var created := [] + [create];
    OneMore(s, created, Tick(LEAP_DAY_LATER));
    var listed := created + [Tick(LEAP_DAY_LATER)];
    OneMore(s, listed, fire);
    var fired := listed + [fire];
    OneMore(s, fired, Tick(later));
    var listedAgain := fired + [Tick(later)];
    OneMore(s, listedAgain, again);
    run := listedAgain + [again];
    assert run[..2] == listed && run[..4] == listedAgain;
  }

  lemma EmptyIsRun(s: State)
    ensures IsRun(s, []) && Final(s, []) == s
  {
  }

  // ---- ticks ----

  /** The firings among the steps of one tick: of the due jobs among `ids`, each once. */
  ghost predicate FiredExactly(
    list: map<string, Job>, ids: set<string>, now: Instant, runs: map<string, (Outcome, Instant)>, steps: seq<Op>)
  {
    && (forall i | 0 <= i < |steps| && steps[i].Fire? ::
          && steps[i].id in ids && steps[i].id in list && Due(list[steps[i].id], now)
          && steps[i].id in runs && steps[i].outcome == runs[steps[i].id].0)
    && (forall i, k | 0 <= i < k < |steps| && steps[i].Fire? && steps[k].Fire? :: steps[i].id != steps[k].id)
    && forall id | id in ids && id in list && Due(list[id], now) ::
         exists i :: 0 <= i < |steps| && FiresJob(steps[i], id)
  }

  /** By the fields of the jobs as they were listed: exactly the enabled ones fire that have no plan or one that has
      passed, and each of them once. */
  lemma FiredByFields(
    list: map<string, Job>, now: Instant, runs: map<string, (Outcome, Instant)>, steps: seq<Op>)
    requires FiredExactly(list, list.Keys, now, runs, steps)
    ensures forall id :: (exists i :: 0 <= i < |steps| && FiresJob(steps[i], id)) <==>
      id in list && list[id].enabled && (list[id].nextRun.None? || list[id].nextRun.value.Before(now))
    ensures forall i, k | 0 <= i < k < |steps| && steps[i].Fire? && steps[k].Fire? :: steps[i].id != steps[k].id
  {
  }

  /** What others do. */
  predicate ByOthers(steps: seq<Op>) {
    forall i | 0 <= i < |steps| :: steps[i].Update? || steps[i].Remove?
  }

  lemma FiredOneMore(
    list: map<string, Job>, ids: set<string>, now: Instant, runs: map<string, (Outcome, Instant)>, steps: seq<Op>,
    others: seq<Op>, op: Op)
    requires FiredExactly(list, ids, now, runs, steps) && ByOthers(others)
    requires op.Fire? && op.id in list && op.id !in ids && Due(list[op.id], now)
    requires op.id in runs && op.outcome == runs[op.id].0
    ensures FiredExactly(list, ids + {op.id}, now, runs, steps + (others + [op]))
  {
    hide Due;
    var more := steps + (others + [op]);
    assert forall i | 0 <= i < |more| && more[i].Fire? :: (i < |steps| && more[i] == steps[i]) || more[i] == op;
    forall id | id in ids + {op.id} && id in list && Due(list[id], now)
      ensures exists i :: 0 <= i < |more| && FiresJob(more[i], id)
    {
      if id == op.id {
        assert FiresJob(more[|more| - 1], id);
      } else {
        var i :| 0 <= i < |steps| && FiresJob(steps[i], id);
        assert FiresJob(more[i], id);
      }
    }
    forall i, k | 0 <= i < k < |more| && more[i].Fire? && more[k].Fire? ensures more[i].id != more[k].id {
      assert i < |steps|;
    }
  }

  lemma NotDue(
    list: map<string, Job>, ids: set<string>, now: Instant, runs: map<string, (Outcome, Instant)>, steps: seq<Op>,
    id: string)
    requires FiredExactly(list, ids, now, runs, steps) && id in list && !Due(list[id], now)
    ensures FiredExactly(list, ids + {id}, now, runs, steps)
  {
  }

  lemma NothingFired(list: map<string, Job>, now: Instant, runs: map<string, (Outcome, Instant)>)
    ensures FiredExactly(list, list.Keys - list.Keys, now, runs, [])
  {
  }

  /** The reply to a request that changes the store: saved in memory, but not on disk, it is an error too. */
  datatype Reply = Accepted | BadExpression(error: Error) | NotPersisted

  class Scheduler {
    var jobs: map<string, Job>
    var clock: Instant
    /** The state the scheduler was started in, the steps made since, and what is left of the last listing. */
    ghost const start: State
    ghost var history: seq<Op>
    ghost var listed: map<string, Job>
    ghost var tick: Instant

    /** The store is what the steps so far have made of it. */
    ghost predicate Valid()
      reads this
    {
      && start.listed == map[]
      && IsRun(start, history) && Final(start, history) == State(jobs, listed, tick, clock)
      && forall id | id in jobs :: jobs[id].id == id
    }

    constructor (jobs: map<string, Job>, now: Instant)
      requires forall id | id in jobs :: jobs[id].id == id
      ensures Valid() && this.jobs == jobs && clock == now && start == State(jobs, map[], now, now) && history == []
    {
      this.jobs, clock := jobs, now;
      start, history, listed, tick := State(jobs, map[], now, now), [], map[], now;
    }

    /** The next run after `now`, if the expression is good and has one. */
    static method NextAfter(cron: string, now: Instant) returns (next: Option<Instant>)
      ensures NextRun(cron, now, next)
    {
      hide Answer, ParseSpec;
      var found := NextTime(cron, now);
      next := if found.Ok? then Some(found.value) else None;
    }

    /** The search with its error. */
    static method FindNext(cron: string, now: Instant) returns (found: Result<Instant>)
      ensures NextRun(cron, now, if found.Ok? then Some(found.value) else None)
    {
      hide Answer, ParseSpec;
      found := NextTime(cron, now);
    }

    /** Stores the end of a run and plans the next one; a plan that cannot be found stays the old one. */
    method RecordRun(id: string, status: string, now: Instant) returns (ghost next: Option<Instant>)
      requires forall k | k in jobs :: jobs[k].id == k
      modifies this`jobs
      ensures id !in old(jobs) ==> jobs == old(jobs) && next.None?
      ensures id in old(jobs) ==>
        && NextRun(old(jobs)[id].cron, now, next)
        && jobs == old(jobs)[id := AfterRun(old(jobs)[id], now, status, next)]
    {
      hide NextRun;
      next := None;
      if id !in jobs {
        return;
      }
      var job := jobs[id].(lastRun := Some(now), lastStatus := status);
      var found := NextAfter(job.cron, now);
      next := found;
      if found.Some? {
        job := job.(nextRun := found);
      }
      jobs := jobs[job.id := job];
    }

    /** Creates or updates a job and plans it; a bad expression leaves the store as it was. */
    method EnsureJob(job: Job, now: Instant, persisted: bool) returns (r: Reply, ghost op: Op)
      requires Valid() && AtMost(clock, now)
      modifies this`jobs, this`clock, this`history
      ensures Valid() && history == old(history) + [op] && op.Update? && op.job == job && op.now == now
      ensures clock == now && (r.Accepted? ==> persisted)
      ensures job.cron == "" ==> !r.BadExpression? && jobs == old(jobs)[job.id := job]
      ensures job.cron != "" ==> NextRun(job.cron, now, op.next) && (r.BadExpression? <==> op.next.None?)
      ensures job.cron != "" ==>
        jobs == if op.next.Some? then old(jobs)[job.id := job.(nextRun := op.next)] else old(jobs)
    {
      hide NextRun, IsRun, Final, Answer, ParseSpec;
      clock := now;
      var stored := job;
      op := Update(job, now, None);
      r := if persisted then Accepted else NotPersisted;
      if job.cron != "" {
        var found := FindNext(job.cron, now);
        if found.Ok? {
          stored := job.(nextRun := Some(found.value));
          op := Update(job, now, Some(found.value));
        } else {
          r := BadExpression(found.error);
        }
      }
      OneMore(start, history, op);
      history := history + [op];
      if !r.BadExpression? {
        jobs := jobs[job.id := stored];
      }
    }

    /** Takes a job out of the store, if it is there. */
    method Delete(id: string, now: Instant, persisted: bool) returns (r: Reply, ghost op: Op)
      requires Valid() && AtMost(clock, now)
      modifies this`jobs, this`clock, this`history
      ensures Valid() && history == old(history) + [op] && op == Remove(id, now)
      ensures clock == now && jobs == old(jobs) - {id} && (r.Accepted? <==> persisted)
    {
      hide IsRun, Final;
      clock := now;
      op := Remove(id, now);
      OneMore(start, history, op);
      history := history + [op];
      jobs := jobs - {id};
      r := if persisted then Accepted else NotPersisted;
    }

    /** What others may do to the store while the scheduler waits: any updates and removals. */
    method Interfere() returns (ghost steps: seq<Op>)
      requires Valid()
      modifies this`jobs, this`clock, this`history
      ensures Valid() && history == old(history) + steps && ByOthers(steps) && AtMost(old(clock), clock)
    {
      hide IsRun, Final, NextRun;
      steps := [];
      var n: nat :| true;
      for i := 0 to n
        invariant Valid() && history == old(history) + steps && ByOthers(steps) && AtMost(old(clock), clock)
      {
        var reading: Instant := *;
        var persisted: bool := *;
        var r;
        ghost var op;
        if * {
          var job: Job := *;
          r, op := EnsureJob(job, Later(clock, reading), persisted);
        } else {
          var id: string := *;
          r, op := Delete(id, Later(clock, reading), persisted);
        }
        steps := steps + [op];
      }
    }

    /** Fires a listed job and waits for its transfer; `reading` is the clock when it is over. */
    method Execute(id: string, outcome: Outcome, reading: Instant) returns (ghost others: seq<Op>, ghost op: Op)
      requires Valid() && id in listed && Due(listed[id], tick)
      modifies this`jobs, this`clock, this`history, this`listed
      ensures Valid() && history == old(history) + (others + [op]) && ByOthers(others)
      ensures FiresJob(op, id) && op.over == clock && op.outcome == outcome
      ensures listed == old(listed) - {id} && AtMost(old(clock), clock)
    {
      hide NextRun, IsRun, Final, Due;
      others := Interfere();
      ghost var before := State(jobs, listed, tick, clock);
      clock := Later(clock, reading);
      ghost var next: Option<Instant> := None;
      if outcome.Recorded? {
        next := RecordRun(id, outcome.status, clock);
      }
      op := Fire(id, clock, outcome, next);
      OneMore(start, history, op);
      history := history + [op];
      listed := listed - {id};
    }

    /** One tick: every enabled job that is due when the store is listed fires, in no particular order, whatever others
        do meanwhile. `runs` tells how each would end. */
    method Check(now: Instant, runs: map<string, (Outcome, Instant)>) returns (ghost steps: seq<Op>)
      requires Valid() && AtMost(clock, now) && jobs.Keys <= runs.Keys
      modifies this
      ensures Valid() && history == old(history) + [Tick(now)] + steps
      ensures FiredExactly(old(jobs), old(jobs).Keys, now, runs, steps)
      ensures forall id :: (exists i :: 0 <= i < |steps| && FiresJob(steps[i], id)) <==>
        && id in old(jobs) && old(jobs)[id].enabled
        && (old(jobs)[id].nextRun.None? || old(jobs)[id].nextRun.value.Before(now))
      ensures forall i | 0 <= i < |steps| :: !steps[i].Tick?
    {
      hide NextRun, FiredExactly, IsRun, Final, Due;
      steps := [];
      OneMore(start, history, Tick(now));
      history := history + [Tick(now)];
      clock, tick, listed := now, now, jobs;
      var list := jobs;
      var todo := list.Keys;
      NothingFired(list, now, runs);
      while todo != {}
        invariant Valid() && todo <= list.Keys && tick == now
        invariant list == old(jobs) && history == old(history) + [Tick(now)] + steps
        invariant forall id | id in todo :: id in listed && listed[id] == list[id]
        invariant FiredExactly(list, list.Keys - todo, now, runs, steps)
        invariant forall i | 0 <= i < |steps| :: !steps[i].Tick?
        decreases todo
      {
        var id :| id in todo;
        ghost var done := list.Keys - todo;
        todo := todo - {id};
        assert list.Keys - todo == done + {id};
        if Due(list[id], now) {
          ghost var others, op := Execute(id, runs[id].0, runs[id].1);
          FiredOneMore(list, done, now, runs, steps, others, op);
          steps := steps + (others + [op]);
        } else {
          NotDue(list, done, now, runs, steps, id);
        }
      }
      assert list.Keys - todo == old(jobs).Keys;
      FiredByFields(list, now, runs, steps);
    }
  }
}
