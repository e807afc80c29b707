/** sc_service_run_agent_cron of src/daemon.c: the agent jobs whose expression matches are run
    in order, and each leaves a record in the scheduler's run log. A turn may call the scheduler
    while the loop walks its job array. */
module AgentCron {
  import opened Text
  import opened Wrappers
  import opened CronExpression
  import opened CronScheduler
  import ServiceClock

  /** What an agent turn gives back, and the scheduler calls its tools have made. */
  datatype Turn = Turn(ok: bool, response: Option<string>, calls: seq<Op>)

  ghost predicate TurnsOk(turns: Job -> Turn) {
    forall job :: ValidOps(turns(job).calls)
  }

  predicate IsDue(job: Job, t: Time) {
    job.kind.Agent? && job.enabled && !job.paused && ScheduleAccepts(job.expression, t)
  }

  function StatusText(turn: Turn): string {
    if turn.ok then "success" else "failed"
  }

  /** How the loop ends: with the last job; holding an array that the scheduler has given up; or
      at an index behind the scheduler's jobs. Past the latter two C reads freed memory or a stale
      slot, and nothing is said about it. */
  datatype End = Finished | ArrayGone | BehindJobs

  datatype Outcome = Outcome(end: End, at: nat, book: Book)

  /** The loop from index i on, up to the number n of jobs there were when it began, in an array of
      the given capacity. A record is made under the id that stands at i after the turn. */
  ghost function Ticked(b: Book, capacity: nat, i: nat, n: nat, t: Time, now: int, turns: Job -> Turn): Outcome
    requires i <= n
    decreases n - i
  {
    if i == n then Outcome(Finished, i, b)
    else if i >= |b.jobs| then Outcome(BehindJobs, i, b)
    else if !IsDue(b.jobs[i], t) then Ticked(b, capacity, i + 1, n, t, now, turns)
    else
      var turn := turns(b.jobs[i]);
      var b' := After(b, turn.calls);
      if SomeGrows(b, capacity, turn.calls) then Outcome(ArrayGone, i, b')
      else if i >= |b'.jobs| then Outcome(BehindJobs, i, b')
      else Ticked(TurnRecorded(b', i, now, turn), capacity, i + 1, n, t, now, turns)
  }

  function TurnRecorded(b: Book, i: nat, now: int, turn: Turn): Book
    requires i < |b.jobs|
  {
    Do(b, Record(b.jobs[i].id, now, Some(StatusText(turn)), turn.response))
  }

  /** The scheduler calls of one turn. */
  method RunCalls(sched: Scheduler, calls: seq<Op>)
    requires sched.Valid() && ValidOps(calls)
    modifies sched, sched.jobs, sched.runs
    ensures sched.Valid() && sched.State() == After(old(sched.State()), calls)
    ensures sched.jobs == old(sched.jobs) || fresh(sched.jobs)
    ensures sched.runs == old(sched.runs) || fresh(sched.runs)
    ensures sched.jobs == old(sched.jobs) <==> !SomeGrows(old(sched.State()), old(sched.jobs.Length), calls)
  {
    hide BookOk, Do, Grows, SomeGrows;
    ghost var before, capacity := sched.State(), sched.jobs.Length;
    var m := 0;
    NoCalls(before, capacity);
    assert calls[..0] == [];
    while m < |calls|
      invariant 0 <= m <= |calls| && sched.Valid() && sched.State() == After(before, calls[..m])
      invariant sched.jobs == old(sched.jobs) || fresh(sched.jobs)
      invariant sched.runs == old(sched.runs) || fresh(sched.runs)
      invariant sched.jobs == old(sched.jobs) <==> !SomeGrows(before, capacity, calls[..m])
    {
      AfterStep(before, calls, m);
      SomeGrowsStep(before, capacity, calls, m);
      sched.Call(calls[m]);
      m := m + 1;
    }
    assert calls[..m] == calls;
  }

  lemma NoCalls(b: Book, capacity: nat)
    ensures After(b, []) == b && !SomeGrows(b, capacity, [])
  {
  }

  lemma SomeGrowsStep(b: Book, capacity: nat, ops: seq<Op>, m: nat)
    requires m < |ops|
    ensures SomeGrows(b, capacity, ops[..m + 1]) <==>
            SomeGrows(b, capacity, ops[..m]) || Grows(After(b, ops[..m]), capacity, ops[m])
  {
    hide Grows, After;
    assert forall k :: 0 <= k <= m ==> ops[..m + 1][..k] == ops[..k] && ops[..m + 1][k] == ops[k];
    assert forall k :: 0 <= k < m ==> ops[..m][..k] == ops[..k] && ops[..m][k] == ops[k];
  }

  /** The method walks the job array it was given at the start, whatever its turns do to the
      scheduler, and appends to the run log. */
  method RunAgentCron(sched: Scheduler, t: Time, now: int, turns: Job -> Turn) returns (end: End, at: nat)
    requires sched.Valid() && TurnsOk(turns)
    modifies sched, sched.jobs, sched.runs
    ensures sched.Valid()
    ensures Outcome(end, at, sched.State()) ==
            Ticked(old(sched.State()), old(sched.jobs.Length), 0, old(sched.jobsLen), t, now, turns)
  {
    hide BookOk, ScheduleAccepts, Do, NewRun, SomeGrows;
    ghost var before, capacity := sched.State(), sched.jobs.Length;
    var held, n := sched.jobs, sched.jobsLen;
    at := 0;
    while at < n
      invariant 0 <= at <= n && sched.Valid() && sched.jobs == held
      invariant sched.runs == old(sched.runs) || fresh(sched.runs)
      invariant Ticked(sched.State(), capacity, at, n, t, now, turns) == Ticked(before, capacity, 0, n, t, now, turns)
      decreases n - at
    {
      if at >= sched.jobsLen { return BehindJobs, at; }
      var job := held[at];
      ghost var book := sched.State();
      assert job == book.jobs[at];
      JobTextIsCString(book, at);
      var due := job.kind.Agent? && job.enabled && !job.paused;
      if due {
        due := ScheduleMatches(job.expression, t);
      }
      if due {
        var turn := turns(job);
        RunCalls(sched, turn.calls);
        if sched.jobs != held { return ArrayGone, at; }
        if at >= sched.jobsLen { return BehindJobs, at; }
        RecordKeepsJobs(sched.State(), held[at].id, now, Some(StatusText(turn)), turn.response);
        var _ := sched.AddRun(held[at].id, now, Some(StatusText(turn)), turn.response);
      }
      at := at + 1;
    }
    end := Finished;
  }

  lemma JobTextIsCString(b: Book, i: nat)
    requires BookOk(b) && i < |b.jobs|
    ensures Lacks(b.jobs[i].expression, NUL)
  {
  }

  lemma RecordKeepsJobs(b: Book, jobId: nat, startedAt: int, status: Option<string>, output: Option<string>)
    ensures Do(b, Record(jobId, startedAt, status, output)).jobs == b.jobs
  {
  }

  // ----- ticks whose turns leave the jobs in place

  /** One record per due job, in job order. */
  ghost function Recorded(b: Book, jobs: seq<Job>, t: Time, now: int, turns: Job -> Turn): Book
    decreases |jobs|
  {
    if jobs == [] then b
    else
      var job := jobs[0];
      var b' := if IsDue(job, t)
                then Do(b, Record(job.id, now, Some(StatusText(turns(job))), turns(job).response)) else b;
      Recorded(b', jobs[1..], t, now, turns)
  }

  function DueJobs(jobs: seq<Job>, t: Time): (due: seq<Job>)
    ensures forall j :: j in due <==> j in jobs && IsDue(j, t)
  {
    if jobs == [] then [] else (if IsDue(jobs[0], t) then [jobs[0]] else []) + DueJobs(jobs[1..], t)
  }

  /** The record of a due job: its id, the outcome of its turn, the time of the tick. */
  function RecordOf(id: nat, job: Job, now: int, turns: Job -> Turn): (r: Run)
    ensures r.id == id && r.jobId == job.id && r.startedAt == now
    ensures r.status == StatusText(turns(job)) && r.output == NonEmpty(turns(job).response)
  {
    NewRun(id, job.id, now, Some(StatusText(turns(job))), turns(job).response)
  }

  /** One record for each job of the list, with consecutive ids. */
  function Records(nextId: nat, due: seq<Job>, now: int, turns: Job -> Turn): (r: seq<Run>)
    ensures |r| == |due|
    ensures forall k :: 0 <= k < |due| ==> r[k] == RecordOf(nextId + k, due[k], now, turns)
    decreases |due|
  {
    if due == [] then [] else [RecordOf(nextId, due[0], now, turns)] + Records(nextId + 1, due[1..], now, turns)
  }

  lemma TakeStep<T>(x: T, rest: seq<T>, room: nat)
    requires room > 0
    ensures Take([x] + rest, room) == [x] + Take(rest, room - 1)
  {
  }

  /** The book with one record per job appended, as far as the log has room. */
  ghost function Appended(b: Book, due: seq<Job>, now: int, turns: Job -> Turn): Book
    requires |b.runs| <= b.maxTasks * 64
  {
    var fresh_ := Take(Records(b.nextRunId, due, now, turns), b.maxTasks * 64 - |b.runs|);
    b.(runs := b.runs + fresh_, nextRunId := b.nextRunId + |fresh_|)
  }

  lemma AppendedNone(b: Book, now: int, turns: Job -> Turn)
    requires |b.runs| <= b.maxTasks * 64
    ensures Appended(b, [], now, turns) == b
  {
    assert b.runs + [] == b.runs;
  }

  lemma AppendedStep(b: Book, job: Job, due: seq<Job>, now: int, turns: Job -> Turn)
    requires |b.runs| <= b.maxTasks * 64
    ensures var next := Do(b, Record(job.id, now, Some(StatusText(turns(job))), turns(job).response));
            |next.runs| <= next.maxTasks * 64 && Appended(next, due, now, turns) == Appended(b, [job] + due, now, turns)
  {
    hide RecordOf, Records, Take;
    var room := b.maxTasks * 64 - |b.runs|;
    var first, rest := RecordOf(b.nextRunId, job, now, turns), Records(b.nextRunId + 1, due, now, turns);
    RecordsStep(b.nextRunId, job, due, now, turns);
    if room > 0 {
      RecordAppends(b, job, now, turns);
      hide Do, NewRun, StatusText;
      TakeStep(first, rest, room);
      Reassociate(b.runs, [first], Take(rest, room - 1));
    } else {
      hide NewRun, StatusText;
      TakeNone([first] + rest);
      TakeNone(Records(b.nextRunId, due, now, turns));
    }
  }

  lemma TakeNone<T>(s: seq<T>)
    ensures Take(s, 0) == []
  {
  }

  lemma RecordsStep(nextId: nat, job: Job, due: seq<Job>, now: int, turns: Job -> Turn)
    ensures Records(nextId, [job] + due, now, turns) ==
            [RecordOf(nextId, job, now, turns)] + Records(nextId + 1, due, now, turns)
  {
    assert ([job] + due)[1..] == due;
  }

  /** Main result: with room in the log, a tick appends exactly one record for each due job, in
      job order and with consecutive ids, and changes nothing else; without enough room it
      appends the first ones that fit. */
  lemma {:induction false} TickRecords(b: Book, jobs: seq<Job>, t: Time, now: int, turns: Job -> Turn)
    requires |b.runs| <= b.maxTasks * 64
    ensures Recorded(b, jobs, t, now, turns) == Appended(b, DueJobs(jobs, t), now, turns)
    decreases |jobs|
  {
    hide IsDue, Appended, Do, StatusText;
    if jobs == [] {
      AppendedNone(b, now, turns);
    } else if IsDue(jobs[0], t) {
      var job := jobs[0];
      AppendedStep(b, job, DueJobs(jobs[1..], t), now, turns);
      var next := Do(b, Record(job.id, now, Some(StatusText(turns(job))), turns(job).response));
      TickRecords(next, jobs[1..], t, now, turns);
    } else {
      TickRecords(b, jobs[1..], t, now, turns);
      assert [] + DueJobs(jobs[1..], t) == DueJobs(jobs[1..], t);
    }
  }

  lemma RecordAppends(b: Book, job: Job, now: int, turns: Job -> Turn)
    requires |b.runs| < b.maxTasks * 64
    ensures Do(b, Record(job.id, now, Some(StatusText(turns(job))), turns(job).response)) ==
            b.(runs := b.runs + [RecordOf(b.nextRunId, job, now, turns)], nextRunId := b.nextRunId + 1)
  {
  }

  /** The turns do not call the scheduler. */
  ghost predicate Quiet(turns: Job -> Turn) {
    forall job :: turns(job).calls == []
  }

  /** Then the loop gets through, with one record per due job. */
  lemma {:induction false} QuietTick(b: Book, capacity: nat, i: nat, t: Time, now: int, turns: Job -> Turn)
    requires Quiet(turns) && i <= |b.jobs|
    ensures Ticked(b, capacity, i, |b.jobs|, t, now, turns) ==
            Outcome(Finished, |b.jobs|, Recorded(b, b.jobs[i..], t, now, turns))
    decreases |b.jobs| - i
  {
    hide IsDue, Do, SomeGrows;
    if i < |b.jobs| {
      var job := b.jobs[i];
      assert b.jobs[i..][0] == job && b.jobs[i..][1..] == b.jobs[i + 1..];
      if IsDue(job, t) {
        NoCalls(b, capacity);
        var turn := turns(job);
        RecordKeepsJobs(b, job.id, now, Some(StatusText(turn)), turn.response);
        QuietTick(TurnRecorded(b, i, now, turn), capacity, i + 1, t, now, turns);
      } else {
        QuietTick(b, capacity, i + 1, t, now, turns);
      }
    }
  }

  /** The turns only add jobs. */
  ghost predicate OnlyAdding(turns: Job -> Turn) {
    forall job, m :: 0 <= m < |turns(job).calls| ==> turns(job).calls[m].Add?
  }

  predicate SameLog(a: Book, b: Book) {
    a.runs == b.runs && a.nextRunId == b.nextRunId && a.maxTasks == b.maxTasks
  }

  lemma {:induction false} AddsAppend(b: Book, capacity: nat, ops: seq<Op>)
    requires forall m :: 0 <= m < |ops| ==> ops[m].Add?
    requires capacity == b.maxTasks
    ensures b.jobs <= After(b, ops).jobs && SameLog(After(b, ops), b) && !SomeGrows(b, capacity, ops)
    decreases |ops|
  {
    hide NewJob;
    if ops != [] {
      var m := |ops| - 1;
      AddsAppend(b, capacity, ops[..m]);
      AfterStep(b, ops, m);
      SomeGrowsStep(b, capacity, ops, m);
      assert ops[..m + 1] == ops;
    }
  }

  lemma RecordIsOfLog(b: Book, b': Book, op: Op)
    requires SameLog(b, b') && op.Record?
    ensures SameLog(Do(b, op), Do(b', op)) && Do(b, op).jobs == b.jobs && Do(b, op).maxTasks == b.maxTasks
  {
  }

  /** With an array that has reached its full size, turns that only add jobs do not disturb the
      tick: it gets through the jobs there were and records exactly the due ones. */
  lemma {:induction false} AddingTick(b: Book, b0: Book, jobs: seq<Job>, i: nat, t: Time, now: int, turns: Job -> Turn)
    requires OnlyAdding(turns) && jobs <= b.jobs && i <= |jobs| && SameLog(b, b0)
    ensures var r := Ticked(b, b.maxTasks, i, |jobs|, t, now, turns);
            && r.end == Finished && jobs <= r.book.jobs
            && SameLog(r.book, Recorded(b0, jobs[i..], t, now, turns))
    decreases |jobs| - i
  {
    hide IsDue, Do, SomeGrows, After;
    if i < |jobs| {
      var job := jobs[i];
      assert b.jobs[i] == job && jobs[i..][0] == job && jobs[i..][1..] == jobs[i + 1..];
      if IsDue(job, t) {
        var turn := turns(job);
        var b' := After(b, turn.calls);
        AddsAppend(b, b.maxTasks, turn.calls);
        assert b'.jobs[i] == job;
        var op := Record(job.id, now, Some(StatusText(turn)), turn.response);
        RecordIsOfLog(b', b0, op);
        AddingTick(Do(b', op), Do(b0, op), jobs, i + 1, t, now, turns);
      } else {
        AddingTick(b, b0, jobs, i + 1, t, now, turns);
      }
    }
  }

  /** A due job that removes itself in its own turn: the turn is recorded for the next job, and
      the loop goes on behind that one, whose own turn is left out. */
  lemma SelfRemovalIsRecordedForTheNext(b: Book, capacity: nat, i: nat, n: nat, t: Time, now: int, turns: Job -> Turn)
    requires BookOk(b) && i + 1 < |b.jobs| && i < n && |b.runs| < b.maxTasks * 64
    requires IsDue(b.jobs[i], t) && turns(b.jobs[i]).calls == [Remove(b.jobs[i].id)]
    ensures exists next: Book ::
              && Ticked(b, capacity, i, n, t, now, turns) == Ticked(next, capacity, i + 1, n, t, now, turns)
              && next.jobs == b.jobs[..i] + b.jobs[i + 1..]
              && |next.runs| == |b.runs| + 1 && next.runs[|b.runs|].jobId == b.jobs[i + 1].id
  {
    hide IsDue, ScheduleAccepts, Lacks;
    var turn, op := turns(b.jobs[i]), Remove(b.jobs[i].id);
    FindJobIs(b.jobs, b.jobs[i].id, i);
    assert [op][..0] == [] && After(b, [op]) == Do(b, op);
    var b' := Do(b, op);
    assert !SomeGrows(b, capacity, [op]);
    var next := TurnRecorded(b', i, now, turn);
    assert b'.jobs[i] == b.jobs[i + 1];
    assert Ticked(b, capacity, i, n, t, now, turns) == Ticked(next, capacity, i + 1, n, t, now, turns);
  }

  // ----- which minutes the jobs are matched against

  /** The body of tick i matches the jobs against a second reading of the clock, taken when the
      shell jobs before it are done; `later[i]` is that reading. */
  ghost predicate ClockGoesOn(rs: seq<ServiceClock.Reading>, later: seq<int>) {
    && |later| == |rs|
    && (forall i :: 0 <= i < |rs| ==> rs[i].t <= later[i])
    && (forall i, j :: 0 <= i < j < |rs| ==> later[i] <= rs[j].t)
  }

  ghost predicate IsBody(rs: seq<ServiceClock.Reading>, zone: int, i: nat) {
    i < |rs| && ServiceClock.EffectsOf(rs, zone, i).ran
  }

  /** No two bodies match the jobs against the same minute. */
  ghost predicate OncePerMinute(rs: seq<ServiceClock.Reading>, later: seq<int>, zone: int)
    requires |later| == |rs|
  {
    forall i: nat, j: nat :: i < j && IsBody(rs, zone, i) && IsBody(rs, zone, j) ==>
      ServiceClock.Minute(later[i]) != ServiceClock.Minute(later[j])
  }

  /** The shell jobs of one body last into the minute that starts the next tick, and that tick's
      do not last beyond it. */
  ghost predicate RunsInto(rs: seq<ServiceClock.Reading>, later: seq<int>, i: nat, j: nat)
    requires |later| == |rs| && i < |rs| && j < |rs|
  {
    ServiceClock.Minute(later[i]) == ServiceClock.Minute(rs[j].t) == ServiceClock.Minute(later[j])
  }

  /** Behind every tick the guard's latch has reached that tick's minute. */
  lemma LatchReachesTick(rs: seq<ServiceClock.Reading>, zone: int, i: nat, j: nat)
    requires i < j < |rs| && IsBody(rs, zone, j)
    ensures ServiceClock.Minute(rs[i].t) < ServiceClock.Minute(rs[j].t)
  {
    hide ServiceClock.Local;
    ServiceClock.MinuteLatchGrows(rs, zone, i + 1, j);
    assert ServiceClock.After(rs, zone, i + 1).lastCronMinute >= ServiceClock.Minute(rs[i].t);
  }

  /** The minute guard keeps the bodies' minutes apart but not the minutes matched. No minute is
      matched twice exactly when no body's shell jobs run into the very next tick with a body. */
  lemma OncePerMinuteIff(rs: seq<ServiceClock.Reading>, later: seq<int>, zone: int)
    requires ClockGoesOn(rs, later)
    ensures OncePerMinute(rs, later, zone) <==>
            forall i: nat :: IsBody(rs, zone, i) && IsBody(rs, zone, i + 1) ==> !RunsInto(rs, later, i, i + 1)
  {
    hide ServiceClock.EffectsOf;
    forall i: nat, j: nat | i < j && IsBody(rs, zone, i) && IsBody(rs, zone, j) &&
                            ServiceClock.Minute(later[i]) == ServiceClock.Minute(later[j])
      ensures j == i + 1 && RunsInto(rs, later, i, j)
    {
      SameMinuteIsNextTick(rs, later, zone, i, j);
    }
  }

  /** Between two bodies that match the same minute there is no tick. */
  lemma SameMinuteIsNextTick(rs: seq<ServiceClock.Reading>, later: seq<int>, zone: int, i: nat, j: nat)
    requires ClockGoesOn(rs, later) && i < j && IsBody(rs, zone, i) && IsBody(rs, zone, j)
    requires ServiceClock.Minute(later[i]) == ServiceClock.Minute(later[j])
    ensures j == i + 1 && RunsInto(rs, later, i, j)
  {
    hide IsBody;
    assert j < |rs| by { BodyIsTick(rs, zone, j); }
    assert later[i] <= rs[j].t <= later[j];
    if i + 1 < j {
      assert later[i] <= rs[i + 1].t <= later[i + 1] <= rs[j].t;
      LatchReachesTick(rs, zone, i + 1, j);
    }
  }

  lemma BodyIsTick(rs: seq<ServiceClock.Reading>, zone: int, i: nat)
    requires IsBody(rs, zone, i)
    ensures i < |rs|
  {
  }

  /** Two bodies that both match the minute of the second, and none that matches the first's. */
  lemma SlowShellJobsRepeatAMinute()
    ensures var r := ServiceClock.Reading(60, 0, false, false, false, false);
            var rs, later := [r, r.(t := 125)], [125, 130];
            && ClockGoesOn(rs, later) && IsBody(rs, 0, 0) && IsBody(rs, 0, 1) && RunsInto(rs, later, 0, 1)
            && !OncePerMinute(rs, later, 0)
            && (forall i: nat :: IsBody(rs, 0, i) ==> ServiceClock.Minute(later[i]) != ServiceClock.Minute(rs[0].t))
  {
    var r := ServiceClock.Reading(60, 0, false, false, false, false);
    var rs, later := [r, r.(t := 125)], [125, 130];
    assert rs[..0] == [] && rs[..1] == [r];
    assert IsBody(rs, 0, 0);
    assert IsBody(rs, 0, 1);
    assert RunsInto(rs, later, 0, 1);
  }

  /** When the second reading always falls in the body's own minute, every minute that a run
      without skipped minutes passes through is matched by exactly one body. */
  lemma EveryMinuteMatchedOnce(rs: seq<ServiceClock.Reading>, later: seq<int>, zone: int, m: int) returns (k: nat)
    requires ServiceClock.Steady(rs) && |rs| > 0 && |later| == |rs|
    requires ServiceClock.Minute(rs[0].t) <= m <= ServiceClock.Minute(rs[|rs| - 1].t)
    requires forall i: nat :: IsBody(rs, zone, i) ==> ServiceClock.Minute(later[i]) == ServiceClock.Minute(rs[i].t)
    ensures IsBody(rs, zone, k) && ServiceClock.Minute(later[k]) == m
    ensures forall i: nat :: IsBody(rs, zone, i) && ServiceClock.Minute(later[i]) == m ==> i == k
  {
    hide ServiceClock.Step;
    k := ServiceClock.EveryMinuteRuns(rs, zone, m);
    assert IsBody(rs, zone, k);
    forall i: nat | IsBody(rs, zone, i) && ServiceClock.Minute(later[i]) == m ensures i == k {
      if i < k { ServiceClock.CronMinutesIncrease(rs, zone, i, k); }
      if k < i { ServiceClock.CronMinutesIncrease(rs, zone, k, i); }
    }
  }

  // ----- the jobs and the records, field by field

  /** Which jobs a tick runs. */
  lemma DueIff(job: Job, t: Time)
    ensures IsDue(job, t) <==>
            job.kind == JobKind.Agent && job.enabled && !job.paused && ScheduleAccepts(job.expression, t)
  {
  }

  /** What a quiet tick leaves in an empty log: for each agent job that is enabled, not paused and
      whose expression matches, in job order, a record of the job, the time and the outcome. */
  lemma QuietTickRecords(b: Book, capacity: nat, t: Time, now: int, turns: Job -> Turn)
    requires Quiet(turns) && b.runs == [] && |b.jobs| <= b.maxTasks
    ensures var r := Ticked(b, capacity, 0, |b.jobs|, t, now, turns);
            var due := DueJobs(b.jobs, t);
            && r.end == Finished && |r.book.runs| == |due| && r.book.jobs == b.jobs
            && (forall k :: 0 <= k < |due| ==>
                  && r.book.runs[k].id == b.nextRunId + k && r.book.runs[k].jobId == due[k].id
                  && r.book.runs[k].startedAt == r.book.runs[k].finishedAt == now
                  && r.book.runs[k].status == (if turns(due[k]).ok then "success" else "failed"))
    ensures forall j :: j in DueJobs(b.jobs, t) <==>
              j in b.jobs && j.kind == JobKind.Agent && j.enabled && !j.paused && ScheduleAccepts(j.expression, t)
  {
    hide ScheduleAccepts, Do, SomeGrows;
    QuietTick(b, capacity, 0, t, now, turns);
    assert b.jobs[0..] == b.jobs;
    TickRecords(b, b.jobs, t, now, turns);
    DueAreFewer(b.jobs, t);
  }

  lemma {:induction false} DueAreFewer(jobs: seq<Job>, t: Time)
    ensures |DueJobs(jobs, t)| <= |jobs|
  {
    hide IsDue;
    if jobs != [] { DueAreFewer(jobs[1..], t); }
  }

  /** The due jobs are found piece by piece, in order. */
  lemma {:induction false} DueInOrder(a: seq<Job>, b: seq<Job>, t: Time)
    ensures DueJobs(a + b, t) == DueJobs(a, t) + DueJobs(b, t)
  {
    hide IsDue;
    if a == [] {
      assert a + b == b;
    } else {
      assert (a + b)[0] == a[0] && (a + b)[1..] == a[1..] + b;
      DueInOrder(a[1..], b, t);
    }
  }

  // ----- how a tick goes on and ends, whatever the turns do

  /** The loop has got through exactly when it ends at the number of jobs it began with; it stops
      before that at an index behind the jobs there are then, or with its array given up. */
  lemma {:induction false} TickEnds(b: Book, capacity: nat, i: nat, n: nat, t: Time, now: int, turns: Job -> Turn)
    requires i <= n
    ensures var r := Ticked(b, capacity, i, n, t, now, turns);
            && i <= r.at <= n
            && (r.end == Finished <==> r.at == n)
            && (r.end == BehindJobs ==> r.at >= |r.book.jobs|)
    decreases n - i
  {
    hide IsDue, Do, After, SomeGrows;
    if i < n && i < |b.jobs| {
      if !IsDue(b.jobs[i], t) {
        TickEnds(b, capacity, i + 1, n, t, now, turns);
      } else {
        var turn := turns(b.jobs[i]);
        var b' := After(b, turn.calls);
        if !SomeGrows(b, capacity, turn.calls) && i < |b'.jobs| {
          TickEnds(TurnRecorded(b', i, now, turn), capacity, i + 1, n, t, now, turns);
        }
      }
    }
  }

  /** A job that is not due is passed over. */
  lemma IdleJobIsPassedOver(b: Book, capacity: nat, i: nat, n: nat, t: Time, now: int, turns: Job -> Turn)
    requires i < n && i < |b.jobs|
    requires var job := b.jobs[i];
             job.kind != JobKind.Agent || !job.enabled || job.paused || !ScheduleAccepts(job.expression, t)
    ensures Ticked(b, capacity, i, n, t, now, turns) == Ticked(b, capacity, i + 1, n, t, now, turns)
  {
  }

  /** A due job whose turn neither finds the array full nor removes it or a job before it leaves one
      record under its own id, behind what the turn has done. */
  lemma OwnTurnIsRecorded(b: Book, capacity: nat, i: nat, n: nat, t: Time, now: int, turns: Job -> Turn)
    returns (next: Book)
    requires BookOk(b) && i < n && i < |b.jobs|
    requires var job := b.jobs[i];
             job.kind == JobKind.Agent && job.enabled && !job.paused && ScheduleAccepts(job.expression, t)
    requires var calls := turns(b.jobs[i]).calls;
             ValidOps(calls) && !SomeGrows(b, capacity, calls) && !RemovesUpTo(b, i, calls) &&
             |After(b, calls).runs| < 64 * After(b, calls).maxTasks
    ensures Ticked(b, capacity, i, n, t, now, turns) == Ticked(next, capacity, i + 1, n, t, now, turns)
    ensures var turn := turns(b.jobs[i]);
            var b' := After(b, turn.calls);
            && next.jobs == b'.jobs && |next.runs| == |b'.runs| + 1 && next.runs[..|b'.runs|] == b'.runs
            && var r := next.runs[|b'.runs|];
               && r.jobId == b.jobs[i].id && r.startedAt == r.finishedAt == now
               && r.status == (if turn.ok then "success" else "failed")
  {
    hide ScheduleAccepts, BookOk, After, SomeGrows, RemovesUpTo, ValidOps;
    var turn := turns(b.jobs[i]);
    var b' := After(b, turn.calls);
    IndexKeepsJobIff(b, i, turn.calls);
    next := TurnRecorded(b', i, now, turn);
  }

  /** A turn that finds the array full ends the tick there. */
  lemma GrowingTurnEndsTheTick(b: Book, capacity: nat, i: nat, n: nat, t: Time, now: int, turns: Job -> Turn)
    requires i < n && i < |b.jobs| && IsDue(b.jobs[i], t) && SomeGrows(b, capacity, turns(b.jobs[i]).calls)
    ensures Ticked(b, capacity, i, n, t, now, turns) == Outcome(ArrayGone, i, After(b, turns(b.jobs[i]).calls))
  {
    hide IsDue, SomeGrows, After;
  }
}
