/** The cron scheduler of src/cron.c: growable arrays of jobs and runs, fresh ids, removal by
    shifting, newest-first queries. Its arrays refine the plain sequences of `Book`. */
module CronScheduler {
  import opened Text
  import opened Wrappers

  datatype JobKind = Shell | Agent

  datatype Job = Job(
    id: nat, expression: string, command: string, name: Option<string>, channel: Option<string>,
    kind: JobKind, paused: bool, oneShot: bool, enabled: bool, createdAt: int)

  datatype Run = Run(id: nat, jobId: nat, startedAt: int, finishedAt: int, status: string, output: Option<string>)

  // ----- the plain sequences

  datatype Book = Book(jobs: seq<Job>, runs: seq<Run>, nextJobId: nat, nextRunId: nat, maxTasks: nat)

  ghost predicate BookOk(b: Book) {
    && |b.jobs| <= b.maxTasks && |b.runs| <= b.maxTasks * 64
    && (forall i, j :: 0 <= i < j < |b.jobs| ==> b.jobs[i].id < b.jobs[j].id)
    && (forall i :: 0 <= i < |b.jobs| ==> 1 <= b.jobs[i].id < b.nextJobId && Lacks(b.jobs[i].expression, NUL))
    && (forall i, j :: 0 <= i < j < |b.runs| ==> b.runs[i].id < b.runs[j].id)
    && (forall i :: 0 <= i < |b.runs| ==> 1 <= b.runs[i].id < b.nextRunId)
    && b.nextJobId >= 1 && b.nextRunId >= 1
  }

  /** An empty C string counts as no string. */
  function NonEmpty(s: Option<string>): Option<string> {
    if s.Some? && s.value == "" then None else s
  }

  function NewJob(id: nat, kind: JobKind, expression: Option<string>, command: string, channel: Option<string>,
                  name: Option<string>, now: int): Job {
    var e := NonEmpty(expression);
    Job(id, if e.Some? then e.value else "* * * * *", command, NonEmpty(name),
        if kind.Agent? then NonEmpty(channel) else None, kind, false, false, true, now)
  }

  function NewRun(id: nat, jobId: nat, startedAt: int, status: Option<string>, output: Option<string>): Run {
    var s := NonEmpty(status);
    Run(id, jobId, startedAt, startedAt, if s.Some? then s.value else "executed", NonEmpty(output))
  }

  function FindJob(jobs: seq<Job>, id: nat): (i: nat)
    ensures i <= |jobs| && (forall k :: 0 <= k < i ==> jobs[k].id != id)
    ensures i < |jobs| ==> jobs[i].id == id
  {
    if jobs == [] || jobs[0].id == id then 0 else 1 + FindJob(jobs[1..], id)
  }

  lemma FindJobIs(jobs: seq<Job>, id: nat, i: nat)
    requires i <= |jobs| && (forall k :: 0 <= k < i ==> jobs[k].id != id) && (i < |jobs| ==> jobs[i].id == id)
    ensures FindJob(jobs, id) == i
  {
  }

  datatype Op =
    | Add(kind: JobKind, expression: Option<string>, command: string, channel: Option<string>, name: Option<string>,
          now: int)
    | Remove(id: nat)
    | Update(id: nat, newExpression: Option<string>, newCommand: Option<string>, enabled: Option<bool>)
    | SetOneShot(id: nat, oneShot: bool)
    | Record(jobId: nat, startedAt: int, status: Option<string>, output: Option<string>)

  function Updated(job: Job, expression: Option<string>, command: Option<string>, enabled: Option<bool>): Job {
    var e, c := NonEmpty(expression), NonEmpty(command);
    job.(expression := if e.Some? then e.value else job.expression,
         command := if c.Some? then c.value else job.command,
         enabled := if enabled.Some? then enabled.value else job.enabled)
  }

  /** One scheduler call on the sequences; a refused call changes nothing. */
  function Do(b: Book, op: Op): Book {
    match op
    case Add(kind, expression, command, channel, name, now) =>
      if |b.jobs| >= b.maxTasks then b
      else b.(jobs := b.jobs + [NewJob(b.nextJobId, kind, expression, command, channel, name, now)],
              nextJobId := b.nextJobId + 1)
    case Remove(id) =>
      var i := FindJob(b.jobs, id);
      if i == |b.jobs| then b else b.(jobs := b.jobs[..i] + b.jobs[i + 1..])
    case Update(id, expression, command, enabled) =>
      var i := FindJob(b.jobs, id);
      if i == |b.jobs| then b else b.(jobs := b.jobs[i := Updated(b.jobs[i], expression, command, enabled)])
    case SetOneShot(id, oneShot) =>
      var i := FindJob(b.jobs, id);
      if i == |b.jobs| then b else b.(jobs := b.jobs[i := b.jobs[i].(oneShot := oneShot)])
    case Record(jobId, startedAt, status, output) =>
      if |b.runs| >= b.maxTasks * 64 then b
      else b.(runs := b.runs + [NewRun(b.nextRunId, jobId, startedAt, status, output)], nextRunId := b.nextRunId + 1)
  }

  /** C strings carry no NUL. */
  ghost predicate ValidOp(op: Op) {
    match op
    case Add(_, expression, _, _, _, _) => expression.Some? ==> Lacks(expression.value, NUL)
    case Update(_, expression, _, _) => expression.Some? ==> Lacks(expression.value, NUL)
    case _ => true
  }

  /** Every call keeps ids increasing and below the next one, and both lists within bounds. */
  lemma DoKeepsBookOk(b: Book, op: Op)
    requires BookOk(b) && ValidOp(op)
    ensures BookOk(Do(b, op)) && Do(b, op).nextJobId >= b.nextJobId && Do(b, op).maxTasks == b.maxTasks
  {
    hide BookOk, FindJob;
    match op
    case Add(kind, expression, command, channel, name, now) =>
      if |b.jobs| < b.maxTasks {
        DefaultExpressionIsCString(expression);
        AddKeepsOk(b, NewJob(b.nextJobId, kind, expression, command, channel, name, now));
      }
    case Remove(id) =>
      if FindJob(b.jobs, id) < |b.jobs| { RemoveKeepsOk(b, FindJob(b.jobs, id)); }
    case Update(id, expression, command, enabled) =>
      var i := FindJob(b.jobs, id);
      if i < |b.jobs| {
        UpdatedIsCString(b, i, expression, command, enabled);
        ReplaceKeepsOk(b, i, Updated(b.jobs[i], expression, command, enabled));
      }
    case SetOneShot(id, oneShot) =>
      var i := FindJob(b.jobs, id);
      if i < |b.jobs| {
        UpdatedIsCString(b, i, None, None, None);
        ReplaceKeepsOk(b, i, b.jobs[i].(oneShot := oneShot));
      }
    case Record(jobId, startedAt, status, output) =>
      if |b.runs| < b.maxTasks * 64 { RecordKeepsOk(b, NewRun(b.nextRunId, jobId, startedAt, status, output)); }
  }

  lemma AddKeepsOk(b: Book, job: Job)
    requires BookOk(b) && |b.jobs| < b.maxTasks && job.id == b.nextJobId && Lacks(job.expression, NUL)
    ensures BookOk(b.(jobs := b.jobs + [job], nextJobId := b.nextJobId + 1))
  {
    hide Lacks;
  }

  lemma RemoveKeepsOk(b: Book, i: nat)
    requires BookOk(b) && i < |b.jobs|
    ensures BookOk(b.(jobs := b.jobs[..i] + b.jobs[i + 1..]))
  {
    hide Lacks;
    var rest := b.jobs[..i] + b.jobs[i + 1..];
    assert forall k :: 0 <= k < |rest| ==> rest[k] == b.jobs[if k < i then k else k + 1];
  }

  lemma UpdatedIsCString(b: Book, i: nat, expression: Option<string>, command: Option<string>, enabled: Option<bool>)
    requires BookOk(b) && i < |b.jobs| && (expression.Some? ==> Lacks(expression.value, NUL))
    ensures Lacks(Updated(b.jobs[i], expression, command, enabled).expression, NUL) && Lacks(b.jobs[i].expression, NUL)
  {
    hide Lacks;
  }

  lemma ReplaceKeepsOk(b: Book, i: nat, job: Job)
    requires BookOk(b) && i < |b.jobs| && job.id == b.jobs[i].id && Lacks(job.expression, NUL)
    ensures BookOk(b.(jobs := b.jobs[i := job]))
  {
    hide Lacks;
  }

  lemma RecordKeepsOk(b: Book, run: Run)
    requires BookOk(b) && |b.runs| < b.maxTasks * 64 && run.id == b.nextRunId
    ensures BookOk(b.(runs := b.runs + [run], nextRunId := b.nextRunId + 1))
  {
    hide Lacks;
  }

  lemma DefaultExpressionIsCString(expression: Option<string>)
    requires expression.Some? ==> Lacks(expression.value, NUL)
    ensures var e := NonEmpty(expression); Lacks(if e.Some? then e.value else "* * * * *", NUL)
  {
  }

  // ----- any sequence of calls

  ghost function After(b: Book, ops: seq<Op>): Book {
    if ops == [] then b else Do(After(b, ops[..|ops| - 1]), ops[|ops| - 1])
  }

  ghost function NewBook(maxTasks: nat): Book {
    Book([], [], 1, 1, if maxTasks > 0 then maxTasks else 64)
  }

  ghost predicate ValidOps(ops: seq<Op>) {
    forall i :: 0 <= i < |ops| ==> ValidOp(ops[i])
  }

  lemma {:induction false} AfterKeepsBookOk(maxTasks: nat, ops: seq<Op>)
    requires ValidOps(ops)
    ensures BookOk(After(NewBook(maxTasks), ops))
  {
    if ops != [] {
      AfterKeepsBookOk(maxTasks, ops[..|ops| - 1]);
      DoKeepsBookOk(After(NewBook(maxTasks), ops[..|ops| - 1]), ops[|ops| - 1]);
    }
  }

  /** The id that call n hands out, when it adds a job. */
  ghost function IssuedId(b: Book, ops: seq<Op>, n: nat): Option<nat>
    requires n < |ops|
  {
    var before := After(b, ops[..n]);
    if ops[n].Add? && |before.jobs| < before.maxTasks then Some(before.nextJobId) else None
  }

  lemma AfterStep(b: Book, ops: seq<Op>, m: nat)
    requires m < |ops|
    ensures After(b, ops[..m + 1]) == Do(After(b, ops[..m]), ops[m])
  {
    hide Do;
    assert ops[..m + 1][..m] == ops[..m];
  }

  lemma DoKeepsNextJobId(b: Book, op: Op)
    ensures Do(b, op).nextJobId >= b.nextJobId
  {
    hide NewJob, Updated, NewRun;
  }

  lemma {:induction false} NextJobIdGrows(b: Book, ops: seq<Op>, n: nat, m: nat)
    requires n <= m <= |ops|
    ensures After(b, ops[..n]).nextJobId <= After(b, ops[..m]).nextJobId
    decreases m
  {
    hide Do, After;
    if n < m {
      NextJobIdGrows(b, ops, n, m - 1);
      AfterStep(b, ops, m - 1);
      DoKeepsNextJobId(After(b, ops[..m - 1]), ops[m - 1]);
    }
  }

  /** Main result: no job id is ever handed out twice, removals in between or not. */
  lemma IdsAreNeverReused(b: Book, ops: seq<Op>, n: nat, m: nat)
    requires n < m < |ops| && IssuedId(b, ops, n).Some? && IssuedId(b, ops, m).Some?
    ensures IssuedId(b, ops, n).value < IssuedId(b, ops, m).value
  {
    AfterStep(b, ops, n);
    NextJobIdGrows(b, ops, n + 1, m);
  }

  function WithoutId(jobs: seq<Job>, id: nat): seq<Job> {
    if jobs == [] then []
    else (if jobs[0].id == id then [] else [jobs[0]]) + WithoutId(jobs[1..], id)
  }

  lemma {:induction false} WithoutAbsent(jobs: seq<Job>, id: nat)
    requires forall k :: 0 <= k < |jobs| ==> jobs[k].id != id
    ensures WithoutId(jobs, id) == jobs
  {
    if jobs != [] { WithoutAbsent(jobs[1..], id); }
  }

  lemma {:induction false} WithoutConcat(a: seq<Job>, b: seq<Job>, id: nat)
    ensures WithoutId(a + b, id) == WithoutId(a, id) + WithoutId(b, id)
  {
    if a == [] {
      assert a + b == b;
    } else {
      assert (a + b)[0] == a[0] && (a + b)[1..] == a[1..] + b;
      WithoutConcat(a[1..], b, id);
    }
  }

  lemma WithoutHead(job: Job, rest: seq<Job>, id: nat)
    requires job.id == id
    ensures WithoutId([job] + rest, id) == WithoutId(rest, id)
  {
    assert ([job] + rest)[1..] == rest;
  }

  lemma WithoutMiddle(front: seq<Job>, job: Job, back: seq<Job>)
    requires forall k :: 0 <= k < |front| ==> front[k].id != job.id
    requires forall k :: 0 <= k < |back| ==> back[k].id != job.id
    ensures WithoutId(front + ([job] + back), job.id) == front + back
  {
    hide WithoutId;
    WithoutConcat(front, [job] + back, job.id);
    WithoutHead(job, back, job.id);
    WithoutAbsent(front, job.id);
    WithoutAbsent(back, job.id);
  }

  lemma RemoveIsFilterOf(jobs: seq<Job>, id: nat)
    requires forall i, j :: 0 <= i < j < |jobs| ==> jobs[i].id < jobs[j].id
    ensures var i := FindJob(jobs, id);
            WithoutId(jobs, id) == if i == |jobs| then jobs else jobs[..i] + jobs[i + 1..]
  {
    hide FindJob, WithoutId;
    var i := FindJob(jobs, id);
    if i == |jobs| {
      WithoutAbsent(jobs, id);
    } else {
      var front, back := jobs[..i], jobs[i + 1..];
      forall k | 0 <= k < |back| ensures back[k].id != id { assert jobs[i].id < jobs[i + 1 + k].id; }
      WithoutMiddle(front, jobs[i], back);
      assert jobs == front + ([jobs[i]] + back);
    }
  }

  /** Removing a job keeps exactly the other jobs, in order. */
  lemma RemoveIsFilter(b: Book, id: nat)
    requires BookOk(b)
    ensures Do(b, Remove(id)) == b.(jobs := WithoutId(b.jobs, id))
  {
    RemoveIsFilterOf(b.jobs, id);
  }

  // ----- queries

  function RunsOf(runs: seq<Run>, jobId: nat): (r: seq<Run>)
    ensures |r| <= |runs|
    ensures forall x :: x in r ==> x in runs && x.jobId == jobId
  {
    if runs == [] then []
    else (if runs[0].jobId == jobId then [runs[0]] else []) + RunsOf(runs[1..], jobId)
  }

  function Reverse<T>(s: seq<T>): (r: seq<T>)
    ensures |r| == |s| && forall k :: 0 <= k < |s| ==> r[k] == s[|s| - 1 - k]
  {
    if s == [] then [] else Reverse(s[1..]) + [s[0]]
  }

  function Take<T>(s: seq<T>, n: nat): seq<T> {
    if n < |s| then s[..n] else s
  }

  lemma {:induction false} RunsOfConcat(a: seq<Run>, b: seq<Run>, jobId: nat)
    ensures RunsOf(a + b, jobId) == RunsOf(a, jobId) + RunsOf(b, jobId)
  {
    if a == [] {
      assert a + b == b;
    } else {
      assert (a + b)[1..] == a[1..] + b;
      RunsOfConcat(a[1..], b, jobId);
    }
  }

  /** The newest runs of a job come first. */
  function Newest(runs: seq<Run>, jobId: nat): seq<Run> {
    Reverse(RunsOf(runs, jobId))
  }

  /** Peeling the last run off, as the loops do that count down. */
  lemma NewestStep(runs: seq<Run>, jobId: nat, i: nat)
    requires 0 < i <= |runs|
    ensures Newest(runs[i - 1..], jobId) ==
            Newest(runs[i..], jobId) + if runs[i - 1].jobId == jobId then [runs[i - 1]] else []
  {
    assert runs[i - 1..][1..] == runs[i..];
  }

  ghost predicate Increasing(runs: seq<Run>) {
    forall i, j :: 0 <= i < j < |runs| ==> runs[i].id < runs[j].id
  }

  lemma {:induction false} RunsOfIncreasing(runs: seq<Run>, jobId: nat)
    requires Increasing(runs)
    ensures Increasing(RunsOf(runs, jobId))
  {
    if runs != [] {
      RunsOfIncreasing(runs[1..], jobId);
      forall x | x in runs[1..] ensures runs[0].id < x.id {
        var k :| 0 <= k < |runs[1..]| && runs[1..][k] == x;
        assert runs[k + 1] == x;
      }
      var rest := RunsOf(runs[1..], jobId);
      assert forall i :: 0 <= i < |rest| ==> rest[i] in rest;
    }
  }

  /** Run ids in a query result strictly decrease, and all its runs are the job's. */
  lemma NewestIdsDecrease(b: Book, jobId: nat, limit: nat)
    requires BookOk(b)
    ensures var r := Take(Newest(b.runs, jobId), limit);
            && (forall i, j :: 0 <= i < j < |r| ==> r[i].id > r[j].id)
            && (forall i :: 0 <= i < |r| ==> r[i].jobId == jobId)
  {
    hide RunsOf;
    RunsOfIncreasing(b.runs, jobId);
    ReverseDecreases(RunsOf(b.runs, jobId), jobId, limit);
  }

  lemma ReverseDecreases(f: seq<Run>, jobId: nat, limit: nat)
    requires Increasing(f) && forall x :: x in f ==> x.jobId == jobId
    ensures var r := Take(Reverse(f), limit);
            && (forall i, j :: 0 <= i < j < |r| ==> r[i].id > r[j].id)
            && (forall i :: 0 <= i < |r| ==> r[i].jobId == jobId)
  {
    var r := Take(Reverse(f), limit);
    forall i | 0 <= i < |r| ensures r[i] == f[|f| - 1 - i] && r[i].jobId == jobId {
      assert f[|f| - 1 - i] in f;
    }
  }

  // ----- what calls do to a place in the job array

  /** An addition that finds the array full and moves the jobs to a larger one. */
  predicate Grows(b: Book, capacity: nat, op: Op) {
    op.Add? && capacity <= |b.jobs| < b.maxTasks
  }

  /** One of the calls moves the jobs out of an array of this capacity. */
  ghost predicate SomeGrows(b: Book, capacity: nat, ops: seq<Op>) {
    exists m :: 0 <= m < |ops| && Grows(After(b, ops[..m]), capacity, ops[m])
  }

  /** One of the calls removes the job at i or one that stands before it. */
  ghost predicate RemovesUpTo(b: Book, i: nat, ops: seq<Op>)
    requires i < |b.jobs|
  {
    exists m, k :: 0 <= m < |ops| && 0 <= k <= i && ops[m] == Remove(b.jobs[k].id)
  }

  /** The jobs up to i are where they were. */
  ghost predicate Intact(b: Book, i: nat, now: Book)
    requires i < |b.jobs|
  {
    i < |now.jobs| && forall k :: 0 <= k <= i ==> now.jobs[k].id == b.jobs[k].id
  }

  /** From i on there are only younger jobs. */
  ghost predicate Shifted(b: Book, i: nat, now: Book)
    requires i < |b.jobs|
  {
    forall k :: i <= k < |now.jobs| ==> now.jobs[k].id > b.jobs[i].id
  }

  lemma RemovalShifts(b: Book, i: nat, now: Book, k: nat)
    requires i < |b.jobs| && BookOk(now) && Intact(b, i, now) && k <= i
    ensures Shifted(b, i, Do(now, Remove(b.jobs[k].id)))
  {
    hide Lacks;
    FindJobIs(now.jobs, b.jobs[k].id, k);
  }

  lemma CallKeepsIntact(b: Book, i: nat, now: Book, op: Op)
    requires i < |b.jobs| && Intact(b, i, now)
    requires forall k :: 0 <= k <= i ==> op != Remove(b.jobs[k].id)
    ensures Intact(b, i, Do(now, op))
  {
    hide NewJob, NewRun;
    if op.Remove? { assert FindJob(now.jobs, op.id) > i; }
  }

  lemma CallKeepsShifted(b: Book, i: nat, now: Book, op: Op)
    requires i < |b.jobs| && Shifted(b, i, now) && b.jobs[i].id < now.nextJobId
    ensures Shifted(b, i, Do(now, op))
  {
    hide NewRun, FindJob;
  }

  lemma CallMovesPlace(b: Book, i: nat, now: Book, op: Op)
    requires i < |b.jobs| && BookOk(now) && b.jobs[i].id < now.nextJobId
    ensures Intact(b, i, now) ==>
              if exists k :: 0 <= k <= i && op == Remove(b.jobs[k].id) then Shifted(b, i, Do(now, op))
              else Intact(b, i, Do(now, op))
    ensures Shifted(b, i, now) ==> Shifted(b, i, Do(now, op))
  {
    hide Do, Intact, Shifted, BookOk;
    if Shifted(b, i, now) { CallKeepsShifted(b, i, now, op); }
    if Intact(b, i, now) {
      if k :| 0 <= k <= i && op == Remove(b.jobs[k].id) {
        RemovalShifts(b, i, now, k);
      } else {
        CallKeepsIntact(b, i, now, op);
      }
    }
  }

  /** After any calls the index i names the same job exactly when none of them has removed that
      job or one that stood before it. */
  lemma IndexKeepsJobIff(b: Book, i: nat, ops: seq<Op>)
    requires BookOk(b) && ValidOps(ops) && i < |b.jobs|
    ensures var now := After(b, ops);
            i < |now.jobs| && now.jobs[i].id == b.jobs[i].id <==> !RemovesUpTo(b, i, ops)
  {
    hide BookOk;
    PlaceAfter(b, i, ops);
  }

  lemma {:induction false} PlaceAfter(b: Book, i: nat, ops: seq<Op>)
    requires BookOk(b) && ValidOps(ops) && i < |b.jobs|
    ensures BookOk(After(b, ops)) && b.jobs[i].id < After(b, ops).nextJobId
    ensures if RemovesUpTo(b, i, ops) then Shifted(b, i, After(b, ops)) else Intact(b, i, After(b, ops))
    decreases |ops|
  {
    hide Do, BookOk, Intact, Shifted, RemovesUpTo;
    if ops == [] {
      PlaceAtStart(b, i);
    } else {
      var before, op := ops[..|ops| - 1], ops[|ops| - 1];
      assert ops == before + [op];
      PlaceAfter(b, i, before);
      DoKeepsBookOk(After(b, before), op);
      CallMovesPlace(b, i, After(b, before), op);
      RemovesStep(b, i, before, op);
    }
  }

  lemma PlaceAtStart(b: Book, i: nat)
    requires BookOk(b) && i < |b.jobs|
    ensures Intact(b, i, b) && b.jobs[i].id < b.nextJobId && !RemovesUpTo(b, i, [])
  {
  }

  lemma RemovesStep(b: Book, i: nat, ops: seq<Op>, op: Op)
    requires i < |b.jobs|
    ensures RemovesUpTo(b, i, ops + [op]) <==>
            RemovesUpTo(b, i, ops) || exists k :: 0 <= k <= i && op == Remove(b.jobs[k].id)
  {
    var more := ops + [op];
    if RemovesUpTo(b, i, ops) {
      var m, k :| 0 <= m < |ops| && 0 <= k <= i && ops[m] == Remove(b.jobs[k].id);
      assert more[m] == Remove(b.jobs[k].id);
    }
    if k :| 0 <= k <= i && op == Remove(b.jobs[k].id) {
      assert more[|ops|] == Remove(b.jobs[k].id);
    }
  }

  // ----- the arrays

  class Scheduler {
    var jobs: array<Job>
    var jobsLen: nat
    var runs: array<Run>
    var runsLen: nat
    var nextJobId: nat
    var nextRunId: nat
    const maxTasks: nat
    var scratch: array<Run>

    ghost predicate Shape()
      reads this
    {
      jobsLen <= jobs.Length <= maxTasks && runsLen <= runs.Length && scratch != runs
    }

    ghost function State(): Book
      requires Shape()
      reads this, jobs, runs
    {
      Book(jobs[..jobsLen], runs[..runsLen], nextJobId, nextRunId, maxTasks)
    }

    ghost predicate Valid()
      reads this, jobs, runs
    {
      Shape() && BookOk(State())
    }

    constructor (maxTasks: nat)
      ensures Valid() && fresh(jobs) && fresh(runs) && fresh(scratch)
      ensures State() == NewBook(maxTasks)
    {
      this.maxTasks := if maxTasks > 0 then maxTasks else 64;
      jobs := new Job[0];
      runs := new Run[0];
      scratch := new Run[0];
      jobsLen, runsLen, nextJobId, nextRunId := 0, 0, 1, 1;
    }

    method EnsureJobCapacity()
      requires Shape() && jobsLen < maxTasks
      modifies this`jobs
      ensures Shape() && State() == old(State()) && jobsLen < jobs.Length
      ensures if jobsLen < old(jobs.Length) then jobs == old(jobs) else fresh(jobs)
    {
      if jobsLen >= jobs.Length {
        var newCap := if jobs.Length == 0 then 8 else jobs.Length * 2;
        if newCap > maxTasks { newCap := maxTasks; }
        var grown := new Job[newCap];
        forall k | 0 <= k < jobsLen { grown[k] := jobs[k]; }
        assert grown[..jobsLen] == jobs[..jobsLen];
        jobs := grown;
      }
    }

    method EnsureRunCapacity()
      requires Shape()
      modifies this`runs
      ensures Shape() && State() == old(State()) && runsLen < runs.Length
      ensures runs == old(runs) || fresh(runs)
    {
      if runsLen >= runs.Length {
        var newCap := if runs.Length == 0 then 32 else runs.Length * 2;
        var grown := new Run[newCap];
        forall k | 0 <= k < runsLen { grown[k] := runs[k]; }
        assert grown[..runsLen] == runs[..runsLen];
        runs := grown;
      }
    }

    /** sc_cron_add_job and sc_cron_add_agent_job. */
    method AddJob(kind: JobKind, expression: Option<string>, command: string, channel: Option<string>,
                  name: Option<string>, now: int) returns (id: Option<nat>)
      requires Valid() && (expression.Some? ==> Lacks(expression.value, NUL))
      modifies this, jobs
      ensures Valid() && runs == old(runs) && scratch == old(scratch) && (jobs == old(jobs) || fresh(jobs))
      ensures State() == Do(old(State()), Add(kind, expression, command, channel, name, now))
      ensures id == if old(jobsLen) < maxTasks then Some(old(nextJobId)) else None
      ensures jobs == old(jobs) <==> !(old(jobs.Length) <= old(jobsLen) < maxTasks)
    {
      hide BookOk, NewJob;
      ghost var before := State();
      DoKeepsBookOk(before, Add(kind, expression, command, channel, name, now));
      if jobsLen >= maxTasks { return None; }
      EnsureJobCapacity();
      id := Some(nextJobId);
      jobs[jobsLen] := NewJob(nextJobId, kind, expression, command, channel, name, now);
      nextJobId := nextJobId + 1;
      jobsLen := jobsLen + 1;
      assert jobs[..jobsLen] == before.jobs + [jobs[jobsLen - 1]];
    }

    method IndexOfJob(id: nat) returns (i: nat)
      requires Valid()
      ensures i == FindJob(jobs[..jobsLen], id)
    {
      i := 0;
      while i < jobsLen
        invariant 0 <= i <= jobsLen && forall k :: 0 <= k < i ==> jobs[k].id != id
      {
        if jobs[i].id == id {
          FindJobIs(jobs[..jobsLen], id, i);
          return;
        }
        i := i + 1;
      }
      FindJobIs(jobs[..jobsLen], id, i);
    }

    /** memmove closes the gap at i. */
    method CloseGap(i: nat)
      requires Shape() && i < jobsLen
      modifies this`jobsLen, jobs
      ensures Shape() && State() == old(State()).(jobs := old(jobs[..jobsLen])[..i] + old(jobs[..jobsLen])[i + 1..])
    {
      ghost var before := jobs[..jobsLen];
      var k := i;
      while k < jobsLen - 1
        invariant i <= k <= jobsLen - 1
        invariant forall j :: 0 <= j < i || k <= j < jobsLen ==> jobs[j] == before[j]
        invariant forall j :: i <= j < k ==> jobs[j] == before[j + 1]
        modifies jobs
      {
        jobs[k] := jobs[k + 1];
        k := k + 1;
      }
      jobsLen := jobsLen - 1;
      assert jobs[..jobsLen] == before[..i] + before[i + 1..];
    }

    method RemoveJob(id: nat) returns (found: bool)
      requires Valid()
      modifies this`jobsLen, jobs
      ensures Valid() && State() == Do(old(State()), Remove(id))
      ensures found <==> FindJob(old(jobs[..jobsLen]), id) < old(jobsLen)
    {
      hide FindJob, BookOk;
      DoKeepsBookOk(State(), Remove(id));
      var i := IndexOfJob(id);
      if i == jobsLen { return false; }
      CloseGap(i);
      return true;
    }

    method UpdateJob(id: nat, expression: Option<string>, command: Option<string>, enabled: Option<bool>)
      returns (found: bool)
      requires Valid() && (expression.Some? ==> Lacks(expression.value, NUL))
      modifies jobs
      ensures Valid() && State() == Do(old(State()), Update(id, expression, command, enabled))
      ensures found <==> FindJob(old(jobs[..jobsLen]), id) < jobsLen
    {
      hide FindJob, BookOk;
      ghost var before := State();
      DoKeepsBookOk(before, Update(id, expression, command, enabled));
      var i := IndexOfJob(id);
      if i == jobsLen { return false; }
      var e, c := NonEmpty(expression), NonEmpty(command);
      var job := jobs[i];
      if e.Some? { job := job.(expression := e.value); }
      if c.Some? { job := job.(command := c.value); }
      if enabled.Some? { job := job.(enabled := enabled.value); }
      jobs[i] := job;
      assert jobs[..jobsLen] == before.jobs[i := Updated(before.jobs[i], expression, command, enabled)];
      return true;
    }

    method SetJobOneShot(id: nat, oneShot: bool) returns (found: bool)
      requires Valid()
      modifies jobs
      ensures Valid() && State() == Do(old(State()), SetOneShot(id, oneShot))
      ensures found <==> FindJob(old(jobs[..jobsLen]), id) < jobsLen
    {
      hide FindJob, BookOk;
      ghost var before := State();
      DoKeepsBookOk(before, SetOneShot(id, oneShot));
      var i := IndexOfJob(id);
      if i == jobsLen { return false; }
      jobs[i] := jobs[i].(oneShot := oneShot);
      assert jobs[..jobsLen] == before.jobs[i := before.jobs[i].(oneShot := oneShot)];
      return true;
    }

    method AddRun(jobId: nat, startedAt: int, status: Option<string>, output: Option<string>) returns (ok: bool)
      requires Valid()
      modifies this, runs
      ensures Valid() && jobs == old(jobs) && scratch == old(scratch) && (runs == old(runs) || fresh(runs))
      ensures State() == Do(old(State()), Record(jobId, startedAt, status, output))
      ensures ok <==> old(runsLen) < maxTasks * 64
    {
      hide BookOk, NewRun;
      ghost var before := State();
      DoKeepsBookOk(before, Record(jobId, startedAt, status, output));
      if runsLen >= maxTasks * 64 { return false; }
      EnsureRunCapacity();
      runs[runsLen] := NewRun(nextRunId, jobId, startedAt, status, output);
      nextRunId := nextRunId + 1;
      runsLen := runsLen + 1;
      assert runs[..runsLen] == before.runs + [runs[runsLen - 1]];
      return true;
    }

    /** Any of the calls that change the scheduler. */
    method Call(op: Op)
      requires Valid() && ValidOp(op)
      modifies this, jobs, runs
      ensures Valid() && State() == Do(old(State()), op)
      ensures jobs == old(jobs) || fresh(jobs)
      ensures runs == old(runs) || fresh(runs)
      ensures jobs == old(jobs) <==> !Grows(old(State()), old(jobs.Length), op)
    {
      hide Do, BookOk;
      match op
      case Add(kind, expression, command, channel, name, now) =>
        var _ := AddJob(kind, expression, command, channel, name, now);
      case Remove(id) => var _ := RemoveJob(id);
      case Update(id, expression, command, enabled) => var _ := UpdateJob(id, expression, command, enabled);
      case SetOneShot(id, oneShot) => var _ := SetJobOneShot(id, oneShot);
      case Record(jobId, startedAt, status, output) => var _ := AddRun(jobId, startedAt, status, output);
    }

    /** The counting pass and the filling pass agree: the scratch buffer's first `count`
        entries are exactly the newest `limit` runs of the job. */
    method ListRuns(jobId: nat, limit: nat) returns (count: nat)
      requires Valid()
      modifies this`scratch, scratch
      ensures Valid() && State() == old(State()) && jobs == old(jobs) && runs == old(runs)
      ensures scratch == old(scratch) || fresh(scratch)
      ensures count <= scratch.Length && scratch[..count] == Take(Newest(runs[..runsLen], jobId), limit)
    {
      hide Newest, BookOk;
      ghost var log := runs[..runsLen];
      var n := 0;
      var i := runsLen;
      NewestNone(log, jobId);
      while i > 0
        invariant 0 <= i <= runsLen && n == |Newest(log[i..], jobId)|
        modifies {}
      {
        NewestStep(log, jobId, i);
        if runs[i - 1].jobId == jobId { n := n + 1; }
        i := i - 1;
      }
      assert log[0..] == log;
      if n > limit { n := limit; }
      if n == 0 { return 0; }
      if n > scratch.Length {
        scratch := new Run[n];
      }
      var idx := 0;
      i := runsLen;
      while i > 0 && idx < n
        invariant 0 <= i <= runsLen && idx <= n
        invariant idx == |Newest(log[i..], jobId)| && Newest(log[i..], jobId) <= Newest(log, jobId)
        invariant scratch[..idx] == Newest(log[i..], jobId)
        modifies scratch
      {
        NewestStep(log, jobId, i);
        NewestPrefix(log, jobId, i - 1);
        if runs[i - 1].jobId == jobId {
          scratch[idx] := runs[i - 1];
          idx := idx + 1;
        }
        i := i - 1;
      }
      assert log[0..] == log;
      return n;
    }
  }

  lemma NewestNone(runs: seq<Run>, jobId: nat)
    ensures Newest(runs[|runs|..], jobId) == [] && Newest(runs[|runs|..], jobId) <= Newest(runs, jobId)
  {
  }

  lemma ReverseOfSum<T>(a: seq<T>, b: seq<T>)
    ensures Reverse(b) <= Reverse(a + b)
  {
    assert forall k :: 0 <= k < |b| ==> Reverse(a + b)[k] == (a + b)[|a| + |b| - 1 - k] == b[|b| - 1 - k];
  }

  lemma NewestPrefix(runs: seq<Run>, jobId: nat, i: nat)
    requires i <= |runs|
    ensures Newest(runs[i..], jobId) <= Newest(runs, jobId)
  {
    hide Reverse, RunsOf;
    RunsOfConcat(runs[..i], runs[i..], jobId);
    assert runs[..i] + runs[i..] == runs;
    ReverseOfSum(RunsOf(runs[..i], jobId), RunsOf(runs[i..], jobId));
  }

  // ----- what the calls do, field by field

  /** A job added is the last one; it is enabled, runs again and again, and carries the texts given,
      empty ones counting as none, and every minute as its default expression. */
  lemma AddedJob(b: Book, kind: JobKind, expression: Option<string>, command: string, channel: Option<string>,
                 name: Option<string>, now: int)
    requires |b.jobs| < b.maxTasks
    ensures var b' := Do(b, Add(kind, expression, command, channel, name, now));
            && |b'.jobs| == |b.jobs| + 1 && b'.jobs[..|b.jobs|] == b.jobs
            && var job := b'.jobs[|b.jobs|];
               && job.id == b.nextJobId && job.kind == kind && job.command == command && job.createdAt == now
               && job.enabled && !job.paused && !job.oneShot
               && job.expression == (if expression.Some? && expression.value != "" then expression.value
                                     else "* * * * *")
               && job.name == (if name.Some? && name.value != "" then name else None)
               && job.channel == (if kind == JobKind.Agent && channel.Some? && channel.value != "" then channel
                                  else None)
  {
  }

  /** An update of a job changes the fields given, the texts only when they are not empty, and
      leaves the other fields and the other jobs alone. */
  lemma UpdatedJob(b: Book, i: nat, expression: Option<string>, command: Option<string>, enabled: Option<bool>)
    requires BookOk(b) && i < |b.jobs|
    ensures var b' := Do(b, Update(b.jobs[i].id, expression, command, enabled));
            && b' == b.(jobs := b'.jobs) && |b'.jobs| == |b.jobs|
            && (forall k :: 0 <= k < |b.jobs| && k != i ==> b'.jobs[k] == b.jobs[k])
            && var job, was := b'.jobs[i], b.jobs[i];
               && job.enabled == (if enabled == Some(true) then true else if enabled == Some(false) then false
                                  else was.enabled)
               && job.expression == (if expression.Some? && expression.value != "" then expression.value
                                     else was.expression)
               && job.command == (if command.Some? && command.value != "" then command.value else was.command)
               && job.id == was.id && job.kind == was.kind && job.name == was.name && job.channel == was.channel
               && job.paused == was.paused && job.oneShot == was.oneShot && job.createdAt == was.createdAt
  {
    hide Lacks;
    FindJobIs(b.jobs, b.jobs[i].id, i);
  }

  /** Setting the one-shot flag changes that flag of that job. */
  lemma OneShotJob(b: Book, i: nat, oneShot: bool)
    requires BookOk(b) && i < |b.jobs|
    ensures Do(b, SetOneShot(b.jobs[i].id, oneShot)) == b.(jobs := b.jobs[i := b.jobs[i].(oneShot := oneShot)])
  {
    hide Lacks;
    FindJobIs(b.jobs, b.jobs[i].id, i);
  }

  /** A record is the last one, and carries what it was given; up to 64 records a task are kept. */
  lemma RecordedRun(b: Book, jobId: nat, at: int, status: Option<string>, output: Option<string>)
    ensures var b' := Do(b, Record(jobId, at, status, output));
            if |b.runs| >= 64 * b.maxTasks then b' == b
            else
              && |b'.runs| == |b.runs| + 1 && b'.runs[..|b.runs|] == b.runs && b'.jobs == b.jobs
              && var run := b'.runs[|b.runs|];
                 && run.id == b.nextRunId && run.jobId == jobId && run.startedAt == at && run.finishedAt == at
                 && run.status == (if status.Some? && status.value != "" then status.value else "executed")
                 && run.output == (if output.Some? && output.value != "" then output else None)
  {
  }

  /** A call about an id that no job has changes nothing. */
  lemma UnknownIdChangesNothing(b: Book, id: nat, expression: Option<string>, command: Option<string>,
                                enabled: Option<bool>, oneShot: bool)
    requires forall k :: 0 <= k < |b.jobs| ==> b.jobs[k].id != id
    ensures Do(b, Remove(id)) == b && Do(b, SetOneShot(id, oneShot)) == b
    ensures Do(b, Update(id, expression, command, enabled)) == b
  {
    FindJobIs(b.jobs, id, |b.jobs|);
  }

  /** A new scheduler has no jobs and runs, ids from 1, and 64 tasks unless told otherwise. */
  lemma NewScheduler(maxTasks: nat)
    ensures var b := NewBook(maxTasks);
            && b.jobs == [] && b.runs == [] && b.nextJobId == 1 && b.nextRunId == 1
            && (maxTasks == 0 ==> b.maxTasks == 64) && (maxTasks > 0 ==> b.maxTasks == maxTasks)
  {
  }

  lemma {:induction false} RunsOfAll(runs: seq<Run>, jobId: nat)
    ensures forall x :: x in RunsOf(runs, jobId) <==> x in runs && x.jobId == jobId
  {
    if runs != [] { RunsOfAll(runs[1..], jobId); }
  }

  /** A query gives the newest runs of the job, as many as asked for: none of the job's runs that
      it leaves out is newer than one it gives, and it leaves none out unless the limit is met. */
  lemma QueryIsNewest(b: Book, jobId: nat, limit: nat, x: Run)
    requires BookOk(b) && x in b.runs && x.jobId == jobId
    ensures var r := Take(Newest(b.runs, jobId), limit);
            && |r| <= limit
            && (x !in r ==> |r| == limit && forall k :: 0 <= k < |r| ==> r[k].id > x.id)
  {
    hide RunsOf, Lacks;
    RunsOfAll(b.runs, jobId);
    RunsOfIncreasing(b.runs, jobId);
    var f := RunsOf(b.runs, jobId);
    var i :| 0 <= i < |f| && f[i] == x;
    var all := Reverse(f);
    assert all[|f| - 1 - i] == x;
    var r := Take(all, limit);
    if x !in r {
      assert limit <= |f| - 1 - i;
      assert forall k :: 0 <= k < |r| ==> r[k] == f[|f| - 1 - k];
    }
  }
}
