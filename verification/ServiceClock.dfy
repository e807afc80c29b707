/** The clock-driven part of sc_service_run in src/daemon.c: the minute guard, the
    proactive timer and the daily and weekly latches, over runs of any length. */
module ServiceClock {

  // ----- time

  /** Local time is UTC plus a fixed number of minutes. */
  datatype LocalTime = LocalTime(hour: int, min: int, wday: int)

  function Minute(t: int): int {
    t / 60
  }

  function Local(t: int, zone: int): LocalTime {
    var m := Minute(t) + zone;
    LocalTime(m / 60 % 24, m % 60, (m / 1440 + 4) % 7)   // the epoch was a Thursday
  }

  // ----- one tick

  datatype Clock = Clock(
    lastCronMinute: int,
    proactiveDueAt: int,
    consolidatedToday: bool,
    tunedToday: bool,
    communitiesBuiltThisWeek: bool)

  const START := Clock(0, 0, false, false, false)

  /** What the world supplies to a tick: the time, the random jitter, whether the agent's memory
      and the graph exist, and whether the work succeeds. */
  datatype Reading = Reading(t: int, jitter: nat, memory: bool, graph: bool, consolidateOk: bool, buildOk: bool)

  datatype Effects = Effects(ran: bool, armed: bool, checkedIn: bool, consolidated: bool, tuned: bool, built: bool)

  const IDLE := Effects(false, false, false, false, false, false)

  function Step(c: Clock, r: Reading, zone: int): (Clock, Effects) {
    if Minute(r.t) <= c.lastCronMinute then (c, IDLE)
    else
      var lt := Local(r.t, zone);
      var armed := Minute(r.t) % 60 == 0 && c.proactiveDueAt == 0;
      var due := if armed then r.t + r.jitter else c.proactiveDueAt;
      var checkedIn := due > 0 && r.t >= due;
      var consolidate := lt.hour == 3 && lt.min == 0 && r.memory && !c.consolidatedToday && r.consolidateOk;
      var tune := lt.hour == 4 && lt.min == 0 && r.memory && !c.tunedToday;
      var build := lt.wday == 0 && lt.hour == 2 && lt.min == 0 && r.graph && !c.communitiesBuiltThisWeek && r.buildOk;
      (Clock(Minute(r.t),
             if checkedIn then 0 else due,
             consolidate || (c.consolidatedToday && lt.hour != 4),
             tune || (c.tunedToday && lt.hour != 5),
             build || (c.communitiesBuiltThisWeek && !(lt.wday == 1 && lt.hour == 9))),
       Effects(true, armed, checkedIn, consolidate, tune, build))
  }

  /** The loop variables and static latches of sc_service_run. */
  class ServiceLoop {
    var lastCronMinute: int
    var proactiveDueAt: int
    var consolidatedToday: bool
    var tunedToday: bool
    var communitiesBuiltThisWeek: bool

    ghost function State(): Clock
      reads this
    {
      Clock(lastCronMinute, proactiveDueAt, consolidatedToday, tunedToday, communitiesBuiltThisWeek)
    }

    constructor ()
      ensures State() == START
    {
      lastCronMinute, proactiveDueAt := 0, 0;
      consolidatedToday, tunedToday, communitiesBuiltThisWeek := false, false, false;
    }

    method Tick(r: Reading, zone: int) returns (e: Effects)
      modifies this
      ensures (State(), e) == Step(old(State()), r, zone)
    {
      e := IDLE;
      var currentMinute := r.t / 60;
      if currentMinute > lastCronMinute {
        e := e.(ran := true);
        if currentMinute % 60 == 0 && proactiveDueAt == 0 {
          proactiveDueAt := r.t + r.jitter;
          e := e.(armed := true);
        }
        if proactiveDueAt > 0 && r.t >= proactiveDueAt {
          proactiveDueAt := 0;
          e := e.(checkedIn := true);
        }
        var lt := Local(r.t, zone);
        if lt.hour == 4 { consolidatedToday := false; }
        if lt.hour == 3 && lt.min == 0 && r.memory && !consolidatedToday {
          if r.consolidateOk {
            consolidatedToday := true;
            e := e.(consolidated := true);
          }
        }
        if lt.hour == 5 { tunedToday := false; }
        if lt.hour == 4 && lt.min == 0 && r.memory && !tunedToday {
          tunedToday := true;
          e := e.(tuned := true);
        }
        if lt.wday == 1 && lt.hour == 9 { communitiesBuiltThisWeek := false; }
        if lt.wday == 0 && lt.hour == 2 && lt.min == 0 && r.graph && !communitiesBuiltThisWeek {
          if r.buildOk {
            communitiesBuiltThisWeek := true;
            e := e.(built := true);
          }
        }
        lastCronMinute := currentMinute;
      }
    }
  }

  // ----- runs

  ghost function After(rs: seq<Reading>, zone: int, n: nat): Clock
    requires n <= |rs|
  {
    if n == 0 then START else Step(After(rs, zone, n - 1), rs[n - 1], zone).0
  }

  ghost function EffectsOf(rs: seq<Reading>, zone: int, i: nat): Effects
    requires i < |rs|
  {
    Step(After(rs, zone, i), rs[i], zone).1
  }

  /** Whatever the clock does, the minute latch never goes back and records every body run. */
  lemma {:induction false} MinuteLatchGrows(rs: seq<Reading>, zone: int, i: nat, j: nat)
    requires i <= j <= |rs|
    ensures After(rs, zone, i).lastCronMinute <= After(rs, zone, j).lastCronMinute
    decreases j
  {
    if i < j { MinuteLatchGrows(rs, zone, i, j - 1); }
  }

  /** Main result: over any clock readings the cron body runs at strictly increasing minutes. */
  lemma CronMinutesIncrease(rs: seq<Reading>, zone: int, i: nat, j: nat)
    requires i < j < |rs| && EffectsOf(rs, zone, i).ran && EffectsOf(rs, zone, j).ran
    ensures Minute(rs[i].t) < Minute(rs[j].t)
  {
    MinuteLatchGrows(rs, zone, i + 1, j);
    assert After(rs, zone, i + 1).lastCronMinute == Minute(rs[i].t);
  }

  // ----- the three latched duties, uniformly

  datatype Duty = Consolidate | Tune | Build

  function Period(d: Duty): nat {
    if d.Build? then 10080 else 1440
  }

  function DueAt(d: Duty): nat {
    match d case Consolidate => 180 case Tune => 240 case Build => 120
  }

  /** The latch is cleared in the hour that starts here. */
  function ClearedAt(d: Duty): nat {
    match d case Consolidate => 240 case Tune => 300 case Build => 1980
  }

  /** Minutes since the local day, or the local week from Sunday, began. */
  function Position(d: Duty, t: int, zone: int): int {
    (Minute(t) + zone + if d.Build? then 4 * 1440 else 0) % Period(d)
  }

  /** The number of the local day or week. */
  function PeriodNumber(d: Duty, t: int, zone: int): int {
    (Minute(t) + zone + if d.Build? then 4 * 1440 else 0) / Period(d)
  }

  predicate Did(d: Duty, e: Effects) {
    match d case Consolidate => e.consolidated case Tune => e.tuned case Build => e.built
  }

  predicate Latched(d: Duty, c: Clock) {
    match d case Consolidate => c.consolidatedToday case Tune => c.tunedToday case Build => c.communitiesBuiltThisWeek
  }

  predicate CanDo(d: Duty, r: Reading) {
    match d
    case Consolidate => r.memory && r.consolidateOk
    case Tune => r.memory
    case Build => r.graph && r.buildOk
  }

  lemma DayParts(m: int)
    ensures m / 60 % 24 == m % 1440 / 60 && m % 60 == m % 1440 % 60
  {
    var q, p := m / 1440, m % 1440;
    assert m == 1440 * q + p;
    assert m / 60 == 24 * q + p / 60;
  }

  lemma WeekParts(m: int)
    ensures (m / 1440 + 4) % 7 == (m + 4 * 1440) % 10080 / 1440
    ensures m % 1440 == (m + 4 * 1440) % 10080 % 1440
  {
    var n := m + 4 * 1440;
    var q, p := n / 10080, n % 10080;
    assert n == 10080 * q + p;
    assert n / 1440 == 7 * q + p / 1440;
    assert n / 1440 == m / 1440 + 4;
    assert n % 1440 == p % 1440 && n % 1440 == m % 1440;
  }

  /** The hour, minute and weekday tests of the code are positions in the period. */
  lemma DutyStep(d: Duty, c: Clock, r: Reading, zone: int)
    ensures var (c', e) := Step(c, r, zone);
            var p := Position(d, r.t, zone);
            && (!e.ran ==> c' == c && !Did(d, e))
            && (e.ran ==>
                  && (Did(d, e) <==> p == DueAt(d) && CanDo(d, r) && !Latched(d, c))
                  && (Latched(d, c') <==>
                        Did(d, e) || (Latched(d, c) && !(ClearedAt(d) <= p < ClearedAt(d) + 60))))
  {
    var m := Minute(r.t) + zone;
    DayParts(m);
    WeekParts(m);
  }

  /** Main result: over any clock readings each duty is done at most once in its day or week. */
  lemma AtMostOncePerPeriod(d: Duty, rs: seq<Reading>, zone: int, i: nat, j: nat)
    requires i < j < |rs| && Did(d, EffectsOf(rs, zone, i)) && Did(d, EffectsOf(rs, zone, j))
    ensures PeriodNumber(d, rs[i].t, zone) < PeriodNumber(d, rs[j].t, zone)
  {
    DutyStep(d, After(rs, zone, i), rs[i], zone);
    DutyStep(d, After(rs, zone, j), rs[j], zone);
    CronMinutesIncrease(rs, zone, i, j);
  }

  /** A body run in the hour that clears the latch. */
  ghost predicate Clears(d: Duty, rs: seq<Reading>, zone: int, k: nat)
    requires k < |rs|
  {
    EffectsOf(rs, zone, k).ran && ClearedAt(d) <= Position(d, rs[k].t, zone) < ClearedAt(d) + 60
  }

  /** Exactly when a latch is set: the duty was done and no body has run in the clearing hour since. */
  lemma {:induction false} LatchedIff(d: Duty, rs: seq<Reading>, zone: int, n: nat)
    requires n <= |rs|
    ensures Latched(d, After(rs, zone, n)) <==>
            exists j: nat :: j < n && Did(d, EffectsOf(rs, zone, j)) &&
              forall k: nat :: j < k < n ==> !Clears(d, rs, zone, k)
  {
    hide Step, Position, ClearedAt;
    if n == 0 {
      assert !Latched(d, START);
    } else {
      LatchedIff(d, rs, zone, n - 1);
      DutyStep(d, After(rs, zone, n - 1), rs[n - 1], zone);
      DoneOrCleared(d, rs, zone, n - 1);
      assert Latched(d, After(rs, zone, n)) <==>
        Did(d, EffectsOf(rs, zone, n - 1)) || (Latched(d, After(rs, zone, n - 1)) && !Clears(d, rs, zone, n - 1));
    }
  }

  lemma DoneOrCleared(d: Duty, rs: seq<Reading>, zone: int, k: nat)
    requires k < |rs|
    ensures !(Did(d, EffectsOf(rs, zone, k)) && Clears(d, rs, zone, k))
  {
    DutyStep(d, After(rs, zone, k), rs[k], zone);
  }

  /** When a duty is done, in terms of the run alone: a body runs at its minute, the work can be
      done, and the clearing hour has been seen since the last time. */
  lemma DoneIff(d: Duty, rs: seq<Reading>, zone: int, i: nat)
    requires i < |rs|
    ensures Did(d, EffectsOf(rs, zone, i)) <==>
            && EffectsOf(rs, zone, i).ran && Position(d, rs[i].t, zone) == DueAt(d) && CanDo(d, rs[i])
            && forall j: nat :: j < i && Did(d, EffectsOf(rs, zone, j)) ==>
                 exists k: nat :: j < k < i && Clears(d, rs, zone, k)
  {
    hide Step, Position, ClearedAt, DueAt;
    DutyStep(d, After(rs, zone, i), rs[i], zone);
    LatchedIff(d, rs, zone, i);
  }

  // ----- runs with a tick in every minute

  /** The clock never goes back and never skips a minute. */
  ghost predicate Steady(rs: seq<Reading>) {
    && (forall i :: 0 <= i < |rs| ==> rs[i].t >= 60 && rs[i].jitter <= 1800)
    && (forall i :: 0 <= i < |rs| - 1 ==> rs[i].t <= rs[i + 1].t && Minute(rs[i + 1].t) <= Minute(rs[i].t) + 1)
  }

  lemma {:induction false} SteadyLatch(rs: seq<Reading>, zone: int, n: nat)
    requires Steady(rs) && 0 < n <= |rs|
    ensures After(rs, zone, n).lastCronMinute == Minute(rs[n - 1].t)
    ensures EffectsOf(rs, zone, n - 1).ran <==> n == 1 || Minute(rs[n - 2].t) < Minute(rs[n - 1].t)
  {
    if n > 1 { SteadyLatch(rs, zone, n - 1); }
  }

  /** The body runs in every minute the run passes through. */
  lemma {:induction false} EveryMinuteRuns(rs: seq<Reading>, zone: int, m: int) returns (k: nat)
    requires Steady(rs) && |rs| > 0 && Minute(rs[0].t) <= m <= Minute(rs[|rs| - 1].t)
    ensures k < |rs| && Minute(rs[k].t) == m && EffectsOf(rs, zone, k).ran
  {
    k := 0;
    while Minute(rs[k].t) < m
      invariant k < |rs| && Minute(rs[k].t) <= m
      invariant k > 0 ==> Minute(rs[k - 1].t) < m
      decreases |rs| - k
    {
      k := k + 1;
    }
    SteadyLatch(rs, zone, k + 1);
  }

  /** On a steady run a set latch means the run is still between the duty and the clearing hour. */
  lemma {:induction false} SteadyWindow(d: Duty, rs: seq<Reading>, zone: int, n: nat)
    requires Steady(rs) && 0 < n <= |rs| && Latched(d, After(rs, zone, n))
    ensures DueAt(d) <= Position(d, rs[n - 1].t, zone) < ClearedAt(d)
  {
    hide Step;
    DutyStep(d, After(rs, zone, n - 1), rs[n - 1], zone);
    SteadyLatch(rs, zone, n);
    if !Did(d, EffectsOf(rs, zone, n - 1)) && n > 1 {
      SteadyWindow(d, rs, zone, n - 1);
      NextPosition(d, rs[n - 2].t, rs[n - 1].t, zone);
    }
  }

  lemma NextPosition(d: Duty, t: int, t': int, zone: int)
    requires Minute(t) <= Minute(t') <= Minute(t) + 1
    ensures var p, p' := Position(d, t, zone), Position(d, t', zone);
            p' == p || p' == p + 1 || (p' == 0 && p == Period(d) - 1)
  {
  }

  /** Period and position give the minute. */
  lemma SameMinute(d: Duty, t: int, t': int, zone: int)
    requires PeriodNumber(d, t, zone) == PeriodNumber(d, t', zone) && Position(d, t, zone) == Position(d, t', zone)
    ensures Minute(t) == Minute(t')
  {
  }

  /** On a steady run the latch is clear when a duty's minute comes. */
  lemma NotLatchedWhenDue(d: Duty, rs: seq<Reading>, zone: int, k: nat)
    requires Steady(rs) && k < |rs| && EffectsOf(rs, zone, k).ran && Position(d, rs[k].t, zone) == DueAt(d)
    ensures !Latched(d, After(rs, zone, k))
  {
    hide Step, Position;
    if Latched(d, After(rs, zone, k)) {
      assert k > 0 by { assert !Latched(d, START); }
      SteadyWindow(d, rs, zone, k);
      SteadyLatch(rs, zone, k + 1);
      NextPosition(d, rs[k - 1].t, rs[k].t, zone);
      NextMinuteMoves(d, rs[k - 1].t, rs[k].t, zone);
      assert false;
    }
  }

  lemma NextMinuteMoves(d: Duty, t: int, t': int, zone: int)
    requires Minute(t') == Minute(t) + 1
    ensures Position(d, t', zone) != Position(d, t, zone)
  {
  }

  /** Two ticks that do a duty in the same period are the same tick. */
  lemma DoneByOneTick(d: Duty, rs: seq<Reading>, zone: int, m: int, k: nat, i: nat)
    requires k < |rs| && i < |rs| && EffectsOf(rs, zone, k).ran && Did(d, EffectsOf(rs, zone, i))
    requires Minute(rs[k].t) == m && Position(d, 60 * m, zone) == DueAt(d)
    requires PeriodNumber(d, rs[i].t, zone) == PeriodNumber(d, 60 * m, zone)
    ensures i == k
  {
    hide Step, Position, PeriodNumber;
    DutyStep(d, After(rs, zone, i), rs[i], zone);
    SameMinute(d, rs[i].t, 60 * m, zone);
    if i < k { CronMinutesIncrease(rs, zone, i, k); } else if k < i { CronMinutesIncrease(rs, zone, k, i); }
  }

  lemma PositionOfMinute(d: Duty, t: int, zone: int)
    ensures Position(d, t, zone) == Position(d, 60 * Minute(t), zone)
  {
  }

  /** Main result: on a steady run, in every day (week) whose due minute it passes through, the
      body of that minute does the duty exactly when the work is possible then, and no other tick
      of that day (week) does it. */
  lemma ExactlyOncePerPeriod(d: Duty, rs: seq<Reading>, zone: int, m: int) returns (k: nat)
    requires Steady(rs) && |rs| > 0 && Minute(rs[0].t) <= m <= Minute(rs[|rs| - 1].t)
    requires Position(d, 60 * m, zone) == DueAt(d)
    ensures k < |rs| && Minute(rs[k].t) == m && EffectsOf(rs, zone, k).ran
    ensures Did(d, EffectsOf(rs, zone, k)) <==> CanDo(d, rs[k])
    ensures forall i: nat | i < |rs| && Did(d, EffectsOf(rs, zone, i)) ::
              PeriodNumber(d, rs[i].t, zone) == PeriodNumber(d, 60 * m, zone) ==> i == k
  {
    hide Step, Position, PeriodNumber, Did, CanDo, Latched;
    k := EveryMinuteRuns(rs, zone, m);
    PositionOfMinute(d, rs[k].t, zone);
    DutyStep(d, After(rs, zone, k), rs[k], zone);
    NotLatchedWhenDue(d, rs, zone, k);
    forall i: nat | i < |rs| && Did(d, EffectsOf(rs, zone, i)) &&
                    PeriodNumber(d, rs[i].t, zone) == PeriodNumber(d, 60 * m, zone)
      ensures i == k
    {
      DoneByOneTick(d, rs, zone, m, k, i);
    }
  }

  // ----- the proactive timer

  /** While the timer is armed on a steady run, its time has not come and lies in the first
      half of the hour the run is in. */
  ghost predicate TimerHeld(rs: seq<Reading>, zone: int, n: nat)
    requires 0 < n <= |rs|
  {
    var due := After(rs, zone, n).proactiveDueAt;
    && due >= 0
    && (due > 0 ==>
          && Minute(rs[n - 1].t) <= Minute(due)
          && Minute(due) % 60 <= 30
          && Minute(rs[n - 1].t) / 60 == Minute(due) / 60)
  }

  lemma ArmedWithinHalfHour(t: int, jitter: nat)
    requires Minute(t) % 60 == 0 && jitter <= 1800
    ensures Minute(t) <= Minute(t + jitter) <= Minute(t) + 30
    ensures Minute(t + jitter) % 60 <= 30 && Minute(t + jitter) / 60 == Minute(t) / 60
  {
    var h := Minute(t) / 60;
    assert Minute(t) == 60 * h;
  }

  lemma SameHour(a: int, b: int, c: int)
    requires a <= b <= c && a / 60 == c / 60
    ensures b / 60 == c / 60
  {
  }

  lemma {:induction false} TimerInvariant(rs: seq<Reading>, zone: int, n: nat)
    requires Steady(rs) && 0 < n <= |rs|
    ensures TimerHeld(rs, zone, n)
  {
    hide Local;
    var r, due := rs[n - 1], After(rs, zone, n - 1).proactiveDueAt;
    if n > 1 {
      TimerInvariant(rs, zone, n - 1);
      SteadyLatch(rs, zone, n - 1);
    }
    if EffectsOf(rs, zone, n - 1).armed {
      ArmedWithinHalfHour(r.t, r.jitter);
    } else if n > 1 && due > 0 && Minute(r.t) <= Minute(due) {
      SameHour(Minute(rs[n - 2].t), Minute(r.t), Minute(due));
    }
  }

  /** Main result, first half: on a steady run the timer is armed at the top of every hour. */
  lemma EveryHourArms(rs: seq<Reading>, zone: int, i: nat)
    requires Steady(rs) && i < |rs| && EffectsOf(rs, zone, i).ran
    ensures EffectsOf(rs, zone, i).armed <==> Minute(rs[i].t) % 60 == 0
  {
    hide Local;
    if i > 0 {
      TimerInvariant(rs, zone, i);
      SteadyLatch(rs, zone, i);
      SteadyLatch(rs, zone, i + 1);
    }
  }

  /** An armed timer goes off in the minute of its time or the next one. */
  lemma {:induction false} TimerGoesOff(rs: seq<Reading>, zone: int, n: nat) returns (k: nat)
    requires Steady(rs) && 0 < n <= |rs| && After(rs, zone, n).proactiveDueAt > 0
    requires Minute(rs[|rs| - 1].t) > Minute(After(rs, zone, n).proactiveDueAt)
    ensures n <= k < |rs| && EffectsOf(rs, zone, k).checkedIn
    ensures After(rs, zone, n).proactiveDueAt <= rs[k].t
    ensures Minute(rs[k].t) <= Minute(After(rs, zone, n).proactiveDueAt) + 1
    ensures forall j: nat :: n <= j < k ==> !EffectsOf(rs, zone, j).checkedIn
    decreases |rs| - n
  {
    hide Local;
    TimerInvariant(rs, zone, n);
    SteadyLatch(rs, zone, n);
    assert n < |rs|;
    if EffectsOf(rs, zone, n).checkedIn {
      k := n;
    } else {
      k := TimerGoesOff(rs, zone, n + 1);
    }
  }

  /** Main result, second half: a timer armed by tick i goes off at one tick k before any other
      firing, at or after its arming and under 32 minutes later. */
  lemma ArmedTimerFires(rs: seq<Reading>, zone: int, i: nat) returns (k: nat)
    requires Steady(rs) && i < |rs| && EffectsOf(rs, zone, i).armed
    requires Minute(rs[|rs| - 1].t) >= Minute(rs[i].t) + 31
    ensures i <= k < |rs| && EffectsOf(rs, zone, k).checkedIn
    ensures rs[i].t <= rs[k].t && Minute(rs[k].t) <= Minute(rs[i].t) + 31
    ensures forall j: nat :: i <= j < k ==> !EffectsOf(rs, zone, j).checkedIn
  {
    hide Local;
    if EffectsOf(rs, zone, i).checkedIn {
      k := i;
    } else {
      k := TimerGoesOff(rs, zone, i + 1);
    }
  }

  /** Over any clock readings, two firings have an arming between them. */
  lemma {:induction false} FiringNeedsArming(rs: seq<Reading>, zone: int, k: nat, j: nat) returns (i: nat)
    requires k < j < |rs| && EffectsOf(rs, zone, k).checkedIn && EffectsOf(rs, zone, j).checkedIn
    ensures k < i <= j && EffectsOf(rs, zone, i).armed
  {
    hide Local;
    i := k + 1;
    while !EffectsOf(rs, zone, i).armed
      invariant k < i <= j && After(rs, zone, i).proactiveDueAt == 0
      decreases j - i
    {
      i := i + 1;
    }
  }

  lemma IdleTick(rs: seq<Reading>, zone: int, i: nat)
    requires i < |rs|
    ensures !EffectsOf(rs, zone, i).ran ==> EffectsOf(rs, zone, i) == IDLE
  {
    hide Local;
  }

  lemma SteadyMinutes(rs: seq<Reading>, i: nat, j: nat)
    requires Steady(rs) && i <= j < |rs|
    ensures rs[i].t <= rs[j].t
    decreases j - i
  {
    if i < j { SteadyMinutes(rs, i, j - 1); }
  }

  /** Main result: on a steady run that passes through the first 32 minutes of an hour, exactly
      one tick of that hour checks in, and it does so in those minutes. */
  lemma ExactlyOneCheckInPerHour(rs: seq<Reading>, zone: int, h: int) returns (k: nat)
    requires Steady(rs) && |rs| > 0 && Minute(rs[0].t) <= 60 * h && Minute(rs[|rs| - 1].t) >= 60 * h + 31
    ensures k < |rs| && EffectsOf(rs, zone, k).checkedIn && 60 * h <= Minute(rs[k].t) <= 60 * h + 31
    ensures forall j: nat | j < |rs| && EffectsOf(rs, zone, j).checkedIn :: Minute(rs[j].t) / 60 == h ==> j == k
  {
    hide Step;
    var i := EveryMinuteRuns(rs, zone, 60 * h);
    EveryHourArms(rs, zone, i);
    k := ArmedTimerFires(rs, zone, i);
    forall j: nat | j < |rs| && EffectsOf(rs, zone, j).checkedIn && Minute(rs[j].t) / 60 == h
      ensures j == k
    {
      if j < k { NoSecondCheckIn(rs, zone, j, k, h); } else if k < j { NoSecondCheckIn(rs, zone, k, j, h); }
    }
  }

  /** Between two firings the timer is armed, at the top of a later hour. */
  lemma NoSecondCheckIn(rs: seq<Reading>, zone: int, k: nat, j: nat, h: int)
    requires Steady(rs) && k < j < |rs| && EffectsOf(rs, zone, k).checkedIn && EffectsOf(rs, zone, j).checkedIn
    requires Minute(rs[k].t) / 60 == h
    ensures Minute(rs[j].t) / 60 != h
  {
    hide Step;
    var i := FiringNeedsArming(rs, zone, k, j);
    IdleTick(rs, zone, k);
    IdleTick(rs, zone, i);
    CronMinutesIncrease(rs, zone, k, i);
    EveryHourArms(rs, zone, i);
    SteadyMinutes(rs, i, j);
  }

  // ----- the jitter, and what the work needs

  /** While an armed timer has not fired, its time is the arming plus the jitter. */
  lemma {:induction false} DueStays(rs: seq<Reading>, zone: int, i: nat, k: nat)
    requires i < k <= |rs| && EffectsOf(rs, zone, i).armed
    requires forall j: nat :: i <= j < k ==> !EffectsOf(rs, zone, j).checkedIn
    ensures After(rs, zone, k).proactiveDueAt == rs[i].t + rs[i].jitter > 0
    decreases k
  {
    hide Local;
    if k == i + 1 {
      MinuteLatchGrows(rs, zone, 0, i);
    } else {
      DueStays(rs, zone, i, k - 1);
      assert !EffectsOf(rs, zone, k - 1).checkedIn;
    }
  }

  /** Main result: over any clock readings, an armed timer fires at the first body that runs at or
      after the arming plus its jitter, and not before. */
  lemma FiringWaitsForJitter(rs: seq<Reading>, zone: int, i: nat, k: nat)
    requires i <= k < |rs| && EffectsOf(rs, zone, i).armed
    requires forall j: nat :: i <= j < k ==> !EffectsOf(rs, zone, j).checkedIn
    ensures EffectsOf(rs, zone, k).checkedIn <==>
            EffectsOf(rs, zone, k).ran && rs[k].t >= rs[i].t + rs[i].jitter
    ensures forall j: nat :: i <= j < k && EffectsOf(rs, zone, j).ran ==> rs[j].t < rs[i].t + rs[i].jitter
  {
    FiresWhenDue(rs, zone, i, k);
    forall j: nat | i <= j < k && EffectsOf(rs, zone, j).ran ensures rs[j].t < rs[i].t + rs[i].jitter {
      FiresWhenDue(rs, zone, i, j);
    }
  }

  lemma FiresWhenDue(rs: seq<Reading>, zone: int, i: nat, k: nat)
    requires i <= k < |rs| && EffectsOf(rs, zone, i).armed
    requires forall j: nat :: i <= j < k ==> !EffectsOf(rs, zone, j).checkedIn
    ensures EffectsOf(rs, zone, k).checkedIn <==>
            EffectsOf(rs, zone, k).ran && rs[k].t >= rs[i].t + rs[i].jitter
  {
    hide Local;
    MinuteLatchGrows(rs, zone, 0, i);
    if i < k { DueStays(rs, zone, i, k); }
  }

  /** Armed at 36000 with 900 seconds of jitter the timer does not fire a minute later. */
  lemma JitterExample(r: Reading, later: Reading)
    requires r.t == 36000 && r.jitter == 900 && later.t == 36060
    ensures !EffectsOf([r, later], 0, 1).checkedIn
  {
    assert [r, later][..0] == [] && [r, later][..1] == [r];
    assert EffectsOf([r, later], 0, 0).armed;
    FiringWaitsForJitter([r, later], 0, 0, 1);
  }

  /** Nothing is done without what it works on. */
  lemma WorkNeeds(rs: seq<Reading>, zone: int, i: nat)
    requires i < |rs|
    ensures var e, r := EffectsOf(rs, zone, i), rs[i];
            && (e.consolidated ==> r.memory && r.consolidateOk)
            && (e.tuned ==> r.memory)
            && (e.built ==> r.graph && r.buildOk)
  {
    hide Local;
  }

  /** Local time on three instants: the epoch was a Thursday, and the Sunday after it begins, at
      Greenwich and 90 minutes further east. */
  lemma EpochWeek()
    ensures Local(0, 0) == LocalTime(0, 0, 4)
    ensures Local(3 * 86400, 0) == LocalTime(0, 0, 0)
    ensures Local(3 * 86400 - 5400, 90) == LocalTime(0, 0, 0)
  {
  }

  /** When the duties are done, by the clock on the wall: at 3:00 and 4:00 every day and on Sundays
      at 2:00. */
  lemma DutyHours(rs: seq<Reading>, zone: int, i: nat)
    requires i < |rs|
    ensures var e, lt := EffectsOf(rs, zone, i), Local(rs[i].t, zone);
            && (e.consolidated ==> lt.hour == 3 && lt.min == 0)
            && (e.tuned ==> lt.hour == 4 && lt.min == 0)
            && (e.built ==> lt.wday == 0 && lt.hour == 2 && lt.min == 0)
  {
    hide Local;
  }

  /** When the latches are cleared: by a body in the hour from 4:00, from 5:00, and on Mondays from
      9:00. A body in any other hour leaves a latch that is set as it is. */
  lemma ClearingHours(rs: seq<Reading>, zone: int, i: nat)
    requires i < |rs| && EffectsOf(rs, zone, i).ran
    ensures var was, now, lt := After(rs, zone, i), After(rs, zone, i + 1), Local(rs[i].t, zone);
            && (was.consolidatedToday ==> (now.consolidatedToday <==> lt.hour != 4))
            && (was.tunedToday ==> (now.tunedToday <==> lt.hour != 5))
            && (was.communitiesBuiltThisWeek ==> (now.communitiesBuiltThisWeek <==> !(lt.wday == 1 && lt.hour == 9)))
  {
    hide Local;
  }
}
