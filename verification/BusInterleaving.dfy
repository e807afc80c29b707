/** The event bus of src/bus.c under any interleaving of threads. The mutex is explicit, the
    critical sections go cell by cell, callbacks run unlocked and may call the bus again. */
module BusInterleaving {
  import opened Wrappers
  import opened EventBus

  type Tid = nat

  /** A call into the bus. `byLoop` marks the unsubscribe that publish itself makes for a
      subscriber that returned false. */
  datatype Op =
    | SubscribeOp(sub: Subscriber)
    | UnsubscribeOp(fn: nat, ctx: nat, byLoop: bool)
    | PublishOp(kind: EventType)

  /** A publish that has its snapshot: position in it, and the positions called so far. `at` is
      its place in the log. */
  datatype Pub = Pub(at: nat, kind: EventType, snapshot: seq<Subscriber>, i: nat, called: seq<nat>)

  /** What a thread does next. */
  datatype Act =
    | Idle                                                   // outside the bus, or inside a callback
    | Want(op: Op)                                           // at pthread_mutex_lock
    | Testing(sub: Subscriber)                               // lock held: is the array full?
    | Filling(sub: Subscriber)                               // count raised, cell not yet written
    | Searching(fn: nat, ctx: nat, byLoop: bool, i: nat)
    | Shifting(fn: nat, ctx: nat, byLoop: bool, i: nat, k: nat)
    | Copying(kind: EventType, copied: seq<Subscriber>)
    | Unlocking(op: Op, copied: seq<Subscriber>)             // the work is done
    | Scanning                                               // head of the innermost publish loop

  /** `pubs` are the publishes the thread is in, innermost last. */
  datatype Thread = Thread(act: Act, pubs: seq<Pub>)

  datatype Done = Done(at: nat, kind: EventType, snapshot: seq<Subscriber>, called: seq<nat>)

  /** `list` is the subscriber list as the operations completed so far have left it, `log` those
      operations in the order of their unlocks, `done` the finished publishes. */
  datatype State = State(
    cells: seq<Subscriber>,
    count: nat,
    holder: Option<Tid>,
    threads: map<Tid, Thread>,
    list: seq<Subscriber>,
    log: seq<Op>,
    done: seq<Done>)

  /** The environment's choices: which call to make, what a callback returns. */
  datatype Choice = Call(op: Op) | Return(keep: bool) | Go

  function ThreadOf(s: State, t: Tid): Thread {
    if t in s.threads then s.threads[t] else Thread(Idle, [])
  }

  predicate Holds(a: Act) {
    a.Testing? || a.Filling? || a.Searching? || a.Shifting? || a.Copying? || a.Unlocking?
  }

  /** Where a finished call leaves its thread: back in the loop, or back with the caller. */
  function AfterCall(byLoop: bool): Act {
    if byLoop then Scanning else Idle
  }

  /** The effect of a completed operation on the list. */
  function Apply(list: seq<Subscriber>, op: Op): seq<Subscriber> {
    match op
    case SubscribeOp(sub) => if |list| < MAX_SUBSCRIBERS then list + [sub] else list
    case UnsubscribeOp(fn, ctx, _) => RemovePair(list, fn, ctx)
    case PublishOp(_) => list
  }

  function Replay(log: seq<Op>): seq<Subscriber> {
    if log == [] then [] else Apply(Replay(log[..|log| - 1]), log[|log| - 1])
  }

  // ----- one step of one thread

  function WithAct(s: State, t: Tid, a: Act): State {
    s.(threads := s.threads[t := ThreadOf(s, t).(act := a)])
  }

  function WithThread(s: State, t: Tid, th: Thread): State {
    s.(threads := s.threads[t := th])
  }

  /** The step a thread takes, or None when the choice does not apply or the mutex is taken. */
  function Step(s: State, t: Tid, c: Choice): Option<State>
    requires |s.cells| == MAX_SUBSCRIBERS && s.count <= MAX_SUBSCRIBERS
  {
    var th := ThreadOf(s, t);
    match th.act
    case Idle =>
      if c.Call? && !(c.op.UnsubscribeOp? && c.op.byLoop) then Some(WithAct(s, t, Want(c.op)))
      else if c.Return? && th.pubs != [] then Some(CallbackReturns(s, t, th, c.keep))
      else None
    case Want(op) =>
      if c.Go? && s.holder.None? then Some(WithAct(s, t, Entry(op)).(holder := Some(t))) else None
    case Testing(sub) =>
      if !c.Go? then None
      else if s.count >= MAX_SUBSCRIBERS then Some(WithAct(s, t, Unlocking(SubscribeOp(sub), [])))
      else Some(WithAct(s, t, Filling(sub)).(count := s.count + 1))
    case Filling(sub) =>
      if !c.Go? || s.count == 0 then None
      else Some(WithAct(s, t, Unlocking(SubscribeOp(sub), [])).(cells := s.cells[s.count - 1 := sub]))
    case Searching(fn, ctx, byLoop, i) =>
      if !c.Go? then None
      else if i >= s.count then Some(WithAct(s, t, Unlocking(UnsubscribeOp(fn, ctx, byLoop), [])))
      else if SamePair(s.cells[i], fn, ctx) then Some(WithAct(s, t, Shifting(fn, ctx, byLoop, i, i)))
      else Some(WithAct(s, t, Searching(fn, ctx, byLoop, i + 1)))
    case Shifting(fn, ctx, byLoop, i, k) =>
      if !c.Go? || s.count == 0 then None
      else if k + 1 < s.count
      then Some(WithAct(s, t, Shifting(fn, ctx, byLoop, i, k + 1)).(cells := s.cells[k := s.cells[k + 1]]))
      else Some(WithAct(s, t, Unlocking(UnsubscribeOp(fn, ctx, byLoop), [])).(count := s.count - 1))
    case Copying(kind, copied) =>
      if !c.Go? then None
      else if |copied| < s.count then Some(WithAct(s, t, Copying(kind, copied + [s.cells[|copied|]])))
      else Some(WithAct(s, t, Unlocking(PublishOp(kind), copied)))
    case Unlocking(op, copied) =>
      if c.Go? then Some(Unlock(s, t, th, op, copied)) else None
    case Scanning =>
      if c.Go? && th.pubs != [] then Some(ScanNext(s, t, th)) else None
  }

  function Entry(op: Op): Act {
    match op
    case SubscribeOp(sub) => Testing(sub)
    case UnsubscribeOp(fn, ctx, byLoop) => Searching(fn, ctx, byLoop, 0)
    case PublishOp(kind) => Copying(kind, [])
  }

  function Unlock(s: State, t: Tid, th: Thread, op: Op, copied: seq<Subscriber>): State {
    var th' := match op
      case SubscribeOp(_) => th.(act := Idle)
      case UnsubscribeOp(_, _, byLoop) => th.(act := AfterCall(byLoop))
      case PublishOp(kind) => Thread(Scanning, th.pubs + [Pub(|s.log|, kind, copied, 0, [])]);
    WithThread(s, t, th').(holder := None, list := Apply(s.list, op), log := s.log + [op])
  }

  function ScanNext(s: State, t: Tid, th: Thread): State
    requires th.pubs != []
  {
    var n := |th.pubs| - 1;
    var p := th.pubs[n];
    if p.i >= |p.snapshot| then
      WithThread(s, t, Thread(Idle, th.pubs[..n])).(done := s.done + [Done(p.at, p.kind, p.snapshot, p.called)])
    else if Matches(p.snapshot[p.i], p.kind) then
      WithThread(s, t, Thread(Idle, th.pubs[n := p.(called := p.called + [p.i])]))   // the callback starts
    else
      WithThread(s, t, Thread(Scanning, th.pubs[n := p.(i := p.i + 1)]))
  }

  function CallbackReturns(s: State, t: Tid, th: Thread, keep: bool): State
    requires th.pubs != []
  {
    var n := |th.pubs| - 1;
    var p := th.pubs[n];
    var next := th.pubs[n := p.(i := p.i + 1)];
    if keep || p.i >= |p.snapshot| then WithThread(s, t, Thread(Scanning, next))
    else
      var sub := p.snapshot[p.i];
      WithThread(s, t, Thread(Want(UnsubscribeOp(sub.fn, sub.ctx, true)), next))
  }

  // ----- the invariant

  /** The positions below n that the event concerns, in order. */
  ghost function MatchingBelow(snapshot: seq<Subscriber>, kind: EventType, n: nat): seq<nat>
    requires n <= |snapshot|
  {
    if n == 0 then []
    else MatchingBelow(snapshot, kind, n - 1) + if Matches(snapshot[n - 1], kind) then [n - 1] else []
  }

  /** The publish is in the log, and its snapshot is the list as the operations before it left it. */
  ghost predicate WasList(at: nat, kind: EventType, snapshot: seq<Subscriber>, log: seq<Op>) {
    at < |log| && log[at] == PublishOp(kind) && snapshot == Replay(log[..at])
  }

  ghost predicate AtHead(p: Pub, log: seq<Op>) {
    p.i <= |p.snapshot| && p.called == MatchingBelow(p.snapshot, p.kind, p.i) && WasList(p.at, p.kind, p.snapshot, log)
  }

  ghost predicate InCallback(p: Pub, log: seq<Op>) {
    && p.i < |p.snapshot| && Matches(p.snapshot[p.i], p.kind)
    && p.called == MatchingBelow(p.snapshot, p.kind, p.i + 1) && WasList(p.at, p.kind, p.snapshot, log)
  }

  /** The innermost publish is at its loop head, not in a callback. */
  predicate InLoop(a: Act) {
    match a
    case Scanning => true
    case Want(op) => op.UnsubscribeOp? && op.byLoop
    case Searching(_, _, byLoop, _) => byLoop
    case Shifting(_, _, byLoop, _, _) => byLoop
    case Unlocking(op, _) => op.UnsubscribeOp? && op.byLoop
    case _ => false
  }

  ghost predicate ThreadOk(th: Thread, log: seq<Op>) {
    && (InLoop(th.act) ==> th.pubs != [] && AtHead(th.pubs[|th.pubs| - 1], log))
    && forall k :: 0 <= k < |th.pubs| && !(InLoop(th.act) && k == |th.pubs| - 1) ==> InCallback(th.pubs[k], log)
  }

  ghost predicate CellsHold(s: State, list: seq<Subscriber>) {
    s.count == |list| <= |s.cells| && s.cells[..s.count] == list
  }

  /** The cells from i to k have been closed up; the others are as in the list. */
  ghost predicate ClosedUp(cells: seq<Subscriber>, list: seq<Subscriber>, i: nat, k: nat)
    requires |list| <= |cells|
  {
    && i <= k < |list|
    && (forall j :: 0 <= j < i || k <= j < |list| ==> cells[j] == list[j])
    && (forall j :: i <= j < k ==> cells[j] == list[j + 1])
  }

  /** How the array stands to the list while the mutex is held. */
  ghost predicate WorkOk(s: State, a: Act)
    requires |s.cells| == MAX_SUBSCRIBERS && s.count <= MAX_SUBSCRIBERS
  {
    match a
    case Testing(_) => CellsHold(s, s.list)
    case Filling(_) => s.count == |s.list| + 1 && s.cells[..s.count - 1] == s.list
    case Searching(fn, ctx, _, i) =>
      CellsHold(s, s.list) && i <= s.count && forall j :: 0 <= j < i ==> !SamePair(s.list[j], fn, ctx)
    case Shifting(fn, ctx, _, i, k) =>
      s.count == |s.list| && FirstPair(s.list, fn, ctx) == i && ClosedUp(s.cells, s.list, i, k)
    case Copying(_, copied) => CellsHold(s, s.list) && copied <= s.list
    case Unlocking(op, copied) => CellsHold(s, Apply(s.list, op)) && (op.PublishOp? ==> copied == s.list)
    case _ => true
  }

  ghost predicate ShapeOk(s: State) {
    |s.cells| == MAX_SUBSCRIBERS && s.count <= MAX_SUBSCRIBERS && |s.list| <= MAX_SUBSCRIBERS
  }

  ghost predicate LockOk(s: State) {
    forall t: Tid :: Holds(ThreadOf(s, t).act) <==> s.holder == Some(t)
  }

  ghost predicate DataOk(s: State)
    requires ShapeOk(s)
  {
    if s.holder.None? then CellsHold(s, s.list) else WorkOk(s, ThreadOf(s, s.holder.value).act)
  }

  ghost predicate DoneOk(d: Done, log: seq<Op>) {
    d.called == MatchingBelow(d.snapshot, d.kind, |d.snapshot|) && WasList(d.at, d.kind, d.snapshot, log)
  }

  ghost predicate Inv(s: State) {
    && ShapeOk(s) && LockOk(s) && DataOk(s)
    && s.list == Replay(s.log)
    && (forall t: Tid :: ThreadOk(ThreadOf(s, t), s.log))
    && (forall k :: 0 <= k < |s.done| ==> DoneOk(s.done[k], s.log))
  }

  ghost function Start(cells: seq<Subscriber>): State {
    State(cells, 0, None, map[], [], [], [])
  }

  lemma StartIsOk(cells: seq<Subscriber>)
    requires |cells| == MAX_SUBSCRIBERS
    ensures Inv(Start(cells))
  {
  }

  // ----- preservation

  lemma WasListLater(at: nat, kind: EventType, snapshot: seq<Subscriber>, log: seq<Op>, op: Op)
    requires WasList(at, kind, snapshot, log)
    ensures WasList(at, kind, snapshot, log + [op])
  {
    assert (log + [op])[..at] == log[..at];
  }

  lemma WasListNow(log: seq<Op>, kind: EventType)
    ensures WasList(|log|, kind, Replay(log), log + [PublishOp(kind)])
  {
    assert (log + [PublishOp(kind)])[..|log|] == log;
  }

  lemma ThreadOkLater(th: Thread, log: seq<Op>, op: Op)
    requires ThreadOk(th, log)
    ensures ThreadOk(th, log + [op])
  {
    forall k | 0 <= k < |th.pubs| ensures WasList(th.pubs[k].at, th.pubs[k].kind, th.pubs[k].snapshot, log + [op]) {
      WasListLater(th.pubs[k].at, th.pubs[k].kind, th.pubs[k].snapshot, log, op);
    }
  }

  /** A thread that only changes what it does next, without entering or leaving the loop head. */
  lemma ThreadOkSameLoop(th: Thread, a: Act, log: seq<Op>)
    requires ThreadOk(th, log) && InLoop(a) == InLoop(th.act)
    ensures ThreadOk(th.(act := a), log)
  {
  }

  lemma MatchingBelowStep(snapshot: seq<Subscriber>, kind: EventType, i: nat)
    requires i < |snapshot|
    ensures MatchingBelow(snapshot, kind, i + 1) ==
            MatchingBelow(snapshot, kind, i) + if Matches(snapshot[i], kind) then [i] else []
  {
  }

  lemma ScanKeepsThread(s: State, t: Tid)
    requires |s.cells| == MAX_SUBSCRIBERS && s.count <= MAX_SUBSCRIBERS
    requires var th := ThreadOf(s, t); th.act.Scanning? && th.pubs != [] && ThreadOk(th, s.log)
    ensures var th := ThreadOf(s, t); var s' := ScanNext(s, t, th);
            && ThreadOk(ThreadOf(s', t), s.log)
            && (s'.done == s.done ||
                (|s'.done| == |s.done| + 1 && s'.done[..|s.done|] == s.done && DoneOk(s'.done[|s.done|], s.log)))
  {
    hide MatchingBelow, WasList;
    var th := ThreadOf(s, t);
    var n := |th.pubs| - 1;
    var p := th.pubs[n];
    if p.i >= |p.snapshot| {
      PopKeepsThread(th, s.log);
    } else {
      ScanKeepsPub(p, s.log);
      ReplaceKeepsThread(th, if Matches(p.snapshot[p.i], p.kind) then Idle else Scanning, ScannedPub(p), s.log);
    }
  }

  /** The publish one entry on: the callback starts, or the entry is passed over. */
  function ScannedPub(p: Pub): Pub
    requires p.i < |p.snapshot|
  {
    if Matches(p.snapshot[p.i], p.kind) then p.(called := p.called + [p.i]) else p.(i := p.i + 1)
  }

  lemma ScanKeepsPub(p: Pub, log: seq<Op>)
    requires AtHead(p, log) && p.i < |p.snapshot|
    ensures if Matches(p.snapshot[p.i], p.kind) then InCallback(ScannedPub(p), log) else AtHead(ScannedPub(p), log)
  {
    hide MatchingBelow, WasList;
    MatchingBelowStep(p.snapshot, p.kind, p.i);
  }

  lemma PopKeepsThread(th: Thread, log: seq<Op>)
    requires th.act.Scanning? && th.pubs != [] && ThreadOk(th, log)
    ensures ThreadOk(Thread(Idle, th.pubs[..|th.pubs| - 1]), log)
  {
    hide InCallback, AtHead;
  }

  lemma ReplaceKeepsThread(th: Thread, a: Act, p: Pub, log: seq<Op>)
    requires th.act.Scanning? && th.pubs != [] && ThreadOk(th, log)
    requires (a.Idle? && InCallback(p, log)) || (a.Scanning? && AtHead(p, log))
    ensures ThreadOk(Thread(a, th.pubs[|th.pubs| - 1 := p]), log)
  {
    hide InCallback, AtHead;
  }

  lemma ReturnKeepsThread(s: State, t: Tid, keep: bool)
    requires var th := ThreadOf(s, t); th.act.Idle? && th.pubs != [] && ThreadOk(th, s.log)
    ensures ThreadOk(ThreadOf(CallbackReturns(s, t, ThreadOf(s, t), keep), t), s.log)
  {
    var th := ThreadOf(s, t);
    var p := th.pubs[|th.pubs| - 1];
    assert InCallback(p, s.log);
  }

  lemma PublishEnters(pubs: seq<Pub>, at: nat, kind: EventType, snapshot: seq<Subscriber>, a: Act, log: seq<Op>)
    requires ThreadOk(Thread(a, pubs), log) && !InLoop(a) && WasList(at, kind, snapshot, log)
    ensures ThreadOk(Thread(Scanning, pubs + [Pub(at, kind, snapshot, 0, [])]), log)
  {
    hide InCallback;
  }

  lemma UnlockKeepsThread(s: State, t: Tid)
    requires ShapeOk(s) && s.list == Replay(s.log)
    requires var th := ThreadOf(s, t); th.act.Unlocking? && ThreadOk(th, s.log) && WorkOk(s, th.act)
    ensures var th := ThreadOf(s, t); var s' := Unlock(s, t, th, th.act.op, th.act.copied);
            ThreadOk(ThreadOf(s', t), s'.log)
  {
    hide ThreadOk, WasList, Replay;
    var th := ThreadOf(s, t);
    var op := th.act.op;
    ThreadOkLater(th, s.log, op);
    match op
    case SubscribeOp(_) => ThreadOkSameLoop(th, Idle, s.log + [op]);
    case UnsubscribeOp(_, _, byLoop) => ThreadOkSameLoop(th, AfterCall(byLoop), s.log + [op]);
    case PublishOp(kind) =>
      WasListNow(s.log, kind);
      PublishEnters(th.pubs, |s.log|, kind, th.act.copied, th.act, s.log + [op]);
  }

  /** The log has grown by at most the operation whose unlock this is. */
  ghost predicate LogGrows(s: State, s': State) {
    || (s'.log == s.log && s'.list == s.list)
    || (exists op :: s'.log == s.log + [op] && s'.list == Apply(s.list, op))
  }

  ghost predicate OnlyMoves(s: State, s': State, t: Tid) {
    forall u: Tid :: u != t ==> ThreadOf(s', u) == ThreadOf(s, u)
  }

  lemma StepFrame(s: State, t: Tid, c: Choice)
    requires |s.cells| == MAX_SUBSCRIBERS && s.count <= MAX_SUBSCRIBERS && Step(s, t, c).Some?
    ensures var s' := Step(s, t, c).value; OnlyMoves(s, s', t) && LogGrows(s, s') && |s'.cells| == MAX_SUBSCRIBERS
  {
    if !ThreadOf(s, t).act.Unlocking? { QuietStepFrame(s, t, c); } else { hide Apply; }
  }

  /** A step that is not an unlock logs nothing. */
  lemma QuietStepFrame(s: State, t: Tid, c: Choice)
    requires |s.cells| == MAX_SUBSCRIBERS && s.count <= MAX_SUBSCRIBERS && Step(s, t, c).Some?
    requires !ThreadOf(s, t).act.Unlocking?
    ensures var s' := Step(s, t, c).value;
            OnlyMoves(s, s', t) && s'.log == s.log && s'.list == s.list && |s'.cells| == MAX_SUBSCRIBERS
  {
    hide Apply, Matches;
  }

  lemma StepKeepsThread(s: State, t: Tid, c: Choice)
    requires Inv(s) && Step(s, t, c).Some?
    ensures var s' := Step(s, t, c).value; ThreadOk(ThreadOf(s', t), s'.log)
    ensures var s' := Step(s, t, c).value;
            s'.done == s.done ||
            (|s'.done| == |s.done| + 1 && s'.done[..|s.done|] == s.done && DoneOk(s'.done[|s.done|], s'.log))
  {
    hide ThreadOk, WasList, Replay, DoneOk, WorkOk, Apply;
    var th, s' := ThreadOf(s, t), Step(s, t, c).value;
    match th.act
    case Idle =>
      if c.Return? { ReturnKeepsThread(s, t, c.keep); } else { ThreadOkSameLoop(th, Want(c.op), s.log); }
    case Unlocking(op, copied) =>
      assert s.holder == Some(t);
      UnlockKeepsThread(s, t);
    case Scanning => ScanKeepsThread(s, t);
    case _ => ThreadOkSameLoop(th, ThreadOf(s', t).act, s.log);
  }

  /** Only the thread at the mutex takes it, only its holder gives it back. */
  lemma StepKeepsLock(s: State, t: Tid, c: Choice)
    requires Inv(s) && Step(s, t, c).Some?
    ensures LockOk(Step(s, t, c).value)
  {
    hide ThreadOk, DoneOk, Replay, Apply, WorkOk, Matches;
    var s' := Step(s, t, c).value;
    StepFrame(s, t, c);
    assert Holds(ThreadOf(s, t).act) <==> s.holder == Some(t);
    forall u: Tid ensures Holds(ThreadOf(s', u).act) <==> s'.holder == Some(u) {
      assert Holds(ThreadOf(s, u).act) <==> s.holder == Some(u);
    }
  }

  /** A step outside the critical sections leaves array and list alone, or takes a free mutex. */
  lemma OutsideStep(s: State, t: Tid, c: Choice)
    requires |s.cells| == MAX_SUBSCRIBERS && s.count <= MAX_SUBSCRIBERS && Step(s, t, c).Some?
    requires !Holds(ThreadOf(s, t).act)
    ensures var s' := Step(s, t, c).value;
            && s'.cells == s.cells && s'.count == s.count && s'.list == s.list
            && (s'.holder == s.holder ||
                (s.holder.None? && s'.holder == Some(t) && exists op :: ThreadOf(s', t).act == Entry(op)))
  {
    hide Matches;
  }

  lemma EntryIsOk(s: State, op: Op)
    requires ShapeOk(s) && CellsHold(s, s.list)
    ensures WorkOk(s, Entry(op))
  {
  }

  /** What the data must satisfy depends on array, count, list and the holder's act alone. */
  lemma WorkOkSame(s: State, s': State, a: Act)
    requires ShapeOk(s) && s'.cells == s.cells && s'.count == s.count && s'.list == s.list
    ensures ShapeOk(s') && WorkOk(s', a) == WorkOk(s, a) && CellsHold(s', s'.list) == CellsHold(s, s.list)
  {
  }

  lemma StepKeepsData(s: State, t: Tid, c: Choice)
    requires Inv(s) && Step(s, t, c).Some?
    ensures ShapeOk(Step(s, t, c).value) && DataOk(Step(s, t, c).value)
  {
    hide ThreadOk, DoneOk, Replay, LockOk, WorkOk, CellsHold;
    HolderIs(s, t);
    if Holds(ThreadOf(s, t).act) {
      assert c.Go?;
      WorkGoesOn(s, t);
    } else {
      hide Step, Holds;
      var s' := Step(s, t, c).value;
      StepFrame(s, t, c);
      OutsideStep(s, t, c);
      if s'.holder != s.holder {
        var op :| ThreadOf(s', t).act == Entry(op);
        EntryIsOk(s, op);
        WorkOkSame(s, s', Entry(op));
      } else if s.holder.None? {
        WorkOkSame(s, s', Idle);
      } else {
        assert s.holder.value != t;
        WorkOkSame(s, s', ThreadOf(s, s.holder.value).act);
      }
    }
  }

  lemma HolderIs(s: State, t: Tid)
    requires LockOk(s)
    ensures Holds(ThreadOf(s, t).act) <==> s.holder == Some(t)
  {
  }

  /** The holder's own steps inside its critical section. */
  ghost predicate Working(s: State, t: Tid) {
    ShapeOk(s) && s.holder == Some(t) && WorkOk(s, ThreadOf(s, t).act) && Step(s, t, Go).Some?
  }

  ghost predicate WorkedOn(s': State) {
    ShapeOk(s') && DataOk(s')
  }

  lemma SubscribeWorks(s: State, t: Tid)
    requires Working(s, t) && (ThreadOf(s, t).act.Testing? || ThreadOf(s, t).act.Filling?)
    ensures WorkedOn(Step(s, t, Go).value)
  {
    var s' := Step(s, t, Go).value;
    if ThreadOf(s, t).act.Filling? {
      assert s'.cells[..s'.count] == s.cells[..s.count - 1] + [ThreadOf(s, t).act.sub];
    }
  }

  lemma SearchWorks(s: State, t: Tid)
    requires Working(s, t) && ThreadOf(s, t).act.Searching?
    ensures WorkedOn(Step(s, t, Go).value)
  {
    var a := ThreadOf(s, t).act;
    assert forall j :: 0 <= j < s.count ==> s.cells[j] == s.list[j] by {
      assert forall j :: 0 <= j < s.count ==> s.cells[j] == s.cells[..s.count][j];
    }
    if a.i >= s.count || SamePair(s.list[a.i], a.fn, a.ctx) {
      FirstPairIs(s.list, a.fn, a.ctx, a.i);
    }
  }

  lemma ShiftOneCell(cells: seq<Subscriber>, list: seq<Subscriber>, i: nat, k: nat)
    requires |list| <= |cells| && ClosedUp(cells, list, i, k)
    ensures i <= k < |list|
    ensures if k + 1 < |list| then ClosedUp(cells[k := cells[k + 1]], list, i, k + 1)
            else cells[..k] == RemoveAt(list, i)
  {
    if k + 1 < |list| {
      assert cells[k + 1] == list[k + 1];
    } else {
      var rest := RemoveAt(list, i);
      assert forall j :: 0 <= j < k ==> cells[j] == rest[j];
    }
  }

  lemma ShiftWorks(s: State, t: Tid)
    requires Working(s, t) && ThreadOf(s, t).act.Shifting?
    ensures WorkedOn(Step(s, t, Go).value)
  {
    hide FirstPair, ClosedUp;
    var a := ThreadOf(s, t).act;
    ShiftOneCell(s.cells, s.list, a.i, a.k);
  }

  lemma CopyWorks(s: State, t: Tid)
    requires Working(s, t) && ThreadOf(s, t).act.Copying?
    ensures WorkedOn(Step(s, t, Go).value)
  {
    var copied := ThreadOf(s, t).act.copied;
    if |copied| < s.count {
      assert s.cells[|copied|] == s.cells[..s.count][|copied|] == s.list[|copied|];
      assert s.list[..|copied| + 1] == copied + [s.list[|copied|]];
    } else {
      assert copied == s.list;
    }
  }

  lemma UnlockWorks(s: State, t: Tid)
    requires Working(s, t) && ThreadOf(s, t).act.Unlocking?
    ensures WorkedOn(Step(s, t, Go).value)
  {
    hide FirstPair;
  }

  lemma WorkGoesOn(s: State, t: Tid)
    requires Working(s, t) && Holds(ThreadOf(s, t).act)
    ensures WorkedOn(Step(s, t, Go).value)
  {
    hide Working, WorkedOn;
    match ThreadOf(s, t).act
    case Testing(_) => SubscribeWorks(s, t);
    case Filling(_) => SubscribeWorks(s, t);
    case Searching(_, _, _, _) => SearchWorks(s, t);
    case Shifting(_, _, _, _, _) => ShiftWorks(s, t);
    case Copying(_, _) => CopyWorks(s, t);
    case Unlocking(_, _) => UnlockWorks(s, t);
    case _ =>
  }

  lemma StepKeepsLog(s: State, t: Tid, c: Choice)
    requires Inv(s) && Step(s, t, c).Some?
    ensures var s' := Step(s, t, c).value;
            && s'.list == Replay(s'.log)
            && (forall u: Tid :: u != t ==> ThreadOk(ThreadOf(s', u), s'.log))
            && (forall k :: 0 <= k < |s.done| ==> DoneOk(s.done[k], s'.log))
  {
    hide ThreadOk, WasList, Apply, Step;
    var s' := Step(s, t, c).value;
    StepFrame(s, t, c);
    if s'.log != s.log {
      var op :| s'.log == s.log + [op] && s'.list == Apply(s.list, op);
      assert s'.log[..|s'.log| - 1] == s.log;
      forall u: Tid | u != t ensures ThreadOk(ThreadOf(s', u), s'.log) { ThreadOkLater(ThreadOf(s, u), s.log, op); }
      forall k | 0 <= k < |s.done| ensures DoneOk(s.done[k], s'.log) { 
        WasListLater(s.done[k].at, s.done[k].kind, s.done[k].snapshot, s.log, op);
       }
    }
  }

  /** Every step of every thread keeps the invariant. */
  lemma StepKeepsInv(s: State, t: Tid, c: Choice)
    requires Inv(s) && Step(s, t, c).Some?
    ensures Inv(Step(s, t, c).value)
  {
    hide ThreadOk, DoneOk, Step, DataOk, LockOk, Replay;
    StepKeepsThread(s, t, c);
    StepKeepsLock(s, t, c);
    StepKeepsData(s, t, c);
    StepKeepsLog(s, t, c);
    var s' := Step(s, t, c).value;
    forall k | 0 <= k < |s'.done| ensures DoneOk(s'.done[k], s'.log) {
      if k < |s.done| { assert s'.done[k] == s.done[k]; }
    }
  }

  // ----- runs

  ghost predicate IsRun(states: seq<State>) {
    && |states| > 0 && |states[0].cells| == MAX_SUBSCRIBERS && states[0] == Start(states[0].cells)
    && forall n :: 0 <= n < |states| - 1 ==> IsStep(states[n], states[n + 1])
  }

  ghost predicate IsStep(s: State, s': State) {
    |s.cells| == MAX_SUBSCRIBERS && s.count <= MAX_SUBSCRIBERS && exists t: Tid, c :: Step(s, t, c) == Some(s')
  }

  /** Main result: the invariant holds in every state of every run of any threads. */
  lemma {:induction false} RunKeepsInv(states: seq<State>, n: nat)
    requires IsRun(states) && n < |states|
    ensures Inv(states[n])
  {
    hide Inv, Step;
    if n == 0 {
      StartIsOk(states[0].cells);
    } else {
      RunKeepsInv(states, n - 1);
      assert IsStep(states[n - 1], states[n]);
      var t: Tid, c :| Step(states[n - 1], t, c) == Some(states[n]);
      StepKeepsInv(states[n - 1], t, c);
    }
  }

  /** No thread holds the mutex while its callback runs, and none waits for a mutex it holds,
      so a call made from a callback cannot block on its own publish. */
  lemma CallbacksRunUnlocked(states: seq<State>, n: nat, t: Tid)
    requires IsRun(states) && n < |states|
    ensures var th := ThreadOf(states[n], t);
            && (th.act.Idle? ==> states[n].holder != Some(t))
            && (th.act.Want? ==> states[n].holder != Some(t))
            && (th.act.Idle? && th.pubs != [] ==> InCallback(th.pubs[|th.pubs| - 1], states[n].log))
  {
    RunKeepsInv(states, n);
    assert ThreadOk(ThreadOf(states[n], t), states[n].log);
    HolderIs(states[n], t);
  }

  /** Every finished publish called exactly the positions of its snapshot that the event
      concerns, once each and in order; the snapshot is the list as it stood at the publish's
      own place in the log, which it shares with no other finished publish. */
  lemma PublishesCallTheirSnapshot(states: seq<State>, n: nat, k: nat)
    requires IsRun(states) && n < |states| && k < |states[n].done|
    ensures var d, log := states[n].done[k], states[n].log;
            && d.at < |log| && log[d.at] == PublishOp(d.kind) && d.snapshot == Replay(log[..d.at])
            && d.called == MatchingBelow(d.snapshot, d.kind, |d.snapshot|)
    ensures forall j :: 0 <= j < |states[n].done| && j != k ==> states[n].done[j].at != states[n].done[k].at
  {
    RunKeepsInv(states, n);
    assert DoneOk(states[n].done[k], states[n].log);
    RunKeepsPlaces(states, n);
    forall j | 0 <= j < |states[n].done| && j != k ensures states[n].done[j].at != states[n].done[k].at {
      assert IsPlace(states[n], Finished(j)) && IsPlace(states[n], Finished(k));
      assert PlaceAt(states[n], Finished(j)) == states[n].done[j].at;
      assert PlaceAt(states[n], Finished(k)) == states[n].done[k].at;
    }
  }

  // ----- the publishes of the log, one to one

  /** Where a publish is: the k-th a thread is in, or the k-th that finished. */
  datatype Place = Under(t: Tid, k: nat) | Finished(k: nat)

  ghost predicate IsPlace(s: State, p: Place) {
    match p
    case Under(t, k) => k < |ThreadOf(s, t).pubs|
    case Finished(k) => k < |s.done|
  }

  ghost function PlaceAt(s: State, p: Place): nat
    requires IsPlace(s, p)
  {
    match p
    case Under(t, k) => ThreadOf(s, t).pubs[k].at
    case Finished(k) => s.done[k].at
  }

  ghost predicate OnePlaceEach(s: State) {
    && (forall p, q :: IsPlace(s, p) && IsPlace(s, q) && PlaceAt(s, p) == PlaceAt(s, q) ==> p == q)
    && (forall n: nat :: n < |s.log| && s.log[n].PublishOp? ==> exists p :: IsPlace(s, p) && PlaceAt(s, p) == n)
  }

  lemma PlaceIsInLog(s: State, p: Place)
    requires Inv(s) && IsPlace(s, p)
    ensures PlaceAt(s, p) < |s.log|
  {
    match p
    case Under(t, k) =>
      assert ThreadOk(ThreadOf(s, t), s.log);
    case Finished(k) =>
      assert DoneOk(s.done[k], s.log);
  }

  /** Every place is where it was, and at most an operation other than a publish has been logged. */
  ghost predicate SamePlaces(s: State, s': State) {
    && (forall p :: IsPlace(s', p) <==> IsPlace(s, p))
    && (forall p :: IsPlace(s, p) ==> PlaceAt(s', p) == PlaceAt(s, p))
    && (s'.log == s.log || exists op: Op :: !op.PublishOp? && s'.log == s.log + [op])
  }

  lemma SamePlacesKeep(s: State, s': State)
    requires SamePlaces(s, s') && OnePlaceEach(s)
    ensures OnePlaceEach(s')
  {
    hide IsPlace, PlaceAt;
    forall n: nat | n < |s'.log| && s'.log[n].PublishOp? ensures exists p :: IsPlace(s', p) && PlaceAt(s', p) == n {
      assert n < |s.log| && s.log[n] == s'.log[n];
      var p :| IsPlace(s, p) && PlaceAt(s, p) == n;
      assert IsPlace(s', p) && PlaceAt(s', p) == n;
    }
  }

  /** The new place p holds the operation just logged. */
  ghost predicate NewPlace(s: State, s': State, new_: Place) {
    && (forall p :: IsPlace(s', p) <==> IsPlace(s, p) || p == new_)
    && (forall p :: IsPlace(s, p) ==> PlaceAt(s', p) == PlaceAt(s, p))
    && PlaceAt(s', new_) == |s.log| && |s'.log| == |s.log| + 1 && s'.log[..|s.log|] == s.log
  }

  lemma NewPlaceKeeps(s: State, s': State, new_: Place)
    requires NewPlace(s, s', new_) && OnePlaceEach(s)
    requires forall p :: IsPlace(s, p) ==> PlaceAt(s, p) < |s.log|
    ensures OnePlaceEach(s')
  {
    hide IsPlace, PlaceAt;
    forall n: nat | n < |s'.log| && s'.log[n].PublishOp? ensures exists p :: IsPlace(s', p) && PlaceAt(s', p) == n {
      if n == |s.log| {
        assert IsPlace(s', new_);
      } else {
        assert s.log[n] == s'.log[n];
        var p :| IsPlace(s, p) && PlaceAt(s, p) == n;
        assert IsPlace(s', p) && PlaceAt(s', p) == n;
      }
    }
  }

  /** A finished publish moves from one place to another. */
  ghost predicate MovedPlace(s: State, s': State, from: Place, to: Place) {
    && IsPlace(s, from) && IsPlace(s', to) && !IsPlace(s, to) && PlaceAt(s', to) == PlaceAt(s, from)
    && (forall p :: IsPlace(s', p) <==> (IsPlace(s, p) && p != from) || p == to)
    && (forall p :: IsPlace(s, p) && p != from ==> PlaceAt(s', p) == PlaceAt(s, p))
    && s'.log == s.log
  }

  lemma MovedPlaceKeeps(s: State, s': State, from: Place, to: Place)
    requires MovedPlace(s, s', from, to) && OnePlaceEach(s)
    ensures OnePlaceEach(s')
  {
    hide IsPlace, PlaceAt;
    forall n: nat | n < |s'.log| && s'.log[n].PublishOp? ensures exists p :: IsPlace(s', p) && PlaceAt(s', p) == n {
      var p :| IsPlace(s, p) && PlaceAt(s, p) == n;
      if p == from { assert IsPlace(s', to); } else { assert IsPlace(s', p); }
    }
  }

  ghost predicate SamePubs(pubs: seq<Pub>, pubs': seq<Pub>) {
    |pubs'| == |pubs| && forall k :: 0 <= k < |pubs| ==> pubs'[k].at == pubs[k].at
  }

  /** A step that neither logs nor finishes a publish. */
  lemma OtherStepPubs(s: State, t: Tid, c: Choice)
    requires |s.cells| == MAX_SUBSCRIBERS && s.count <= MAX_SUBSCRIBERS && Step(s, t, c).Some?
    requires var th := ThreadOf(s, t);
             && !(th.act.Unlocking? && th.act.op.PublishOp?)
             && !(th.act.Scanning? && th.pubs[|th.pubs| - 1].i >= |th.pubs[|th.pubs| - 1].snapshot|)
    ensures var s' := Step(s, t, c).value;
            && SamePubs(ThreadOf(s, t).pubs, ThreadOf(s', t).pubs) && s'.done == s.done
            && (s'.log == s.log || exists op: Op :: !op.PublishOp? && s'.log == s.log + [op])
  {
    hide Apply, Matches;
  }

  lemma SamePubsSamePlaces(s: State, s': State, t: Tid)
    requires OnlyMoves(s, s', t) && SamePubs(ThreadOf(s, t).pubs, ThreadOf(s', t).pubs) && s'.done == s.done
    requires s'.log == s.log || exists op: Op :: !op.PublishOp? && s'.log == s.log + [op]
    ensures SamePlaces(s, s')
  {
    hide ThreadOf;
  }

  lemma PushedPubIsNewPlace(s: State, s': State, t: Tid, pub: Pub)
    requires OnlyMoves(s, s', t) && s'.done == s.done
    requires ThreadOf(s', t).pubs == ThreadOf(s, t).pubs + [pub] && pub.at == |s.log|
    requires |s'.log| == |s.log| + 1 && s'.log[..|s.log|] == s.log
    ensures NewPlace(s, s', Under(t, |ThreadOf(s, t).pubs|))
  {
    hide ThreadOf;
  }

  lemma PoppedPubMoves(s: State, s': State, t: Tid, d: Done)
    requires OnlyMoves(s, s', t) && s'.log == s.log && s'.done == s.done + [d]
    requires var pubs := ThreadOf(s, t).pubs;
             pubs != [] && ThreadOf(s', t).pubs == pubs[..|pubs| - 1] && d.at == pubs[|pubs| - 1].at
    ensures MovedPlace(s, s', Under(t, |ThreadOf(s, t).pubs| - 1), Finished(|s.done|))
  {
    hide ThreadOf;
  }

  lemma StepKeepsPlaces(s: State, t: Tid, c: Choice)
    requires Inv(s) && Step(s, t, c).Some? && OnePlaceEach(s)
    ensures OnePlaceEach(Step(s, t, c).value)
  {
    hide OnePlaceEach, ThreadOk, DoneOk, DataOk, LockOk, Replay, Apply, Matches, NewPlace, MovedPlace, SamePlaces;
    hide IsPlace, PlaceAt;
    var th, s' := ThreadOf(s, t), Step(s, t, c).value;
    var n := |th.pubs|;
    StepFrame(s, t, c);
    if th.act.Unlocking? && th.act.op.PublishOp? {
      PushedPubIsNewPlace(s, s', t, Pub(|s.log|, th.act.op.kind, th.act.copied, 0, []));
      forall p | IsPlace(s, p) ensures PlaceAt(s, p) < |s.log| { PlaceIsInLog(s, p); }
      NewPlaceKeeps(s, s', Under(t, n));
    } else if th.act.Scanning? && th.pubs[n - 1].i >= |th.pubs[n - 1].snapshot| {
      var p := th.pubs[n - 1];
      PoppedPubMoves(s, s', t, Done(p.at, p.kind, p.snapshot, p.called));
      MovedPlaceKeeps(s, s', Under(t, n - 1), Finished(|s.done|));
    } else {
      OtherStepPubs(s, t, c);
      SamePubsSamePlaces(s, s', t);
      SamePlacesKeep(s, s');
    }
  }

  /** Main result: in every state of every run the publishes in the log and the publishes under
      way or finished correspond one to one. */
  lemma {:induction false} RunKeepsPlaces(states: seq<State>, n: nat)
    requires IsRun(states) && n < |states|
    ensures OnePlaceEach(states[n])
  {
    hide Inv, Step, OnePlaceEach;
    if n == 0 {
      StartHasNoPlaces(states[0].cells);
    } else {
      RunKeepsPlaces(states, n - 1);
      RunKeepsInv(states, n - 1);
      assert IsStep(states[n - 1], states[n]);
      var t: Tid, c :| Step(states[n - 1], t, c) == Some(states[n]);
      StepKeepsPlaces(states[n - 1], t, c);
    }
  }

  lemma StartHasNoPlaces(cells: seq<Subscriber>)
    ensures OnePlaceEach(Start(cells))
  {
  }

  /** The array is linearizable: whenever the mutex is free it holds what the completed
      operations, taken one after the other in the order of their unlocks, leave behind;
      it never holds more than the maximum. */
  lemma ArrayIsReplayOfLog(states: seq<State>, n: nat)
    requires IsRun(states) && n < |states|
    ensures states[n].count <= MAX_SUBSCRIBERS && |Replay(states[n].log)| <= MAX_SUBSCRIBERS
    ensures states[n].holder.None? ==>
              states[n].count <= |states[n].cells| && states[n].cells[..states[n].count] == Replay(states[n].log)
  {
    RunKeepsInv(states, n);
  }

  /** No deadlock: a thread inside the bus can step, or waits for a holder that can. */
  lemma SomebodyCanStep(states: seq<State>, n: nat, t: Tid)
    requires IsRun(states) && n < |states| && !ThreadOf(states[n], t).act.Idle?
    ensures Inv(states[n])
    ensures var s := states[n];
            Step(s, t, Go).Some? || (s.holder.Some? && Step(s, s.holder.value, Go).Some?)
  {
    RunKeepsInv(states, n);
    var s := states[n];
    assert ThreadOk(ThreadOf(s, t), s.log);
    HolderIs(s, t);
    if s.holder.Some? { HolderIs(s, s.holder.value); }
  }

  /** The positions called are increasing: nobody is called twice for one event. */
  lemma {:induction false} CalledOnceInOrder(snapshot: seq<Subscriber>, kind: EventType, n: nat)
    requires n <= |snapshot|
    ensures var m := MatchingBelow(snapshot, kind, n);
            && (forall a, b :: 0 <= a < b < |m| ==> m[a] < m[b])
            && (forall i: nat :: i in m <==>
                  i < n && (snapshot[i].filter == EventCount || snapshot[i].filter == kind))
  {
    if n > 0 {
      CalledOnceInOrder(snapshot, kind, n - 1);
      var before := MatchingBelow(snapshot, kind, n - 1);
      forall a | 0 <= a < |before| ensures before[a] < n - 1 { assert before[a] in before; }
      MatchingBelowStep(snapshot, kind, n - 1);
    }
  }

  // ----- who can still call an entry that has been removed

  ghost predicate PairAway(list: seq<Subscriber>, fn: nat, ctx: nat) {
    forall j :: 0 <= j < |list| ==> !SamePair(list[j], fn, ctx)
  }

  /** After the first r completed calls the pair is off the list, and nobody subscribes it again. */
  ghost predicate GoneFrom(log: seq<Op>, r: nat, fn: nat, ctx: nat) {
    && r <= |log| && PairAway(Replay(log[..r]), fn, ctx)
    && (forall m :: r <= m < |log| && log[m].SubscribeOp? ==> !SamePair(log[m].sub, fn, ctx))
  }

  lemma ApplyKeepsAway(list: seq<Subscriber>, op: Op, fn: nat, ctx: nat)
    requires PairAway(list, fn, ctx) && (op.SubscribeOp? ==> !SamePair(op.sub, fn, ctx))
    ensures PairAway(Apply(list, op), fn, ctx)
  {
  }

  lemma {:induction false} StaysAway(log: seq<Op>, r: nat, m: nat, fn: nat, ctx: nat)
    requires GoneFrom(log, r, fn, ctx) && r <= m <= |log|
    ensures PairAway(Replay(log[..m]), fn, ctx)
    decreases m
  {
    hide PairAway, Apply;
    if r < m {
      StaysAway(log, r, m - 1, fn, ctx);
      assert log[..m][..m - 1] == log[..m - 1] && log[..m][m - 1] == log[m - 1];
      ApplyKeepsAway(Replay(log[..m - 1]), log[m - 1], fn, ctx);
    }
  }

  /** One of the positions called holds an entry of the pair. */
  ghost predicate CalledPair(d: Done, fn: nat, ctx: nat) {
    exists j: nat :: j in d.called && j < |d.snapshot| && SamePair(d.snapshot[j], fn, ctx)
  }

  /** An entry of the pair that the event concerns. */
  ghost predicate Concerned(list: seq<Subscriber>, kind: EventType, fn: nat, ctx: nat) {
    exists j :: 0 <= j < |list| && SamePair(list[j], fn, ctx) &&
      (list[j].filter == EventCount || list[j].filter == kind)
  }

  /** Main result: once a pair is gone it is called exactly by the publishes that have their place
      in the log before it went, and found it on the list then, however late they get to it. */
  lemma GonePairIsCalledIff(states: seq<State>, n: nat, k: nat, r: nat, fn: nat, ctx: nat)
    requires IsRun(states) && n < |states| && k < |states[n].done| && GoneFrom(states[n].log, r, fn, ctx)
    ensures var d, log := states[n].done[k], states[n].log;
            d.at < |log| &&
            (CalledPair(d, fn, ctx) <==> d.at < r && Concerned(Replay(log[..d.at]), d.kind, fn, ctx))
  {
    hide Matches, IsRun, MatchingBelow, GoneFrom, Replay;
    PublishesCallTheirSnapshot(states, n, k);
    var d, log := states[n].done[k], states[n].log;
    CalledOnceInOrder(d.snapshot, d.kind, |d.snapshot|);
    if d.at >= r { StaysAway(log, r, d.at, fn, ctx); }
    if Concerned(d.snapshot, d.kind, fn, ctx) {
      var j :| 0 <= j < |d.snapshot| && SamePair(d.snapshot[j], fn, ctx) &&
               (d.snapshot[j].filter == EventCount || d.snapshot[j].filter == d.kind);
      assert j in d.called;
    }
  }

  /** The same for the publishes under way: only one from before the pair went can have it in its
      snapshot, and so be about to call it or in its callback. */
  lemma GonePairUnderWay(states: seq<State>, n: nat, t: Tid, k: nat, j: nat, r: nat, fn: nat, ctx: nat)
    requires IsRun(states) && n < |states| && GoneFrom(states[n].log, r, fn, ctx)
    requires k < |ThreadOf(states[n], t).pubs| && j < |ThreadOf(states[n], t).pubs[k].snapshot|
    requires SamePair(ThreadOf(states[n], t).pubs[k].snapshot[j], fn, ctx)
    ensures ThreadOf(states[n], t).pubs[k].at < r
  {
    hide IsRun, MatchingBelow, GoneFrom, Replay;
    RunKeepsInv(states, n);
    var p, log := ThreadOf(states[n], t).pubs[k], states[n].log;
    assert ThreadOk(ThreadOf(states[n], t), log);
    assert WasList(p.at, p.kind, p.snapshot, log);
    if p.at >= r { StaysAway(log, r, p.at, fn, ctx); }
  }

  /** The array takes 16 subscribers and no more. */
  lemma SixteenSubscribers(list: seq<Subscriber>, sub: Subscriber)
    ensures Apply(list, SubscribeOp(sub)) == if |list| < 16 then list + [sub] else list
  {
  }
}
