/** What the callbacks' answers do in a run of src/bus.c: over every interleaving the publish loops
    unsubscribe the pairs of the entries that answered false, one for one and in order; and a
    publish that runs alone leaves the list that EventBus says it does. */
module BusAnswers {
  import opened Wrappers
  import opened EventBus
  import opened BusInterleaving

  /** A step of a run: the thread that moves and the environment's choice. */
  type Move = (Tid, Choice)

  ghost predicate IsRunBy(states: seq<State>, moves: seq<Move>) {
    && |states| == |moves| + 1 && |states[0].cells| == MAX_SUBSCRIBERS && states[0] == Start(states[0].cells)
    && forall n :: 0 <= n < |moves| ==> IsMove(states[n], moves[n], states[n + 1])
  }

  ghost predicate IsMove(s: State, move: Move, s': State) {
    |s.cells| == MAX_SUBSCRIBERS && s.count <= MAX_SUBSCRIBERS && Step(s, move.0, move.1) == Some(s')
  }

  lemma RunByIsRun(states: seq<State>, moves: seq<Move>)
    requires IsRunBy(states, moves)
    ensures IsRun(states)
  {
    forall n | 0 <= n < |states| - 1 ensures IsStep(states[n], states[n + 1]) {
      assert IsMove(states[n], moves[n], states[n + 1]);
    }
  }

  // ----- the answers, as the environment gives them

  /** The pair of the entry that the innermost publish of the thread has called last. */
  function CalledNow(th: Thread): Option<Pair> {
    if th.pubs == [] then None
    else
      var p := th.pubs[|th.pubs| - 1];
      if p.called == [] || p.called[|p.called| - 1] >= |p.snapshot| then None
      else Some(PairOf(p.snapshot[p.called[|p.called| - 1]]))
  }

  /** The pairs of the entries whose callbacks have answered false to the thread in the first n moves. */
  ghost function AnsweredFalse(states: seq<State>, moves: seq<Move>, t: Tid, n: nat): seq<Option<Pair>>
    requires n <= |moves| < |states|
  {
    if n == 0 then []
    else AnsweredFalse(states, moves, t, n - 1) +
         if moves[n - 1] == (t, Return(false)) then [CalledNow(ThreadOf(states[n - 1], t))] else []
  }

  /** The pairs that the thread's publish loops have unsubscribed in the first n moves. */
  ghost function LoopRemoved(states: seq<State>, moves: seq<Move>, t: Tid, n: nat): seq<Option<Pair>>
    requires n <= |moves| < |states|
  {
    if n == 0 then []
    else LoopRemoved(states, moves, t, n - 1) + Removal(states[n - 1].log, moves[n - 1].0, states[n].log, t)
  }

  /** What a move has added to the log, if it is a loop's unsubscribe by the thread. */
  ghost function Removal(log: seq<Op>, mover: Tid, log': seq<Op>, t: Tid): seq<Option<Pair>> {
    if mover != t || |log'| <= |log| then []
    else
      match log'[|log'| - 1]
      case UnsubscribeOp(fn, ctx, byLoop) => if byLoop then [Some((fn, ctx))] else []
      case _ => []
  }

  /** The unsubscribe a thread has begun for a publish loop. */
  function Begun(a: Act): seq<Option<Pair>> {
    match a
    case Want(op) => BegunBy(op)
    case Searching(fn, ctx, byLoop, _) => if byLoop then [Some((fn, ctx))] else []
    case Shifting(fn, ctx, byLoop, _, _) => if byLoop then [Some((fn, ctx))] else []
    case Unlocking(op, _) => BegunBy(op)
    case _ => []
  }

  function BegunBy(op: Op): seq<Option<Pair>> {
    if op.UnsubscribeOp? && op.byLoop then [Some((op.fn, op.ctx))] else []
  }

  lemma RunKeepsThreadOk(states: seq<State>, moves: seq<Move>, n: nat, t: Tid)
    requires IsRunBy(states, moves) && n < |states|
    ensures ThreadOk(ThreadOf(states[n], t), states[n].log)
  {
    RunByIsRun(states, moves);
    RunKeepsInv(states, n);
  }

  /** In a callback the entry called last is the one the loop stands at. */
  lemma CalledIsCurrent(th: Thread, log: seq<Op>)
    requires ThreadOk(th, log) && th.act.Idle? && th.pubs != []
    ensures var p := th.pubs[|th.pubs| - 1];
            p.i < |p.snapshot| && CalledNow(th) == Some(PairOf(p.snapshot[p.i]))
  {
    var p := th.pubs[|th.pubs| - 1];
    assert InCallback(p, log);
    MatchingBelowStep(p.snapshot, p.kind, p.i);
  }

  /** A move in the account: what was begun and what is answered becomes what is removed and what
      is begun now. */
  ghost predicate Accounted(s: State, move: Move, s': State, t: Tid) {
    Begun(ThreadOf(s, t).act) + (if move == (t, Return(false)) then [CalledNow(ThreadOf(s, t))] else []) ==
    Removal(s.log, move.0, s'.log, t) + Begun(ThreadOf(s', t).act)
  }

  lemma OtherAccount(s: State, move: Move, s': State, t: Tid)
    requires IsMove(s, move, s') && move.0 != t
    ensures Accounted(s, move, s', t)
  {
    hide Step, Begun;
    StepFrame(s, move.0, move.1);
    assert ThreadOf(s', t) == ThreadOf(s, t);
  }

  lemma IdleAccount(s: State, move: Move, s': State, t: Tid)
    requires IsMove(s, move, s') && ThreadOk(ThreadOf(s, t), s.log) && move.0 == t && ThreadOf(s, t).act.Idle?
    ensures Accounted(s, move, s', t)
  {
    hide ThreadOk, Matches;
    QuietStepFrame(s, t, move.1);
    if move.1.Return? { CalledIsCurrent(ThreadOf(s, t), s.log); }
  }

  lemma UnlockAccount(s: State, move: Move, s': State, t: Tid)
    requires IsMove(s, move, s') && move.0 == t && ThreadOf(s, t).act.Unlocking?
    ensures Accounted(s, move, s', t)
  {
    hide Apply;
  }

  lemma WorkAccount(s: State, move: Move, s': State, t: Tid)
    requires IsMove(s, move, s') && move.0 == t && !ThreadOf(s, t).act.Unlocking? && !ThreadOf(s, t).act.Idle?
    ensures Accounted(s, move, s', t)
  {
    QuietStepFrame(s, t, move.1);
    BegunStays(s, move, s');
    assert Removal(s.log, t, s'.log, t) == [];
    NoReturn(s, move, s');
  }

  lemma NoReturn(s: State, move: Move, s': State)
    requires IsMove(s, move, s') && !ThreadOf(s, move.0).act.Idle?
    ensures !move.1.Return?
  {
    hide Matches, Apply;
  }

  lemma BegunStays(s: State, move: Move, s': State)
    requires IsMove(s, move, s') && !ThreadOf(s, move.0).act.Unlocking? && !ThreadOf(s, move.0).act.Idle?
    ensures Begun(ThreadOf(s', move.0).act) == Begun(ThreadOf(s, move.0).act)
  {
    hide Matches, Apply;
  }

  lemma MoveKeepsAccount(s: State, move: Move, s': State, t: Tid)
    requires IsMove(s, move, s') && ThreadOk(ThreadOf(s, move.0), s.log)
    ensures Accounted(s, move, s', t)
  {
    hide Accounted, IsMove, ThreadOk;
    if move.0 != t { OtherAccount(s, move, s', t); }
    else if ThreadOf(s, t).act.Idle? { IdleAccount(s, move, s', t); }
    else if ThreadOf(s, t).act.Unlocking? { UnlockAccount(s, move, s', t); }
    else { WorkAccount(s, move, s', t); }
  }

  lemma MoveOfRun(states: seq<State>, moves: seq<Move>, n: nat)
    requires IsRunBy(states, moves) && n < |moves|
    ensures IsMove(states[n], moves[n], states[n + 1])
  {
  }

  lemma NothingBegun(states: seq<State>, moves: seq<Move>, t: Tid)
    requires IsRunBy(states, moves)
    ensures Begun(ThreadOf(states[0], t).act) == []
  {
  }

  lemma Rebalance<T>(done: seq<T>, begun: seq<T>, answered: seq<T>, removed: seq<T>, begun': seq<T>)
    requires begun + answered == removed + begun'
    ensures done + begun + answered == done + removed + begun'
  {
    assert done + begun + answered == done + (begun + answered);
    assert done + removed + begun' == done + (removed + begun');
  }

  /** Main result: over every interleaving, the pairs whose callbacks answered false to a thread
      are, in order, those its publish loops have unsubscribed and the one they have begun to. */
  lemma {:induction false} LoopsRemoveTheFalse(states: seq<State>, moves: seq<Move>, t: Tid, n: nat)
    requires IsRunBy(states, moves) && n <= |moves|
    ensures AnsweredFalse(states, moves, t, n) ==
            LoopRemoved(states, moves, t, n) + Begun(ThreadOf(states[n], t).act)
  {
    hide Step, ThreadOk, Begun, CalledNow, Removal, IsMove;
    if n == 0 {
      NothingBegun(states, moves, t);
    } else {
      LoopsRemoveTheFalse(states, moves, t, n - 1);
      hide IsRunBy;
      RunKeepsThreadOk(states, moves, n - 1, moves[n - 1].0);
      MoveOfRun(states, moves, n - 1);
      MoveKeepsAccount(states[n - 1], moves[n - 1], states[n], t);
      var answered := if moves[n - 1] == (t, Return(false)) then [CalledNow(ThreadOf(states[n - 1], t))] else [];
      Rebalance(LoopRemoved(states, moves, t, n - 1), Begun(ThreadOf(states[n - 1], t).act), answered,
                Removal(states[n - 1].log, moves[n - 1].0, states[n].log, t), Begun(ThreadOf(states[n], t).act));
    }
  }

  // ----- a publish that runs alone

  /** From move a to move b only this thread moves, it makes no calls of its own, and the publish
      it is in at a is not over before b. */
  ghost predicate Alone(states: seq<State>, moves: seq<Move>, t: Tid, a: nat, b: nat)
    requires |moves| < |states|
  {
    && a <= b <= |moves|
    && (forall n :: a <= n < b ==> moves[n].0 == t && !moves[n].1.Call?)
    && (forall n :: a <= n < b ==> |ThreadOf(states[n], t).pubs| == |ThreadOf(states[a], t).pubs|)
  }

  /** Each callback's answer is the one for the position called last. */
  ghost predicate AnsweredBy(states: seq<State>, moves: seq<Move>, t: Tid, a: nat, b: nat, answers: nat -> bool)
    requires a <= b <= |moves| < |states|
  {
    forall n :: a <= n < b && moves[n].1.Return? ==> AnswerIs(ThreadOf(states[n], t), moves[n].1.keep, answers)
  }

  ghost predicate AnswerIs(th: Thread, keep: bool, answers: nat -> bool) {
    th.pubs != [] ==>
      var called := th.pubs[|th.pubs| - 1].called;
      called != [] ==> answers(called[|called| - 1]) == keep
  }

  /** The list with the unsubscribe carried out that the loop has begun. */
  function Effective(list: seq<Subscriber>, a: Act): seq<Subscriber> {
    var begun := Begun(a);
    if begun != [] && begun[0].Some? then RemovePair(list, begun[0].value.0, begun[0].value.1) else list
  }

  /** The loop from here on gives the list that the whole publish gives. */
  ghost predicate OnTheWay(s: State, th: Thread, snapshot: seq<Subscriber>, kind: EventType, answers: nat -> bool) {
    && (th.act.Idle? || th.act.Scanning? || Begun(th.act) != [])
    && th.pubs != []
    && var p := th.pubs[|th.pubs| - 1];
       && p.snapshot == snapshot && p.kind == kind && p.i <= |snapshot|
       && AfterAnswers(Effective(s.list, th.act), snapshot, p.i, kind, answers) ==
          AfterAnswers(snapshot, snapshot, 0, kind, answers)
  }

  lemma BegunMoves(s: State, move: Move, s': State, snapshot: seq<Subscriber>, kind: EventType, answers: nat -> bool)
    requires IsMove(s, move, s') && !move.1.Call? && Begun(ThreadOf(s, move.0).act) != []
    requires OnTheWay(s, ThreadOf(s, move.0), snapshot, kind, answers)
    ensures OnTheWay(s', ThreadOf(s', move.0), snapshot, kind, answers)
  {
    hide AfterAnswers, RemovePair, Matches;
  }

  lemma ScanMoves(s: State, move: Move, s': State, snapshot: seq<Subscriber>, kind: EventType, answers: nat -> bool)
    requires IsMove(s, move, s') && ThreadOf(s, move.0).act.Scanning?
    requires OnTheWay(s, ThreadOf(s, move.0), snapshot, kind, answers)
    ensures var th, th' := ThreadOf(s, move.0), ThreadOf(s', move.0);
            if |th'.pubs| == |th.pubs| then OnTheWay(s', th', snapshot, kind, answers)
            else s'.list == AfterAnswers(snapshot, snapshot, 0, kind, answers)
  {
    hide AfterAnswers, RemovePair, Matches;
    var th := ThreadOf(s, move.0);
    var p := th.pubs[|th.pubs| - 1];
    if p.i < |snapshot| {
      AnswersStep(s.list, snapshot, p.i, kind, answers);
    } else {
      AnswersEnd(s.list, snapshot, kind, answers);
    }
  }

  lemma ReturnMoves(s: State, move: Move, s': State, snapshot: seq<Subscriber>, kind: EventType, answers: nat -> bool)
    requires IsMove(s, move, s') && ThreadOf(s, move.0).act.Idle? && move.1.Return?
    requires ThreadOk(ThreadOf(s, move.0), s.log) && AnswerIs(ThreadOf(s, move.0), move.1.keep, answers)
    requires OnTheWay(s, ThreadOf(s, move.0), snapshot, kind, answers)
    ensures OnTheWay(s', ThreadOf(s', move.0), snapshot, kind, answers)
  {
    hide AfterAnswers, RemovePair, Matches, ThreadOk, MatchingBelow;
    var th := ThreadOf(s, move.0);
    var p := th.pubs[|th.pubs| - 1];
    CalledPosition(th, s.log);
    AnswersStep(s.list, snapshot, p.i, kind, answers);
  }

  lemma CalledPosition(th: Thread, log: seq<Op>)
    requires ThreadOk(th, log) && th.act.Idle? && th.pubs != []
    ensures var p := th.pubs[|th.pubs| - 1];
            p.i < |p.snapshot| && Matches(p.snapshot[p.i], p.kind) && p.called != [] && p.called[|p.called| - 1] == p.i
  {
    var p := th.pubs[|th.pubs| - 1];
    assert InCallback(p, log);
    MatchingBelowStep(p.snapshot, p.kind, p.i);
  }

  lemma {:induction false} AloneIsOnTheWay(states: seq<State>, moves: seq<Move>, t: Tid, a: nat, n: nat, b: nat,
                                           snapshot: seq<Subscriber>, kind: EventType, answers: nat -> bool)
    requires IsRunBy(states, moves) && a <= n < b <= |moves| && Alone(states, moves, t, a, b)
    requires AnsweredBy(states, moves, t, a, b, answers)
    requires OnTheWay(states[a], ThreadOf(states[a], t), snapshot, kind, answers)
    ensures OnTheWay(states[n], ThreadOf(states[n], t), snapshot, kind, answers)
    decreases n
  {
    hide OnTheWay, IsMove;
    if a < n {
      AloneIsOnTheWay(states, moves, t, a, n - 1, b, snapshot, kind, answers);
      AloneMove(states, moves, t, a, n - 1, b, snapshot, kind, answers);
    }
  }

  lemma AloneMove(states: seq<State>, moves: seq<Move>, t: Tid, a: nat, n: nat, b: nat,
                  snapshot: seq<Subscriber>, kind: EventType, answers: nat -> bool)
    requires IsRunBy(states, moves) && a <= n < b <= |moves| && Alone(states, moves, t, a, b)
    requires AnsweredBy(states, moves, t, a, b, answers)
    requires OnTheWay(states[n], ThreadOf(states[n], t), snapshot, kind, answers)
    ensures var th, th' := ThreadOf(states[n], t), ThreadOf(states[n + 1], t);
            if |th'.pubs| == |th.pubs| then OnTheWay(states[n + 1], th', snapshot, kind, answers)
            else states[n + 1].list == AfterAnswers(snapshot, snapshot, 0, kind, answers)
  {
    hide OnTheWay, ThreadOk, AnswerIs, IsMove;
    var s, move, s' := states[n], moves[n], states[n + 1];
    RunKeepsThreadOk(states, moves, n, t);
    MoveOfRun(states, moves, n);
    WayActs(s, ThreadOf(s, t), snapshot, kind, answers);
    if ThreadOf(s, t).act.Scanning? {
      ScanMoves(s, move, s', snapshot, kind, answers);
    } else if ThreadOf(s, t).act.Idle? {
      OnlyReturns(s, move, s');
      ReturnMoves(s, move, s', snapshot, kind, answers);
      ReturnKeepsDepth(s, move, s');
    } else {
      BegunMoves(s, move, s', snapshot, kind, answers);
      BegunKeepsDepth(s, move, s');
    }
  }

  lemma WayActs(s: State, th: Thread, snapshot: seq<Subscriber>, kind: EventType, answers: nat -> bool)
    requires OnTheWay(s, th, snapshot, kind, answers)
    ensures th.act.Idle? || th.act.Scanning? || Begun(th.act) != []
  {
  }

  lemma OnlyReturns(s: State, move: Move, s': State)
    requires IsMove(s, move, s') && ThreadOf(s, move.0).act.Idle? && !move.1.Call?
    ensures move.1.Return?
  {
  }

  lemma ReturnKeepsDepth(s: State, move: Move, s': State)
    requires IsMove(s, move, s') && ThreadOf(s, move.0).act.Idle? && move.1.Return?
    ensures |ThreadOf(s', move.0).pubs| == |ThreadOf(s, move.0).pubs|
  {
  }

  lemma BegunKeepsDepth(s: State, move: Move, s': State)
    requires IsMove(s, move, s') && !move.1.Call? && Begun(ThreadOf(s, move.0).act) != []
    ensures |ThreadOf(s', move.0).pubs| == |ThreadOf(s, move.0).pubs|
  {
    hide Apply, Matches;
  }

  /** Main result: a publish during which nobody else moves and whose callbacks call nothing leaves
      the list it took its snapshot of without the first entries of each pair, as many as its
      callbacks answered false for the pair. */
  lemma PublishAloneDropsFirst(states: seq<State>, moves: seq<Move>, t: Tid, a: nat, b: nat, answers: nat -> bool)
    requires IsRunBy(states, moves) && a < b <= |moves| && Alone(states, moves, t, a, b)
    requires AnsweredBy(states, moves, t, a, b, answers)
    requires var th := ThreadOf(states[a], t);
             && th.act.Scanning? && th.pubs != []
             && var p := th.pubs[|th.pubs| - 1]; p.i == 0 && p.at + 1 == |states[a].log|
    requires |ThreadOf(states[b], t).pubs| != |ThreadOf(states[a], t).pubs|
    ensures var before, pubs := Replay(states[a].log), ThreadOf(states[a], t).pubs;
            var kind := pubs[|pubs| - 1].kind;
            Replay(states[b].log) == DropFirst(before, FalseFrom(before, 0, kind, answers))
  {
    hide Step, DropFirst, FalseFrom, AfterAnswers, IsMove;
    var th, log := ThreadOf(states[a], t), states[a].log;
    var p := th.pubs[|th.pubs| - 1];
    RunByIsRun(states, moves);
    RunKeepsInv(states, a);
    RunKeepsInv(states, b);
    assert ThreadOk(th, log);
    assert WasList(p.at, p.kind, p.snapshot, log);
    assert log[..|log| - 1] == log[..p.at];
    assert Replay(log) == p.snapshot;
    AloneIsOnTheWay(states, moves, t, a, b - 1, b, p.snapshot, p.kind, answers);
    AloneMove(states, moves, t, a, b - 1, b, p.snapshot, p.kind, answers);
    PublishDropsFirst(p.snapshot, p.snapshot, 0, p.kind, answers);
  }
}
