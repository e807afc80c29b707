/** The event bus of src/bus.c, one caller at a time: the subscriber array, removal by
    shifting, and publish over a snapshot. */
module EventBus {
  import opened Text

  datatype EventType =
    MessageReceived | MessageSent | MessageChunk | ToolCall | BusError | HealthChange
    | CronStarted | CronCompleted | EventCount

  /** Callbacks and contexts are only ever compared, so numbers stand for them. */
  datatype Subscriber = Subscriber(fn: nat, ctx: nat, filter: EventType)

  const MAX_SUBSCRIBERS := 16

  /** EventCount as a filter means every event. */
  predicate Matches(sub: Subscriber, kind: EventType) {
    sub.filter == EventCount || sub.filter == kind
  }

  predicate SamePair(sub: Subscriber, fn: nat, ctx: nat) {
    sub.fn == fn && sub.ctx == ctx
  }

  function FirstPair(list: seq<Subscriber>, fn: nat, ctx: nat): (i: nat)
    ensures i <= |list|
    ensures forall k :: 0 <= k < i ==> !SamePair(list[k], fn, ctx)
    ensures i < |list| ==> SamePair(list[i], fn, ctx)
  {
    if list == [] || SamePair(list[0], fn, ctx) then 0 else 1 + FirstPair(list[1..], fn, ctx)
  }

  lemma FirstPairIs(list: seq<Subscriber>, fn: nat, ctx: nat, i: nat)
    requires i <= |list| && (forall k :: 0 <= k < i ==> !SamePair(list[k], fn, ctx))
    requires i < |list| ==> SamePair(list[i], fn, ctx)
    ensures FirstPair(list, fn, ctx) == i
  {
  }

  function RemoveAt(list: seq<Subscriber>, i: nat): seq<Subscriber>
    requires i < |list|
  {
    list[..i] + list[i + 1..]
  }

  function RemovePair(list: seq<Subscriber>, fn: nat, ctx: nat): seq<Subscriber> {
    var i := FirstPair(list, fn, ctx);
    if i < |list| then RemoveAt(list, i) else list
  }

  class Bus {
    const subscribers: array<Subscriber>
    var count: nat

    ghost predicate Valid()
      reads this
    {
      subscribers.Length == MAX_SUBSCRIBERS && count <= MAX_SUBSCRIBERS
    }

    ghost function List(): seq<Subscriber>
      requires Valid()
      reads this, subscribers
    {
      subscribers[..count]
    }

    constructor ()
      ensures Valid() && fresh(subscribers) && List() == []
    {
      subscribers := new Subscriber[MAX_SUBSCRIBERS](_ => Subscriber(0, 0, EventCount));
      count := 0;
    }

    method Subscribe(fn: nat, ctx: nat, filter: EventType) returns (ok: bool)
      requires Valid()
      modifies this, subscribers
      ensures Valid()
      ensures ok <==> |old(List())| < MAX_SUBSCRIBERS
      ensures List() == if ok then old(List()) + [Subscriber(fn, ctx, filter)] else old(List())
    {
      if count >= MAX_SUBSCRIBERS { return false; }
      subscribers[count] := Subscriber(fn, ctx, filter);
      count := count + 1;
      return true;
    }

    /** memmove closes the gap at i. */
    method CloseGap(i: nat)
      requires Valid() && i < count
      modifies this`count, subscribers
      ensures Valid() && List() == RemoveAt(old(List()), i)
    {
      ghost var list := List();
      var k := i;
      while k < count - 1
        invariant i <= k <= count - 1
        invariant forall j :: 0 <= j < i || k <= j < count ==> subscribers[j] == list[j]
        invariant forall j :: i <= j < k ==> subscribers[j] == list[j + 1]
        modifies subscribers
      {
        subscribers[k] := subscribers[k + 1];
        k := k + 1;
      }
      count := count - 1;
      assert List() == RemoveAt(list, i);
    }

    /** Only the first entry with the pair goes. */
    method Unsubscribe(fn: nat, ctx: nat)
      requires Valid()
      modifies this`count, subscribers
      ensures Valid()
      ensures List() == RemovePair(old(List()), fn, ctx)
    {
      hide FirstPair, RemoveAt;
      ghost var list := List();
      var i := 0;
      while i < count
        invariant 0 <= i <= count == old(count) && List() == list
        invariant forall k :: 0 <= k < i ==> !SamePair(list[k], fn, ctx)
      {
        if SamePair(subscribers[i], fn, ctx) {
          FirstPairIs(list, fn, ctx, i);
          CloseGap(i);
          return;
        }
        i := i + 1;
      }
      FirstPairIs(list, fn, ctx, i);
    }

    /** A publish that nobody interferes with; `answers(k)` is what the callback of the k-th entry
        of the snapshot returns, if it is called. */
    method Publish(kind: EventType, answers: nat -> bool) returns (called: seq<Subscriber>)
      requires Valid()
      modifies this, subscribers
      ensures Valid()
      ensures called == Matching(old(List()), kind)
      ensures List() == AfterAnswers(old(List()), old(List()), 0, kind, answers)
    {
      hide Matching, AfterAnswers, RemovePair;
      var snapshot := subscribers[..count];
      called := [];
      var i := 0;
      ghost var now := snapshot;   // the list at the loop head
      assert snapshot[0..] == snapshot;
      while i < |snapshot|
        invariant 0 <= i <= |snapshot| && Valid() && now == List()
        invariant called + Matching(snapshot[i..], kind) == Matching(snapshot, kind)
        invariant AfterAnswers(now, snapshot, i, kind, answers) == AfterAnswers(snapshot, snapshot, 0, kind, answers)
      {
        var sub := snapshot[i];
        MatchingStep(snapshot, i, called, kind);
        AnswersStep(now, snapshot, i, kind, answers);
        if Matches(sub, kind) {
          called := called + [sub];
          if !answers(i) {
            Unsubscribe(sub.fn, sub.ctx);
            now := RemovePair(now, sub.fn, sub.ctx);
          }
        }
        i := i + 1;
      }
      assert snapshot[i..] == [] && called + [] == called;
      AnswersEnd(now, snapshot, kind, answers);
    }
  }

  lemma MatchingStep(snapshot: seq<Subscriber>, i: nat, called: seq<Subscriber>, kind: EventType)
    requires i < |snapshot|
    ensures called + Matching(snapshot[i..], kind) ==
            (if Matches(snapshot[i], kind) then called + [snapshot[i]] else called) + Matching(snapshot[i + 1..], kind)
  {
    assert snapshot[i..][1..] == snapshot[i + 1..];
  }

  lemma AnswersStep(list: seq<Subscriber>, snapshot: seq<Subscriber>, i: nat, kind: EventType, answers: nat -> bool)
    requires i < |snapshot|
    ensures var sub := snapshot[i];
            var list' := if Matches(sub, kind) && !answers(i) then RemovePair(list, sub.fn, sub.ctx) else list;
            AfterAnswers(list, snapshot, i, kind, answers) == AfterAnswers(list', snapshot, i + 1, kind, answers)
  {
  }

  lemma AnswersEnd(list: seq<Subscriber>, snapshot: seq<Subscriber>, kind: EventType, answers: nat -> bool)
    ensures Matching([], kind) == [] && AfterAnswers(list, snapshot, |snapshot|, kind, answers) == list
  {
  }

  /** The loop of publish from entry i of its snapshot on, on the current list. */
  function AfterAnswers(list: seq<Subscriber>, snapshot: seq<Subscriber>, i: nat, kind: EventType,
                        answers: nat -> bool): seq<Subscriber>
    requires i <= |snapshot|
    decreases |snapshot| - i
  {
    if i == |snapshot| then list
    else
      var sub := snapshot[i];
      var list' := if Matches(sub, kind) && !answers(i) then RemovePair(list, sub.fn, sub.ctx) else list;
      AfterAnswers(list', snapshot, i + 1, kind, answers)
  }

  /** The answers of callbacks that depend on the pair alone. */
  function PairAnswers(snapshot: seq<Subscriber>, keeps: (nat, nat) -> bool): nat -> bool {
    (k: nat) => k < |snapshot| && keeps(snapshot[k].fn, snapshot[k].ctx)
  }

  ghost predicate AnswersAreOf(snapshot: seq<Subscriber>, i: nat, answers: nat -> bool, keeps: (nat, nat) -> bool) {
    forall k :: i <= k < |snapshot| ==> answers(k) == keeps(snapshot[k].fn, snapshot[k].ctx)
  }

  lemma {:induction false} AnswersOfPairs(list: seq<Subscriber>, snapshot: seq<Subscriber>, i: nat, kind: EventType,
                                          answers: nat -> bool, keeps: (nat, nat) -> bool)
    requires i <= |snapshot| && AnswersAreOf(snapshot, i, answers, keeps)
    ensures AfterAnswers(list, snapshot, i, kind, answers) == AfterPublish(list, snapshot[i..], kind, keeps)
    decreases |snapshot| - i
  {
    hide AfterAnswers, AfterPublish, RemovePair;
    if i == |snapshot| {
      AnswersEnd(list, snapshot, kind, answers);
      PublishEnd(list, kind, keeps);
      assert snapshot[i..] == [];
    } else {
      var sub := snapshot[i];
      AnswersStep(list, snapshot, i, kind, answers);
      PublishStep(list, snapshot, i, kind, keeps);
      AnswersOfPairs(if Quits(sub, kind, keeps) then RemovePair(list, sub.fn, sub.ctx) else list,
                     snapshot, i + 1, kind, answers, keeps);
    }
  }

  lemma PublishStep(list: seq<Subscriber>, snapshot: seq<Subscriber>, i: nat, kind: EventType,
                    keeps: (nat, nat) -> bool)
    requires i < |snapshot|
    ensures var sub := snapshot[i];
            var list' := if Quits(sub, kind, keeps) then RemovePair(list, sub.fn, sub.ctx) else list;
            AfterPublish(list, snapshot[i..], kind, keeps) == AfterPublish(list', snapshot[i + 1..], kind, keeps)
  {
    hide RemovePair;
    assert snapshot[i..][1..] == snapshot[i + 1..];
  }

  lemma PublishEnd(list: seq<Subscriber>, kind: EventType, keeps: (nat, nat) -> bool)
    ensures AfterPublish(list, [], kind, keeps) == list
  {
  }

  function Matching(list: seq<Subscriber>, kind: EventType): seq<Subscriber> {
    if list == [] then []
    else (if Matches(list[0], kind) then [list[0]] else []) + Matching(list[1..], kind)
  }

  /** The loop of publish over the rest of its snapshot, on the current list. */
  function AfterPublish(list: seq<Subscriber>, rest: seq<Subscriber>, kind: EventType,
                        keeps: (nat, nat) -> bool): seq<Subscriber>
    decreases |rest|
  {
    if rest == [] then list
    else if Matches(rest[0], kind) && !keeps(rest[0].fn, rest[0].ctx)
    then AfterPublish(RemovePair(list, rest[0].fn, rest[0].ctx), rest[1..], kind, keeps)
    else AfterPublish(list, rest[1..], kind, keeps)
  }

  /** The entry was called and asked to be removed. */
  predicate Quits(sub: Subscriber, kind: EventType, keeps: (nat, nat) -> bool) {
    Matches(sub, kind) && !keeps(sub.fn, sub.ctx)
  }

  /** The list one would expect: everything but the entries that quit. */
  function Survivors(list: seq<Subscriber>, kind: EventType, keeps: (nat, nat) -> bool): (r: seq<Subscriber>)
    ensures forall s :: s in r <==> s in list && !Quits(s, kind, keeps)
  {
    if list == [] then []
    else (if Quits(list[0], kind, keeps) then [] else [list[0]]) + Survivors(list[1..], kind, keeps)
  }

  /** An entry the event does not concern stands before an entry of the same pair that quits. */
  ghost predicate Shadowed(list: seq<Subscriber>, kind: EventType, keeps: (nat, nat) -> bool) {
    list != [] && (Shadows(list[0], list[1..], kind, keeps) || Shadowed(list[1..], kind, keeps))
  }

  ghost predicate Shadows(a: Subscriber, later: seq<Subscriber>, kind: EventType, keeps: (nat, nat) -> bool) {
    exists b :: b in later && ShadowPair(a, b, kind, keeps)
  }

  ghost predicate ShadowPair(a: Subscriber, b: Subscriber, kind: EventType, keeps: (nat, nat) -> bool) {
    SamePair(a, b.fn, b.ctx) && !Quits(a, kind, keeps) && Quits(b, kind, keeps)
  }

  /** Main result: with callbacks that answer by their pair, publish leaves exactly the survivors
      if and only if no entry is shadowed. */
  lemma PublishLeavesSurvivorsIff(list: seq<Subscriber>, kind: EventType, keeps: (nat, nat) -> bool)
    ensures AfterAnswers(list, list, 0, kind, PairAnswers(list, keeps)) == Survivors(list, kind, keeps)
            <==> !Shadowed(list, kind, keeps)
  {
    AnswersOfPairs(list, list, 0, kind, PairAnswers(list, keeps), keeps);
    assert list[0..] == list;
    SurvivorsIff(list, kind, keeps);
  }

  lemma SurvivorsIff(list: seq<Subscriber>, kind: EventType, keeps: (nat, nat) -> bool)
    ensures AfterPublish(list, list, kind, keeps) == Survivors(list, kind, keeps) <==> !Shadowed(list, kind, keeps)
  {
    assert [] + list == list && [] + Survivors(list, kind, keeps) == Survivors(list, kind, keeps);
    PublishRestIff([], list, kind, keeps);
  }

  lemma RemoveBehind(kept: seq<Subscriber>, rest: seq<Subscriber>)
    requires rest != [] && forall k :: 0 <= k < |kept| ==> !SamePair(kept[k], rest[0].fn, rest[0].ctx)
    ensures RemovePair(kept + rest, rest[0].fn, rest[0].ctx) == kept + rest[1..]
  {
    FirstPairIs(kept + rest, rest[0].fn, rest[0].ctx, |kept|);
    assert (kept + rest)[..|kept|] == kept && (kept + rest)[|kept| + 1..] == rest[1..];
  }

  lemma {:induction false} PublishOnlyRemoves(list: seq<Subscriber>, rest: seq<Subscriber>, kind: EventType,
                                              keeps: (nat, nat) -> bool)
    ensures multiset(AfterPublish(list, rest, kind, keeps)) <= multiset(list)
    decreases |rest|
  {
    hide RemovePair, FirstPair, RemoveAt;
    if rest != [] {
      if Quits(rest[0], kind, keeps) {
        RemovePairCounts(list, rest[0].fn, rest[0].ctx);
        PublishOnlyRemoves(RemovePair(list, rest[0].fn, rest[0].ctx), rest[1..], kind, keeps);
      } else {
        PublishOnlyRemoves(list, rest[1..], kind, keeps);
      }
    }
  }

  lemma RemoveAtCounts(list: seq<Subscriber>, i: nat)
    requires i < |list|
    ensures multiset(RemoveAt(list, i)) == multiset(list) - multiset{list[i]}
  {
    assert list == list[..i] + [list[i]] + list[i + 1..];
  }

  lemma RemovePairCounts(list: seq<Subscriber>, fn: nat, ctx: nat)
    ensures var i := FirstPair(list, fn, ctx);
            multiset(RemovePair(list, fn, ctx)) ==
            if i < |list| then multiset(list) - multiset{list[i]} else multiset(list)
  {
    var i := FirstPair(list, fn, ctx);
    if i < |list| {
      RemoveAtCounts(list, i);
    }
  }

  lemma {:induction false} SurvivorsKeepCount(list: seq<Subscriber>, kind: EventType, keeps: (nat, nat) -> bool,
                                              s: Subscriber)
    requires !Quits(s, kind, keeps)
    ensures multiset(Survivors(list, kind, keeps))[s] == multiset(list)[s]
  {
    hide Survivors, Quits;
    if list == [] {
      SurvivorsOfNone(kind, keeps);
    } else {
      SurvivorsKeepCount(list[1..], kind, keeps, s);
      SurvivorsStep(list, kind, keeps);
      assert list == [list[0]] + list[1..];
    }
  }

  ghost predicate ShadowAhead(kept: seq<Subscriber>, rest: seq<Subscriber>, kind: EventType,
                              keeps: (nat, nat) -> bool)
  {
    (exists a :: a in kept && Shadows(a, rest, kind, keeps)) || Shadowed(rest, kind, keeps)
  }

  ghost predicate NoneQuits(kept: seq<Subscriber>, kind: EventType, keeps: (nat, nat) -> bool) {
    forall a :: a in kept ==> !Quits(a, kind, keeps)
  }

  /** A shadow ahead is cast on the next entry, or is still ahead after it. */
  lemma ShadowMoves(kept: seq<Subscriber>, rest: seq<Subscriber>, kind: EventType, keeps: (nat, nat) -> bool)
    requires rest != [] && NoneQuits(kept, kind, keeps)
    ensures var sub := rest[0];
            var kept' := if Quits(sub, kind, keeps) then kept else kept + [sub];
            && NoneQuits(kept', kind, keeps)
            && (ShadowAhead(kept, rest, kind, keeps) <==>
                  (Quits(sub, kind, keeps) && exists a :: a in kept && ShadowPair(a, sub, kind, keeps))
                  || ShadowAhead(kept', rest[1..], kind, keeps))
  {
    hide Quits;
    var sub := rest[0];
    forall a
      ensures Shadows(a, rest, kind, keeps) <==>
              ShadowPair(a, sub, kind, keeps) || Shadows(a, rest[1..], kind, keeps)
    {
      ShadowsStep(a, rest, kind, keeps);
    }
    var kept' := if Quits(sub, kind, keeps) then kept else kept + [sub];
    assert forall a :: a in kept' <==> a in kept || (!Quits(sub, kind, keeps) && a == sub);
    assert Quits(sub, kind, keeps) ==> !Shadows(sub, rest[1..], kind, keeps);
  }

  lemma ShadowsStep(a: Subscriber, rest: seq<Subscriber>, kind: EventType, keeps: (nat, nat) -> bool)
    requires rest != []
    ensures Shadows(a, rest, kind, keeps) <==> ShadowPair(a, rest[0], kind, keeps) || Shadows(a, rest[1..], kind, keeps)
  {
    hide ShadowPair;
    assert forall b :: b in rest <==> b == rest[0] || b in rest[1..];
  }

  lemma SurvivorsOfNone(kind: EventType, keeps: (nat, nat) -> bool)
    ensures Survivors([], kind, keeps) == []
  {
  }

  lemma SurvivorsStep(rest: seq<Subscriber>, kind: EventType, keeps: (nat, nat) -> bool)
    requires rest != []
    ensures Survivors(rest, kind, keeps) ==
            if Quits(rest[0], kind, keeps) then Survivors(rest[1..], kind, keeps)
            else [rest[0]] + Survivors(rest[1..], kind, keeps)
  {
  }

  /** Publish over `rest`, when `kept` are the survivors so far. */
  lemma {:induction false} PublishRestIff(kept: seq<Subscriber>, rest: seq<Subscriber>, kind: EventType,
                                          keeps: (nat, nat) -> bool)
    requires NoneQuits(kept, kind, keeps)
    ensures AfterPublish(kept + rest, rest, kind, keeps) == kept + Survivors(rest, kind, keeps)
            <==> !ShadowAhead(kept, rest, kind, keeps)
    decreases |rest|
  {
    hide Shadowed, Shadows, ShadowAhead, Survivors, NoneQuits, AfterPublish, RemovePair, ShadowPair, Quits;
    if rest == [] {
      NothingAhead(kept, kind, keeps);
      PublishEnd(kept, kind, keeps);
      assert kept + rest == kept && kept + [] == kept;
    } else {
      var sub, tail := rest[0], rest[1..];
      ShadowMoves(kept, rest, kind, keeps);
      PublishOne(kept, rest, kind, keeps);
      if !Quits(sub, kind, keeps) {
        PublishRestIff(kept + [sub], tail, kind, keeps);
      } else if exists a :: a in kept && ShadowPair(a, sub, kind, keeps) {
        WrongOneRemoved(kept, rest, kind, keeps);
      } else {
        NoPairKept(kept, sub, kind, keeps);
        RemoveBehind(kept, rest);
        PublishRestIff(kept, tail, kind, keeps);
      }
    }
  }

  /** One turn, on both sides of the comparison. */
  lemma PublishOne(kept: seq<Subscriber>, rest: seq<Subscriber>, kind: EventType, keeps: (nat, nat) -> bool)
    requires rest != []
    ensures var sub, tail, list := rest[0], rest[1..], kept + rest;
            if Quits(sub, kind, keeps)
            then AfterPublish(list, rest, kind, keeps) ==
                 AfterPublish(RemovePair(list, sub.fn, sub.ctx), tail, kind, keeps)
                 && Survivors(rest, kind, keeps) == Survivors(tail, kind, keeps)
            else AfterPublish(list, rest, kind, keeps) == AfterPublish(kept + [sub] + tail, tail, kind, keeps)
                 && kept + Survivors(rest, kind, keeps) == kept + [sub] + Survivors(tail, kind, keeps)
  {
    hide Survivors, AfterPublish, RemovePair;
    var sub, tail := rest[0], rest[1..];
    assert rest[0..] == rest;
    PublishStep(kept + rest, rest, 0, kind, keeps);
    SurvivorsStep(rest, kind, keeps);
    if !Quits(sub, kind, keeps) {
      assert rest == [sub] + tail;
      Reassociate(kept, [sub], tail);
      Reassociate(kept, [sub], Survivors(tail, kind, keeps));
    }
  }

  lemma NothingAhead(kept: seq<Subscriber>, kind: EventType, keeps: (nat, nat) -> bool)
    ensures !ShadowAhead(kept, [], kind, keeps) && Survivors([], kind, keeps) == []
  {
  }

  lemma NoPairKept(kept: seq<Subscriber>, sub: Subscriber, kind: EventType, keeps: (nat, nat) -> bool)
    requires NoneQuits(kept, kind, keeps) && Quits(sub, kind, keeps)
    requires !exists a :: a in kept && ShadowPair(a, sub, kind, keeps)
    ensures forall k :: 0 <= k < |kept| ==> !SamePair(kept[k], sub.fn, sub.ctx)
  {
    forall k | 0 <= k < |kept| ensures !SamePair(kept[k], sub.fn, sub.ctx) {
      assert kept[k] in kept && !ShadowPair(kept[k], sub, kind, keeps);
    }
  }

  lemma WrongOneRemoved(kept: seq<Subscriber>, rest: seq<Subscriber>, kind: EventType, keeps: (nat, nat) -> bool)
    requires rest != [] && Quits(rest[0], kind, keeps)
    requires exists a :: a in kept && ShadowPair(a, rest[0], kind, keeps)
    requires NoneQuits(kept, kind, keeps)
    ensures AfterPublish(kept + rest, rest, kind, keeps) != kept + Survivors(rest, kind, keeps)
  {
    hide AfterPublish, Survivors, RemovePair, Quits;
    var list, sub := kept + rest, rest[0];
    var f := FirstPair(list, sub.fn, sub.ctx);
    var a :| a in kept && ShadowPair(a, sub, kind, keeps);
    var k :| 0 <= k < |kept| && kept[k] == a;
    assert list[k] == a && f <= k && list[f] == kept[f];
    var e := list[f];
    RemovePairCounts(list, sub.fn, sub.ctx);
    PublishOne(kept, rest, kind, keeps);
    PublishOnlyRemoves(RemovePair(list, sub.fn, sub.ctx), rest[1..], kind, keeps);
    assert e in kept && !Quits(e, kind, keeps);
    SurvivorsKeepCount(rest, kind, keeps, e);
    assert multiset(kept + Survivors(rest, kind, keeps))[e] == multiset(list)[e];
  }

  lemma {:induction false} DistinctAreUnshadowed(list: seq<Subscriber>, kind: EventType, keeps: (nat, nat) -> bool)
    requires forall j, i :: 0 <= j < i < |list| ==> !SamePair(list[j], list[i].fn, list[i].ctx)
    ensures !Shadowed(list, kind, keeps)
  {
    if list != [] {
      assert forall k :: 0 <= k < |list[1..]| ==> list[1..][k] == list[k + 1];
      DistinctAreUnshadowed(list[1..], kind, keeps);
    }
  }

  /** With distinct pairs an answer belongs to its pair, so whatever the callbacks answer, the
      list left is the old one without the entries that answered false. */
  lemma DistinctPairsSurvive(list: seq<Subscriber>, kind: EventType, answers: nat -> bool)
    returns (keeps: (nat, nat) -> bool)
    requires forall j, i :: 0 <= j < i < |list| ==> !SamePair(list[j], list[i].fn, list[i].ctx)
    ensures forall k :: 0 <= k < |list| ==>
              (Quits(list[k], kind, keeps) <==> Matches(list[k], kind) && !answers(k))
    ensures AfterAnswers(list, list, 0, kind, answers) == Survivors(list, kind, keeps)
  {
    keeps := (fn: nat, ctx: nat) => answers(FirstPair(list, fn, ctx));
    forall k: nat | k < |list| ensures FirstPair(list, list[k].fn, list[k].ctx) == k {
      FirstPairIs(list, list[k].fn, list[k].ctx, k);
    }
    DistinctAreUnshadowed(list, kind, keeps);
    AnswersOfPairs(list, list, 0, kind, answers, keeps);
    assert list[0..] == list;
    SurvivorsIff(list, kind, keeps);
  }

  /** Two subscriptions of one pair: the one the event concerns quits, the other one goes. */
  lemma WrongOneGoes()
    ensures var other, quitter := Subscriber(1, 1, ToolCall), Subscriber(1, 1, MessageSent);
            var list, keeps := [other, quitter], (fn: nat, ctx: nat) => false;
            && AfterAnswers(list, list, 0, MessageSent, PairAnswers(list, keeps)) == [quitter]
            && Survivors(list, MessageSent, keeps) == [other]
            && Shadowed(list, MessageSent, keeps)
  {
    var other, quitter := Subscriber(1, 1, ToolCall), Subscriber(1, 1, MessageSent);
    var list, keeps := [other, quitter], (fn: nat, ctx: nat) => false;
    assert list[1..] == [quitter] && [quitter][1..] == [];
    assert ShadowPair(other, quitter, MessageSent, keeps);
    assert RemovePair(list, 1, 1) == [quitter];
    assert Survivors([quitter], MessageSent, keeps) == [];
    AnswersStep(list, list, 0, MessageSent, PairAnswers(list, keeps));
    AnswersStep(list, list, 1, MessageSent, PairAnswers(list, keeps));
    AnswersEnd([quitter], list, MessageSent, PairAnswers(list, keeps));
  }

  // ----- whatever the callbacks answer

  type Pair = (nat, nat)

  function PairOf(sub: Subscriber): Pair {
    (sub.fn, sub.ctx)
  }

  /** The k-th entry is called and answers false. */
  predicate QuitsAt(list: seq<Subscriber>, kind: EventType, answers: nat -> bool, k: nat)
    requires k < |list|
  {
    Matches(list[k], kind) && !answers(k)
  }

  /** The pairs of the entries from i on that answer false, as often as they do. */
  function FalseFrom(list: seq<Subscriber>, i: nat, kind: EventType, answers: nat -> bool): multiset<Pair>
    requires i <= |list|
    decreases |list| - i
  {
    if i == |list| then multiset{}
    else FalseFrom(list, i + 1, kind, answers) +
         if QuitsAt(list, kind, answers, i) then multiset{PairOf(list[i])} else multiset{}
  }

  /** The list without the first entries of each pair, as many as the multiset holds of it. */
  function DropFirst(list: seq<Subscriber>, gone: multiset<Pair>): seq<Subscriber> {
    if list == [] then []
    else if PairOf(list[0]) in gone then DropFirst(list[1..], gone - multiset{PairOf(list[0])})
    else [list[0]] + DropFirst(list[1..], gone)
  }

  lemma {:induction false} DropNone(list: seq<Subscriber>)
    ensures DropFirst(list, multiset{}) == list
  {
    if list != [] { DropNone(list[1..]); }
  }

  lemma FirstPairStep(list: seq<Subscriber>, fn: nat, ctx: nat)
    requires list != []
    ensures FirstPair(list, fn, ctx) == if SamePair(list[0], fn, ctx) then 0 else 1 + FirstPair(list[1..], fn, ctx)
  {
  }

  lemma RemoveAtStep(list: seq<Subscriber>, i: nat)
    requires i < |list|
    ensures RemoveAt(list, i) == if i == 0 then list[1..] else [list[0]] + RemoveAt(list[1..], i - 1)
  {
    if i > 0 {
      assert list[..i] == [list[0]] + list[1..][..i - 1] && list[i + 1..] == list[1..][i..];
    }
  }

  lemma RemovePairStep(list: seq<Subscriber>, fn: nat, ctx: nat)
    requires list != []
    ensures RemovePair(list, fn, ctx) ==
            if SamePair(list[0], fn, ctx) then list[1..] else [list[0]] + RemovePair(list[1..], fn, ctx)
  {
    hide FirstPair, RemoveAt;
    var i := FirstPair(list, fn, ctx);
    FirstPairStep(list, fn, ctx);
    if i < |list| { RemoveAtStep(list, i); } else { assert list == [list[0]] + list[1..]; }
  }

  /** Removing a pair is dropping one more of its entries. */
  lemma {:induction false} DropOneMore(list: seq<Subscriber>, fn: nat, ctx: nat, gone: multiset<Pair>)
    ensures DropFirst(RemovePair(list, fn, ctx), gone) == DropFirst(list, gone + multiset{(fn, ctx)})
  {
    hide RemovePair;
    if list == [] {
      assert RemovePair(list, fn, ctx) == [] by { RemoveFromNone(fn, ctx); }
    } else {
      RemovePairStep(list, fn, ctx);
      var head, tail := list[0], list[1..];
      if SamePair(head, fn, ctx) {
        assert gone + multiset{(fn, ctx)} - multiset{PairOf(head)} == gone;
      } else {
        var less := RemovePair(tail, fn, ctx);
        assert ([head] + less)[1..] == less;
        if PairOf(head) in gone {
          assert gone + multiset{(fn, ctx)} - multiset{PairOf(head)} ==
                 gone - multiset{PairOf(head)} + multiset{(fn, ctx)};
          DropOneMore(tail, fn, ctx, gone - multiset{PairOf(head)});
        } else {
          DropOneMore(tail, fn, ctx, gone);
        }
      }
    }
  }

  lemma RemoveFromNone(fn: nat, ctx: nat)
    ensures RemovePair([], fn, ctx) == []
  {
  }

  /** Main result: whatever the callbacks answer, publish removes of each pair its first entries,
      as many as there were false answers for the pair. */
  lemma {:induction false} PublishDropsFirst(list: seq<Subscriber>, snapshot: seq<Subscriber>, i: nat,
                                             kind: EventType, answers: nat -> bool)
    requires i <= |snapshot|
    ensures AfterAnswers(list, snapshot, i, kind, answers) == DropFirst(list, FalseFrom(snapshot, i, kind, answers))
    decreases |snapshot| - i
  {
    hide RemovePair, DropFirst, AfterAnswers;
    if i == |snapshot| {
      AnswersEnd(list, snapshot, kind, answers);
      DropNone(list);
    } else {
      var sub := snapshot[i];
      AnswersStep(list, snapshot, i, kind, answers);
      var quits := QuitsAt(snapshot, kind, answers, i);
      var list' := if quits then RemovePair(list, sub.fn, sub.ctx) else list;
      PublishDropsFirst(list', snapshot, i + 1, kind, answers);
      var later := FalseFrom(snapshot, i + 1, kind, answers);
      if quits {
        DropOneMore(list, sub.fn, sub.ctx, later);
      } else {
        assert later + multiset{} == later;
      }
    }
  }

  // ----- which entries those are

  /** The entries of the pair among the first k. */
  function Before(list: seq<Subscriber>, k: nat, p: Pair): nat
    requires k <= |list|
  {
    if k == 0 then 0 else Before(list, k - 1, p) + if PairOf(list[k - 1]) == p then 1 else 0
  }

  /** The k-th entry is among the first of its pair that go. */
  predicate Goes(list: seq<Subscriber>, kind: EventType, answers: nat -> bool, k: nat)
    requires k < |list|
  {
    Before(list, k, PairOf(list[k])) < FalseFrom(list, 0, kind, answers)[PairOf(list[k])]
  }

  /** The entries from i on of which `gone` does not hold. */
  function KeepFrom(list: seq<Subscriber>, i: nat, gone: multiset<Pair>): seq<Subscriber>
    requires i <= |list|
    decreases |list| - i
  {
    if i == |list| then []
    else (if Before(list, i, PairOf(list[i])) < gone[PairOf(list[i])] then [] else [list[i]]) +
         KeepFrom(list, i + 1, gone)
  }

  lemma {:induction false} DropFirstKeeps(list: seq<Subscriber>, i: nat, gone: multiset<Pair>, left: multiset<Pair>)
    requires i <= |list|
    requires forall p :: left[p] == if Before(list, i, p) < gone[p] then gone[p] - Before(list, i, p) else 0
    ensures DropFirst(list[i..], left) == KeepFrom(list, i, gone)
    decreases |list| - i
  {
    if i < |list| {
      var p := PairOf(list[i]);
      assert list[i..][0] == list[i] && list[i..][1..] == list[i + 1..];
      DropFirstKeeps(list, i + 1, gone, if p in left then left - multiset{p} else left);
    }
  }

  /** The list left holds exactly the entries that do not go, each in its place. */
  lemma PublishKeeps(list: seq<Subscriber>, kind: EventType, answers: nat -> bool)
    ensures AfterAnswers(list, list, 0, kind, answers) == KeepFrom(list, 0, FalseFrom(list, 0, kind, answers))
  {
    hide DropFirst, KeepFrom, FalseFrom, AfterAnswers;
    var gone := FalseFrom(list, 0, kind, answers);
    PublishDropsFirst(list, list, 0, kind, answers);
    assert list[0..] == list;
    DropFirstKeeps(list, 0, gone, gone);
  }

  lemma FalseStep(list: seq<Subscriber>, i: nat, kind: EventType, answers: nat -> bool, p: Pair)
    requires i < |list|
    ensures FalseFrom(list, i, kind, answers)[p] == FalseFrom(list, i + 1, kind, answers)[p] +
              if QuitsAt(list, kind, answers, i) && PairOf(list[i]) == p then 1 else 0
  {
    hide QuitsAt;
  }

  lemma BeforeStep(list: seq<Subscriber>, i: nat, p: Pair)
    requires i < |list|
    ensures Before(list, i + 1, p) == Before(list, i, p) + if PairOf(list[i]) == p then 1 else 0
  {
  }

  lemma {:induction false} ManyFalse(list: seq<Subscriber>, i: nat, k: nat, kind: EventType, answers: nat -> bool)
    requires i <= k < |list| && QuitsAt(list, kind, answers, k)
    requires forall j :: i <= j < k && PairOf(list[j]) == PairOf(list[k]) ==> QuitsAt(list, kind, answers, j)
    ensures FalseFrom(list, i, kind, answers)[PairOf(list[k])] >
            Before(list, k, PairOf(list[k])) - Before(list, i, PairOf(list[k]))
    decreases k - i
  {
    hide FalseFrom, Before, QuitsAt, PairOf;
    FalseStep(list, i, kind, answers, PairOf(list[k]));
    if i < k {
      BeforeStep(list, i, PairOf(list[k]));
      ManyFalse(list, i + 1, k, kind, answers);
    }
  }

  lemma {:induction false} FewFalse(list: seq<Subscriber>, i: nat, k: nat, kind: EventType, answers: nat -> bool,
                                    p: Pair)
    requires i <= |list| && k <= |list|
    requires forall j :: k <= j < |list| && PairOf(list[j]) == p ==> !QuitsAt(list, kind, answers, j)
    ensures FalseFrom(list, i, kind, answers)[p] <= if i < k then Before(list, k, p) - Before(list, i, p) else 0
    decreases |list| - i
  {
    hide Before, QuitsAt, PairOf;
    if i < |list| {
      hide FalseFrom;
      FalseStep(list, i, kind, answers, p);
      BeforeStep(list, i, p);
      FewFalse(list, i + 1, k, kind, answers, p);
    }
  }

  lemma {:induction false} BeforeGrows(list: seq<Subscriber>, j: nat, k: nat, p: Pair)
    requires j <= k <= |list|
    ensures Before(list, j, p) <= Before(list, k, p)
    decreases k
  {
    if j < k { BeforeGrows(list, j, k - 1, p); }
  }

  /** An entry that stays stands before one of its pair that answers false. */
  ghost predicate OutOfOrder(list: seq<Subscriber>, kind: EventType, answers: nat -> bool) {
    exists j, k :: 0 <= j < k < |list| && PairOf(list[j]) == PairOf(list[k]) &&
      !QuitsAt(list, kind, answers, j) && QuitsAt(list, kind, answers, k)
  }

  /** Main result: the entries that go are those that answered false exactly when no entry that
      answered otherwise, or was not called, stands before one of its pair that did. */
  lemma RightOnesGoIff(list: seq<Subscriber>, kind: EventType, answers: nat -> bool)
    ensures (forall k: nat :: k < |list| ==> (Goes(list, kind, answers, k) <==> QuitsAt(list, kind, answers, k)))
            <==> !OutOfOrder(list, kind, answers)
  {
    hide FalseFrom, Before, QuitsAt;
    if OutOfOrder(list, kind, answers) {
      var j, k :| 0 <= j < k < |list| && PairOf(list[j]) == PairOf(list[k]) &&
        !QuitsAt(list, kind, answers, j) && QuitsAt(list, kind, answers, k);
      BeforeGrows(list, j, k, PairOf(list[k]));
      assert Goes(list, kind, answers, k) ==> Goes(list, kind, answers, j);
    } else {
      forall k: nat | k < |list| ensures Goes(list, kind, answers, k) <==> QuitsAt(list, kind, answers, k) {
        var p := PairOf(list[k]);
        BeforeNone(list, p);
        if QuitsAt(list, kind, answers, k) {
          ManyFalse(list, 0, k, kind, answers);
        } else {
          FewFalse(list, 0, k, kind, answers, p);
        }
      }
    }
  }

  lemma BeforeNone(list: seq<Subscriber>, p: Pair)
    ensures Before(list, 0, p) == 0
  {
  }

  /** Two concerned entries of one pair, the first of which answers true and the second false:
      the first one goes. */
  lemma TrueThenFalse()
    ensures var first, second := Subscriber(1, 1, EventCount), Subscriber(1, 1, MessageSent);
            var list, answers := [first, second], (k: nat) => k == 0;
            && AfterAnswers(list, list, 0, MessageSent, answers) == [second]
            && OutOfOrder(list, MessageSent, answers)
  {
    var first, second := Subscriber(1, 1, EventCount), Subscriber(1, 1, MessageSent);
    var list, answers := [first, second], (k: nat) => k == 0;
    AnswersStep(list, list, 0, MessageSent, answers);
    AnswersStep(list, list, 1, MessageSent, answers);
    AnswersEnd([second], list, MessageSent, answers);
    assert RemovePair(list, 1, 1) == [second];
    assert !QuitsAt(list, MessageSent, answers, 0) && QuitsAt(list, MessageSent, answers, 1);
  }

  // ----- which entries an event concerns

  /** The entries called are those with the event's type or the wildcard as their filter, in order:
      one entry is decided by its filter, and lists are gone through piece by piece. */
  lemma {:induction false} MatchingIsByFilter(a: seq<Subscriber>, sub: Subscriber, b: seq<Subscriber>, kind: EventType)
    ensures Matching([], kind) == []
    ensures Matching(a + [sub] + b, kind) ==
            Matching(a, kind) + (if sub.filter == EventCount || sub.filter == kind then [sub] else []) +
            Matching(b, kind)
  {
    if a == [] {
      assert ([] + [sub] + b)[1..] == b;
    } else {
      assert (a + [sub] + b)[0] == a[0] && (a + [sub] + b)[1..] == a[1..] + [sub] + b;
      MatchingIsByFilter(a[1..], sub, b, kind);
    }
  }
}
