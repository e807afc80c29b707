/** Route resolution of src/agent_routing.c: seven passes over the in-scope bindings
    find the one with the least (tier, position). */
module RouteResolution {
  import opened Wrappers
  import opened SessionKeys
  import opened Text

  datatype Match = Match(
    channel: Option<string>,
    accountId: Option<string>,
    peer: Option<Peer>,
    guildId: Option<string>,
    teamId: Option<string>,
    roles: seq<Option<string>>)

  datatype Binding = Binding(agentId: string, match_: Match)

  datatype RouteInput = RouteInput(
    channel: Option<string>,
    accountId: Option<string>,
    peer: Option<Peer>,
    parentPeer: Option<Peer>,
    guildId: Option<string>,
    teamId: Option<string>,
    memberRoles: seq<Option<string>>)

  datatype MatchedBy =
    MatchedPeer | MatchedParentPeer | MatchedGuildRoles | MatchedGuild | MatchedTeam
    | MatchedAccount | MatchedChannelOnly | MatchedDefault

  predicate ValidBinding(b: Binding) {
    b.match_.peer.Some? ==> ValidPeer(b.match_.peer.value)
  }

  ghost predicate ValidBindings(bindings: seq<Binding>) {
    forall i :: 0 <= i < |bindings| ==> ValidBinding(bindings[i])
  }

  predicate ValidInput(input: RouteInput) {
    && (input.peer.Some? ==> ValidPeer(input.peer.value))
    && (input.parentPeer.Some? ==> ValidPeer(input.parentPeer.value))
  }

  /** A constraint that is absent holds; a present one needs an equal input. */
  predicate Meets(constraint: Option<string>, given: Option<string>) {
    constraint.Some? ==> given == constraint
  }

  predicate InScope(b: Binding, input: RouteInput) {
    Meets(b.match_.channel, input.channel) && Meets(b.match_.accountId, input.accountId)
  }

  predicate HasMatchingRole(roles: seq<Option<string>>, memberRoles: seq<Option<string>>) {
    exists i :: 0 <= i < |roles| && roles[i].Some? && roles[i] in memberRoles
  }

  predicate AllConstraintsMatch(b: Binding, input: RouteInput, checkPeer: Option<Peer>)
    requires ValidBinding(b) && (checkPeer.Some? ==> ValidPeer(checkPeer.value))
  {
    var m := b.match_;
    && (m.peer.Some? ==>
      && checkPeer.Some?
      && m.peer.value.kind == checkPeer.value.kind
      && m.peer.value.id.Some? && checkPeer.value.id.Some?
      && EffectiveId(m.peer.value) == EffectiveId(checkPeer.value))
    && Meets(m.guildId, input.guildId)
    && Meets(m.teamId, input.teamId)
    && (m.roles != [] ==> HasMatchingRole(m.roles, input.memberRoles))
  }

  predicate IsAccountOnly(b: Binding) {
    var m := b.match_;
    m.peer.None? && m.guildId.None? && m.teamId.None? && m.roles == []
  }

  /** Whether the pass of a tier is made at all. */
  predicate TierIsTried(tier: MatchedBy, input: RouteInput)
    requires ValidInput(input)
  {
    match tier
    case MatchedPeer => input.peer.Some?
    case MatchedParentPeer =>
      input.parentPeer.Some? && input.parentPeer.value.id.Some? && EffectiveId(input.parentPeer.value) != ""
    case MatchedGuildRoles => input.guildId.Some? && input.memberRoles != []
    case MatchedGuild => input.guildId.Some?
    case MatchedTeam => input.teamId.Some?
    case MatchedAccount => true
    case MatchedChannelOnly => true
    case MatchedDefault => false
  }

  /** The test a pass applies to each candidate. */
  predicate TierAccepts(tier: MatchedBy, b: Binding, input: RouteInput)
    requires ValidBinding(b) && ValidInput(input)
  {
    var m := b.match_;
    match tier
    case MatchedPeer => m.peer.Some? && AllConstraintsMatch(b, input, input.peer)
    case MatchedParentPeer => m.peer.Some? && AllConstraintsMatch(b, input, input.parentPeer)
    case MatchedGuildRoles => m.guildId.Some? && m.roles != [] && AllConstraintsMatch(b, input, input.peer)
    case MatchedGuild => m.guildId.Some? && m.roles == [] && AllConstraintsMatch(b, input, input.peer)
    case MatchedTeam => m.teamId.Some? && AllConstraintsMatch(b, input, input.peer)
    case MatchedAccount => m.accountId.Some? && IsAccountOnly(b)
    case MatchedChannelOnly => m.accountId.None? && IsAccountOnly(b)
    case MatchedDefault => false
  }

  predicate Eligible(b: Binding, input: RouteInput, tier: MatchedBy)
    requires ValidBinding(b) && ValidInput(input)
  {
    InScope(b, input) && TierIsTried(tier, input) && TierAccepts(tier, b, input)
  }

  function Rank(tier: MatchedBy): (r: nat)
    ensures r <= 8
  {
    match tier
    case MatchedPeer => 1
    case MatchedParentPeer => 2
    case MatchedGuildRoles => 3
    case MatchedGuild => 4
    case MatchedTeam => 5
    case MatchedAccount => 6
    case MatchedChannelOnly => 7
    case MatchedDefault => 8
  }

  // ----- the specification

  /** Binding i wins at a tier: nothing is eligible at an earlier tier, nor earlier at this one. */
  ghost predicate Wins(bindings: seq<Binding>, input: RouteInput, tier: MatchedBy, i: nat)
    requires ValidBindings(bindings) && ValidInput(input)
  {
    && i < |bindings| && Eligible(bindings[i], input, tier)
    && forall j, t :: 0 <= j < |bindings| && Eligible(bindings[j], input, t) ==>
         Rank(tier) < Rank(t) || (tier == t && i <= j)
  }

  ghost predicate NobodyEligible(bindings: seq<Binding>, input: RouteInput)
    requires ValidBindings(bindings) && ValidInput(input)
  {
    forall j, t :: 0 <= j < |bindings| ==> !Eligible(bindings[j], input, t)
  }

  function DefaultAgent(agents: seq<Option<string>>): string {
    if agents != [] && agents[0].Some? then agents[0].value else "main"
  }

  /** The answer (agent, reason) is the one the bindings call for. */
  ghost predicate IsAnswer(bindings: seq<Binding>, input: RouteInput, agents: seq<Option<string>>,
                           agent: string, tier: MatchedBy)
    requires ValidBindings(bindings) && ValidInput(input)
  {
    || (exists i: nat :: Wins(bindings, input, tier, i) && agent == bindings[i].agentId)
    || (NobodyEligible(bindings, input) && tier == MatchedDefault && agent == DefaultAgent(agents))
  }

  lemma WinnerComesFirst(bindings: seq<Binding>, input: RouteInput, tier: MatchedBy, i: nat, t: MatchedBy, j: nat)
    requires ValidBindings(bindings) && ValidInput(input) && Wins(bindings, input, tier, i)
    requires j < |bindings| && Eligible(bindings[j], input, t)
    ensures Rank(tier) < Rank(t) || (tier == t && i <= j)
  {
  }

  lemma WinnerIsUnique(bindings: seq<Binding>, input: RouteInput, t: MatchedBy, i: nat, t': MatchedBy, i': nat)
    requires ValidBindings(bindings) && ValidInput(input)
    requires Wins(bindings, input, t, i) && Wins(bindings, input, t', i')
    ensures t == t' && i == i'
  {
    WinnerComesFirst(bindings, input, t, i, t', i');
    WinnerComesFirst(bindings, input, t', i', t, i);
  }

  /** There is only one answer. */
  lemma AnswerIsUnique(bindings: seq<Binding>, input: RouteInput, agents: seq<Option<string>>,
                       a: string, t: MatchedBy, a': string, t': MatchedBy)
    requires ValidBindings(bindings) && ValidInput(input)
    requires IsAnswer(bindings, input, agents, a, t) && IsAnswer(bindings, input, agents, a', t')
    ensures a == a' && t == t'
  {
    hide Eligible;
    if !NobodyEligible(bindings, input) {
      var i: nat :| Wins(bindings, input, t, i) && a == bindings[i].agentId;
      var i': nat :| Wins(bindings, input, t', i') && a' == bindings[i'].agentId;
      WinnerIsUnique(bindings, input, t, i, t', i');
    } else {
      assert forall i: nat, t :: i < |bindings| ==> !Eligible(bindings[i], input, t);
    }
  }

  // ----- the code

  /** One tier's loop over the candidates. */
  method FirstAccepted(candidates: array<Binding>, nc: nat, input: RouteInput, tier: MatchedBy)
    returns (at: Option<nat>)
    requires nc <= candidates.Length && ValidBindings(candidates[..nc]) && ValidInput(input)
    ensures at.Some? ==> at.value < nc && TierAccepts(tier, candidates[at.value], input) &&
                         forall k :: 0 <= k < at.value ==> !TierAccepts(tier, candidates[k], input)
    ensures at.None? ==> forall k :: 0 <= k < nc ==> !TierAccepts(tier, candidates[k], input)
  {
    hide TierAccepts;
    assert forall k :: 0 <= k < nc ==> candidates[k] == candidates[..nc][k];
    var i := 0;
    while i < nc
      invariant 0 <= i <= nc
      invariant forall k :: 0 <= k < i ==> !TierAccepts(tier, candidates[k], input)
    {
      if TierAccepts(tier, candidates[i], input) { return Some(i); }
      i := i + 1;
    }
    return None;
  }

  /** The candidates are the in-scope bindings in list order; origin[k] is where candidate k stood. */
  ghost predicate AreCandidates(bindings: seq<Binding>, input: RouteInput, candidates: seq<Binding>, origin: seq<nat>) {
    && |candidates| == |origin|
    && (forall k :: 0 <= k < |origin| ==>
          origin[k] < |bindings| && candidates[k] == bindings[origin[k]] && InScope(candidates[k], input))
    && (forall k, l :: 0 <= k < l < |origin| ==> origin[k] < origin[l])
    && (forall j :: 0 <= j < |bindings| && InScope(bindings[j], input) ==> j in origin)
  }

  method CollectCandidates(bindings: seq<Binding>, input: RouteInput)
    returns (candidates: array<Binding>, nc: nat, ghost origin: seq<nat>)
    ensures fresh(candidates) && nc <= candidates.Length
    ensures AreCandidates(bindings, input, candidates[..nc], origin)
  {
    hide AreCandidates, InScope;
    candidates := new Binding[|bindings|];
    nc := 0;
    origin := [];
    var i := 0;
    NoCandidates(input);
    assert bindings[..0] == [] && candidates[..0] == [];
    while i < |bindings|
      invariant 0 <= i <= |bindings| && nc <= i
      invariant AreCandidates(bindings[..i], input, candidates[..nc], origin)
    {
      ghost var was := candidates[..nc];
      NextCandidate(bindings, input, i, was, origin);
      if InScope(bindings[i], input) {
        candidates[nc] := bindings[i];
        nc := nc + 1;
        origin := origin + [i];
        assert candidates[..nc] == was + [bindings[i]];
      }
      i := i + 1;
    }
    assert bindings[..i] == bindings;
  }

  lemma NoCandidates(input: RouteInput)
    ensures AreCandidates([], input, [], [])
  {
  }

  lemma NextCandidate(bindings: seq<Binding>, input: RouteInput, i: nat, was: seq<Binding>, o: seq<nat>)
    requires i < |bindings| && AreCandidates(bindings[..i], input, was, o)
    ensures if InScope(bindings[i], input)
            then AreCandidates(bindings[..i + 1], input, was + [bindings[i]], o + [i])
            else AreCandidates(bindings[..i + 1], input, was, o)
  {
    hide InScope;
    forall j | 0 <= j < i && InScope(bindings[..i + 1][j], input) ensures j in o {
      assert bindings[..i][j] == bindings[..i + 1][j];
    }
    forall k | 0 <= k < |o| ensures bindings[..i + 1][o[k]] == bindings[..i][o[k]] {}
    if InScope(bindings[i], input) { assert (o + [i])[|o|] == i; }
  }

  /** No binding is eligible at any tier before the first n. */
  ghost predicate NoneBefore(bindings: seq<Binding>, input: RouteInput, n: nat)
    requires ValidBindings(bindings) && ValidInput(input)
  {
    forall j, t :: 0 <= j < |bindings| && Eligible(bindings[j], input, t) ==> Rank(t) > n
  }

  /** One tier's outcome over the candidates, read back as a statement about all bindings. */
  lemma TierOutcome(bindings: seq<Binding>, input: RouteInput, candidates: seq<Binding>, origin: seq<nat>,
                    tier: MatchedBy, at: Option<nat>)
    requires ValidBindings(bindings) && ValidBindings(candidates) && ValidInput(input)
    requires AreCandidates(bindings, input, candidates, origin)
    requires tier != MatchedDefault && NoneBefore(bindings, input, Rank(tier) - 1)
    requires at.Some? ==> TierIsTried(tier, input) && at.value < |candidates| &&
                          TierAccepts(tier, candidates[at.value], input) &&
                          forall k :: 0 <= k < at.value ==> !TierAccepts(tier, candidates[k], input)
    requires at.None? && TierIsTried(tier, input) ==>
               forall k :: 0 <= k < |candidates| ==> !TierAccepts(tier, candidates[k], input)
    ensures at.Some? ==> Wins(bindings, input, tier, origin[at.value])
    ensures at.None? ==> NoneBefore(bindings, input, Rank(tier))
  {
    hide InScope, TierIsTried, TierAccepts;
    forall j, t | 0 <= j < |bindings| && Eligible(bindings[j], input, t)
      ensures Rank(t) > Rank(tier) || (t == tier && at.Some? && origin[at.value] <= j)
    {
      if t == tier {
        var k :| 0 <= k < |origin| && origin[k] == j;
        assert candidates[k] == bindings[j];
        assert at.Some? && at.value <= k;
      }
    }
  }

  /** A key is None where C leaves it undefined. */
  datatype ResolvedRoute = ResolvedRoute(
    sessionKey: Option<string>, mainSessionKey: Option<string>, agentId: string,
    channel: Option<string>, accountId: Option<string>, matchedBy: MatchedBy)

  /** What follows the search. An agent id that overruns its buffer has no keys, and a null
      channel, which the search admits, no session key: it is handed to the formatter. */
  function BuildRoute(agent: string, input: RouteInput, tier: MatchedBy): (r: ResolvedRoute)
    requires ValidInput(input)
    ensures r.sessionKey.None? <==> Overruns(Some(agent), NORM_BUF) || input.channel.None?
    ensures r.mainSessionKey.None? <==> Overruns(Some(agent), NORM_BUF)
  {
    var overrun := Overruns(Some(agent), NORM_BUF);
    ResolvedRoute(
      if overrun || input.channel.None? then None
      else Some(SessionKey(Some(agent), input.channel.value, input.peer, PerChannelPeer, None, [])),
      if overrun then None else Some(MainSessionKey(Some(agent))),
      agent, input.channel, input.accountId, tier)
  }

  /** One pass of the search: the guard, then the loop. */
  method TryTier(ghost bindings: seq<Binding>, candidates: array<Binding>, nc: nat, ghost origin: seq<nat>,
                 input: RouteInput, tier: MatchedBy) returns (at: Option<nat>)
    requires nc <= candidates.Length && ValidBindings(bindings) && ValidInput(input) && tier != MatchedDefault
    requires AreCandidates(bindings, input, candidates[..nc], origin)
    requires NoneBefore(bindings, input, Rank(tier) - 1)
    ensures at.Some? ==> at.value < nc && at.value < |origin| && Wins(bindings, input, tier, origin[at.value]) &&
                         candidates[at.value] == bindings[origin[at.value]]
    ensures at.None? ==> NoneBefore(bindings, input, Rank(tier))
  {
    hide TierIsTried, TierAccepts, InScope;
    assert ValidBindings(candidates[..nc]);
    assert forall k :: 0 <= k < nc ==> candidates[k] == candidates[..nc][k];
    at := None;
    if TierIsTried(tier, input) {
      at := FirstAccepted(candidates, nc, input, tier);
    }
    TierOutcome(bindings, input, candidates[..nc], origin, tier, at);
  }

  /** Tiers are tried in turn; the first accepted candidate of the first successful tier decides. */
  method ResolveRoute(input: RouteInput, bindings: seq<Binding>, agents: seq<Option<string>>)
    returns (route: ResolvedRoute)
    requires ValidBindings(bindings) && ValidInput(input)
    ensures IsAnswer(bindings, input, agents, route.agentId, route.matchedBy)
    ensures route == BuildRoute(route.agentId, input, route.matchedBy)
  {
    hide SessionKey, MainSessionKey, Eligible, AreCandidates, Wins;
    var candidates, nc, origin := CollectCandidates(bindings, input);
    var at := TryTier(bindings, candidates, nc, origin, input, MatchedPeer);
    if at.Some? { return BuildRoute(candidates[at.value].agentId, input, MatchedPeer); }
    at := TryTier(bindings, candidates, nc, origin, input, MatchedParentPeer);
    if at.Some? { return BuildRoute(candidates[at.value].agentId, input, MatchedParentPeer); }
    at := TryTier(bindings, candidates, nc, origin, input, MatchedGuildRoles);
    if at.Some? { return BuildRoute(candidates[at.value].agentId, input, MatchedGuildRoles); }
    at := TryTier(bindings, candidates, nc, origin, input, MatchedGuild);
    if at.Some? { return BuildRoute(candidates[at.value].agentId, input, MatchedGuild); }
    at := TryTier(bindings, candidates, nc, origin, input, MatchedTeam);
    if at.Some? { return BuildRoute(candidates[at.value].agentId, input, MatchedTeam); }
    at := TryTier(bindings, candidates, nc, origin, input, MatchedAccount);
    if at.Some? { return BuildRoute(candidates[at.value].agentId, input, MatchedAccount); }
    at := TryTier(bindings, candidates, nc, origin, input, MatchedChannelOnly);
    if at.Some? { return BuildRoute(candidates[at.value].agentId, input, MatchedChannelOnly); }
    NobodyAfterAllTiers(bindings, input);
    return BuildRoute(DefaultAgent(agents), input, MatchedDefault);
  }

  lemma NobodyAfterAllTiers(bindings: seq<Binding>, input: RouteInput)
    requires ValidBindings(bindings) && ValidInput(input) && NoneBefore(bindings, input, 7)
    ensures NobodyEligible(bindings, input)
  {
    forall j, t | 0 <= j < |bindings| ensures !Eligible(bindings[j], input, t) {
      assert !Eligible(bindings[j], input, MatchedDefault);
      assert Rank(t) <= 7 || t == MatchedDefault;
    }
  }

  // ----- consequences

  function Without(bindings: seq<Binding>, d: nat): seq<Binding>
    requires d < |bindings|
  {
    bindings[..d] + bindings[d + 1..]
  }

  lemma WithoutAt(bindings: seq<Binding>, d: nat, j: nat)
    requires d < |bindings| && j < |bindings| - 1
    ensures Without(bindings, d)[j] == bindings[if j < d then j else j + 1]
  {
  }

  lemma WithoutIsValid(bindings: seq<Binding>, d: nat)
    requires ValidBindings(bindings) && d < |bindings|
    ensures ValidBindings(Without(bindings, d))
  {
  }

  lemma WinnerSurvives(bindings: seq<Binding>, input: RouteInput, d: nat, tier: MatchedBy, i: nat)
    requires ValidBindings(bindings) && ValidInput(input) && d < |bindings| && i != d
    requires Wins(bindings, input, tier, i)
    ensures ValidBindings(Without(bindings, d))
    ensures Wins(Without(bindings, d), input, tier, if i < d then i else i - 1)
  {
    hide Eligible;
    WithoutIsValid(bindings, d);
    var rest := Without(bindings, d);
    var i' := if i < d then i else i - 1;
    WithoutAt(bindings, d, i');
    forall j: nat, t | j < |rest| && Eligible(rest[j], input, t)
      ensures Rank(tier) < Rank(t) || (tier == t && i' <= j)
    {
      WithoutAt(bindings, d, j);
      WinnerComesFirst(bindings, input, tier, i, t, if j < d then j else j + 1);
    }
  }

  /** Deleting any binding that did not win leaves the answer as it was. */
  lemma DeletingALoserChangesNothing(bindings: seq<Binding>, input: RouteInput, agents: seq<Option<string>>,
                                     d: nat, agent: string, tier: MatchedBy)
    requires ValidBindings(bindings) && ValidInput(input) && d < |bindings|
    requires IsAnswer(bindings, input, agents, agent, tier)
    requires !Wins(bindings, input, tier, d)
    ensures ValidBindings(Without(bindings, d))
    ensures IsAnswer(Without(bindings, d), input, agents, agent, tier)
  {
    hide Eligible;
    WithoutIsValid(bindings, d);
    var rest := Without(bindings, d);
    if NobodyEligible(bindings, input) {
      forall j: nat, t | j < |rest| ensures !Eligible(rest[j], input, t) {
        WithoutAt(bindings, d, j);
      }
    } else {
      var i: nat :| Wins(bindings, input, tier, i) && agent == bindings[i].agentId;
      WinnerSurvives(bindings, input, d, tier, i);
      WithoutAt(bindings, d, if i < d then i else i - 1);
    }
  }

  /** A guild-with-roles, guild or team winner carries no peer constraint: a binding with one
      that holds is already taken by the peer tier. */
  lemma LaterWinnersHaveNoPeer(bindings: seq<Binding>, input: RouteInput, tier: MatchedBy, i: nat)
    requires ValidBindings(bindings) && ValidInput(input) && Wins(bindings, input, tier, i)
    requires Rank(tier) >= 3
    ensures bindings[i].match_.peer.None?
  {
    assert Rank(MatchedPeer) < Rank(tier);
    assert !Eligible(bindings[i], input, MatchedPeer);
  }

  /** A team winner carries no guild constraint either. */
  lemma TeamWinnersHaveNoGuild(bindings: seq<Binding>, input: RouteInput, i: nat)
    requires ValidBindings(bindings) && ValidInput(input) && Wins(bindings, input, MatchedTeam, i)
    ensures bindings[i].match_.guildId.None?
  {
    if Eligible(bindings[i], input, MatchedGuildRoles) {
      WinnerComesFirst(bindings, input, MatchedTeam, i, MatchedGuildRoles, i);
    } else if Eligible(bindings[i], input, MatchedGuild) {
      WinnerComesFirst(bindings, input, MatchedTeam, i, MatchedGuild, i);
    }
  }

  /** Whatever the tier, every constraint the winner carries is met by the input, the peer
      constraint by the peer itself or by its parent. */
  lemma WinnerMeetsItsConstraints(bindings: seq<Binding>, input: RouteInput, tier: MatchedBy, i: nat)
    requires ValidBindings(bindings) && ValidInput(input) && Wins(bindings, input, tier, i)
    ensures InScope(bindings[i], input)
    ensures || AllConstraintsMatch(bindings[i], input, input.peer)
            || AllConstraintsMatch(bindings[i], input, input.parentPeer)
    ensures AllConstraintsMatch(bindings[i], input, input.peer) || tier == MatchedParentPeer
  {
    assert Eligible(bindings[i], input, tier);
  }

  /** The exact condition for falling back on the default agent. */
  lemma DefaultIffNothingApplies(bindings: seq<Binding>, input: RouteInput, agents: seq<Option<string>>,
                                 agent: string, tier: MatchedBy)
    requires ValidBindings(bindings) && ValidInput(input) && IsAnswer(bindings, input, agents, agent, tier)
    ensures tier == MatchedDefault <==> NobodyEligible(bindings, input)
    ensures tier == MatchedDefault ==> agent == DefaultAgent(agents)
  {
    if i: nat :| Wins(bindings, input, tier, i) {
      assert Eligible(bindings[i], input, tier);
    }
  }

  // ----- the constraints, field by field

  /** One peer constraint and one peer: the same kind, and the same text as far as it is meant. */
  predicate NamesSamePeer(p: Peer, q: Peer)
    requires ValidPeer(p) && ValidPeer(q)
  {
    && p.kind == q.kind && p.id.Some? && q.id.Some?
    && p.id.value[..if p.idLen == 0 then |p.id.value| else p.idLen] ==
       q.id.value[..if q.idLen == 0 then |q.id.value| else q.idLen]
  }

  predicate ChannelAndAccountHold(m: Match, input: RouteInput) {
    && (m.channel.Some? ==> input.channel == m.channel)
    && (m.accountId.Some? ==> input.accountId == m.accountId)
  }

  /** All other constraints, the peer one being held against `peer`. */
  predicate OthersHold(m: Match, input: RouteInput, peer: Option<Peer>)
    requires (m.peer.Some? ==> ValidPeer(m.peer.value)) && (peer.Some? ==> ValidPeer(peer.value))
  {
    && (m.peer.Some? ==> peer.Some? && NamesSamePeer(m.peer.value, peer.value))
    && (m.guildId.Some? ==> input.guildId == m.guildId)
    && (m.teamId.Some? ==> input.teamId == m.teamId)
    && (m.roles != [] ==> exists r: Option<string> :: r.Some? && r in m.roles && r in input.memberRoles)
  }

  lemma AllConstraintsIff(b: Binding, input: RouteInput, peer: Option<Peer>)
    requires ValidBinding(b) && (peer.Some? ==> ValidPeer(peer.value))
    ensures AllConstraintsMatch(b, input, peer) <==> OthersHold(b.match_, input, peer)
  {
    var m := b.match_;
    if r: Option<string> :| r.Some? && r in m.roles && r in input.memberRoles {
      var i :| 0 <= i < |m.roles| && m.roles[i] == r;
      assert HasMatchingRole(m.roles, input.memberRoles);
    }
    if m.peer.Some? && peer.Some? && m.peer.value.id.Some? && peer.value.id.Some? {
      MeantText(m.peer.value);
      MeantText(peer.value);
    }
  }

  lemma MeantText(p: Peer)
    requires ValidPeer(p) && p.id.Some?
    ensures EffectiveId(p) == p.id.value[..if p.idLen == 0 then |p.id.value| else p.idLen]
  {
    assert p.id.value[..|p.id.value|] == p.id.value;
  }

  /** What each tier asks of a binding, on the raw fields, both ways. */
  lemma EligibleIff(b: Binding, input: RouteInput, tier: MatchedBy)
    requires ValidBinding(b) && ValidInput(input)
    ensures var m := b.match_;
            Eligible(b, input, tier) <==>
            && ChannelAndAccountHold(m, input)
            && match tier
               case MatchedPeer => input.peer.Some? && m.peer.Some? && OthersHold(m, input, input.peer)
               case MatchedParentPeer =>
                 && input.parentPeer.Some? && input.parentPeer.value.id.Some? && input.parentPeer.value.id.value != ""
                 && m.peer.Some? && OthersHold(m, input, input.parentPeer)
               case MatchedGuildRoles =>
                 && input.guildId.Some? && input.memberRoles != []
                 && m.guildId.Some? && m.roles != [] && OthersHold(m, input, input.peer)
               case MatchedGuild =>
                 input.guildId.Some? && m.guildId.Some? && m.roles == [] && OthersHold(m, input, input.peer)
               case MatchedTeam => input.teamId.Some? && m.teamId.Some? && OthersHold(m, input, input.peer)
               case MatchedAccount =>
                 m.accountId.Some? && m.peer.None? && m.guildId.None? && m.teamId.None? && m.roles == []
               case MatchedChannelOnly =>
                 m.accountId.None? && m.peer.None? && m.guildId.None? && m.teamId.None? && m.roles == []
               case MatchedDefault => false
  {
    hide AllConstraintsMatch, OthersHold;
    AllConstraintsIff(b, input, input.peer);
    AllConstraintsIff(b, input, input.parentPeer);
    if input.parentPeer.Some? && input.parentPeer.value.id.Some? { MeantText(input.parentPeer.value); }
  }

  /** A winner's constraints hold, field by field. */
  lemma WinnerFields(bindings: seq<Binding>, input: RouteInput, tier: MatchedBy, i: nat)
    requires ValidBindings(bindings) && ValidInput(input) && Wins(bindings, input, tier, i)
    ensures var m := bindings[i].match_;
            && (m.channel.Some? ==> input.channel == m.channel)
            && (m.accountId.Some? ==> input.accountId == m.accountId)
            && (m.guildId.Some? ==> input.guildId == m.guildId)
            && (m.teamId.Some? ==> input.teamId == m.teamId)
            && (m.roles != [] ==> exists r: Option<string> :: r.Some? && r in m.roles && r in input.memberRoles)
            && (m.peer.Some? ==>
                  || (input.peer.Some? && NamesSamePeer(m.peer.value, input.peer.value))
                  || (input.parentPeer.Some? && NamesSamePeer(m.peer.value, input.parentPeer.value)))
  {
    hide NamesSamePeer;
    EligibleIff(bindings[i], input, tier);
  }

  /** The seven tiers in the order in which they are tried. */
  const TIERS: seq<MatchedBy> := [
    MatchedPeer, MatchedParentPeer, MatchedGuildRoles, MatchedGuild, MatchedTeam, MatchedAccount, MatchedChannelOnly
  ]

  /** The winner's tier is not behind that of any eligible binding, nor its place at the same tier. */
  lemma WinnerIsFirst(bindings: seq<Binding>, input: RouteInput, tier: MatchedBy, i: nat, j: nat, l: nat)
    requires ValidBindings(bindings) && ValidInput(input) && Wins(bindings, input, tier, i)
    requires j < |bindings| && l < |TIERS| && Eligible(bindings[j], input, TIERS[l])
    ensures exists k :: 0 <= k <= l && tier == TIERS[k] && (k == l ==> i <= j)
  {
    hide Eligible;
    WinnerComesFirst(bindings, input, tier, i, TIERS[l], j);
    TierHasPlace(bindings, input, tier, i);
    var k :| 0 <= k < |TIERS| && tier == TIERS[k];
    assert Rank(TIERS[k]) == k + 1 && Rank(TIERS[l]) == l + 1;
  }

  lemma TierHasPlace(bindings: seq<Binding>, input: RouteInput, tier: MatchedBy, i: nat)
    requires ValidBindings(bindings) && ValidInput(input) && Wins(bindings, input, tier, i)
    ensures exists k :: 0 <= k < |TIERS| && tier == TIERS[k]
  {
    assert Eligible(bindings[i], input, tier) && tier != MatchedDefault;
    match tier
    case MatchedPeer => assert tier == TIERS[0];
    case MatchedParentPeer => assert tier == TIERS[1];
    case MatchedGuildRoles => assert tier == TIERS[2];
    case MatchedGuild => assert tier == TIERS[3];
    case MatchedTeam => assert tier == TIERS[4];
    case MatchedAccount => assert tier == TIERS[5];
    case MatchedChannelOnly => assert tier == TIERS[6];
    case MatchedDefault => assert false;
  }

  /** A binding for telegram does not answer a message on discord: the first named agent does, or
      `main` when there is none. */
  lemma OtherChannelIsNotAnswered(input: RouteInput, agents: seq<Option<string>>, agent: string, tier: MatchedBy)
    requires ValidInput(input) && input.channel == Some("discord")
    requires var sales := Binding("sales", Match(Some("telegram"), None, None, None, None, []));
             IsAnswer([sales], input, agents, agent, tier)
    ensures tier == MatchedDefault
    ensures agent == if agents != [] && agents[0].Some? then agents[0].value else "main"
  {
    var bindings := [Binding("sales", Match(Some("telegram"), None, None, None, None, []))];
    assert Some("telegram") != Some("discord") by { assert "telegram"[0] != "discord"[0]; }
    if i: nat :| Wins(bindings, input, tier, i) {
      WinnerFields(bindings, input, tier, i);
      assert false;
    }
  }

  /** What a route carries, and its keys for a direct chat: they are those of the agent that answers,
      under the per-channel-peer scope. */
  lemma RouteOfDirectChat(agent: string, input: RouteInput, tier: MatchedBy, chan: string, id: string)
    requires input.channel == Some(chan) && input.peer == Some(Peer(ChatDirect, Some(id), 0)) && |agent| < 64
    requires ValidInput(input)
    ensures var r, start := BuildRoute(agent, input, tier), "agent:" + Normalized(Some(agent), 64);
            && r.agentId == agent && r.channel == input.channel && r.accountId == input.accountId && r.matchedBy == tier
            && r.sessionKey == Some(start + ":" + chan + ":direct:" + id)
            && r.mainSessionKey == Some(start + ":main")
  {
    hide SessionKey, MainSessionKey, Normalized;
    DirectKeyTexts(Some(agent), chan, id, None);
  }
}
