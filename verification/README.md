# Verified models of the agent runtime

Dafny models of the self-contained algorithms and state machines of the agent runtime, with
proofs of what they promise. `dafny verify dfyconfig.toml` checks the whole project.

- `CronExpression`, `CronRendering`: the cron matcher of the service loop works on texts in local
  buffers; it is proved to compute the set-membership meaning of every rendered schedule.
- `ServiceClock`: the minute guard, the daily and weekly latches and the jittered proactive timer,
  over runs of any length with any clock readings, and over runs that skip no minute.
- `MessageBatcher`: joining consecutive messages of a sender in a 4096-byte buffer.
- `SessionKeys`, `ThreadKeys`, `RouteResolution`: normalisation, keys and the tiered route search.
- `ConfigTree`, `ConfigPath`, `ConfigMutator`: dotted paths, the JSON tree with its set, get and
  frame laws, and one edit of the configuration file.
- `TokenResolver`: resolving token references in place, pass after pass.
- `EventBus`, `BusInterleaving`, `BusAnswers`: the bus for one caller, and under any interleaving of
  threads with the mutex, the cell-by-cell critical sections and re-entrant callbacks explicit; and
  what the callbacks' answers do to the list.
- `CronScheduler`, `AgentCron`: the scheduler's arrays as a refinement of plain sequences, and
  the agent cron tick on top of it.
- `McpRegistry`: the process registry with the children it starts and reaps.
- `Crontab`: loading and compaction with the ownership of every string.
- `DisplayTruncation`: cutting UTF-8 (RFC 3629, sections 3 and 4) at a byte limit.
- `Text`, `Wrappers`: shared vocabulary.

The helper functions that the specifications are written with are themselves tied to raw fields,
characters and numbers by laws at the end of each module.

Where the source changes something step by step, the model is a method or a class over arrays and
fields, tied by its postcondition to a function on values; the lemmas are about that function.

## Findings

- An agent id of 64 or more characters whose 64th is a letter or digit makes `normalize_id` write its
  terminator one cell behind the 64-byte buffer. That is exactly when it happens
  (`SessionKeys.OverrunIff`; 64 letters do it, `SessionKeys.SixtyFourLettersOverrun`), so such an
  agent has no defined keys.
- The batching loop makes no progress on a message of 4094 or 4095 bytes, which the message type
  admits: it then repeats the same turn for ever. `MessageBatcher.BatchMessages` states that all
  messages are batched if and only if there is none, and reports where the loop stays
  (`MessageBatcher.LongMessageIsStuck`).
- `resolveRefs` never stops on cyclic references (`TokenResolver.CyclesNeverStop`, for one key that
  refers to itself `TokenResolver.SelfReferenceNeverStops`); on acyclic ones the number of passes is
  logarithmic in the longest chain, not linear.
- A publish removes of each (fn, ctx) pair the first entries, as many as there were false answers.
  The wrong ones go when an entry that is not concerned, or answers true, stands before one of its
  pair that answers false (`EventBus.RightOnesGoIff`, `EventBus.WrongOneGoes`,
  `EventBus.TrueThenFalse`).
- An entry that has been removed is still called by the publishes that have their place before the
  removal (`BusInterleaving.GonePairIsCalledIff`), so its context must outlive them.
- A direct chat's key prints the whole C string of an unlinked peer although `id_len` bounds the text
  that is looked up among the links, so two peers that mean the same id can have different keys
  (`SessionKeys.SameMeantPeerDifferentKeys`). `SessionKeys.KeyOfMeantPeerIff` says exactly when a key
  depends on the meant id alone.
- Under the per-account scope an account that is `group` or `channel`, or starts with one of them and
  a colon, lets a direct chat share the key of a group or channel chat, and no other account does
  (`SessionKeys.PerAccountSeparation`, `SessionKeys.ColonAccountCollides`); under the per-peer scope
  a channel named `direct` does (`SessionKeys.PerPeerKeys`, `SessionKeys.DirectMeetsGroup`).
- Setting `null` on a missing path creates the parents in memory but counts as unchanged and is not
  written (`ConfigMutator.NullIntoNoFile`). No other set that changes the tree goes unwritten
  (`ConfigMutator.UnwrittenSetIff`).
- A configuration path is trimmed before it is set and not before it is read: a set on ` tools.x`
  is written, and reading ` tools.x` is refused (`ConfigMutator.WrittenSetIsReadBack`,
  `ConfigMutator.PaddedPathIsNotReadBack`).
- An agent turn may call the scheduler whose job array the agent cron is walking. The array stays the
  scheduler's exactly when no addition finds it full (`AgentCron.RunCalls`), and the index names the
  same job exactly when neither it nor one before it is removed (`CronScheduler.IndexKeepsJobIff`). A
  job that removes itself has its turn recorded for the next job, which is then passed over
  (`AgentCron.SelfRemovalIsRecordedForTheNext`).
- The agent jobs are matched against a second reading of the clock, taken after the shell jobs. When
  those last into the next minute, that minute's agent jobs run twice and the earlier minute's not at
  all (`AgentCron.OncePerMinuteIff`, `AgentCron.SlowShellJobsRepeatAMinute`).
- A slash behind a single number in a cron atom is checked and then ignored
  (`CronRendering.StepOnExactIsIgnored`).

## Model

| member | source | states |
|---|---|---|
| `CronExpression.AtomMatches` | src/daemon.c:268-305 | an atom is accepted exactly when the rules for stars, ranges, steps and single numbers accept it, whatever its characters; the buffer edits never step outside the 32 bytes |
| `CronExpression.FieldMatches` | src/daemon.c:307-325 | a field matches exactly when one of its comma-separated atoms does |
| `CronExpression.CutFields` | src/daemon.c:336-351 | the in-place tokenising loop leaves the first five space-separated words in the buffer, each closed by a NUL |
| `CronExpression.ScheduleMatches` | src/daemon.c:327-358 | a schedule matches exactly when it is under 128 characters, has five words, and all five fields accept the time |
| `CronExpression.FieldPeel` | src/daemon.c:313-323 | the first atom decides, or the text behind the first comma does |
| `CronRendering.ParseDigits` | src/daemon.c:255-266 | the number reader inverts decimal printing on 0..999 |
| `CronRendering.ParseDigitsIff` | src/daemon.c:255-266 | the digits of a number are read exactly up to 999 |
| `CronRendering.SpelledNumber` | src/daemon.c:255-266 | white space in front of the digits and leading zeros do not matter |
| `CronRendering.SignedNumber` | src/daemon.c:255-266 | nor does a plus; a minus is for zero only |
| `CronRendering.OtherCharacterIsNoNumber` | src/daemon.c:255-266 | a text with any other character is no number |
| `CronRendering.OtherCharacterIsNoAtom` | src/daemon.c:268-305 | an atom with any other character but a slash and a star standing alone matches nothing |
| `CronRendering.NoAtoms` | src/daemon.c:268-305 | a name, a number over 999, a step of zero and a negative number match nothing |
| `CronRendering.MinusZeroIsZero` | src/daemon.c:290-304 | a dash at the front makes no range |
| `CronRendering.AtomLength` | src/daemon.c:272-274 | an atom of 31 characters fits the buffer, one of 32 does not |
| `CronRendering.ItemMeaning` | src/daemon.c:268-305 | the text of `*`, `*/s`, `n`, `lo-hi`, `lo-hi/s` is accepted on exactly the set of values it denotes |
| `CronRendering.FieldMeaning` | src/daemon.c:307-325 | a rendered comma list is accepted on the union of its items' sets |
| `CronRendering.CommaIsDisjunction` | src/daemon.c:313-323 | for any two texts f and g, `f,g` matches exactly when f or g does |
| `CronRendering.WordsOfSchedule` | src/daemon.c:336-351 | any number of separating spaces leaves the words of a rendered schedule unchanged |
| `CronRendering.ScheduleMeaning` | src/daemon.c:327-358 | a rendered schedule, with any spacing and any further words, matches exactly the times in all five sets, provided the text is under 128 characters, and nothing otherwise |
| `CronRendering.StepOnExactIsIgnored` | src/daemon.c:280-304 | `n/s` means just n |
| `ServiceClock.ServiceLoop.Tick` | src/daemon.c:915-1040 | one tick changes the five latches and does the work as the specification step says |
| `ServiceClock.CronMinutesIncrease` | src/daemon.c:917-919 | over any clock readings the cron body runs at strictly increasing minutes |
| `ServiceClock.DutyStep` | src/daemon.c:946-1034 | the hour, minute and weekday tests are positions in the day or week: when a duty is done and when its latch is set and cleared |
| `ServiceClock.AtMostOncePerPeriod` | src/daemon.c:946-1034 | over any clock readings consolidation and tuning are done at most once a day, community building at most once a week |
| `ServiceClock.LatchedIff` | src/daemon.c:949-1027 | a latch is set exactly when the duty was done and no body has run in the clearing hour since |
| `ServiceClock.DoneIff` | src/daemon.c:946-1034 | the exact condition, in terms of the run alone, under which a duty is done at a tick |
| `ServiceClock.EveryMinuteRuns` | src/daemon.c:917-919 | with a clock that skips no minute the body runs in every minute passed through |
| `ServiceClock.SteadyWindow` | src/daemon.c:949-1027 | on such a run a set latch lies between the duty's minute and its clearing hour |
| `ServiceClock.ExactlyOncePerPeriod` | src/daemon.c:946-1034 | on such a run, in every day (week) whose due minute is passed, the body of that minute does the duty exactly when the work is possible then, and no other tick of the period does it |
| `ServiceClock.TimerInvariant` | src/daemon.c:926-941 | an armed timer's time lies ahead, in the first half of the current hour |
| `ServiceClock.EveryHourArms` | src/daemon.c:926-938 | on a run that skips no minute the timer is armed exactly at the top of every hour |
| `ServiceClock.ArmedTimerFires` | src/daemon.c:926-941 | an armed timer fires once before anything else does, at or after its arming and at most 31 minutes of the clock later |
| `ServiceClock.FiringNeedsArming` | src/daemon.c:926-941 | over any clock readings two firings have an arming between them |
| `ServiceClock.ExactlyOneCheckInPerHour` | src/daemon.c:926-941 | on a run that passes through the first 32 minutes of an hour without skipping one, exactly one tick of that hour checks in, and in those minutes |
| `ServiceClock.FiringWaitsForJitter` | src/daemon.c:926-941 | over any clock readings an armed timer fires at the first body at or after the arming plus its jitter |
| `ServiceClock.JitterExample` | src/daemon.c:926-941 | 900 seconds of jitter are not over after one minute |
| `ServiceClock.WorkNeeds` | src/daemon.c:954-1027 | nothing is done without the memory or graph it works on |
| `ServiceClock.DutyHours` | src/daemon.c:954-1010 | consolidation at 3:00, tuning at 4:00, building on Sundays at 2:00 |
| `ServiceClock.ClearingHours` | src/daemon.c:951-1008 | a set latch is cleared by a body in the hours from 4:00, from 5:00, and on Mondays from 9:00, and by no other |
| `ServiceClock.EpochWeek` | src/daemon.c:947-1003 | local hours and weekdays, on known instants |
| `MessageBatcher.GatherBatch` | src/daemon.c:1078-1105 | the inner loop gathers a maximal run of one sender's messages whose newline-join fits the 4096-byte buffer, or nothing when the first message is oversized |
| `MessageBatcher.StopsOnlyWhenFull` | src/daemon.c:1078-1105 | a batch ends before a message of its sender only when text, newline and message have 4095 bytes or more |
| `MessageBatcher.ContentsByMessage` | src/daemon.c:1083-1092 | the contents are those of the non-empty messages, in order |
| `MessageBatcher.BatchMessages` | src/daemon.c:1071-1105 | the batches contain every non-empty message once and in order, if and only if no message is oversized; otherwise the loop stays at the first oversized message |
| `MessageBatcher.OversizedFrom` | src/daemon.c:1093-1094 | a message does not fit the empty buffer exactly from 4094 bytes on |
| `MessageBatcher.LongMessageIsStuck` | src/daemon.c:1071-1105 | one message of 4094 bytes keeps the loop at its first turn |
| `MessageBatcher.BatchTextSplits` | src/daemon.c:1087-1101 | a prompt of one-line messages splits back into those messages |
| `SessionKeys.NormalizeId` | src/agent_routing.c:20-44 | the in-place loops compute the normalised id, or overrun the buffer exactly when the id reaches its end with a letter or digit there |
| `SessionKeys.OverrunIff` | src/agent_routing.c:27-42 | the terminator, which stands behind the text without its trailing dashes, leaves the buffer exactly for those ids |
| `SessionKeys.SixtyFourLettersOverrun` | src/agent_routing.c:27-42 | 64 letters overrun the 64-byte buffer, 63 do not |
| `SessionKeys.NormalizedIsNormal` | src/agent_routing.c:20-44 | a normalised id is non-empty, of lower-case letters, digits and inner dashes |
| `SessionKeys.NormalizeFixpoint` | src/agent_routing.c:20-44 | an id is defined and unchanged exactly when it is normal and leaves room for the terminator |
| `SessionKeys.NormalizeIdempotent` | src/agent_routing.c:20-44 | normalising twice is normalising once |
| `SessionKeys.NormalizeIgnoresCase` | src/agent_routing.c:28-34 | ids that differ in case only normalise alike |
| `SessionKeys.NormalizedText` | src/agent_routing.c:20-44 | character by character: what a normal form is made of, and what is cut off around it |
| `SessionKeys.NormalizedToDefault` | src/agent_routing.c:22-41 | no id, an empty one and one without letters and digits give `default` |
| `SessionKeys.NormalizedLooksNoFurther` | src/agent_routing.c:27-34 | only the first characters, as many as the buffer has, are looked at |
| `SessionKeys.LinkedNameIs` | src/agent_routing.c:46-58 | the name is that of the first link that lists the peer, and there is none when no link does |
| `SessionKeys.DirectKeyTexts` | src/agent_routing.c:84-137 | the texts of a direct chat's keys, scope by scope, and of the main key |
| `SessionKeys.OtherKeyTexts` | src/agent_routing.c:80-137 | the texts of the keys of group and channel chats and of no chat |
| `SessionKeys.ResolveLinkedPeer` | src/agent_routing.c:46-58 | the first link that lists the peer gives its canonical name, else the peer itself |
| `SessionKeys.BuildSessionKeyWithScope` | src/agent_routing.c:67-137 | the key has the form its scope, chat kind and peer call for, unless the agent id overruns its buffer |
| `SessionKeys.PerChannelPeerKeys` | src/agent_routing.c:60-137 | under the per-channel-peer scope two inputs share a key exactly when normalised agent, channel, chat kind and peer name agree |
| `SessionKeys.PerPeerKeys` | src/agent_routing.c:84-130 | under the per-peer scope: exactly which inputs share a key; a direct chat meets another one only over a channel named `direct` |
| `SessionKeys.DirectMeetsGroup` | src/agent_routing.c:84-112 | a direct chat with `group:x` and group x of a channel named `direct` share a key |
| `SessionKeys.PerAccountKeys` | src/agent_routing.c:84-130 | under the per-account scope, with accounts free of colons and not named `group` or `channel`: a shared key means agreement in agent, channel, conversation and, for direct chats, account |
| `SessionKeys.PerAccountSeparation` | src/agent_routing.c:84-128 | under the per-account scope a direct chat can share a key with a group or channel chat exactly when its account up to the first colon is `group` or `channel` |
| `SessionKeys.KindNamedAccountCollides` | src/agent_routing.c:84-128 | for each such account, the two chats that share a key |
| `SessionKeys.ColonAccountCollides` | src/agent_routing.c:84-128 | a direct chat of account `group:7` and a group chat share a key |
| `SessionKeys.KeyOfMeantPeerIff` | src/agent_routing.c:84-128 | a key depends on the meant peer id alone exactly when it is not a direct chat's, or names no peer, or the peer is linked, or the whole C string is meant |
| `SessionKeys.SameMeantPeerDifferentKeys` | src/agent_routing.c:95-112 | `bob42` cut to three characters and `bob` mean the same peer and have different keys |
| `ThreadKeys.ResolveThreadParent` | src/agent_routing.c:164-178 | the pointer loop finds the last occurrence of the marker, overlapping ones included |
| `ThreadKeys.OccurrencesAreSevenApart` | src/agent_routing.c:167-173 | two occurrences of the marker overlap in at most its last colon |
| `ThreadKeys.ThreadParentIsBase` | src/agent_routing.c:153-178 | the parent of `base:thread:tid` is base exactly when tid neither contains the marker nor starts with `thread:` |
| `ThreadKeys.ThreadKeyText` | src/agent_routing.c:153-162 | the text of a thread key, with and without a thread id |
| `ThreadKeys.NestedThreadParent` | src/agent_routing.c:153-178 | parents of nested thread keys peel off one at a time |
| `RouteResolution.CollectCandidates` | src/agent_routing.c:290-299 | the candidates are the in-scope bindings in list order |
| `RouteResolution.FirstAccepted` | src/agent_routing.c:303-311 | one tier's loop finds the first candidate its test accepts |
| `RouteResolution.ResolveRoute` | src/agent_routing.c:283-392 | the route is that of the binding with the least (tier, position) among the eligible ones, else the default agent's; it has its keys unless the agent id overruns its buffer or there is no channel |
| `RouteResolution.AnswerIsUnique` | src/agent_routing.c:283-392 | the bindings and the input determine agent and reason |
| `RouteResolution.DeletingALoserChangesNothing` | src/agent_routing.c:301-386 | deleting a binding that did not win leaves the answer as it was |
| `RouteResolution.LaterWinnersHaveNoPeer` | src/agent_routing.c:328-368 | a winner at a guild, team or later tier carries no peer constraint |
| `RouteResolution.TeamWinnersHaveNoGuild` | src/agent_routing.c:328-368 | a team winner carries no guild constraint |
| `RouteResolution.WinnerMeetsItsConstraints` | src/agent_routing.c:233-261 | all constraints of the winner are met by the input, the peer one by the peer or its parent |
| `RouteResolution.EligibleIff` | src/agent_routing.c:197-392 | on the raw fields and both ways, what each tier asks of a binding |
| `RouteResolution.WinnerFields` | src/agent_routing.c:197-261 | a winner's channel, account, guild, team, role and peer constraints hold, field by field |
| `RouteResolution.WinnerIsFirst` | src/agent_routing.c:301-386 | no binding is eligible at a tier tried before the winner's, nor earlier at its own |
| `RouteResolution.OtherChannelIsNotAnswered` | src/agent_routing.c:197-210 | a binding for telegram does not answer a message on discord |
| `RouteResolution.RouteOfDirectChat` | src/agent_routing.c:263-281 | what a route carries, and its keys for a direct chat |
| `RouteResolution.DefaultIffNothingApplies` | src/agent_routing.c:388-391 | the default agent answers exactly when no binding is eligible |
| `ConfigTree.GetSet` | src/core/json.c:532-583 | an object reads the value set for the key and the old value for any other |
| `ConfigTree.GetRemove` | src/core/json.c:573-608 | removal with the last pair moved forward loses only the key |
| `ConfigTree.SetKeepsOrder` | src/core/json.c:532-571 | a set leaves the pairs in order and puts a new one last |
| `ConfigTree.RemoveMovesLast` | src/core/json.c:585-608 | a removal puts the last pair in the place of the one removed |
| `ConfigTree.SetFailsIffBlocked` | src/config_mutator.c:102-122 | setting fails exactly when a proper prefix of the path holds something other than an object |
| `ConfigTree.ReadSet` | src/config_mutator.c:87-122 | what was set is read back, at the path and below it |
| `ConfigTree.SetFrame` | src/config_mutator.c:87-122 | a path that is neither prefix nor extension reads as before, even when objects were created |
| `ConfigTree.SetTwice` | src/config_mutator.c:102-122 | a second set on the path overrides the first |
| `ConfigTree.SetWhatIsThere` | src/config_mutator.c:87-122 | setting the value that is there changes nothing |
| `ConfigTree.SetKeepsWellFormed` | src/config_mutator.c:102-122 | keys stay distinct in every object |
| `ConfigTree.ReadRemoved` | src/config_mutator.c:519-525 | a removed path is missing, with everything below it |
| `ConfigTree.RemoveFrame` | src/config_mutator.c:519-525 | removal leaves every path apart from its own alone |
| `ConfigTree.RemoveMissing` | src/config_mutator.c:519-525 | removing a missing path changes nothing, pair order included |
| `ConfigTree.RemoveUndoesSet` | src/config_mutator.c:102-122 | removing a path just set gives the tree back when its parent was already there |
| `ConfigPath.SplitPath` | src/config_mutator.c:31-84 | splitting succeeds exactly when the trimmed path is non-empty and has no empty segment, and gives its segments |
| `ConfigPath.CutDots` | src/config_mutator.c:48-54 | the first loop turns every dot into a NUL and counts the segments |
| `ConfigPath.CollectTokens` | src/config_mutator.c:62-73 | the second loop collects the non-empty segments |
| `ConfigPath.TokensJoin` | src/config_mutator.c:31-84 | the tokens joined with dots are the trimmed path |
| `ConfigPath.JoinedTokensSplit` | src/config_mutator.c:31-84 | any non-empty tokens without dots and blanks, joined and padded, are split into themselves |
| `ConfigPath.IsAllowedPath` | src/config_mutator.c:205-218 | a path is allowed exactly when it is on the exact list or extends a listed prefix |
| `ConfigPath.AllowedExamples` | src/config_mutator.c:205-218 | an exact entry allows itself only, a prefix what is below it only |
| `ConfigPath.TrimsSpacesAndTabs` | src/config_mutator.c:31-41 | spaces and tabs are trimmed, a newline is not |
| `ConfigMutator.Document.ValueAtPath` | src/config_mutator.c:87-98 | the walk reads the value at the path |
| `ConfigMutator.Document.EnsureAndWalk` | src/config_mutator.c:102-122 | creating the missing objects does not change what the set will give, and happens only when the set succeeds |
| `ConfigMutator.Document.SetValue` | src/config_mutator.c:478-518 | the set succeeds or leaves the tree as it was |
| `ConfigMutator.Document.RemoveValue` | src/config_mutator.c:519-525 | the unset removes the last token from the parent, if there is one |
| `ConfigMutator.ConfigFile.Mutate` | src/config_mutator.c:353-613 | which error or result is returned, and that only an applied edit whose printed value changed reaches the file and its backup; a backup that fails or is cut short stops nothing |
| `ConfigMutator.ConfigFile.GetPathValueJson` | src/config_mutator.c:272-351 | the printed value of an allowed path, `null` when it is missing, or which error stands in the way |
| `ConfigMutator.PlannedSet` | src/config_mutator.c:467-518 | a planned set makes its path read as the new value under the frame; the tree refuses it exactly when the way is blocked |
| `ConfigMutator.PlannedUnset` | src/config_mutator.c:519-525 | a planned unset makes its path missing under the frame |
| `ConfigMutator.PlannedValue` | src/config_mutator.c:467-518 | a set plans what the raw text parses to, and the raw text as a string when it does not parse |
| `ConfigMutator.BareWordIsString` | src/config_mutator.c:467-477 | setting an effort to the bare word `high` plans the string |
| `ConfigMutator.PlannedBefore` | src/config_mutator.c:391-434 | an edit starts from the object in the file, or from an empty one |
| `ConfigMutator.RefusedIff` | src/config_mutator.c:353-518 | exactly which requests are refused, and with which error |
| `ConfigMutator.ReadIff` | src/config_mutator.c:272-351 | exactly what a reader gets, or which error |
| `ConfigMutator.WrittenText` | src/config_mutator.c:551-563 | what is written ends with a newline, added only when there is none |
| `ConfigMutator.RestartExamples` | src/config_mutator.c:260-270 | which edits ask for a restart |
| `ConfigMutator.BackupIsOldFile` | src/config_mutator.c:564-580 | a backup that succeeds is the old file |
| `ConfigMutator.RepeatedSetIsNoChange` | src/config_mutator.c:545-549 | the same set on the written file plans no change |
| `ConfigMutator.NullOnMissingIsNoChange` | src/config_mutator.c:527-545 | setting null where nothing stands counts as unchanged |
| `ConfigMutator.UnwrittenSetIff` | src/config_mutator.c:467-549 | a successful set goes unwritten exactly when its value is there already, or is null where nothing stands; only the latter has changed the tree |
| `ConfigMutator.NullIntoNoFile` | src/config_mutator.c:467-549 | such a set: null for a path when there is no file |
| `ConfigMutator.WrittenSetIsReadBack` | src/config_mutator.c:272-613 | after a written set the reader of the same path gets the new value's text, or is refused when the path is allowed only once trimmed |
| `ConfigMutator.PaddedPathIsNotReadBack` | src/config_mutator.c:272-379 | a padded path that is set and then refused |
| `ConfigMutator.LeadingBlankIsNotAllowed` | src/config_mutator.c:205-218 | no path that starts with a blank is allowed as it stands |
| `TokenResolver.PassHalves` | design-tokens/build.ts:65-75 | a pass in any order halves the length of every chain |
| `TokenResolver.PassKeepsMeaning` | design-tokens/build.ts:65-75 | a pass keeps the value every chain leads to |
| `TokenResolver.LogarithmicallyManyPasses` | design-tokens/build.ts:60-78 | chains shorter than 2^n are resolved in at most n + 1 passes |
| `TokenResolver.AllEndIffAcyclic` | design-tokens/build.ts:69-73 | all chains end exactly when no key refers back to itself |
| `TokenResolver.CyclesNeverStop` | design-tokens/build.ts:63-76 | with a cycle every pass reports a change, so the loop never stops |
| `TokenResolver.SelfReferenceNeverStops` | design-tokens/build.ts:63-76 | one key that refers to itself keeps the loop going for ever |
| `TokenResolver.Pass` | design-tokens/build.ts:65-75 | the inner loop moves every reference at least one hop along its old chain and reports a change exactly when a reference could be followed |
| `TokenResolver.ResolveRefs` | design-tokens/build.ts:60-78 | on an acyclic map the loop stops and every key holds what its chain leads to, whatever the order |
| `TokenResolver.ReferenceIff` | design-tokens/build.ts:66-69 | a value is a reference exactly when it is a non-empty name without closing braces, in braces |
| `TokenResolver.DottedReference` | design-tokens/build.ts:60-78 | a dotted reference is resolved |
| `EventBus.Bus.Subscribe` | src/bus.c:86-101 | appends unless 16 subscribers are there |
| `EventBus.Bus.Unsubscribe` | src/bus.c:103-116 | removes the first entry with the pair, in place |
| `EventBus.Bus.Publish` | src/bus.c:118-137 | calls the entries of the snapshot that the event concerns, in order, and takes out the first entry of the pair of each that answers false, whatever the answers |
| `EventBus.MatchingIsByFilter` | src/bus.c:129-132 | the entries called are those with the wildcard or the event's type as their filter, in order |
| `EventBus.AnswersOfPairs` | src/bus.c:129-136 | callbacks that answer by their pair are a special case |
| `EventBus.PublishLeavesSurvivorsIff` | src/bus.c:118-137 | with callbacks that answer by their pair, an undisturbed publish leaves the list minus the entries that returned false exactly when none of those is preceded by a remaining entry of the same pair |
| `EventBus.DistinctPairsSurvive` | src/bus.c:118-137 | with distinct (fn, ctx) pairs and any answers the final list is the old one minus those that returned false |
| `EventBus.WrongOneGoes` | src/bus.c:118-137 | two entries of one pair with different filters: the entry not concerned is removed, the one that quit stays |
| `EventBus.PublishDropsFirst` | src/bus.c:118-137 | whatever the answers, publish removes of each pair the first entries, as many as answered false |
| `EventBus.PublishKeeps` | src/bus.c:118-137 | the list left holds exactly the entries that are not among those, in order |
| `EventBus.RightOnesGoIff` | src/bus.c:118-137 | whatever the answers, those entries are the ones that answered false exactly when none that did not stands before one of its pair that did |
| `EventBus.TrueThenFalse` | src/bus.c:118-137 | two concerned entries of one pair that answer true and false: the first goes |
| `BusInterleaving.StepKeepsInv` | src/bus.c:86-137 | every step of every thread keeps mutual exclusion, the array's relation to the list, and the progress of every publish |
| `BusInterleaving.RunKeepsInv` | src/bus.c:86-137 | the same over every interleaving of any number of threads |
| `BusInterleaving.CallbacksRunUnlocked` | src/bus.c:127-136 | no thread holds the mutex while its callback runs, and none waits for one it holds |
| `BusInterleaving.PublishesCallTheirSnapshot` | src/bus.c:121-136 | a finished publish has called exactly the matching positions of the list as it stood at the publish's own place among the completed calls, whatever others did meanwhile; no two share a place |
| `BusInterleaving.RunKeepsPlaces` | src/bus.c:118-137 | in every state the publishes among the completed calls and the publishes under way or finished correspond one to one |
| `BusInterleaving.GonePairIsCalledIff` | src/bus.c:103-136 | once a pair is gone it is called exactly by the publishes with a place before that which found it concerned on the list |
| `BusInterleaving.GonePairUnderWay` | src/bus.c:103-136 | only a publish with a place before that can still have it in its snapshot |
| `BusInterleaving.CalledOnceInOrder` | src/bus.c:129-132 | those positions are the matching ones, each once and in order |
| `BusInterleaving.ArrayIsReplayOfLog` | src/bus.c:86-127 | whenever the mutex is free the array holds what the completed calls, one after the other, leave; never over 16 |
| `BusInterleaving.SixteenSubscribers` | src/bus.c:86-101 | a subscription is the last one, up to 16 |
| `BusInterleaving.SomebodyCanStep` | src/bus.c:38-61 | no deadlock: a thread in the bus can step or waits for a holder that can |
| `BusAnswers.LoopsRemoveTheFalse` | src/bus.c:129-136 | over every interleaving, the pairs that answered false to a thread are, one for one and in order, those its publish loops have unsubscribed, and the one they have begun to |
| `BusAnswers.PublishAloneDropsFirst` | src/bus.c:118-137 | a publish that runs alone leaves the list without the first entries of each pair, as many as answered false |
| `CronScheduler.DoKeepsBookOk` | src/cron.c:82-288 | every call keeps ids increasing and below the next one and both logs within bounds |
| `CronScheduler.AfterKeepsBookOk` | src/cron.c:51-288 | the same after any sequence of calls |
| `CronScheduler.IdsAreNeverReused` | src/cron.c:82-187 | no job id is handed out twice, removals in between or not |
| `CronScheduler.RemoveIsFilter` | src/cron.c:173-187 | removal keeps exactly the other jobs in order |
| `CronScheduler.IndexKeepsJobIff` | src/cron.c:82-235 | after any calls an index names the same job exactly when neither that job nor one before it was removed |
| `CronScheduler.AddedJob` | src/cron.c:82-171 | an added job is the last, enabled and unpaused, and carries the texts given or their defaults |
| `CronScheduler.UpdatedJob` | src/cron.c:189-223 | an update changes the given fields of its job, and nothing else |
| `CronScheduler.OneShotJob` | src/cron.c:225-235 | the flag of its job is set |
| `CronScheduler.RecordedRun` | src/cron.c:254-288 | a record is the last, carries what it was given, and up to 64 a task are kept |
| `CronScheduler.UnknownIdChangesNothing` | src/cron.c:173-235 | calls about an id that no job has change nothing |
| `CronScheduler.NewScheduler` | src/cron.c:51-64 | a new scheduler is empty, with ids from 1 and 64 tasks by default |
| `CronScheduler.QueryIsNewest` | src/cron.c:290-330 | a query leaves out no run of the job that is newer than one it gives, and none unless the limit is met |
| `CronScheduler.NewestIdsDecrease` | src/cron.c:290-330 | run ids in a query result strictly decrease and all are the job's |
| `CronScheduler.Scheduler.constructor` | src/cron.c:51-64 | a new scheduler is the empty book, 64 tasks by default |
| `CronScheduler.Scheduler.AddJob` | src/cron.c:82-171 | the growing array refines appending to the sequence; refused when full |
| `CronScheduler.Scheduler.RemoveJob` | src/cron.c:173-187 | shifting refines deletion |
| `CronScheduler.Scheduler.UpdateJob` | src/cron.c:189-223 | changes the given fields of the job and nothing else |
| `CronScheduler.Scheduler.SetJobOneShot` | src/cron.c:225-235 | changes the flag of the job and nothing else |
| `CronScheduler.Scheduler.AddRun` | src/cron.c:254-288 | appends a run, up to 64 per task |
| `CronScheduler.Scheduler.ListRuns` | src/cron.c:290-330 | the scratch buffer holds the newest runs of the job, as many as asked for, and the counting and filling passes agree |
| `AgentCron.RunCalls` | src/cron.c:82-288 | after the calls of a turn the job array is still the same one exactly when no addition found it full |
| `AgentCron.RunAgentCron` | src/daemon.c:402-490 | with turns that may call the scheduler: which records the loop makes and under which ids, and whether it gets through, loses its array or runs behind the jobs |
| `AgentCron.QuietTick` | src/daemon.c:402-490 | with turns that leave the scheduler alone the loop gets through and records each due job |
| `AgentCron.QuietTickRecords` | src/daemon.c:419-485 | field by field: which jobs leave a record in a quiet tick, under which ids, times and status texts |
| `AgentCron.DueInOrder` | src/daemon.c:419-423 | the due jobs are taken in job order |
| `AgentCron.TickEnds` | src/daemon.c:419-485 | the loop gets through exactly when it ends at the number of jobs it began with |
| `AgentCron.OwnTurnIsRecorded` | src/daemon.c:419-485 | a due job whose turn keeps its place leaves one record under its own id |
| `AgentCron.IdleJobIsPassedOver` | src/daemon.c:419-424 | a job that is not due leaves nothing |
| `AgentCron.AddingTick` | src/daemon.c:402-490 | with an array of full size, turns that add jobs do not change which records are made |
| `AgentCron.SelfRemovalIsRecordedForTheNext` | src/daemon.c:402-490 | a due job that removes itself is recorded under the next job's id, and that job is passed over |
| `AgentCron.TickRecords` | src/daemon.c:402-490 | recording each due job appends one record per due job, in order with consecutive ids, as far as there is room, and changes nothing else |
| `AgentCron.OncePerMinuteIff` | src/daemon.c:412-414 | no minute is matched by two bodies exactly when no body runs into the body of the very next tick |
| `AgentCron.SlowShellJobsRepeatAMinute` | src/daemon.c:915-920 | two bodies that match the minute of the second, and none that matches the minute of the first |
| `AgentCron.EveryMinuteMatchedOnce` | src/daemon.c:915-920 | with shell jobs that end within their minute, every minute of a run that skips none is matched by exactly one body |
| `McpRegistry.DoKeepsOk` | src/mcp_registry.c:21-199 | names stay distinct, running means a positive pid, and the unreaped children are the running entries' pids |
| `McpRegistry.AfterIsOk` | src/mcp_registry.c:21-199 | the same in every reachable registry |
| `McpRegistry.DestroyReapsEverything` | src/mcp_registry.c:39-45 | after any calls and a destroy every child started has been signalled and reaped as often as started |
| `McpRegistry.AddedEntry` | src/mcp_registry.c:47-73 | which additions are refused and why, and what an added entry carries |
| `McpRegistry.StartedEntry` | src/mcp_registry.c:101-171 | what a start does to its entry, and that it does nothing else |
| `McpRegistry.StoppedEntry` | src/mcp_registry.c:173-199 | what a stop does to its entry and its child |
| `McpRegistry.RemovedEntry` | src/mcp_registry.c:75-89 | what a removal does |
| `McpRegistry.UnknownName` | src/mcp_registry.c:75-199 | calls about a name that no entry has change nothing |
| `McpRegistry.McpServers.Add` | src/mcp_registry.c:47-73 | adds a stopped entry or gives the code for a duplicate, a full table, an over-long text |
| `McpRegistry.McpServers.Start` | src/mcp_registry.c:101-171 | records the new child; nothing for a running one |
| `McpRegistry.McpServers.Stop` | src/mcp_registry.c:173-199 | signals and reaps the child of a running entry |
| `McpRegistry.McpServers.Remove` | src/mcp_registry.c:75-89 | stops the entry, then closes the gap |
| `McpRegistry.McpServers.Destroy` | src/mcp_registry.c:39-45 | stopping by name stops every entry |
| `Crontab.Load` | src/crontab.c:160-195 | keeps the complete rows among the first 256; a row whose copies failed leaves nothing allocated |
| `Crontab.LoadedRows` | src/crontab.c:160-195 | a row is loaded exactly when one of the items looked at is it and all its copies succeed |
| `Crontab.AllRowsLoaded` | src/crontab.c:160-195 | when memory lasts the rows are loaded in order |
| `Crontab.Compact` | src/crontab.c:312-323 | the two-index loop keeps exactly the rows with another id and frees the strings of the others |
| `Crontab.FreeEntries` | src/crontab.c:326-327 | frees all strings of the kept entries |
| `Crontab.RemoveFromCrontab` | src/crontab.c:302-329 | what is saved is the rows with another id in order, and every string loaded has been freed exactly once |
| `DisplayTruncation.Truncate` | src/doctor.c:50-69 | cuts at the last byte within the limit that is not a continuation byte |
| `DisplayTruncation.PrefixValidIff` | src/doctor.c:64-67 | in valid UTF-8 a prefix is valid exactly when the next byte is not a continuation byte |
| `DisplayTruncation.EncodedIsCharacter` | src/doctor.c:50-69 | every scalar value encoded by the table of RFC 3629 is one character |
| `DisplayTruncation.CharacterIsEncoded` | src/doctor.c:50-69 | and every character is one, so no over-long forms and no surrogates are valid |
| `DisplayTruncation.TruncateIsLongestValid` | src/doctor.c:50-69 | for valid UTF-8 the cut is the longest valid prefix within the limit, at most three bytes short of it |

## Left out

- Document: the JSON tree is one value in a field and a C pointer into it is the path that leads to it, so aliasing between nodes is not modelled.
- Codec: parsing and printing of JSON are parameters; that a written file is parsed back is a hypothesis of the lemmas that need it.
- SessionKeys.NormalizeId: stops where C would write behind its buffer; what C does from there on is undefined.
- MessageBatcher.BatchMessages: reports a turn that changes nothing instead of repeating it for ever.
- TokenResolver.ResolveRefs: requires acyclic references, the others being covered by the lemma on cycles; a reference to a name inherited from the JavaScript object prototype is not modelled.
- RouteResolution.ResolveRoute: the session key printed for a null channel is left undefined; re-keying with a session configuration is a second call of the key builder and is left out.
- ConfigFile.Mutate: the file write is one step that succeeds or not; temporary file, rename and its fallback are left out.
- EventBus.PublishLeavesSurvivorsIff: supposes that a callback answers alike for all entries of one (fn, ctx) pair, since it compares lists by value; RightOnesGoIff compares by position for any answers.
- ServiceClock: local time is a fixed offset from UTC, without daylight saving; the Mac and Windows branches of the jitter source are one input in 0..1800.
- AgentCron.RunAgentCron: stops where C would read a freed array or a slot behind the jobs; strings of a job that are freed while its own turn runs, and sending the response to a channel, are left out. The time is an input, read by the code at the start of the call.
- McpRegistry: pipes, argument splitting and exec are left out; a fork gives a fresh pid or fails.
- Crontab: reading and printing the file are left out; the entry array itself is not counted among the strings.
- CronScheduler: allocation failure, 64-bit wrap-around of the id counters and the fields no code sets (last and next run, last status) are left out.
- Allocation failure elsewhere, null arguments that are answered with an error code at once, and initialisation of the mutex.
- The rest of the service loop: prompt assembly, polling, typing delay, shell cron jobs.
