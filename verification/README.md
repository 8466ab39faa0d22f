# Verified model of vote-frame

vote-frame runs polls on Farcaster: users vote in frames, delegate their vote inside a community, a
bot creates polls from casts, and communities live both in a contract and in a database. This
project models that logic in Dafny and proves what it is meant to guarantee. Where the code falls
short of such a guarantee, the model keeps the code as it is, and the exact condition under which
the guarantee holds is proved, in most cases with a concrete input beside it.

`dafny verify dfyconfig.toml` checks everything.

## How the project is laid out

| module | subject |
|---|---|
| `Delegations`, `Resolution`, `DelegationLaws`, `DelegationGuard`, `DelegationStore`, `DelegationRaces` | the delegation graph of a community, resolving chains, the laws of resolving, the circular-delegation check, the collection with its handlers and all runs of requests, and requests handled at the same time |
| `FidCensus`, `TokenCensus`, `TokenConservation`, `Sums` | voting weights from a list of users and from token holders, conservation of weight, the gate that turns delegators away |
| `Mentions`, `MentionRoundTrip` | taking mentions out of a cast and putting them back |
| `Text`, `PollParser` | the poll format, its parser and its printer |
| `BotCursor` | the polling cursor of the bot |
| `PartialUpdate`, `Decimal`, `Votes`, `VoteAccounting`, `Reminders` | updates that skip zero fields, vote counting, voters and reminders |
| `Identifiers`, `Communities`, `CommunityHub` | textual identifiers, the three forms of a community, merging updates |
| `Ranking` | the heaviest participants of a census |

Each method is written as the loop or the field updates of the source and proved against a
specification function, a relation or a direct property; the lemmas then say what that
specification means. Loop bodies that the source writes inline (`SolveDelegation`, `ProcessFid`,
`FinalWeightOf`, `Blocks`, `ReadRecord`, `ProcessAddress`, `MentionPositions`, `PermittedDuration`,
`ReadLine`, `Finish`, `CountVote`, `MoveReminded`, `TakeOver`, `Rewrite`) are methods of their own, to keep proofs small.

The main results, hardest first:
- **Resolving.** The recursion comes back exactly on lists that lead to no cycle. The resolved list
  is fully described without mentioning the recursion: one entry per listed delegation and maximal
  path, in lexicographic order, with its own identifier and author, and nothing else.
- **Safety of all runs of requests.** Handled one after the other, requests keep every community
  graph acyclic with at most one delegation per user, provided that users delegate only while they
  have no delegation; the check for circular delegations is exact under that condition, and exactly
  characterised without it. Handled at the same time they do not: there is a run that closes a
  cycle, the exact condition on every insertion, and a case in which an earlier check is enough.
- **Weight conservation** for both kinds of census, with an exact account of what is lost, and
  the agreement between the vote gate and the census.
- **Mention round trips** in both directions, byte for byte, the second one as an equivalence.
- **The poll parser** meets a declarative grammar with a unique reading, and undoes printing.
- **Exactly-once delivery** over any sequence of polls, failed and empty ones included, with the
  exact condition on the feed, for all times.
- **Vote accounting** through partial updates, with votes in different elections mixed, and
  **reminder safety** over every interleaving.
- **Creator stability** over every run of updates and synchronizations, with stale and failed reads,
  and exactly when it is lost.

## Where the code and its documentation differ
- The duration pattern (bot/poll/poll.go:34) is documented as "hours, hour or h". Its bracket
  expression is a set of characters, so `24rush` and `24|` are durations as well (`UnitsAreLoose`).
- `joinCommunityData` is documented to take over fields that are "valid in the new data", but the
  group chat and the channels are always taken over (communityhub/hub.go:468-469). The store then
  skips them when they are empty, so what is stored can differ from what was sent to the contract
  (`StoreFollowsMergeIff`,
  `ClearedGroupChatIsKept`).
- `validateData` names the default of an unset `disabled` flag `enabled` and sets it to true, which
  disables the community (communityhub/hub.go:406-409).
- The bot promises that no cast is missed or duplicated (bot/bot.go:28-31). After an empty poll the
  cursor holds a time relative to the Farcaster epoch, and the next poll tells the two scales apart
  only while relative times do not exceed the epoch offset, that is until 2072 (`LateTimesRepeat`;
  `EveryMentionOnceIff`, `DeliversThroughoutIff` and `LateEmptyPollRepeatsIff` are the exact
  conditions).
- `delegateVoteHandler` is meant to prevent circular delegations, but it checks under one hold of
  the lock and inserts under another (mongo/delegations.go:16-17, 96-97), so two requests at the
  same time can close a cycle (`TwoRequestsCloseACycle`, `RunStaysSoundIff`).
- When the synchronization fails to read a community, it takes it for a missing one
  (communityhub/hub.go:216-228). If the read before the insertion succeeds, the stored community is
  overwritten without a merge, creator included (`CreatorNeverChangesIff`,
  `FailedReadReplacesCreator`).
- A user who votes while the remindable list is being populated stays remindable
  (`VoteDuringPopulation`; `VotersAreSparedIff` is the exact condition), although voters are removed
  from that list.
- The sending loop of the reminders records failures in a map that is never created
  (reminders.go:123-148), so the first failed message ends the process and the messages sent before
  it are not recorded. `SendReminders` returns `None` there
  (`FailedMessageLosesReminders`).
- The community check of `delegateVoteHandler` (users.go:176) never refuses an unknown community,
  because looking one up gives no error. The model has no such refusal.
- The migration up logs the type of a community identifier that is not there
  (mongo/migrations/1_multichain-community-id.go:46), which fails at run time and ends it.

## Model

| member | source | states |
|---|---|---|
| Delegations.SolveNestedDelegations | mongo/delegations.go:155-183 | The loop ends and returns the resolution of the filtered list, or of the whole list when there is no filter; an empty filter gives the empty list. What the resolution is, is said by ResolutionIsChains |
| Delegations.SolveDelegation | mongo/delegations.go:160-181 | What one delegation contributes: itself if its delegate has delegated to nobody, else the resolved delegations of the delegate with the identifier and the author of the original |
| Delegations.DelegationsMadeBy | mongo/delegations.go:163-168 | The scan keeps the delegations of one author, in stored order |
| Delegations.NextIsLower | mongo/delegations.go:175 | Termination measure: the delegations of a user lead to users from whom strictly fewer users can be reached |
| Resolution.TerminatesIffGrounded | mongo/delegations.go:155-183 | The recursion of the source, run on any list with a bound on nested calls, comes back for some bound if and only if the delegates of the list lead to no cycle; whenever it comes back, its result is the resolution |
| Resolution.ComesBack | mongo/delegations.go:155-183 | A run of the recursion that comes back within its bound has met no cycle and returns the resolution |
| Resolution.BoundedIffGrounded | mongo/delegations.go:175 | The chains of delegations leaving a user are bounded in length if and only if they reach no cycle |
| Resolution.ResolutionIsChains | mongo/delegations.go:155-183 | The result holds exactly one entry per filtered delegation and path from its delegate to a user who has delegated to nobody, in lexicographic order, with the identifier and author of the filtered delegation and the end of the path as delegate; and nothing else |
| Resolution.ResolutionIsDetermined | mongo/delegations.go:155-183 | That account admits only one list, order included |
| Resolution.ChainsOfOne | mongo/delegations.go:173-180 | The entries made from one delegation are those of the maximal paths from its delegate |
| DelegationLaws.ResolvedEnds | mongo/delegations.go:151-154 | The authors of a resolved list are those of the list; its delegates are exactly the users who have delegated to nobody and are reachable from a listed delegate |
| DelegationLaws.FilterCommutes | mongo/delegations.go:85-113 | The resolved delegations of a user are, as a sequence, the entries of the resolved community list made by that user |
| DelegationLaws.ResolveIsIdempotent | mongo/delegations.go:155-183 | Resolving a resolved list returns it unchanged |
| DelegationLaws.NoDelegateDelegates | mongo/delegations.go:169-172 | A list whose delegates have delegated to nobody resolves to itself |
| DelegationLaws.ResolveRedirects | mongo/delegations.go:175-180 | With at most one delegation per user, resolving keeps length, order, authors and identifiers and only redirects |
| DelegationGuard.GuardMeaning | users.go:180-190 | The check refuses a delegation to another user if and only if the author is reachable from the delegate and has not delegated yet |
| DelegationGuard.AddKeepsAcyclicIff | users.go:185-192 | Adding a delegation keeps an acyclic graph acyclic if and only if the author is not reachable from the delegate |
| DelegationGuard.AcceptedRequestClosesCycleIff | users.go:180-192 | Exactly when an accepted request closes a cycle: the author has already delegated and is reachable from the delegate |
| DelegationGuard.SecondDelegationPassesTheGuard | users.go:180-192 | Counterexample with three users: a second delegation of the same author closes a cycle and passes the check |
| DelegationGuard.AddKeepsOnePerUser | mongo/delegations.go:14-27 | Inserting keeps at most one delegation per user if and only if the author had none; the insert itself does not look |
| DelegationGuard.FewerKeepsAcyclic | mongo/delegations.go:116-130 | Every selection of an acyclic graph is acyclic |
| DelegationGuard.RemoveKeepsOnePerUser | mongo/delegations.go:116-130 | Removing one delegation keeps at most one per user |
| DelegationStore.Storage.SetDelegation | mongo/delegations.go:14-27 | The delegation is appended with a fresh identifier, which is returned; the rest is unchanged |
| DelegationStore.Storage.DelegationByID | mongo/delegations.go:30-47 | Nothing exactly if no stored delegation has the identifier, else the first that has it; with unique identifiers, a delegation is found if and only if it is stored under that identifier |
| DelegationStore.Storage.DelegationsByCommunity | mongo/delegations.go:73-81 | The delegations at all stored positions of that community, and only at those, in increasing order of position |
| DelegationStore.InCommunityIsSelection | mongo/delegations.go:132-149 | The community filter is such a selection for every collection and community |
| DelegationStore.InCommunityMembers | mongo/delegations.go:132-149 | The community filter keeps exactly the delegations of that community |
| DelegationStore.Storage.FinalDelegationsByCommunity | mongo/delegations.go:85-91 | Resolution of the whole community list |
| DelegationStore.Storage.DelegationsByCommunityFrom | mongo/delegations.go:95-113 | Resolution of the delegations of one user against the community list; empty for users without delegations |
| DelegationStore.Storage.DeleteDelegation | mongo/delegations.go:116-130 | Exactly the delegation with that identifier disappears; nothing happens if there is none |
| DelegationStore.AnyDelegatesTo | users.go:186-190 | Whether some listed delegation ends at the user |
| DelegationStore.DelegateVoteHandler | users.go:150-196 | Accepted exactly if the delegate and the community are given, the delegate is known and another user, and the check does not find the author; then the delegation is appended under a fresh identifier, and otherwise nothing changes; the answer of every branch |
| DelegationStore.RemoveVoteDelegationHandler | users.go:198-225 | Accepted only with the loss of one delegation that the user made under that identifier, and with unique identifiers exactly if there is one; otherwise nothing changes; not found exactly if the identifier is not stored; the delegations of others stay, in order |
| DelegationStore.DelegateKeepsSound | users.go:150-196 | A delegation request by a user without a delegation in the community can be resolved and keeps every community graph acyclic with at most one delegation per user |
| DelegationStore.RemoveKeepsSound | users.go:198-225 | So does every removal request |
| DelegationStore.RunsStaySound | users.go:150-225 | Over every run of requests handled one after the other, every community graph is acyclic with at most one delegation per user, identifiers are unique, and every later query ends |
| DelegationStore.GuardIsExact | users.go:165-192 | In every such state, a well-formed request by a user without a delegation is refused if and only if it delegates to oneself or the author is reachable from the delegate |
| DelegationStore.RemoveUndoesDelegate | users.go:150-225 | Removing a delegation right after making it restores the collection |
| DelegationRaces.TwoRequestsCloseACycle | users.go:180-194 | Counterexample run: two users without a delegation ask for each other at the same time, both pass the check, and the graph gets a cycle |
| DelegationRaces.InsertKeepsSoundIff | mongo/delegations.go:14-27 | An insertion keeps every community graph acyclic with at most one delegation per user if and only if, at that moment, the author has no delegation in the community and is not reachable from the delegate |
| DelegationRaces.RunStaysSoundIff | users.go:150-225 | A run with checks and insertions of different requests interleaved stays sound throughout if and only if that holds at every insertion |
| DelegationRaces.LoneRequestIsSafe | users.go:180-194 | A request that passed the check while its author had no delegation may be inserted later, if nothing else was inserted into that community in between |
| FidCensus.ProcessFid | census.go:1091-1144 | One round: nothing if the weight is 0 or the user unknown, else one participant, in order, for each signer up to the first that does not decode |
| FidCensus.FinalWeightOf | census.go:1097-1108 | One for a user who has not delegated, none otherwise, plus one per resolved delegation that ends at the user, whoever made it |
| FidCensus.EmittedOnePerSigner | census.go:1120-1133 | The participants of a user follow the signers one to one, with the weight and the names of the user, and all signers are covered exactly when all decode |
| FidCensus.Blocks | census.go:1085-1133 | What each listed user has to send, user by user |
| FidCensus.FarcasterCensusFromFids | census.go:1058-1150 | With users sending at the same time and the collector taking whichever participant comes next, the participants collected are exactly those of the decodable leading signers of the listed, known users with a positive weight, each as often as sent |
| FidCensus.TotalWeightSplits | census.go:1097-1111 | For duplicate-free users the total weight is the number of listed users who have not delegated plus the number of resolved delegations that end at a listed user; delegators need not be listed |
| FidCensus.CensusTotal | census.go:1097-1111 | On an acyclic graph with at most one delegation per user: the number of users, less the delegations made by listed users, plus the resolved delegations that end at a listed user |
| FidCensus.WeightIsConserved | census.go:1091-1111 | With all delegators listed, the total weight never exceeds the number of users, and equals it if and only if every final delegate is listed |
| FidCensus.ParticipantsCarryTheirWeight | census.go:1127-1132 | However participants arrive, each one belongs to a listed user and carries exactly the weight of that user, which is positive |
| FidCensus.InCensusIff | census.go:1107-1133 | However participants arrive, a listed, known user whose first signer decodes is among them if and only if the weight is positive |
| FidCensus.EverySignerIsThere | census.go:1107-1133 | However participants arrive, they are exactly those standing for a signer, before the first malformed one, of a listed, known user with a positive weight, with the key, weight and names of that user |
| FidCensus.OncePerSigner | census.go:1120-1133 | With duplicate-free users, each listed user is there exactly once for each of these signers |
| FidCensus.TurnedAway | vote.go:94-107 | The handler turns a user away if and only if the election belongs to a community in which the user has delegated |
| FidCensus.GateSeesDelegations | vote.go:95-99 | The resolved delegations of a user are non-empty if and only if the user has delegated |
| FidCensus.GateAgreesWithCensus | vote.go:94-107 | On the same delegations, a user is turned away if and only if the final weight in the census is 0, also with several delegations per user |
| TokenCensus.ReadRecord | census.go:1207-1232 | A usable record adds its address with its weight; the address is the first field, or the second if the first is none |
| TokenCensus.ContributionCases | census.go:1211-1232 | What a record adds, case by case: an empty weight counts as "1"; a weight "0", no address, or no number adds nothing |
| TokenCensus.WrittenRecordsAddUp | census.go:1203-1239 | For records written as an address and the decimal of a weight, every address gets the sum of its weights, and is listed if and only if one of them is not 0 |
| TokenCensus.WrittenMap | census.go:1201-1239 | So the map built from such records holds exactly these addresses with these sums |
| TokenCensus.AggregateRecords | census.go:1201-1244 | An error if some record has not two fields or no address remains; else a map with exactly the listed addresses, each with the sum of its weights, adding up to all contributions |
| TokenCensus.SumAddresses | census.go:1327-1333 | The summed weight of the listed addresses that are in the map |
| TokenCensus.ProcessAddress | census.go:1311-1378 | One address: left pending if and only if it has no known owner with signers, else the participants are exactly those of the decodable signers of the owner, wherever malformed ones stand, with own weight (none after delegating) plus received weight |
| TokenCensus.ParticipantsAreSigners | census.go:1366-1378 | What an address brings are exactly the decodable signers of its owner, if the weight is not 0 |
| TokenCensus.CollectParticipants | census.go:1303-1383 | In any order of addresses, the participants collected are exactly those of the addresses of the map, and the pending addresses exactly those that qualify |
| TokenCensus.UniqueParticipants | census.go:695-709 | Exactly the usernames that occur, each with the weight of its first participant, and the total of these weights |
| TokenConservation.FinalWeightStep | census.go:1341-1361 | One more delegation changes the weight of its author and of its delegate only, by the own weight of the author |
| TokenConservation.CensusIsOrderFree | census.go:1303-1386 | For any arrival order and repetition, the weights by username are those of the holders with a weight other than 0 |
| TokenConservation.DelegationMovesWeight | census.go:1341-1361 | One more delegation moves the own weight of its author to the delegate and changes nothing else; it is lost if the delegate holds no address |
| TokenConservation.DelegationsConserve | census.go:1341-1361 | All delegations together lose exactly the weight of authors whose delegate holds no address |
| TokenConservation.OwnWeightsAddUp | census.go:1325-1333 | Without delegations the weights of the holders add up to the address map |
| TokenConservation.TokenWeightIsConserved | census.go:695-705 | After deduplication the total weight is the sum of the address map, less what was delegated to users without a listed address; the two are equal if every delegate is a holder |
| TokenConservation.CommunityWeightIsConserved | census.go:437-492 | For the resolved list of an acyclic community graph with at most one delegation per user, which is what the caller passes, the total is the address map less what users without a listed address received; the two are equal if whoever finally represents a delegator holds an address |
| Mentions.FirstMentionIsLeftmost | farcasterapi/hub/helpers.go:17 | The match of the mention pattern is the leftmost one and runs up to the next space |
| Mentions.SpotsAreShiftedStarts | farcasterapi/hub/helpers.go:151-158 | Every position in the stripped text is the place of the mention less the bytes removed before it, so the unsigned subtraction never underflows |
| Mentions.MentionPositions | farcasterapi/hub/helpers.go:150-158 | The loop fills its array with the positions in the stripped text |
| Mentions.DecomposeContent | farcasterapi/hub/helpers.go:136-167 | No mention: the text as it is, whatever users are given; other counts than users: an error; else the stripped text, the users and the positions |
| Mentions.RefusedIff | farcasterapi/hub/helpers.go:139-147 | Decomposing is refused if and only if there are mentions and not as many users; a text without mentions is kept whole |
| Mentions.MentionBytes | farcasterapi/hub/helpers.go:17 | The at sign and the five spaces of the pattern, as characters |
| Mentions.ComposeCastContent | farcasterapi/hub/helpers.go:111-129 | The backwards loop, with its failures: unknown user, a missing position, a position outside the text |
| Mentions.ComposesIff | farcasterapi/hub/helpers.go:116-127 | Composing succeeds if and only if every mention has a position and is left out, or is of a known user and within the content built so far; each one put back adds its length |
| Mentions.FailsBy | farcasterapi/hub/helpers.go:116-125 | The last mention that does not fit says how composing fails: by an unknown user, or by a position |
| MentionRoundTrip.ComposedContent | farcasterapi/hub/helpers.go:116-127 | For increasing positions, composing weaves every name in at its position of the original text, except a mention of the bot at the start |
| MentionRoundTrip.PartsAreWellFormed | farcasterapi/hub/helpers.go:136-167 | Decomposing leaves a text without mentions, strictly increasing positions within it, each before a space or the end and not after an at sign, and non-empty names without spaces |
| MentionRoundTrip.ComposeUndoesDecompose | farcasterapi/hub/helpers.go:111-167 | If the users bear the mentioned names, composing a decomposed content returns it byte for byte, less a leading mention of the bot |
| MentionRoundTrip.DecomposeWoven | farcasterapi/hub/helpers.go:136-167 | Weaving names into a well-formed body and taking the mentions out gives the same text, positions and names |
| MentionRoundTrip.ComesBackWithNames | farcasterapi/hub/helpers.go:111-167 | If a body comes back, the names it was composed with, whatever bytes they hold, are exactly the mentions found in the content |
| MentionRoundTrip.LeadingBotIsLost | farcasterapi/hub/helpers.go:111-167 | A body that starts with a mention of the bot never comes back |
| MentionRoundTrip.DecomposeUndoesComposeIff | farcasterapi/hub/helpers.go:111-167 | A body comes back from composing and decomposing if and only if it is well formed and does not start with a mention of the bot |
| MentionRoundTrip.OnlyTheMentionedNamesRestore | farcasterapi/hub/helpers.go:111-167 | Of all names, with spaces or empty ones included, only the mentioned ones restore a content |
| MentionRoundTrip.AtSignBeforeAMention | farcasterapi/hub/helpers.go:111-167 | Counterexample: a position right after an at sign, at the end of a text without mentions, does not come back |
| PollParser.ParseString | bot/poll/poll.go:74-151 | The line loop returns the poll or the error that the grammar gives: a block of lines without a dash, a block of options, at most one duration line, the rest ignored |
| PollParser.ReadLine | bot/poll/poll.go:93-136 | One line: skipped, taken into the question or the options with the lines read so far still accounted for, ending the poll with a permitted duration, or refused with the error the grammar gives the whole text |
| PollParser.PermittedDuration | bot/poll/poll.go:120-126 | A duration line is accepted exactly if it parses to a duration within the limits, both included |
| PollParser.Finish | bot/poll/poll.go:138-150 | The checks after the loop, in their order, and the joined and trimmed question |
| PollParser.ShapeIsUnique | bot/poll/poll.go:110-137 | A text splits into question, options and rest in one way only |
| PollParser.MeaningIsUnique | bot/poll/poll.go:74-151 | So the grammar gives every text exactly one poll or error |
| PollParser.AcceptedIff | bot/poll/poll.go:110-150 | A text is accepted if and only if it has a question, enough and not too many options and, if a line follows them, a permitted duration there; what it then gives; and which error it gives otherwise |
| PollParser.AcceptedIsAPoll | bot/poll/poll.go:138-150 | Every accepted poll has a trimmed, non-empty question, a permitted number of options, and the default duration or a permitted whole number of hours |
| PollParser.JoinedConcat | bot/poll/poll.go:115-147 | A question of several lines is the lines with a space between each two of them |
| PollParser.DurationPattern | bot/poll/poll.go:34-169 | Both directions: a line reads as a number of hours if and only if it is one or two digits of that value, then spaces, then one or more of the unit characters |
| PollParser.UnitsAreLoose | bot/poll/poll.go:34 | Input: the lines 24rush and 24 followed by a bar read as 24 hours, in nanoseconds |
| PollParser.ParseUndoesPrint | bot/poll/poll.go:74-151 | Parsing the printed form of a poll with a one-line question, a permitted number of options and an optional permitted duration gives that poll back |
| BotCursor.LatestIsMaximum | farcasterapi/hub/hub.go:170-172 | The latest time is the maximum over the returned mentions |
| BotCursor.LastMentions | farcasterapi/hub/hub.go:99-181 | The mentions later than the cursor, read on either time scale, in feed order, and the new cursor; with none, the relative time |
| BotCursor.Bot.constructor | bot/bot.go:44-65 | The cursor starts at the current time and nothing has been sent |
| BotCursor.EpochIsNewYear | farcasterapi/hub/hub.go:103-105 | The epoch offset is the seconds from 1970 to 2021, and every absolute time after it reads as the time since |
| BotCursor.Bot.Start | bot/bot.go:70-97 | After any polls, the cursor and everything sent, message by message, are those of the polling rounds; a failed poll changes nothing |
| BotCursor.PollCatchesUpIff | farcasterapi/hub/hub.go:103-180 | One successful poll delivers everything once and leaves a right cursor if and only if every mention added since the last one is later than the cursor and, if none was added, the cursor is within the epoch offset; for all feeds and starts |
| BotCursor.InTimeIsOrderly | farcasterapi/hub/hub.go:103-180 | Until relative times pass the epoch offset, it is enough that new mentions are later than those returned before |
| BotCursor.EveryMentionOnceIff | bot/bot.go:28-97 | Over any polls of a growing feed, failed and empty ones included, the bot has at every moment sent every mention later than the start exactly once, in feed order, with a right cursor, if and only if every successful poll meets that condition |
| BotCursor.LateEmptyPollRepeatsIff | farcasterapi/hub/hub.go:103-177 | After an empty poll with a cursor past the epoch offset, the next successful poll repeats nothing if and only if the feed has no mention in the last offset before the cursor |
| BotCursor.DeliversThroughoutIff | bot/bot.go:28-97 | Over any polls of a growing feed, the bot has at every moment sent every mention later than the start exactly once, in feed order, if and only if every successful poll asks from a time that no earlier mention exceeds and that separates the new mentions as the start does; a right cursor is not demanded |
| BotCursor.CursorIsAskedFrom | farcasterapi/hub/hub.go:99-181 | The time a poll asks from is told by the feeds alone: the latest mention found, or, after an empty poll past the epoch offset, the previous time less the offset |
| BotCursor.LateTimesRepeat | farcasterapi/hub/hub.go:103-177 | Counterexample: for times past the epoch offset, an empty poll makes the bot send a mention again |
| PartialUpdate.DynamicUpdateDocument | mongo/types.go:346-381 | With different tags: a field is in the update, with its value, if and only if its tag is not empty, a dash or the identifier and it is not zero or always written |
| PartialUpdate.ZeroValues | mongo/types.go:373-377 | Zero is the number 0, the empty text, false, and a missing list, reference or census source; an empty list is not |
| PartialUpdate.MergedEntry | mongo/types.go:363-378 | After the update each column holds the new value if it was written and the old one otherwise |
| PartialUpdate.PartialIsFullIff | mongo/types.go:342-381 | The zero-skipping update stores what a full replacement would if and only if it clears no field that is not always written |
| Votes.ReadStoredElection | mongo/election.go:207-216 | An election reads back from its document as it was stored, each field under its name in the database |
| Votes.ReadStoredUser | mongo/user.go:265-274 | A user reads back from its document as it was stored, each field under its name in the database |
| Votes.Storage.IncreaseVoteCount | mongo/votes.go:17-62 | An unknown user is an error that changes nothing; else exactly one user, one election and one voters document become what one counted vote makes of them |
| Votes.Storage.CountUserVote | mongo/votes.go:22-29 | The counter of that user goes up by one through the partial update |
| Votes.Storage.CountVote | mongo/votes.go:31-59 | The election is created if unknown, its counter goes up, its last vote is now, and its weight is the decimal of the old sum (0 if unreadable) plus the weight |
| Decimal.BigIntegers | mongo/votes.go:51-55 | What reads as a stored weight: decimal digits, leading zeros included, after at most one sign |
| Votes.Storage.AddElection | mongo/election.go:187-194 | The whole record is stored; for an election that is stored already, an error and no change |
| Votes.Storage.UpdateElection | mongo/election.go:219-234 | The non-zero fields are merged into the stored document, which is created if missing |
| Votes.Storage.UpdateUser | mongo/user.go:289-304 | The non-zero fields are merged into the stored user, who is created if missing |
| Votes.Storage.AddVoterToElection | mongo/votes.go:169-193 | Only that election changes: a new list with the voter (nobody for user 0), the same list for a known voter, or the list with the voter appended and no longer remindable |
| Votes.RemindersAreConserved | mongo/votes.go:87-142 | After recording reminders of remindable users, the number of reminded users that is read has grown by their number, remindable and reminded users together are as many as before, and still nobody is both |
| Votes.Storage.RemindersSent | mongo/votes.go:103-142 | The sent reminders move from the remindable to the reminded users; without a document an empty one is created and the reminders are lost |
| Votes.MoveReminded | mongo/votes.go:118-131 | Entry by entry, the remindable users lose the given keys and the reminded users gain the given entries |
| Votes.ElectionUpdateIsFullIff | mongo/votes.go:49-59 | The partial update stores the counted election as a replacement would if and only if the 64-bit counter does not wrap to 0 |
| Votes.UserUpdateIsFullIff | mongo/votes.go:22-29 | The same for the user record |
| VoteAccounting.ElectionAccounts | mongo/votes.go:17-62 | After any calls, for this and other elections mixed, the record is the initial one with its counter increased by the number of its calls, the time of the last one, and the decimal of its old weight plus the summed weights; unchanged without calls |
| VoteAccounting.UnknownElectionStartsEmpty | mongo/votes.go:31-57 | The record of an election that was not stored has the number of its votes, the decimal of their summed weights, the author and time of the first, the time of the last, and is empty otherwise |
| VoteAccounting.FirstVoteOfAnElection | mongo/votes.go:31-57 | Input: one vote of weight 3 in an unknown election gives a record with 1 vote and the weight "3" |
| VoteAccounting.VotersAreTheCallers | mongo/votes.go:168-193 | After any such calls, the voters are the former ones followed by the callers, each listed once; the remindable users lose exactly the first-time callers and the reminded ones stay, so community elections with a populated list are covered |
| VoteAccounting.UsersAccount | mongo/votes.go:22-29 | The counter of every user grows by the number of calls made by that user, in whatever elections |
| Reminders.RunsStaySafe | mongo/votes.go:103-287 | The invariant of every interleaving of votes, population steps, sending tasks and crashes |
| Reminders.NobodyIsLost | mongo/votes.go:103-287 | In every reachable state nobody is both remindable and reminded, voters are listed once, and every populated user is remindable, reminded or a voter; remindable users are exactly those neither reminded nor first voting after the population |
| Reminders.ListsOnlyGrow | mongo/votes.go:103-287 | The voters list is only ever extended and reminded users are never forgotten |
| Reminders.VoterIsLeftAlone | mongo/votes.go:279-287 | A user who first votes after the population is never remindable again and stays a voter |
| Reminders.VoteDuringPopulation | mongo/votes.go:214-268 | Counterexample: a vote between the reads and the write of the population leaves the voter remindable |
| Reminders.VotersAreSparedIff | mongo/votes.go:214-268 | No voter is remindable in any state after the write of the population if and only if no voter at that write is among its participants |
| Reminders.SecondPopulationBreaksSafety | mongo/votes.go:214-268 | Counterexample run: after a complete run, a second population with a sending task in between leaves a user remindable and reminded at once |
| Reminders.FindRemindable | mongo/votes.go:245-258 | Fails exactly if some participant is unknown, else lists exactly the users of the participants not seen reminded, each with one of their usernames |
| Reminders.SendReminders | reminders.go:135-156 | What the loop commits: the requested users in the remindable list read before, or nothing if some message to them fails |
| Reminders.CommittedWereRemindable | reminders.go:135-156 | Whatever is committed is exactly the requested users that were remindable when the list was read, with their usernames, all of them reached; nothing is committed if and only if one of them cannot be reached |
| Reminders.FailedMessageLosesReminders | reminders.go:146-156 | Input: with two remindable users and the second out of reach, the first is messaged and nothing is committed |
| Identifiers.DecodeUndoesEncodeIff | communityhub/helpers.go:250-268 | A prefixed content decodes to its parts if and only if neither holds a colon |
| Identifiers.DecodePrefixIff | communityhub/helpers.go:258-268 | Exactly the texts with one colon decode, to what stands before and behind it |
| Identifiers.CommunityIDRoundTripIff | communityhub/hub.go:315-339 | For every 64-bit number and known alias, the community identifier decodes to them if and only if the alias holds no colon |
| Identifiers.AliasAndContractIDIff | communityhub/hub.go:315-339 | Exactly the texts of a known alias, a colon and a 64-bit number are community identifiers; an unknown alias has none |
| Identifiers.CommunityIDsAreDistinct | communityhub/hub.go:315-320 | Different pairs of a known alias and a number have different identifiers, also for aliases with colons |
| Identifiers.UserReferenceRoundTripIff | communityhub/helpers.go:29-43 | A user reference decodes to its number if and only if that fits 64 bits |
| Identifiers.UserReferenceIff | communityhub/helpers.go:38-43 | Exactly the prefix fid: with a 64-bit number is a user reference |
| Identifiers.IdentifierTexts | communityhub/helpers.go:14-31 | Input: user 7 is fid:7, contract 12 on degen is degen:12, and so is the migrated number 12 |
| Identifiers.UpNewCommunityID | mongo/migrations/1_multichain-community-id.go:20-79 | Elections first, then avatars, rewritten in place: integers become degen identifiers, everything else stays; an election with a community but no identifier ends it, and what follows is untouched |
| Identifiers.Rewrite | mongo/migrations/1_multichain-community-id.go:92-118 | The loop over one collection: documents are rewritten in place up to the first one that ends the migration, and the others stay |
| Identifiers.RewrittenEntries | mongo/migrations/1_multichain-community-id.go:92-118 | A document is rewritten if and only if it and all before it can be, and stays otherwise |
| Identifiers.ElectionsComeFirst | mongo/migrations/1_multichain-community-id.go:20-156 | In both directions a failure in the elections leaves the avatars alone, and without one the avatars are rewritten |
| Identifiers.UpChangesNumbersOnly | mongo/migrations/1_multichain-community-id.go:34-48 | Up turns numbers into degen identifiers and changes nothing else; a community without an identifier fails |
| Identifiers.DownRemovesOtherTexts | mongo/migrations/1_multichain-community-id.go:97-117 | Down removes, for any other text, the identifier of an avatar and the whole community entry of an election; what is not a text stays |
| Identifiers.DownReads | mongo/migrations/1_multichain-community-id.go:82-112 | A text identifier reads back as a number if and only if it is the degen prefix and decimal digits of that 64-bit number, and ends the migration if and only if the digits do not fit |
| Identifiers.DownNewCommunityID | mongo/migrations/1_multichain-community-id.go:81-156 | Elections first, then avatars, rewritten in place up to the first failure; an election with another text identifier loses its whole community entry, an avatar its identifier |
| Identifiers.DownUndoesUpIff | mongo/migrations/1_multichain-community-id.go:61-150 | For one avatar, down undoes up if and only if it had no identifier or a non-negative integer |
| Identifiers.ElectionUndoneIff | mongo/migrations/1_multichain-community-id.go:34-116 | For one election, up succeeds and down undoes it if and only if it had no community or one with a non-negative integer |
| Identifiers.MigrationUndoneIff | mongo/migrations/1_multichain-community-id.go:20-156 | Over both collections, up succeeds and down restores everything if and only if that is so for every election and every avatar |
| Communities.ContractToHub | communityhub/helpers.go:47-89 | Succeeds exactly for the kinds 1, 2, 4 and 5, with every field of the contract, big integers cut to 64 bits, and only the census source of its type |
| Communities.HubToContract | communityhub/helpers.go:93-148 | Succeeds exactly if the census source of the type is there; every field of the contract, unset flags as false, with the error of each case |
| Communities.CensusKinds | communityhub/types.go:13-65 | The four census types with their numbers in the contract; every other number, such as 0 and 3, has no type |
| Communities.CensusSourceMeans | communityhub/helpers.go:95-110 | Which census source each type needs |
| Communities.HubToDB | communityhub/helpers.go:158-208 | Succeeds exactly if the census source is there and there is an admin, who becomes the creator; every field of the record, with only the census source of its type, and the error of each case |
| Communities.DBToHub | communityhub/helpers.go:216-248 | Every field of the result, with the creator moved to the front of the admins |
| Communities.CreatorFirstKeepsAdmins | communityhub/helpers.go:226-232 | Moving the creator keeps every other admin as often as before |
| Communities.ConversionsAgree | communityhub/helpers.go:47-248 | Converting to the contract and back, and to the database and back, give the same community, up to the place of the creator and two fields the database does not hold; unset flags read as false and only the census source in use is kept |
| CommunityHub.UpdateOverlays | mongo/community.go:232-246 | The partial update of a stored community stores exactly the community whose non-zero fields and flags come from the update and whose other fields stay |
| CommunityHub.StoredColumns | mongo/types.go:277-289 | Every field of a stored community under its name in the database |
| CommunityHub.ValidateData | communityhub/hub.go:381-411 | Accepts exactly communities with a chain, a name, the census source of their type and an admin; changes only unset flags, to no notifications and to disabled |
| CommunityHub.JoinCommunityData | communityhub/hub.go:418-471 | Without stored data the validated new data; else succeeds exactly if the stored data is valid, the identifiers agree and the creator stays first; field by field, what the new data sets wins and the rest stays, and the census source follows the resulting type; the error of each case |
| CommunityHub.MergedTakesOver | communityhub/hub.go:433-470 | The merged community takes over field by field, in an account that fixes every field of it |
| CommunityHub.TakeOver | communityhub/hub.go:433-470 | The field by field merge, refused exactly if new admins do not start with the creator |
| CommunityHub.CommunityStore.CommunityFromDB | communityhub/hub.go:477-493 | The stored community with the chain and number of its identifier, or the error of each case, a failed read included |
| CommunityHub.CommunityStore.UpdateCommunityToDB | communityhub/hub.go:530-543 | Exactly that community changes, to its document with the written fields replaced, or to the converted community if it was not stored; nothing changes on an error |
| CommunityHub.CommunityStore.AddCommunityToDB | communityhub/hub.go:499-524 | The converted community is inserted, or written over a stored one without a merge; nothing changes on an error, such as a failed read |
| CommunityHub.CommunityStore.SyncCommunity | communityhub/hub.go:215-240 | A synchronization step, with the exact condition for its success: nothing on an error, else the merge of the contract's data into the stored community, or its addition if there is none; a stored community that could not be read, or whose identifier does not decode, is overwritten without a merge |
| CommunityHub.CommunityStore.UpdateCommunity | communityhub/hub.go:276-297 | Succeeds exactly if the read and the contract do not fail and the new data can be merged; then the contract holds the merged community with its own funds, other communities stay, and reading the store back gives every field that the new data set; nothing changes on an error |
| CommunityHub.CommunityStore.SetCommunity | communityhub/contract.go:124-152 | The transaction: the contract holds what the hub says, with the funds it had, and nothing changes if it refuses or the census source is missing |
| CommunityHub.MergeWritesTheNew | communityhub/hub.go:418-543 | After a merge from a read of any age, the database gives back every field that the new data set |
| CommunityHub.MergeLeavesTheRest | communityhub/hub.go:418-543 | After a merge with nothing in between, every field that the new data left unset is as it was stored |
| CommunityHub.MergeKeepsCreator | communityhub/hub.go:454-461 | A successful merge keeps the creator, the featured mark and the identifier, and the creator is the first stored admin |
| CommunityHub.CreatorNeverChanges | communityhub/hub.go:276-297 | Over every run without such overwriting, with merges whose reads are of any age, the creator and the featured mark of a community stay from the moment it is stored |
| CommunityHub.CreatorNeverChangesIff | communityhub/hub.go:215-240 | Over every run, a community has one and the same creator in all states that hold it if and only if every write without a merge names that creator first, or nobody |
| CommunityHub.WriteCreator | communityhub/hub.go:418-543 | Creator and first admin after one merge from an old read, addition or overwriting |
| CommunityHub.FailedReadReplacesCreator | communityhub/hub.go:216-228 | Input: a stored community whose read fails, and contract data that name another creator, who replaces the stored one |
| CommunityHub.CreatorStaysFirstAdmin | communityhub/hub.go:413-471 | In such runs, once added or updated, a community has its creator as first stored admin ever after |
| CommunityHub.StoreFollowsMergeIff | communityhub/hub.go:468-470 | What is stored is the merged community if and only if neither a stored group chat nor stored channels were cleared |
| CommunityHub.ClearedGroupChatIsKept | communityhub/hub.go:468-470 | Input: new data without a group chat, which the merge drops and the store keeps |
| Ranking.InsertByWeight | mongo/census.go:91-95 | Insertion keeps the keys in descending order of weight |
| Ranking.SortByWeight | mongo/census.go:90-95 | A permutation of the keys in descending order of weight |
| Ranking.PrefixIsHeaviest | mongo/census.go:96-102 | A prefix of a descending order is a heaviest choice of that size |
| Ranking.ParticipantsByWeight | mongo/census.go:81-104 | Exactly min(n, size) participants with their own weights, each at least as heavy as every one left out; a negative n fails |

## Left out

- Delegations.SolveNestedDelegations: requires that the chains of the filtered delegations reach no cycle, because the source does not return otherwise; TerminatesIffGrounded shows that nothing less will do, and RunsStaySound and RunStaysSoundIff say which runs keep every store in that state.
- Delegations.DelegationsMadeBy: models the scan that mongo/delegations.go writes twice, at lines 106-111 and 163-168.
- DelegationStore.DelegateVoteHandler: requires a resolvable delegate for the same reason; the authenticated user is a parameter, and tokens, JSON and database failures are not modelled. The method is one request handled without others in between; DelegationRaces splits it at the lock boundaries.
- DelegationStore.RunsStaySound: users delegate only while they have no delegation in that community, which the source does not enforce (AcceptedRequestClosesCycleIff says what happens without it), and requests do not overlap (RunStaysSoundIff says what happens when they do).
- DelegationStore.Storage.DelegationByID: the hexadecimal form of object identifiers is not modelled; identifiers are numbers handed out in order.
- FidCensus.FarcasterCensusFromFids: what each user sends is computed before the first participant is collected, as nothing it depends on changes; the limit on concurrent users, progress and the collector's hand-over at return are not modelled. Database errors count as unknown users.
- FidCensus.WeightIsConserved: is about the weights of the census participants; the channel and followers censuses store a weight of 1 per username in the database, which is not modelled.
- TokenCensus.ReadRecord: address and number parsing belong to libraries and are parameters; addresses are numbers, so their text forms are not modelled.
- TokenCensus.CollectParticipants: the phase that asks the Farcaster API for pending addresses (census.go:1388-1465) applies no delegations and is not modelled.
- TokenConservation.TokenWeightIsConserved: holds when every address of the map belongs to exactly one known user who lists it once, and holders have different usernames and a signer that decodes; positive weights are not needed.
- Mentions.DecomposeContent: texts are bytes and the pattern's class of spaces is spelled out; regular expressions in general are not modelled, nor are embeds and parents of casts and the 32-bit conversion of positions in newAddCastBody.
- PollParser.ParseString: texts are runes; the 64 KiB limit of a line of the scanner is not modelled.
- BotCursor.Bot.Start: the polls to come are a parameter; the channel, the ticker, the cool down and cancellation are not modelled.
- BotCursor.LastMentions: the download and the decoding of the feed, and composing the content of each message, are not modelled here.
- Votes.Storage.IncreaseVoteCount: the time is a parameter, in seconds; logging, database failures and the hexadecimal form of election identifiers are not modelled.
- VoteAccounting.ElectionAccounts: calls are successful and have a non-zero time, a known election is stored with all its fields, and its counter does not reach 2^64; ElectionUpdateIsFullIff is the exact condition for one call. VotersAreTheCallers needs non-zero users, as a new list leaves user 0 out.
- Reminders.RunsStaySafe: the population of an election runs once, when the election is added; its unlocked loop over the census is FindRemindable. Reputation limits, authorization and the choice of recipients by weight are not modelled. Two tasks may message the same user.
- Identifiers.MigrationUndoneIff: identifiers fit 64-bit signed integers, as they do in the database; its encoding of larger numbers, other types of identifiers and the other fields of the documents are not modelled.
- Communities.ContractToHub: guardians are non-negative, as they are unsigned in the contract, and cut to 64 bits.
- Communities.ConversionsAgree: the checksummed text form of addresses in the database is taken as the address itself.
- CommunityHub.CommunityStore.UpdateCommunity: the transaction is a flag that says whether the contract accepts; updates send an election permission of 0, as the database does not hold it.
- CommunityHub.CreatorNeverChangesIff: communities are never deleted, as nothing in the source calls for it; edits by discovery and by hand are not modelled.
- CommunityHub.CommunityStore.SyncCommunity: one step with nothing in between, with flags for its two reads; CreatorNeverChangesIff lets other writes come between read and write. A closed database, discovery, and asking the contract for its communities are not modelled; identifiers made from a known alias without a colon always decode (CommunityIDRoundTripIff).
- Ranking.ParticipantsByWeight: the sort library is modelled by an insertion sort; weights that are not numbers make the source fail and are excluded.
- Signatures, hashes, nullifiers, census proofs and the vote transaction: foreign cryptography.
- Reputation, turnout, images, frames, rankings, authentication, the web app and the API clients: formulas in floating point, user interface or plumbing.
