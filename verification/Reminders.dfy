/** Reminders of one election, under every interleaving of votes, of the population of the
    remindable list and of sending tasks (mongo/votes.go, reminders.go). Each step happens under
    one hold of the store's lock. */
module Reminders {
  import opened Prelude
  import opened Votes

  /** Where the one run of PopulateRemindableVoters is: it releases the lock between its steps. */
  datatype Population = NotRun | SawNoDocument | HasRead(reminded: map<nat, string>) | Written | Failed

  /** The voters document, the population, and the running sending tasks with the remindable list
      each has read. The last two parts are history: the users that were made remindable, and those
      who first voted after that. */
  datatype State = State(
    doc: Option<VotersOfElection>, population: Population, tasks: map<nat, map<nat, string>>,
    populated: set<nat>, votedAfter: set<nat>)

  datatype Event =
    | Vote(fid: nat)
    | PopulationReads
    | PopulationCreates
    | PopulationWrites(participants: map<nat, string>)
    | PopulationFails
    | TaskReads(task: nat)
    | TaskCommits(task: nat, sent: map<nat, string>)
    | Crash

  /** The list that the population writes: every participant not seen reminded before. */
  function RemindableList(participants: map<nat, string>, reminded: map<nat, string>): map<nat, string> {
    participants - reminded.Keys
  }

  ghost predicate Step(s: State, e: Event, s': State) {
    match e
    case Vote(fid) =>
      && fid != 0
      && s' == s.(doc := Some(VoterAdded(s.doc, fid)),
                  votedAfter := if s.population == Written && s.doc.Some? && fid !in s.doc.value.voters
                                then s.votedAfter + {fid} else s.votedAfter)
    case PopulationReads =>
      && s.population == NotRun
      && s' == s.(population := if s.doc.Some? then HasRead(s.doc.value.alreadyReminded) else SawNoDocument)
    case PopulationCreates =>
      // creating the document fails if a vote has created it in the meantime
      && s.population == SawNoDocument
      && s' == if s.doc.Some? then s.(population := Failed)
               else s.(doc := Some(NewVotersList(0)), population := HasRead(map[]))
    case PopulationWrites(participants) =>
      && s.population.HasRead?
      && var list := RemindableList(participants, s.population.reminded);
         s' == (match s.doc
                case Some(v) => s.(doc := Some(v.(remindable := list)), population := Written, populated := list.Keys)
                case None => s.(population := Written))
    case PopulationFails =>
      && s.population != NotRun && s.population != Written
      && s' == s.(population := Failed)
    case TaskReads(task) =>
      && s.doc.Some?
      && s' == s.(tasks := s.tasks[task := s.doc.value.remindable])
    case TaskCommits(task, sent) =>
      && task in s.tasks
      && sent.Keys <= s.tasks[task].Keys
      && s' == s.(doc := Some(RemindersRecorded(s.doc, sent)), tasks := s.tasks - {task})
    case Crash =>
      // the process ends: tasks and an unfinished population are gone
      s' == s.(tasks := map[], population := if s.population == Written then Written else Failed)
  }

  ghost predicate AreSteps(states: seq<State>, events: seq<Event>) {
    |states| == |events| + 1 && forall i | 0 <= i < |events| :: Step(states[i], events[i], states[i + 1])
  }

  ghost predicate IsRun(states: seq<State>, events: seq<Event>) {
    AreSteps(states, events) && states[0] == State(None, NotRun, map[], {}, {})
  }

  // ----------------------------------------------------------------- invariants

  /** The document as read; a missing one reads as empty. */
  function Document(s: State): VotersOfElection {
    s.doc.GetOr(NewVotersList(0))
  }

  ghost predicate Safe(s: State) {
    var d := Document(s);
    && NoDuplicates(d.voters)
    && d.remindable.Keys == s.populated - d.alreadyReminded.Keys - s.votedAfter
    && s.votedAfter <= (set f | f in d.voters)
    && d.alreadyReminded.Keys <= s.populated
    && (forall t | t in s.tasks :: s.tasks[t].Keys <= s.populated)
    && (s.population != Written ==> s.populated == {} && s.votedAfter == {})
    && (s.population.HasRead? ==> s.doc.Some? && s.population.reminded == map[])
    && (s.population == Written ==> s.doc.Some?)
  }

  lemma StepKeepsSafe(s: State, e: Event, s': State)
    requires Safe(s) && Step(s, e, s')
    ensures Safe(s')
  {
    match e
    case Vote(fid) => VoteKeepsSafe(s, fid, s');
    case TaskCommits(task, sent) => CommitKeepsSafe(s, task, sent, s');
    case PopulationWrites(participants) => WriteKeepsSafe(s, participants, s');
    case _ =>
  }

  lemma VoteKeepsSafe(s: State, fid: nat, s': State)
    requires Safe(s) && Step(s, Vote(fid), s')
    ensures Safe(s')
  {}

  lemma WriteKeepsSafe(s: State, participants: map<nat, string>, s': State)
    requires Safe(s) && Step(s, PopulationWrites(participants), s')
    ensures Safe(s')
  {}

  lemma CommitKeepsSafe(s: State, task: nat, sent: map<nat, string>, s': State)
    requires Safe(s) && Step(s, TaskCommits(task, sent), s')
    ensures Safe(s')
  {}

  lemma {:induction false} RunsStaySafe(states: seq<State>, events: seq<Event>, i: nat)
    requires IsRun(states, events) && i < |states|
    ensures Safe(states[i])
  {
    if i > 0 {
      RunsStaySafe(states, events, i - 1);
      assert Step(states[i - 1], events[i - 1], states[i]);
      StepKeepsSafe(states[i - 1], events[i - 1], states[i]);
    }
  }

  /** In every reachable state nobody is both remindable and reminded, nobody is listed twice as a
      voter, and every user made remindable still is, or was reminded, or has voted. The remindable
      users are exactly those neither reminded nor first voting after the population. */
  lemma NobodyIsLost(states: seq<State>, events: seq<Event>, i: nat)
    requires IsRun(states, events) && i < |states|
    ensures var s, d := states[i], Document(states[i]);
            && d.remindable.Keys !! d.alreadyReminded.Keys
            && NoDuplicates(d.voters)
            && s.populated <= d.remindable.Keys + d.alreadyReminded.Keys + (set f | f in d.voters)
            && d.remindable.Keys == s.populated - d.alreadyReminded.Keys - s.votedAfter
  {
    RunsStaySafe(states, events, i);
  }

  ghost predicate OnlyGrows(d: VotersOfElection, d': VotersOfElection) {
    d.voters <= d'.voters && d.alreadyReminded.Keys <= d'.alreadyReminded.Keys
  }

  /** Voters and reminded users are never forgotten. */
  lemma {:induction false} ListsOnlyGrow(states: seq<State>, events: seq<Event>, i: nat, j: nat)
    requires IsRun(states, events) && i <= j < |states|
    ensures OnlyGrows(Document(states[i]), Document(states[j]))
    ensures states[i].votedAfter <= states[j].votedAfter
    decreases j
  {
    if i < j {
      ListsOnlyGrow(states, events, i, j - 1);
      assert Step(states[j - 1], events[j - 1], states[j]);
    }
  }

  /** Whoever votes for the first time after the population is not remindable from then on. */
  lemma VoterIsLeftAlone(states: seq<State>, events: seq<Event>, i: nat, j: nat, fid: nat)
    requires IsRun(states, events) && i < j < |states|
    requires events[i] == Vote(fid) && states[i].population == Written
    requires fid !in Document(states[i]).voters
    ensures fid !in Document(states[j]).remindable && fid in Document(states[j]).voters
  {
    assert Step(states[i], events[i], states[i + 1]);
    RunsStaySafe(states, events, i);
    ListsOnlyGrow(states, events, i + 1, j);
    RunsStaySafe(states, events, j);
  }

  /** A vote that falls between the reads and the write of the population is overlooked: the voter
      ends up remindable. */
  lemma VoteDuringPopulation(fid: nat, username: string) returns (states: seq<State>, events: seq<Event>)
    requires fid != 0
    ensures IsRun(states, events) && |states| == 5
    ensures fid in Document(states[4]).voters && fid in Document(states[4]).remindable
  {
    var s0 := State(None, NotRun, map[], {}, {});
    var s1 := s0.(population := SawNoDocument);
    var s2 := s1.(doc := Some(NewVotersList(0)), population := HasRead(map[]));
    var s3 := s2.(doc := Some(VoterAdded(s2.doc, fid)));
    var list := map[fid := username];
    var s4 := s3.(doc := Some(s3.doc.value.(remindable := list)), population := Written, populated := {fid});
    assert RemindableList(list, map[]) == list;
    events := [PopulationReads, PopulationCreates, Vote(fid), PopulationWrites(list)];
    states := [s0, s1, s2, s3, s4];
  }

  /** After the write at `w`: who is populated stays, and the voters are those at the write and those
      who first voted since. */
  ghost predicate SinceWrite(atWrite: State, participants: map<nat, string>, s: State) {
    && s.population == Written && s.populated == participants.Keys
    && (forall f :: f in Document(s).voters <==> f in Document(atWrite).voters || f in s.votedAfter)
  }

  lemma {:induction false} VotersSinceWrite(states: seq<State>, events: seq<Event>, w: nat, j: nat)
    requires IsRun(states, events) && w < j < |states| && events[w].PopulationWrites?
    ensures SinceWrite(states[w], events[w].participants, states[j])
    decreases j
  {
    RunsStaySafe(states, events, w);
    RunsStaySafe(states, events, j - 1);
    assert Step(states[j - 1], events[j - 1], states[j]);
    if j - 1 > w {
      VotersSinceWrite(states, events, w, j - 1);
    }
  }

  /** After the population no voter is ever remindable exactly when, at its write, none of the voters
      is among the participants. */
  lemma VotersAreSparedIff(states: seq<State>, events: seq<Event>, w: nat)
    requires IsRun(states, events) && w < |events| && events[w].PopulationWrites?
    ensures (forall j, f | w < j < |states| && f in Document(states[j]).voters :: f !in Document(states[j]).remindable)
            <==> forall f | f in Document(states[w]).voters :: f !in events[w].participants
  {
    RunsStaySafe(states, events, w);
    assert Step(states[w], events[w], states[w + 1]);
    forall f | f in Document(states[w]).voters
      ensures f in Document(states[w + 1]).voters
      ensures f in Document(states[w + 1]).remindable <==> f in events[w].participants
    {}
    forall j | w < j < |states|
      ensures SinceWrite(states[w], events[w].participants, states[j]) && Safe(states[j])
    {
      VotersSinceWrite(states, events, w, j);
      RunsStaySafe(states, events, j);
    }
  }

  /** Why the population may run only once: after a complete run, populating again with reminders sent
      between its read and its write leaves a user remindable and reminded at the same time. */
  lemma SecondPopulationBreaksSafety(fid: nat, username: string)
      returns (states: seq<State>, events: seq<Event>, again: seq<State>, more: seq<Event>)
    ensures IsRun(states, events) && |states| == 4 && states[3].population == Written
    ensures AreSteps(again, more) && again[0] == states[3].(population := NotRun) && |again| == 5
    ensures fid in Document(again[4]).remindable && fid in Document(again[4]).alreadyReminded
  {
    var list := map[fid := username];
    var s0 := State(None, NotRun, map[], {}, {});
    var s1 := s0.(population := SawNoDocument);
    var s2 := s1.(doc := Some(NewVotersList(0)), population := HasRead(map[]));
    assert RemindableList(list, map[]) == list;
    var s3 := s2.(doc := Some(VotersOfElection([], list, map[])), population := Written, populated := {fid});
    states, events := [s0, s1, s2, s3], [PopulationReads, PopulationCreates, PopulationWrites(list)];
    var t0 := s3.(population := NotRun);
    var t1 := t0.(tasks := map[0 := list]);
    var t2 := t1.(population := HasRead(map[]));
    assert list - list.Keys == map[] && map[] + list == list;
    assert t2.tasks - {0} == map[];
    var t3 := t2.(doc := Some(VotersOfElection([], map[], list)), tasks := map[]);
    var t4 := t3.(doc := Some(VotersOfElection([], list, list)), population := Written, populated := {fid});
    assert Step(t2, TaskCommits(0, list), t3);
    assert Step(t3, PopulationWrites(list), t4);
    again, more := [t0, t1, t2, t3, t4], [TaskReads(0), PopulationReads, TaskCommits(0, list), PopulationWrites(list)];
  }

  // ------------------------------------------------------------- the two loops

  /** The loop of PopulateRemindableVoters over the census: it gives up at an unknown username. */
  method FindRemindable(usernames: set<string>, userIDs: map<string, nat>, reminded: map<nat, string>)
      returns (r: Option<map<nat, string>>)
    ensures r.None? <==> exists u | u in usernames :: u !in userIDs
    ensures r.Some? ==> r.value.Keys == (set u | u in usernames && u in userIDs :: userIDs[u]) - reminded.Keys
    ensures r.Some? ==> forall f | f in r.value ::
            r.value[f] in usernames && r.value[f] in userIDs && userIDs[r.value[f]] == f
  {
    var remindable, rest := map[], usernames;
    while rest != {}
      invariant rest <= usernames
      invariant forall u | u in usernames - rest :: u in userIDs
      invariant remindable.Keys == (set u | u in usernames - rest && u in userIDs :: userIDs[u]) - reminded.Keys
      invariant forall f | f in remindable ::
              remindable[f] in usernames && remindable[f] in userIDs && userIDs[remindable[f]] == f
      decreases |rest|
    {
      var username :| username in rest;
      if username !in userIDs {
        return None;
      }
      if userIDs[username] !in reminded {
        remindable := remindable[userIDs[username] := username];
      }
      assert usernames - (rest - {username}) == (usernames - rest) + {username};
      rest := rest - {username};
    }
    assert usernames - rest == usernames;
    r := Some(remindable);
  }

  /** The list a sending task commits: the requested users that were remindable, or nothing if a
      message to one of them fails. */
  function Committed(usersToRemind: map<nat, string>, remindableUsers: map<nat, string>, delivered: nat -> bool)
      : Option<map<nat, string>>
  {
    if exists f | f in usersToRemind && f in remindableUsers :: !delivered(f) then None
    else Some(map f | f in usersToRemind && f in remindableUsers :: usersToRemind[f])
  }

  /** The loop of a sending task. It records a failed message in a map that was never created, which
      ends the process, so the list of reminded users is committed only if every message is delivered. */
  method SendReminders(usersToRemind: map<nat, string>, remindableUsers: map<nat, string>, delivered: nat -> bool)
      returns (remindsSent: Option<map<nat, string>>)
    ensures remindsSent == Committed(usersToRemind, remindableUsers, delivered)
  {
    var sent, rest := map[], usersToRemind.Keys;
    while rest != {}
      invariant rest <= usersToRemind.Keys
      invariant sent == map f | f in usersToRemind && f in remindableUsers && f !in rest :: usersToRemind[f]
      invariant forall f | f in sent :: delivered(f)
      decreases |rest|
    {
      var fid :| fid in rest;
      if fid in remindableUsers {
        if !delivered(fid) {
          assert fid in usersToRemind;
          return None;
        }
        sent := sent[fid := usersToRemind[fid]];
      }
      rest := rest - {fid};
    }
    assert forall f | f in usersToRemind && f in remindableUsers :: f in sent;
    assert Committed(usersToRemind, remindableUsers, delivered).value == sent;
    remindsSent := Some(sent);
  }

  /** What a task commits was remindable when the task read the list, as the step TaskCommits asks. */
  lemma CommittedWereRemindable(usersToRemind: map<nat, string>, remindableUsers: map<nat, string>,
                                delivered: nat -> bool)
    ensures var r := Committed(usersToRemind, remindableUsers, delivered);
            r.None? <==> exists f | f in usersToRemind && f in remindableUsers :: !delivered(f)
    ensures var r := Committed(usersToRemind, remindableUsers, delivered);
            r.Some? ==> forall f | f in r.value :: f in usersToRemind && r.value[f] == usersToRemind[f]
    ensures var r := Committed(usersToRemind, remindableUsers, delivered);
            r.Some? ==>
              r.value.Keys == usersToRemind.Keys * remindableUsers.Keys && forall f | f in r.value :: delivered(f)
  {}

  /** Two remindable users, of whom only the first can be reached: the first is messaged, and
      nothing is committed. */
  lemma FailedMessageLosesReminders(first: nat, second: nat, username: string)
    requires first != second
    ensures var users := map[first := username, second := username];
            Committed(users, users, (f: nat) => f == first) == None
  {
    var users := map[first := username, second := username];
    assert second in users && !((f: nat) => f == first)(second);
  }
}
