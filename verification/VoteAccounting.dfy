/** What the records say after any number of votes in any elections (mongo/votes.go). */
module VoteAccounting {
  import opened Prelude
  import opened Decimal
  import opened PartialUpdate
  import opened Votes

  /** A successful call of IncreaseVoteCount. */
  datatype Call = Call(fid: nat, election: string, weight: int, now: nat)

  function AfterCalls(db: Collections, calls: seq<Call>): (r: Collections)
    requires forall c | c in calls :: c.fid in db.users
    ensures r.users.Keys == db.users.Keys
  {
    if calls == [] then db
    else
      var before, c := AfterCalls(db, calls[..|calls| - 1]), calls[|calls| - 1];
      VoteCounted(before, c.fid, c.election, c.weight, c.now)
  }

  /** The calls for one election, in order. */
  function CallsTo(calls: seq<Call>, id: string): seq<Call> {
    if calls == [] then []
    else
      var last := calls[|calls| - 1];
      CallsTo(calls[..|calls| - 1], id) + if last.election == id then [last] else []
  }

  lemma {:induction false} CallsToMembers(calls: seq<Call>, id: string)
    ensures forall c :: c in CallsTo(calls, id) <==> c in calls && c.election == id
  {
    if calls != [] {
      CallsToMembers(calls[..|calls| - 1], id);
      assert calls == calls[..|calls| - 1] + [calls[|calls| - 1]];
    }
  }

  function TotalWeight(calls: seq<Call>): int {
    if calls == [] then 0 else TotalWeight(calls[..|calls| - 1]) + calls[|calls| - 1].weight
  }

  lemma TotalWeightSnoc(calls: seq<Call>, c: Call)
    ensures TotalWeight(calls + [c]) == TotalWeight(calls) + c.weight
  {
    assert (calls + [c])[..|calls|] == calls;
  }

  // ------------------------------------------------------- one call, one record

  lemma LookUpUpdated<K, V>(m: map<K, V>, k: K, v: V, id: K)
    ensures LookUp(m[k := v], id) == if k == id then Some(v) else LookUp(m, id)
  {}

  lemma CountedMaps(db: Collections, c: Call)
    requires c.fid in db.users
    ensures var after := VoteCounted(db, c.fid, c.election, c.weight, c.now);
            && after.users == db.users[c.fid := UserAfter(db.users[c.fid], c.fid)]
            && after.elections
               == db.elections[c.election := ElectionAfter(LookUp(db.elections, c.election), c.election, c.fid,
                                                           c.weight, c.now)]
            && after.voters == db.voters[c.election := VoterAdded(LookUp(db.voters, c.election), c.fid)]
  {}

  lemma LastCallElection(db: Collections, id: string, calls: seq<Call>)
    requires calls != [] && forall c | c in calls :: c.fid in db.users
    ensures var before, after, c := AfterCalls(db, calls[..|calls| - 1]), AfterCalls(db, calls), calls[|calls| - 1];
            LookUp(after.elections, id)
            == if c.election == id then Some(ElectionAfter(LookUp(before.elections, id), id, c.fid, c.weight, c.now))
               else LookUp(before.elections, id)
  {
    var before, c := AfterCalls(db, calls[..|calls| - 1]), calls[|calls| - 1];
    CountedMaps(before, c);
    LookUpUpdated(before.elections, c.election,
                  ElectionAfter(LookUp(before.elections, c.election), c.election, c.fid, c.weight, c.now), id);
  }

  lemma LastCallVoters(db: Collections, id: string, calls: seq<Call>)
    requires calls != [] && forall c | c in calls :: c.fid in db.users
    ensures var before, after, c := AfterCalls(db, calls[..|calls| - 1]), AfterCalls(db, calls), calls[|calls| - 1];
            LookUp(after.voters, id)
            == if c.election == id then Some(VoterAdded(LookUp(before.voters, id), c.fid))
               else LookUp(before.voters, id)
  {
    var before, c := AfterCalls(db, calls[..|calls| - 1]), calls[|calls| - 1];
    CountedMaps(before, c);
    LookUpUpdated(before.voters, c.election, VoterAdded(LookUp(before.voters, c.election), c.fid), id);
  }

  // ---------------------------------------------------------------- the election

  /** The election before the calls; an unknown one is created for the first voter. */
  ghost function Initial(db: Collections, id: string, first: Call): Election {
    if id in db.elections then ReadElection(id, db.elections[id]) else FallbackElection(id, first.fid, first.now)
  }

  /** A known election is stored with all its fields. */
  ghost predicate IsStored(db: Collections, id: string) {
    id in db.elections ==> db.elections[id] == StoredElection(ReadElection(id, db.elections[id]))
  }

  /** The election record an observer expects: the votes counted, the weights added up, the rest untouched. */
  ghost function Expected(e: Election, calls: seq<Call>): Election
    requires calls != []
  {
    e.(castedVotes := e.castedVotes + |calls|, lastVoteTime := calls[|calls| - 1].now,
       castedWeight := PrintBig(ParseBig(e.castedWeight).GetOr(0) + TotalWeight(calls)))
  }

  lemma CountOnce(stored: Option<Document>, id: string, c: Call, e: Election)
    requires c.now != 0 && e.castedVotes < TWO_TO_THE_64 - 1 && e.electionID == id
    requires stored.GetOr(StoredElection(FallbackElection(id, c.fid, c.now))) == StoredElection(e)
    ensures ElectionAfter(stored, id, c.fid, c.weight, c.now) == StoredElection(Counted(e, c.weight, c.now))
  {
    ReadStoredElection(e);
    ElectionUpdateIsFullIff(e, c.weight, c.now);
  }

  lemma CountedRecord(e: Election, text: string, sum: int, weight: int, now: nat)
    requires e.castedVotes < TWO_TO_THE_64 - 1 && e.castedWeight == text && ParseBig(text) == Some(sum)
    ensures Counted(e, weight, now)
            == e.(castedVotes := e.castedVotes + 1, lastVoteTime := now, castedWeight := PrintBig(sum + weight))
  {}

  lemma CountedIsExpected(e: Election, front: seq<Call>, c: Call)
    requires front != [] && e.castedVotes + |front| < TWO_TO_THE_64 - 1
    ensures Counted(Expected(e, front), c.weight, c.now) == Expected(e, front + [c])
  {
    var sum := ParseBig(e.castedWeight).GetOr(0) + TotalWeight(front);
    ParseUndoesPrintBig(sum);
    CountedRecord(Expected(e, front), PrintBig(sum), sum, c.weight, c.now);
    TotalWeightSnoc(front, c);
    assert (front + [c])[|front|] == c;
  }

  lemma FirstCounted(e: Election, c: Call)
    requires e.castedVotes < TWO_TO_THE_64 - 1
    ensures Counted(e, c.weight, c.now) == Expected(e, [c])
  {
    TotalWeightSnoc([], c);
    assert [] + [c] == [c];
  }

  ghost predicate RecordIs(db: Collections, after: Collections, id: string, calls: seq<Call>) {
    LookUp(after.elections, id)
    == if calls == [] then LookUp(db.elections, id)
       else Some(StoredElection(Expected(Initial(db, id, calls[0]), calls)))
  }

  lemma OneVoteMore(db: Collections, before: Option<Document>, id: string, front: seq<Call>, c: Call)
    requires c.now != 0 && IsStored(db, id)
    requires Initial(db, id, (front + [c])[0]).castedVotes + |front| < TWO_TO_THE_64 - 1
    requires before == if front == [] then LookUp(db.elections, id)
                       else Some(StoredElection(Expected(Initial(db, id, front[0]), front)))
    ensures ElectionAfter(before, id, c.fid, c.weight, c.now)
            == StoredElection(Expected(Initial(db, id, (front + [c])[0]), front + [c]))
  {
    var e := Initial(db, id, (front + [c])[0]);
    if front == [] {
      assert front + [c] == [c];
      CountOnce(before, id, c, e);
      FirstCounted(e, c);
    } else {
      CountOnce(before, id, c, Expected(e, front));
      CountedIsExpected(e, front, c);
    }
  }

  /** However votes in different elections are mixed, the counters of an election record grow by the
      number of its votes and the sum of their weights, and nothing else of it changes. */
  lemma {:induction false} ElectionAccounts(db: Collections, id: string, calls: seq<Call>)
    requires forall c | c in calls :: c.fid in db.users && c.now != 0
    requires IsStored(db, id)
    requires CallsTo(calls, id) != [] ==>
               Initial(db, id, CallsTo(calls, id)[0]).castedVotes + |CallsTo(calls, id)| < TWO_TO_THE_64
    ensures RecordIs(db, AfterCalls(db, calls), id, CallsTo(calls, id))
  {
    if calls != [] {
      var front, c := calls[..|calls| - 1], calls[|calls| - 1];
      assert calls == front + [c];
      ElectionAccounts(db, id, front);
      LastCallElection(db, id, calls);
      if c.election == id {
        OneVoteMore(db, LookUp(AfterCalls(db, front).elections, id), id, CallsTo(front, id), c);
      } else {
        assert CallsTo(front, id) + [] == CallsTo(front, id);
      }
    }
  }

  /** The record of an election of which nothing is known but its votes. */
  function FromVotesAlone(id: string, own: seq<Call>): Election
    requires own != []
  {
    Election(id, own[0].fid, |own|, own[|own| - 1].now, own[0].now, 0, "", 0, 0, "", None, PrintBig(TotalWeight(own)))
  }

  lemma ExpectedOfUnknown(db: Collections, id: string, own: seq<Call>)
    requires id !in db.elections && own != []
    ensures Initial(db, id, own[0]).castedVotes == 0
    ensures Expected(Initial(db, id, own[0]), own) == FromVotesAlone(id, own)
  {
    ParseUndoesPrintBig(0);
  }

  /** An election that is not stored starts with nothing: after the calls for it, the record has the
      author and the time of the first, the time of the last, their number and their summed weights,
      and is empty otherwise. */
  lemma UnknownElectionStartsEmpty(db: Collections, id: string, calls: seq<Call>)
    requires forall c | c in calls :: c.fid in db.users && c.now != 0
    requires id !in db.elections && CallsTo(calls, id) != [] && |CallsTo(calls, id)| < TWO_TO_THE_64
    ensures LookUp(AfterCalls(db, calls).elections, id) == Some(StoredElection(FromVotesAlone(id, CallsTo(calls, id))))
  {
    ExpectedOfUnknown(db, id, CallsTo(calls, id));
    ElectionAccounts(db, id, calls);
  }

  lemma OneCall(c: Call)
    ensures CallsTo([c], c.election) == [c] && TotalWeight([c]) == c.weight
  {
    assert [c][..0] == [];
  }

  lemma OneCallAlone(fid: nat, now: nat)
    ensures FromVotesAlone("e", [Call(fid, "e", 3, now)]) == Election("e", fid, 1, now, now, 0, "", 0, 0, "", None, "3")
  {
    OneCall(Call(fid, "e", 3, now));
    assert PrintBig(3) == "3";
  }

  /** One vote of weight 3 in an unknown election. */
  lemma FirstVoteOfAnElection(db: Collections, fid: nat, now: nat)
    requires fid in db.users && "e" !in db.elections && now != 0
    ensures LookUp(AfterCalls(db, [Call(fid, "e", 3, now)]).elections, "e")
            == Some(StoredElection(Election("e", fid, 1, now, now, 0, "", 0, 0, "", None, "3")))
  {
    var c := Call(fid, "e", 3, now);
    OneCall(c);
    OneCallAlone(fid, now);
    UnknownElectionStartsEmpty(db, "e", [c]);
  }

  // ------------------------------------------------------------------ the voters

  /** The voters document as read; a missing one reads as empty. */
  function VotersOf(db: Collections, id: string): VotersOfElection {
    LookUp(db.voters, id).GetOr(NewVotersList(0))
  }

  /** `list` is `initial` with the callers added, each once, and no longer remindable. */
  ghost predicate ListsCallers(initial: VotersOfElection, list: VotersOfElection, calls: seq<Call>) {
    && initial.voters <= list.voters
    && (NoDuplicates(initial.voters) ==> NoDuplicates(list.voters))
    && (forall fid :: fid in list.voters <==> fid in initial.voters || exists c | c in calls :: c.fid == fid)
    && list.remindable == initial.remindable - ((set c | c in calls :: c.fid) - (set f | f in initial.voters))
    && list.alreadyReminded == initial.alreadyReminded
  }

  lemma NobodyCalled(initial: VotersOfElection)
    ensures ListsCallers(initial, initial, [])
  {}

  lemma CallerAdded(initial: VotersOfElection, list: VotersOfElection, front: seq<Call>, c: Call)
    requires ListsCallers(initial, list, front)
    ensures ListsCallers(initial, VoterAdded(Some(list), c.fid), front + [c])
  {
    var after, calls := VoterAdded(Some(list), c.fid), front + [c];
    assert calls[|front|] == c;
    assert (set d | d in calls :: d.fid) == (set d | d in front :: d.fid) + {c.fid};
    RemindableLess(initial, list, front, c);
  }

  lemma RemindableLess(initial: VotersOfElection, list: VotersOfElection, front: seq<Call>, c: Call)
    requires ListsCallers(initial, list, front)
    ensures VoterAdded(Some(list), c.fid).remindable
            == initial.remindable - ((set d | d in front + [c] :: d.fid) - (set f | f in initial.voters))
  {
    var before, all := (set d | d in front :: d.fid), (set d | d in front + [c] :: d.fid);
    var known := set f | f in initial.voters;
    assert (front + [c])[|front|] == c;
    assert all == before + {c.fid};
    assert c.fid in list.voters ==> all - known == before - known;
    assert c.fid !in list.voters ==> all - known == (before - known) + {c.fid};
  }

  lemma AddedToMissing(stored: Option<VotersOfElection>, fid: nat)
    requires fid != 0
    ensures VoterAdded(stored, fid) == VoterAdded(Some(stored.GetOr(NewVotersList(0))), fid)
  {}

  /** The voters of an election are those it had and the callers, each listed once; the remindable
      users lose the callers who had not voted before, and the reminded users stay. */
  lemma {:induction false} VotersAreTheCallers(db: Collections, id: string, calls: seq<Call>)
    requires forall c | c in calls :: c.fid in db.users && c.fid != 0
    ensures ListsCallers(VotersOf(db, id), VotersOf(AfterCalls(db, calls), id), CallsTo(calls, id))
  {
    if calls == [] {
      NobodyCalled(VotersOf(db, id));
    } else {
      var front, c := calls[..|calls| - 1], calls[|calls| - 1];
      assert calls == front + [c];
      VotersAreTheCallers(db, id, front);
      LastCallVoters(db, id, calls);
      if c.election == id {
        AddedToMissing(LookUp(AfterCalls(db, front).voters, id), c.fid);
        CallerAdded(VotersOf(db, id), VotersOf(AfterCalls(db, front), id), CallsTo(front, id), c);
      } else {
        assert CallsTo(front, id) + [] == CallsTo(front, id);
      }
    }
  }

  // ------------------------------------------------------------------- the users

  /** A table after updating the entries of some keys, one after the other. */
  function UpdatedEach<K(==), D>(m: map<K, D>, ks: seq<K>, f: (K, D) -> D): (r: map<K, D>)
    requires forall k | k in ks :: k in m
    ensures r.Keys == m.Keys
  {
    if ks == [] then m
    else
      var before, k := UpdatedEach(m, ks[..|ks| - 1], f), ks[|ks| - 1];
      before[k := f(k, before[k])]
  }

  function Times<K, D>(k: K, d: D, f: (K, D) -> D, n: nat): D {
    if n == 0 then d else f(k, Times(k, d, f, n - 1))
  }

  function Occurrences<K(==)>(ks: seq<K>, k: K): nat {
    if ks == [] then 0 else Occurrences(ks[..|ks| - 1], k) + if ks[|ks| - 1] == k then 1 else 0
  }

  /** The entry of a key has been updated as often as the key occurs. */
  lemma {:induction false} EntryUpdatedTimes<K, D>(m: map<K, D>, ks: seq<K>, f: (K, D) -> D, k: K)
    requires k in m && forall l | l in ks :: l in m
    ensures UpdatedEach(m, ks, f)[k] == Times(k, m[k], f, Occurrences(ks, k))
  {
    if ks != [] {
      EntryUpdatedTimes(m, ks[..|ks| - 1], f, k);
    }
  }

  lemma {:induction false} TimesFollow<K, D>(docs: seq<D>, k: K, f: (K, D) -> D, n: nat)
    requires n < |docs| && forall i | 0 <= i < n :: f(k, docs[i]) == docs[i + 1]
    ensures Times(k, docs[0], f, n) == docs[n]
  {
    if n > 0 {
      TimesFollow(docs, k, f, n - 1);
      assert f(k, docs[n - 1]) == docs[n - 1 + 1];
    }
  }

  function Callers(calls: seq<Call>): (fids: seq<nat>)
    ensures |fids| == |calls| && forall i | 0 <= i < |fids| :: fids[i] == calls[i].fid
  {
    seq(|calls|, i requires 0 <= i < |calls| => calls[i].fid)
  }

  lemma CallersSnoc(calls: seq<Call>)
    requires calls != []
    ensures Callers(calls)[..|calls| - 1] == Callers(calls[..|calls| - 1])
    ensures Callers(calls)[|calls| - 1] == calls[|calls| - 1].fid
  {}

  function CountedUser(fid: nat, d: Document): Document {
    UserAfter(d, fid)
  }

  lemma LastCallUsers(db: Collections, calls: seq<Call>)
    requires calls != [] && forall c | c in calls :: c.fid in db.users
    ensures var before, after, c := AfterCalls(db, calls[..|calls| - 1]), AfterCalls(db, calls), calls[|calls| - 1];
            after.users == before.users[c.fid := CountedUser(c.fid, before.users[c.fid])]
  {
    CountedMaps(AfterCalls(db, calls[..|calls| - 1]), calls[|calls| - 1]);
  }

  lemma UpdatedLast<K, D>(m: map<K, D>, ks: seq<K>, f: (K, D) -> D, before: map<K, D>, after: map<K, D>)
    requires ks != [] && forall k | k in ks :: k in m
    requires before == UpdatedEach(m, ks[..|ks| - 1], f)
    requires after == before[ks[|ks| - 1] := f(ks[|ks| - 1], before[ks[|ks| - 1]])]
    ensures after == UpdatedEach(m, ks, f)
  {}

  /** The user documents after some calls: that of every caller counted once per call. */
  lemma {:induction false} UsersOfCalls(db: Collections, calls: seq<Call>)
    requires forall c | c in calls :: c.fid in db.users
    ensures forall k | k in Callers(calls) :: k in db.users
    ensures AfterCalls(db, calls).users == UpdatedEach(db.users, Callers(calls), CountedUser)
  {
    forall k | k in Callers(calls) ensures k in db.users {
      var i :| 0 <= i < |calls| && Callers(calls)[i] == k;
      assert calls[i] in calls;
    }
    if calls != [] {
      UsersOfCalls(db, calls[..|calls| - 1]);
      CallersSnoc(calls);
      LastCallUsers(db, calls);
      UpdatedLast(db.users, Callers(calls), CountedUser, AfterCalls(db, calls[..|calls| - 1]).users,
                  AfterCalls(db, calls).users);
    }
  }

  function CallsBy(calls: seq<Call>, fid: nat): nat {
    Occurrences(Callers(calls), fid)
  }

  function WithVotes(u: User, n: nat): User {
    u.(castedVotes := u.castedVotes + n)
  }

  lemma OneMoreVote(u: User, n: nat)
    requires u.castedVotes + n < TWO_TO_THE_64 - 1
    ensures UserAfter(StoredUser(WithVotes(u, n)), u.userID) == StoredUser(WithVotes(u, n + 1))
  {
    UserUpdateIsFullIff(WithVotes(u, n));
  }

  /** The documents of a user after 0 to `n` votes. */
  ghost function History(u: User, n: nat): (docs: seq<Document>)
    ensures |docs| == n + 1 && forall k | 0 <= k <= n :: docs[k] == StoredUser(WithVotes(u, k))
  {
    seq(n + 1, k requires 0 <= k <= n => StoredUser(WithVotes(u, k)))
  }

  lemma HistoryStep(u: User, n: nat, k: nat)
    requires u.castedVotes + n < TWO_TO_THE_64 && k < n
    ensures CountedUser(u.userID, History(u, n)[k]) == History(u, n)[k + 1]
  {
    OneMoreVote(u, k);
  }

  lemma VotesAddUp(u: User, n: nat)
    requires u.castedVotes + n < TWO_TO_THE_64
    ensures Times(u.userID, History(u, n)[0], CountedUser, n) == History(u, n)[n]
  {
    var docs := History(u, n);
    forall k | 0 <= k < n ensures CountedUser(u.userID, docs[k]) == docs[k + 1] {
      HistoryStep(u, n, k);
    }
    TimesFollow(docs, u.userID, CountedUser, n);
  }

  /** Every user's own counter grows by the number of their votes, in whatever elections. */
  lemma UsersAccount(db: Collections, calls: seq<Call>, u: User)
    requires forall c | c in calls :: c.fid in db.users
    requires u.userID in db.users && db.users[u.userID] == StoredUser(u)
    requires u.castedVotes + CallsBy(calls, u.userID) < TWO_TO_THE_64
    ensures AfterCalls(db, calls).users[u.userID] == StoredUser(WithVotes(u, CallsBy(calls, u.userID)))
  {
    var n := CallsBy(calls, u.userID);
    UsersOfCalls(db, calls);
    EntryUpdatedTimes(db.users, Callers(calls), CountedUser, u.userID);
    VotesAddUp(u, n);
    assert WithVotes(u, 0) == u;
  }
}
