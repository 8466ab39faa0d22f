/** Counting votes: the stored records of users, elections and voters (mongo/votes.go,
    mongo/election.go, mongo/user.go). */
module Votes {
  import opened Prelude
  import opened Decimal
  import opened PartialUpdate

  // -------------------------------------------------------------------- records

  /** Times are seconds; 0 is the unset time. */
  datatype Election = Election(
    electionID: string, userID: nat, castedVotes: nat, lastVoteTime: nat, createdTime: nat, endTime: nat,
    source: string, farcasterUserCount: nat, initialAddressesCount: nat, question: string,
    community: Option<(string, string)>, castedWeight: string)

  function ElectionFields(e: Election): seq<Field> {
    [Field("_id", Text(e.electionID)), Field("userId", Number(e.userID)), Field("castedVotes", Number(e.castedVotes)),
     Field("lastVoteTime", Number(e.lastVoteTime)), Field("createdTime", Number(e.createdTime)),
     Field("endTime", Number(e.endTime)), Field("source", Text(e.source)),
     Field("farcasterUserCount", Number(e.farcasterUserCount)),
     Field("initialAddressesCount", Number(e.initialAddressesCount)), Field("question", Text(e.question)),
     Field("community", Reference(e.community)), Field("castedWeight", Text(e.castedWeight))]
  }

  lemma ElectionTagsDiffer(e: Election)
    ensures TagsDiffer(ElectionFields(e))
  {
    assert "userId"[0] != "source"[0] && "castedVotes"[1] != "createdTime"[1] && "lastVoteTime"[0] != "castedWeight"[0];
  }

  datatype User = User(
    userID: nat, electionCount: nat, castedVotes: nat, username: string, displayname: string,
    custodyAddress: string, addresses: Option<seq<string>>, signers: Option<seq<string>>,
    followers: nat, lastUpdated: nat, avatar: string)

  function UserFields(u: User): seq<Field> {
    [Field("_id", Number(u.userID)), Field("electionCount", Number(u.electionCount)),
     Field("castedVotes", Number(u.castedVotes)), Field("username", Text(u.username)),
     Field("displayname", Text(u.displayname)), Field("custodyAddress", Text(u.custodyAddress)),
     Field("addresses", Texts(u.addresses)), Field("signers", Texts(u.signers)),
     Field("followers", Number(u.followers)), Field("lastUpdated", Number(u.lastUpdated)),
     Field("avatar", Text(u.avatar))]
  }

  lemma UserTagsDiffer(u: User)
    ensures TagsDiffer(UserFields(u))
  {
    assert "castedVotes"[0] != "displayname"[0] && "castedVotes"[0] != "lastUpdated"[0]
        && "displayname"[0] != "lastUpdated"[0];
    assert "addresses"[0] != "followers"[0];
  }

  // A field that a document lacks reads as zero.

  function NumberAt(d: Document, tag: string): nat {
    if tag in d && d[tag].Number? then d[tag].n else 0
  }

  function TextAt(d: Document, tag: string): string {
    if tag in d && d[tag].Text? then d[tag].s else ""
  }

  function TextsAt(d: Document, tag: string): Option<seq<string>> {
    if tag in d && d[tag].Texts? then d[tag].texts else None
  }

  function ReferenceAt(d: Document, tag: string): Option<(string, string)> {
    if tag in d && d[tag].Reference? then d[tag].ref else None
  }

  function ReadElection(id: string, d: Document): Election {
    Election(id, NumberAt(d, "userId"), NumberAt(d, "castedVotes"), NumberAt(d, "lastVoteTime"),
             NumberAt(d, "createdTime"), NumberAt(d, "endTime"), TextAt(d, "source"),
             NumberAt(d, "farcasterUserCount"), NumberAt(d, "initialAddressesCount"), TextAt(d, "question"),
             ReferenceAt(d, "community"), TextAt(d, "castedWeight"))
  }

  function ReadUser(fid: nat, d: Document): User {
    User(fid, NumberAt(d, "electionCount"), NumberAt(d, "castedVotes"), TextAt(d, "username"), TextAt(d, "displayname"),
         TextAt(d, "custodyAddress"), TextsAt(d, "addresses"), TextsAt(d, "signers"),
         NumberAt(d, "followers"), NumberAt(d, "lastUpdated"), TextAt(d, "avatar"))
  }

  function StoredElection(e: Election): Document {
    FullDocument(ElectionFields(e))
  }

  function StoredUser(u: User): Document {
    FullDocument(UserFields(u))
  }

  lemma ReadsField(fields: seq<Field>, i: nat, tag: string, value: Value)
    requires TagsDiffer(fields) && 0 < i < |fields| && fields[i] == Field(tag, value) && HasColumn(fields[i])
    ensures var d := FullDocument(fields);
            match value
            case Number(n) => NumberAt(d, tag) == n
            case Text(s) => TextAt(d, tag) == s
            case Texts(t) => TextsAt(d, tag) == t
            case Reference(r) => ReferenceAt(d, tag) == r
            case _ => true
  {
    FullDocumentEntries(fields);
    assert fields[i] in fields;
  }

  lemma ReadStoredNumbers(e: Election)
    ensures var d := StoredElection(e);
            && NumberAt(d, "userId") == e.userID && NumberAt(d, "castedVotes") == e.castedVotes
            && NumberAt(d, "lastVoteTime") == e.lastVoteTime && NumberAt(d, "createdTime") == e.createdTime
            && NumberAt(d, "endTime") == e.endTime && NumberAt(d, "farcasterUserCount") == e.farcasterUserCount
            && NumberAt(d, "initialAddressesCount") == e.initialAddressesCount
  {
    var fs := ElectionFields(e);
    ElectionTagsDiffer(e);
    ReadsField(fs, 1, "userId", Number(e.userID));
    ReadsField(fs, 2, "castedVotes", Number(e.castedVotes));
    ReadsField(fs, 3, "lastVoteTime", Number(e.lastVoteTime));
    ReadsField(fs, 4, "createdTime", Number(e.createdTime));
    ReadsField(fs, 5, "endTime", Number(e.endTime));
    ReadsField(fs, 7, "farcasterUserCount", Number(e.farcasterUserCount));
    ReadsField(fs, 8, "initialAddressesCount", Number(e.initialAddressesCount));
  }

  lemma ReadStoredElection(e: Election)
    ensures ReadElection(e.electionID, StoredElection(e)) == e
    ensures var d := StoredElection(e);
            && TextAt(d, "source") == e.source && TextAt(d, "question") == e.question
            && ReferenceAt(d, "community") == e.community && TextAt(d, "castedWeight") == e.castedWeight
  {
    var fs := ElectionFields(e);
    ElectionTagsDiffer(e);
    ReadStoredNumbers(e);
    ReadsField(fs, 6, "source", Text(e.source));
    ReadsField(fs, 9, "question", Text(e.question));
    ReadsField(fs, 10, "community", Reference(e.community));
    ReadsField(fs, 11, "castedWeight", Text(e.castedWeight));
  }

  lemma ReadStoredUser(u: User)
    ensures ReadUser(u.userID, StoredUser(u)) == u
    ensures var d := StoredUser(u);
            && NumberAt(d, "electionCount") == u.electionCount && NumberAt(d, "castedVotes") == u.castedVotes
            && TextAt(d, "username") == u.username && TextAt(d, "displayname") == u.displayname
            && TextAt(d, "custodyAddress") == u.custodyAddress && TextsAt(d, "addresses") == u.addresses
            && TextsAt(d, "signers") == u.signers && NumberAt(d, "followers") == u.followers
            && NumberAt(d, "lastUpdated") == u.lastUpdated && TextAt(d, "avatar") == u.avatar
  {
    var fs := UserFields(u);
    UserTagsDiffer(u);
    ReadsField(fs, 1, "electionCount", Number(u.electionCount));
    ReadsField(fs, 2, "castedVotes", Number(u.castedVotes));
    ReadsField(fs, 3, "username", Text(u.username));
    ReadsField(fs, 4, "displayname", Text(u.displayname));
    ReadsField(fs, 5, "custodyAddress", Text(u.custodyAddress));
    ReadsField(fs, 6, "addresses", Texts(u.addresses));
    ReadsField(fs, 7, "signers", Texts(u.signers));
    ReadsField(fs, 8, "followers", Number(u.followers));
    ReadsField(fs, 9, "lastUpdated", Number(u.lastUpdated));
    ReadsField(fs, 10, "avatar", Text(u.avatar));
  }

  // --------------------------------------------------------------- one vote more

  /** Unsigned 64-bit increment. */
  function Increment(n: nat): nat {
    (n + 1) % TWO_TO_THE_64
  }

  function Counted(e: Election, weight: int, now: nat): Election {
    e.(castedVotes := Increment(e.castedVotes), lastVoteTime := now,
       castedWeight := PrintBig(ParseBig(e.castedWeight).GetOr(0) + weight))
  }

  function FallbackElection(id: string, fid: nat, now: nat): Election {
    Election(id, fid, 0, 0, now, 0, "", 0, 0, "", None, PrintBig(0))
  }

  function ElectionUpdate(e: Election): Document {
    UpdateDocument(ElectionFields(e), {})
  }

  /** The election document after a vote. */
  function ElectionAfter(stored: Option<Document>, id: string, fid: nat, weight: int, now: nat): Document {
    var d := stored.GetOr(StoredElection(FallbackElection(id, fid, now)));
    d + ElectionUpdate(Counted(ReadElection(id, d), weight, now))
  }

  /** The user document after a vote. */
  function UserAfter(d: Document, fid: nat): Document {
    var u := ReadUser(fid, d);
    d + UpdateDocument(UserFields(u.(castedVotes := Increment(u.castedVotes))), {})
  }

  lemma PrintBigIsText(i: int)
    ensures PrintBig(i) != ""
  {
    PrintIsDigits(if i < 0 then -i else i);
  }

  /** The update that skips zero fields stores the counted election exactly when the counter does not wrap. */
  lemma ElectionUpdateIsFullIff(e: Election, weight: int, now: nat)
    requires now != 0 && e.castedVotes < TWO_TO_THE_64
    ensures StoredElection(e) + ElectionUpdate(Counted(e, weight, now)) == StoredElection(Counted(e, weight, now))
            <==> e.castedVotes != TWO_TO_THE_64 - 1
  {
    var before, after := ElectionFields(e), ElectionFields(Counted(e, weight, now));
    ElectionTagsDiffer(e);
    PartialIsFullIff(before, after, {});
    PrintBigIsText(ParseBig(e.castedWeight).GetOr(0) + weight);
    assert after[11].value == Text(Counted(e, weight, now).castedWeight) && !IsZero(after[11].value);
    if e.castedVotes == TWO_TO_THE_64 - 1 {
      assert HasColumn(after[2]) && !IsWritten(after[2], {}) && before[2].value != after[2].value;
    }
  }

  lemma UserUpdateIsFullIff(u: User)
    requires u.castedVotes < TWO_TO_THE_64
    ensures UserAfter(StoredUser(u), u.userID) == StoredUser(u.(castedVotes := Increment(u.castedVotes)))
            <==> u.castedVotes != TWO_TO_THE_64 - 1
  {
    var before, after := UserFields(u), UserFields(u.(castedVotes := Increment(u.castedVotes)));
    ReadStoredUser(u);
    UserTagsDiffer(u);
    PartialIsFullIff(before, after, {});
    if u.castedVotes == TWO_TO_THE_64 - 1 {
      assert HasColumn(after[2]) && !IsWritten(after[2], {}) && before[2].value != after[2].value;
    }
  }

  // ------------------------------------------------------------------ the voters

  datatype VotersOfElection = VotersOfElection(voters: seq<nat>, remindable: map<nat, string>,
                                               alreadyReminded: map<nat, string>)

  /** A new list, with one voter unless the given user is 0. */
  function NewVotersList(fid: nat): VotersOfElection {
    VotersOfElection(if fid != 0 then [fid] else [], map[], map[])
  }

  /** The voters document after a vote. */
  function VoterAdded(stored: Option<VotersOfElection>, fid: nat): VotersOfElection {
    match stored
    case None => NewVotersList(fid)
    case Some(v) =>
      if fid in v.voters then v
      else VotersOfElection(v.voters + [fid], v.remindable - {fid}, v.alreadyReminded)
  }

  /** The voters document after some reminders were sent. Without a document the reminders are lost. */
  function RemindersRecorded(stored: Option<VotersOfElection>, reminders: map<nat, string>): VotersOfElection {
    match stored
    case None => NewVotersList(0)
    case Some(v) => v.(remindable := v.remindable - reminders.Keys, alreadyReminded := v.alreadyReminded + reminders)
  }

  /** What the senders of reminders read: the remindable users and the number of reminded ones. */
  function RemindersIn(v: VotersOfElection): (map<nat, string>, nat) {
    (v.remindable, |v.alreadyReminded|)
  }

  /** Recording reminders of remindable users moves them: what a later read counts as reminded grows
      by their number, and nobody is lost or listed twice. */
  lemma RemindersAreConserved(v: VotersOfElection, sent: map<nat, string>)
    requires sent.Keys <= v.remindable.Keys && v.remindable.Keys !! v.alreadyReminded.Keys
    ensures var v' := RemindersRecorded(Some(v), sent);
            var (before, count) := RemindersIn(v);
            var (after, count') := RemindersIn(v');
            && count' == count + |sent| && |after| + count' == |before| + count
            && v'.remindable.Keys !! v'.alreadyReminded.Keys
  {
    var v' := RemindersRecorded(Some(v), sent);
    assert v'.alreadyReminded.Keys == v.alreadyReminded.Keys + sent.Keys;
    assert v'.remindable.Keys == v.remindable.Keys - sent.Keys;
    assert |v'.alreadyReminded| == |v'.alreadyReminded.Keys| && |v.alreadyReminded| == |v.alreadyReminded.Keys|;
    assert |v'.remindable| == |v'.remindable.Keys| && |v.remindable| == |v.remindable.Keys| && |sent| == |sent.Keys|;
  }

  function LookUp<K(==), V>(m: map<K, V>, id: K): Option<V> {
    if id in m then Some(m[id]) else None
  }

  datatype VoteError = UserUnknown | ElectionUnknown | ElectionExists

  // ------------------------------------------------------------------- the store

  datatype Collections = Collections(users: map<nat, Document>, elections: map<string, Document>,
                                     voters: map<string, VotersOfElection>)

  function UserCounted(db: Collections, fid: nat): Collections
    requires fid in db.users
  {
    db.(users := db.users[fid := UserAfter(db.users[fid], fid)])
  }

  function ElectionCounted(db: Collections, fid: nat, id: string, weight: int, now: nat): Collections {
    db.(elections := db.elections[id := ElectionAfter(LookUp(db.elections, id), id, fid, weight, now)])
  }

  function VoterCounted(db: Collections, fid: nat, id: string): Collections {
    db.(voters := db.voters[id := VoterAdded(LookUp(db.voters, id), fid)])
  }

  function VoteCounted(db: Collections, fid: nat, id: string, weight: int, now: nat): Collections
    requires fid in db.users
  {
    VoterCounted(ElectionCounted(UserCounted(db, fid), fid, id, weight, now), fid, id)
  }

  class Storage {
    var users: map<nat, Document>
    var elections: map<string, Document>
    var voters: map<string, VotersOfElection>

    constructor (users: map<nat, Document>, elections: map<string, Document>)
      ensures this.users == users && this.elections == elections && voters == map[]
    {
      this.users, this.elections, voters := users, elections, map[];
    }

    ghost function Contents(): Collections
      reads this
    {
      Collections(users, elections, voters)
    }

    /** A user without a document gets one. */
    method UpdateUser(user: User)
      modifies this`users
      ensures users == old(users)[user.userID :=
                         LookUp(old(users), user.userID).GetOr(map[]) + UpdateDocument(UserFields(user), {})]
    {
      var updateDoc := DynamicUpdateDocument(UserFields(user), []);
      assert (set t: string | t in []) == {};
      var current := if user.userID in users then users[user.userID] else map[];
      users := users[user.userID := current + updateDoc];
    }

    /** The insertion of an election that is already stored fails. */
    method AddElection(election: Election) returns (error: Option<VoteError>)
      modifies this`elections
      ensures error == if election.electionID in old(elections) then Some(ElectionExists) else None
      ensures elections == if error.Some? then old(elections)
                           else old(elections)[election.electionID := StoredElection(election)]
    {
      if election.electionID in elections {
        return Some(ElectionExists);
      }
      elections := elections[election.electionID := StoredElection(election)];
      error := None;
    }

    method UpdateElection(election: Election)
      modifies this`elections
      ensures elections == old(elections)[election.electionID :=
                             LookUp(old(elections), election.electionID).GetOr(map[]) + ElectionUpdate(election)]
    {
      var updateDoc := DynamicUpdateDocument(ElectionFields(election), []);
      assert (set t: string | t in []) == {};
      var current := if election.electionID in elections then elections[election.electionID] else map[];
      elections := elections[election.electionID := current + updateDoc];
    }

    method AddVoterToElection(electionID: string, userFID: nat)
      modifies this`voters
      ensures Contents() == VoterCounted(old(Contents()), userFID, electionID)
      ensures voters.Keys == old(voters).Keys + {electionID}
      ensures forall id | id in old(voters) && id != electionID :: voters[id] == old(voters)[id]
      ensures electionID !in old(voters) ==>
                voters[electionID] == VotersOfElection(if userFID == 0 then [] else [userFID], map[], map[])
      ensures electionID in old(voters) ==>
                var v := old(voters)[electionID];
                voters[electionID] == if userFID in v.voters then v
                                      else v.(voters := v.voters + [userFID], remindable := v.remindable - {userFID})
    {
      if electionID !in voters {
        voters := voters[electionID := NewVotersList(userFID)];
        return;
      }
      var current := voters[electionID];
      var isVoter := false;
      for i := 0 to |current.voters|
        invariant isVoter <==> userFID in current.voters[..i]
        invariant voters == old(voters)
      {
        PrefixSnoc(current.voters, i);
        if current.voters[i] == userFID {
          isVoter := true;
        }
      }
      assert current.voters[..|current.voters|] == current.voters;
      if isVoter {
        SameEntry(voters, electionID);
        return;
      }
      voters := voters[electionID := VotersOfElection(current.voters + [userFID], current.remindable - {userFID},
                                                      current.alreadyReminded)];
    }

    method IncreaseVoteCount(userFID: nat, electionID: string, weight: int, now: nat) returns (error: Option<VoteError>)
      modifies this
      ensures error == if userFID in old(users) then None else Some(UserUnknown)
      ensures Contents() == if error.Some? then old(Contents())
                            else VoteCounted(old(Contents()), userFID, electionID, weight, now)
    {
      if userFID !in users {
        return Some(UserUnknown);
      }
      CountUserVote(userFID);
      CountVote(userFID, electionID, weight, now);
      AddVoterToElection(electionID, userFID);
      error := None;
    }

    method CountUserVote(userFID: nat)
      requires userFID in users
      modifies this`users
      ensures Contents() == UserCounted(old(Contents()), userFID)
    {
      var user := ReadUser(userFID, users[userFID]);
      UpdateUser(user.(castedVotes := Increment(user.castedVotes)));
    }

    /** The part of IncreaseVoteCount about the election: an unknown one is created on the fly. */
    method CountVote(userFID: nat, electionID: string, weight: int, now: nat)
      modifies this`elections
      ensures Contents() == ElectionCounted(old(Contents()), userFID, electionID, weight, now)
    {
      ghost var all := elections;
      if electionID !in elections {
        var added := AddElection(FallbackElection(electionID, userFID, now));
        assert added.None?;
      }
      ghost var base := elections[electionID];
      var election := ReadElection(electionID, elections[electionID]);
      var accCastedWeight := ParseBig(election.castedWeight);
      if accCastedWeight.None? {
        accCastedWeight := Some(0);
      }
      election := election.(castedVotes := Increment(election.castedVotes), lastVoteTime := now,
                            castedWeight := PrintBig(accCastedWeight.value + weight));
      UpdateElection(election);
      LastEntryWins(all, electionID, base, base + ElectionUpdate(election));
    }

    method RemindersOfElection(electionID: string) returns (r: Result<(map<nat, string>, nat), VoteError>)
      ensures r.Err? <==> electionID !in voters
      ensures r.Ok? ==> r.value == RemindersIn(voters[electionID])
      ensures r.Err? ==> r.error == ElectionUnknown
    {
      if electionID !in voters {
        return Err(ElectionUnknown);
      }
      var current := voters[electionID];
      r := Ok((current.remindable, |current.alreadyReminded|));
    }

    method RemindersSent(electionID: string, reminders: map<nat, string>)
      modifies this`voters
      ensures voters == old(voters)[electionID := RemindersRecorded(LookUp(old(voters), electionID), reminders)]
      ensures electionID !in old(voters) ==> voters[electionID] == VotersOfElection([], map[], map[])
      ensures electionID in old(voters) ==>
                var v := old(voters)[electionID];
                voters[electionID]
                == v.(remindable := v.remindable - reminders.Keys, alreadyReminded := v.alreadyReminded + reminders)
    {
      if electionID !in voters {
        voters := voters[electionID := NewVotersList(0)];
        return;
      }
      var current := voters[electionID];
      var remindable, alreadyReminded := MoveReminded(current.remindable, current.alreadyReminded, reminders);
      voters := voters[electionID := current.(remindable := remindable, alreadyReminded := alreadyReminded)];
    }
  }

  /** `m` with the entries of `news` at the keys `done`. */
  ghost predicate TakenOver<V>(m: map<nat, V>, news: map<nat, V>, done: set<nat>, r: map<nat, V>)
    requires done <= news.Keys
  {
    r.Keys == m.Keys + done && forall f | f in r :: r[f] == if f in done then news[f] else m[f]
  }

  lemma TakesOneMore<V>(m: map<nat, V>, news: map<nat, V>, done: set<nat>, r: map<nat, V>, f: nat)
    requires done <= news.Keys && f in news && TakenOver(m, news, done, r)
    ensures TakenOver(m, news, done + {f}, r[f := news[f]])
  {}

  lemma AllTakenOver<V>(m: map<nat, V>, news: map<nat, V>, r: map<nat, V>)
    requires TakenOver(m, news, news.Keys, r)
    ensures r == m + news
  {}

  lemma DropsOneMore<V>(m: map<nat, V>, done: set<nat>, f: nat)
    ensures m - done - {f} == m - (done + {f})
  {}

  /** The two lists, copied and updated entry by entry. */
  method MoveReminded<V>(currentRemindable: map<nat, V>, currentReminded: map<nat, V>, reminders: map<nat, V>)
      returns (remindable: map<nat, V>, alreadyReminded: map<nat, V>)
    ensures remindable == currentRemindable - reminders.Keys
    ensures alreadyReminded == currentReminded + reminders
  {
    remindable, alreadyReminded := currentRemindable, currentReminded;
    var rest := reminders.Keys;
    ghost var done: set<nat> := {};
    while rest != {}
      invariant done <= reminders.Keys && rest == reminders.Keys - done
      invariant remindable == currentRemindable - done
      invariant TakenOver(currentReminded, reminders, done, alreadyReminded)
      decreases rest
    {
      var userFid :| userFid in rest;
      TakesOneMore(currentReminded, reminders, done, alreadyReminded, userFid);
      DropsOneMore(currentRemindable, done, userFid);
      alreadyReminded := alreadyReminded[userFid := reminders[userFid]];
      remindable := remindable - {userFid};
      done, rest := done + {userFid}, rest - {userFid};
    }
    assert done == reminders.Keys;
    AllTakenOver(currentReminded, reminders, alreadyReminded);
  }
}
