/** Voting weights of a census built from a list of Farcaster users, and the check that turns
    away voters who have delegated (census.go, vote.go). */
module FidCensus {
  import opened Prelude
  import opened Delegations
  import opened DelegationLaws
  import opened DelegationStore

  /** A stored signer: the key it decodes to, or text that is not hexadecimal. */
  datatype Signer = Key(key: nat) | Malformed

  datatype User = User(fid: nat, username: string, addresses: seq<nat>, signers: seq<Signer>)

  datatype Participant = Participant(key: nat, weight: int, username: string, fid: nat)

  // ------------------------------------------------------------- weight of a user

  /** How many resolved delegations end at `fid`, whoever made them. */
  function Received(delegations: seq<Delegation>, fid: nat): nat {
    if delegations == [] then 0
    else
      var last := delegations[|delegations| - 1];
      Received(delegations[..|delegations| - 1], fid) + if last.to == fid then 1 else 0
  }

  function Weight(delegations: seq<Delegation>, fid: nat): nat {
    (if HasDelegated(delegations, fid) then 0 else 1) + Received(delegations, fid)
  }

  /** The participants of one user: one per signer, up to the first malformed signer. */
  function Emitted(user: User, fid: nat, weight: nat): seq<Participant> {
    EmittedUpTo(user, fid, weight, |user.signers|)
  }

  function EmittedUpTo(user: User, fid: nat, weight: nat, n: nat): (r: seq<Participant>)
    requires n <= |user.signers|
  {
    if n == 0 then []
    else
      var front := EmittedUpTo(user, fid, weight, n - 1);
      if |front| == n - 1 && user.signers[n - 1].Key?
      then front + [Participant(user.signers[n - 1].key, weight, user.username, fid)]
      else front
  }

  lemma {:induction false} EmittedOnePerSigner(user: User, fid: nat, weight: nat, n: nat)
    requires n <= |user.signers|
    ensures |EmittedUpTo(user, fid, weight, n)| <= n
    ensures |EmittedUpTo(user, fid, weight, n)| == n <==> forall i | 0 <= i < n :: user.signers[i].Key?
    ensures forall i | 0 <= i < |EmittedUpTo(user, fid, weight, n)| :: (
              && user.signers[i].Key?
              && EmittedUpTo(user, fid, weight, n)[i] == Participant(user.signers[i].key, weight, user.username, fid))
    ensures n > 0 && user.signers[0].Key? ==> EmittedUpTo(user, fid, weight, n) != []
  {
    if n > 0 {
      EmittedOnePerSigner(user, fid, weight, n - 1);
    }
  }

  function ParticipantsOf(delegations: seq<Delegation>, users: map<nat, User>, fid: nat): seq<Participant> {
    if Weight(delegations, fid) == 0 || fid !in users then []
    else Emitted(users[fid], fid, Weight(delegations, fid))
  }

  lemma ReceivedSnoc(delegations: seq<Delegation>, d: Delegation, fid: nat)
    ensures Received(delegations + [d], fid) == Received(delegations, fid) + if d.to == fid then 1 else 0
  {
    assert (delegations + [d])[..|delegations|] == delegations;
  }

  method FinalWeightOf(fid: nat, delegations: seq<Delegation>) returns (finalWeight: nat)
    ensures finalWeight == Weight(delegations, fid)
  {
    var userWeight, delegatedWeight := 1, 0;
    for i := 0 to |delegations|
      invariant userWeight == if HasDelegated(delegations[..i], fid) then 0 else 1
      invariant delegatedWeight == Received(delegations[..i], fid)
    {
      PrefixSnoc(delegations, i);
      HasDelegatedSnoc(delegations[..i], delegations[i], fid);
      ReceivedSnoc(delegations[..i], delegations[i], fid);
      if delegations[i].from == fid {
        userWeight := 0;
      }
      if delegations[i].to == fid {
        delegatedWeight := delegatedWeight + 1;
      }
    }
    assert delegations[..|delegations|] == delegations;
    finalWeight := userWeight + delegatedWeight;
  }

  method ProcessFid(fid: nat, delegations: seq<Delegation>, users: map<nat, User>)
      returns (participants: seq<Participant>)
    ensures participants == ParticipantsOf(delegations, users, fid)
    ensures IsBlock(participants, delegations, users, fid)
  {
    BlocksAreComplete(delegations, users, fid);
    participants := [];
    var finalWeight := FinalWeightOf(fid, delegations);
    if finalWeight == 0 || fid !in users {
      return;
    }
    var user := users[fid];
    for i := 0 to |user.signers|
      invariant participants == EmittedUpTo(user, fid, finalWeight, i) && |participants| == i
    {
      if user.signers[i].Malformed? {
        EmissionStops(user, fid, finalWeight, i + 1, |user.signers|);
        return;
      }
      participants := participants + [Participant(user.signers[i].key, finalWeight, user.username, fid)];
    }
  }

  lemma {:induction false} EmissionStops(user: User, fid: nat, weight: nat, i: nat, n: nat)
    requires 0 < i <= n <= |user.signers| && |EmittedUpTo(user, fid, weight, i)| < i
    ensures EmittedUpTo(user, fid, weight, n) == EmittedUpTo(user, fid, weight, i)
  {
    if i < n {
      EmissionStops(user, fid, weight, i, n - 1);
    }
  }

  function CensusOf(fids: seq<nat>, delegations: seq<Delegation>, users: map<nat, User>): seq<Participant> {
    if fids == [] then []
    else CensusOf(fids[..|fids| - 1], delegations, users) + ParticipantsOf(delegations, users, fids[|fids| - 1])
  }

  /** Everything that the blocks of the users still hold. */
  function Flat(blocks: seq<seq<Participant>>): seq<Participant> {
    if blocks == [] then [] else Flat(blocks[..|blocks| - 1]) + blocks[|blocks| - 1]
  }

  lemma {:induction false} FlatIsEmptyIff(blocks: seq<seq<Participant>>)
    ensures Flat(blocks) == [] <==> forall i | 0 <= i < |blocks| :: blocks[i] == []
  {
    if blocks != [] {
      FlatIsEmptyIff(blocks[..|blocks| - 1]);
    }
  }

  lemma MultisetOfSum<T>(a: seq<T>, b: seq<T>)
    ensures multiset(a + b) == multiset(a) + multiset(b)
  {}

  lemma MultisetOfFirst<T>(s: seq<T>)
    requires s != []
    ensures multiset(s) == multiset{s[0]} + multiset(s[1..])
  {
    assert s == [s[0]] + s[1..];
  }

  /** Taking the first participant of one block takes one participant away, and nothing else. */
  lemma {:induction false} FlatTake(blocks: seq<seq<Participant>>, i: nat)
    requires i < |blocks| && blocks[i] != []
    ensures multiset(Flat(blocks)) == multiset(Flat(blocks[i := blocks[i][1..]])) + multiset{blocks[i][0]}
    ensures |Flat(blocks)| == |Flat(blocks[i := blocks[i][1..]])| + 1
  {
    var n := |blocks| - 1;
    var front, last, less := blocks[..n], blocks[n], blocks[i := blocks[i][1..]];
    MultisetOfSum(Flat(front), last);
    MultisetOfSum(Flat(less[..n]), less[n]);
    if i < n {
      FlatTake(front, i);
      assert less[..n] == front[i := blocks[i][1..]];
    } else {
      assert less[..n] == front;
      MultisetOfFirst(last);
    }
  }

  /** `ps` holds the participants of all the users, arrived in any order. */
  ghost predicate IsCollected(ps: seq<Participant>, fids: seq<nat>, delegations: seq<Delegation>,
                              users: map<nat, User>) {
    multiset(ps) == multiset(CensusOf(fids, delegations, users))
  }

  lemma CollectedMembers(ps: seq<Participant>, fids: seq<nat>, delegations: seq<Delegation>, users: map<nat, User>)
    requires IsCollected(ps, fids, delegations, users)
    ensures forall p :: p in ps <==> p in CensusOf(fids, delegations, users)
  {
    assert forall p :: p in ps <==> p in multiset(ps);
    var census := CensusOf(fids, delegations, users);
    assert forall p :: p in census <==> p in multiset(census);
  }

  /** What each user has to send. */
  method Blocks(fids: seq<nat>, delegations: seq<Delegation>, users: map<nat, User>)
      returns (blocks: seq<seq<Participant>>)
    ensures |blocks| == |fids| && forall i | 0 <= i < |fids| :: blocks[i] == ParticipantsOf(delegations, users, fids[i])
    ensures Flat(blocks) == CensusOf(fids, delegations, users)
  {
    blocks := [];
    for i := 0 to |fids|
      invariant |blocks| == i && forall j | 0 <= j < i :: blocks[j] == ParticipantsOf(delegations, users, fids[j])
      invariant Flat(blocks) == CensusOf(fids[..i], delegations, users)
    {
      assert fids[..i + 1][..i] == fids[..i];
      var block := ProcessFid(fids[i], delegations, users);
      assert (blocks + [block])[..i] == blocks;
      blocks := blocks + [block];
    }
    assert fids[..|fids|] == fids;
  }

  /** Users send their participants at the same time, each in the order of the signers; the collector
      takes whichever comes next. */
  method FarcasterCensusFromFids(fids: seq<nat>, delegations: seq<Delegation>, users: map<nat, User>)
      returns (participants: seq<Participant>)
    ensures IsCollected(participants, fids, delegations, users)
    ensures HoldsAllSigners(participants, fids, delegations, users)
  {
    participants := [];
    var blocks := Blocks(fids, delegations, users);
    FlatIsEmptyIff(blocks);
    while exists i :: 0 <= i < |blocks| && blocks[i] != []
      invariant multiset(participants) + multiset(Flat(blocks)) == multiset(CensusOf(fids, delegations, users))
      invariant Flat(blocks) == [] <==> forall i | 0 <= i < |blocks| :: blocks[i] == []
      decreases |Flat(blocks)|
    {
      var i :| 0 <= i < |blocks| && blocks[i] != [];
      FlatTake(blocks, i);
      participants := participants + [blocks[i][0]];
      blocks := blocks[i := blocks[i][1..]];
      FlatIsEmptyIff(blocks);
    }
    EverySignerIsThere(participants, fids, delegations, users);
  }

  // ----------------------------------------------------------- conservation

  function TotalWeight(fids: seq<nat>, delegations: seq<Delegation>): nat {
    if fids == [] then 0
    else TotalWeight(fids[..|fids| - 1], delegations) + Weight(delegations, fids[|fids| - 1])
  }

  function NonDelegating(fids: seq<nat>, delegations: seq<Delegation>): nat {
    if fids == [] then 0
    else NonDelegating(fids[..|fids| - 1], delegations)
         + if HasDelegated(delegations, fids[|fids| - 1]) then 0 else 1
  }

  /** How many of the resolved delegations end at a listed user. */
  function LandingIn(delegations: seq<Delegation>, fids: seq<nat>): nat {
    if delegations == [] then 0
    else
      LandingIn(delegations[..|delegations| - 1], fids) + if delegations[|delegations| - 1].to in fids then 1 else 0
  }

  lemma {:induction false} LandingSnoc(delegations: seq<Delegation>, fids: seq<nat>, fid: nat)
    requires fid !in fids
    ensures LandingIn(delegations, fids + [fid]) == LandingIn(delegations, fids) + Received(delegations, fid)
  {
    if delegations != [] {
      LandingSnoc(delegations[..|delegations| - 1], fids, fid);
    }
  }

  /** Each user who keeps their vote counts once, and so does each delegation that ends at a listed user. */
  lemma {:induction false} TotalWeightSplits(fids: seq<nat>, delegations: seq<Delegation>)
    requires NoDuplicates(fids)
    ensures TotalWeight(fids, delegations) == NonDelegating(fids, delegations) + LandingIn(delegations, fids)
  {
    if fids == [] {
      NothingLandsNowhere(delegations);
    } else {
      var front, last := fids[..|fids| - 1], fids[|fids| - 1];
      assert fids == front + [last];
      TotalWeightSplits(front, delegations);
      LandingSnoc(delegations, front, last);
    }
  }

  lemma {:induction false} NothingLandsNowhere(delegations: seq<Delegation>)
    ensures LandingIn(delegations, []) == 0
  {
    if delegations != [] {
      NothingLandsNowhere(delegations[..|delegations| - 1]);
    }
  }

  lemma {:induction false} AllLandIff(delegations: seq<Delegation>, fids: seq<nat>)
    ensures LandingIn(delegations, fids) <= |delegations|
    ensures LandingIn(delegations, fids) == |delegations| <==> forall d | d in delegations :: d.to in fids
  {
    if delegations != [] {
      var front, last := delegations[..|delegations| - 1], delegations[|delegations| - 1];
      assert delegations == front + [last];
      AllLandIff(front, fids);
    }
  }

  /** How many of the delegations were made by a listed user. */
  function MadeIn(delegations: seq<Delegation>, fids: seq<nat>): nat {
    if delegations == [] then 0
    else
      MadeIn(delegations[..|delegations| - 1], fids) + if delegations[|delegations| - 1].from in fids then 1 else 0
  }

  lemma {:induction false} NonDelegatingCount(fids: seq<nat>, delegations: seq<Delegation>)
    requires NoDuplicates(fids) && OneDelegationPerUser(delegations)
    ensures NonDelegating(fids, delegations) + MadeIn(delegations, fids) == |fids|
  {
    if delegations == [] {
      NobodyDelegates(fids);
    } else {
      var front, last := delegations[..|delegations| - 1], delegations[|delegations| - 1];
      NonDelegatingCount(fids, front);
      forall d | d in front ensures d.from != last.from {
        var j :| 0 <= j < |front| && front[j] == d;
        assert delegations[j].from != delegations[|front|].from;
      }
      OneFewer(fids, front, last);
      assert delegations == front + [last];
    }
  }

  lemma {:induction false} NobodyDelegates(fids: seq<nat>)
    ensures NonDelegating(fids, []) == |fids|
  {
    if fids != [] {
      NobodyDelegates(fids[..|fids| - 1]);
    }
  }

  lemma {:induction false} OneFewer(fids: seq<nat>, front: seq<Delegation>, last: Delegation)
    requires NoDuplicates(fids) && !HasDelegated(front, last.from)
    ensures NonDelegating(fids, front) == NonDelegating(fids, front + [last]) + if last.from in fids then 1 else 0
  {
    if fids != [] {
      var rest, fid := fids[..|fids| - 1], fids[|fids| - 1];
      assert fids == rest + [fid];
      OneFewer(rest, front, last);
      HasDelegatedSnoc(front, last, fid);
    }
  }

  lemma {:induction false} SameAuthors(a: seq<Delegation>, b: seq<Delegation>, fids: seq<nat>)
    requires Redirected(a, b)
    ensures MadeIn(a, fids) == MadeIn(b, fids)
  {
    if a != [] {
      SameAuthors(a[..|a| - 1], b[..|b| - 1], fids);
    }
  }

  /** The total weight of a census over `fids`, when chains are acyclic and nobody delegates twice:
      listed delegators leave the count and every delegation that ends at a listed user enters it. */
  lemma CensusTotal(fids: seq<nat>, g: seq<Delegation>)
    requires NoDuplicates(fids) && IsForest(g)
    ensures AllGrounded(g, g)
    ensures TotalWeight(fids, Resolve(g, g)) == |fids| - MadeIn(g, fids) + LandingIn(Resolve(g, g), fids)
  {
    ResolveRedirects(g, g);
    TotalWeightSplits(fids, Resolve(g, g));
    SameAuthors(g, Resolve(g, g), fids);
    NonDelegatingCount(fids, Resolve(g, g));
  }

  lemma {:induction false} AllMade(delegations: seq<Delegation>, fids: seq<nat>)
    requires forall d | d in delegations :: d.from in fids
    ensures MadeIn(delegations, fids) == |delegations|
  {
    if delegations != [] {
      AllMade(delegations[..|delegations| - 1], fids);
    }
  }

  /** With every delegator listed, no vote is lost exactly when every final delegate is listed too. */
  lemma WeightIsConserved(fids: seq<nat>, g: seq<Delegation>)
    requires NoDuplicates(fids) && IsForest(g)
    requires forall d | d in g :: d.from in fids
    ensures AllGrounded(g, g) && TotalWeight(fids, Resolve(g, g)) <= |fids|
    ensures TotalWeight(fids, Resolve(g, g)) == |fids| <==> forall r | r in Resolve(g, g) :: r.to in fids
  {
    CensusTotal(fids, g);
    AllMade(g, fids);
    ResolveRedirects(g, g);
    AllLandIff(Resolve(g, g), fids);
  }

  // ------------------------------------------------------ who is in the census

  lemma {:induction false} ListedCarryTheirWeight(fids: seq<nat>, delegations: seq<Delegation>, users: map<nat, User>)
    ensures forall p | p in CensusOf(fids, delegations, users) ::
              p.fid in fids && p.weight == Weight(delegations, p.fid) && p.weight > 0
  {
    if fids != [] {
      var front, last := fids[..|fids| - 1], fids[|fids| - 1];
      assert fids == front + [last];
      ListedCarryTheirWeight(front, delegations, users);
      if last in users {
        var user := users[last];
        EmittedOnePerSigner(user, last, Weight(delegations, last), |user.signers|);
      }
    }
  }

  lemma {:induction false} ListedIff(fids: seq<nat>, delegations: seq<Delegation>, users: map<nat, User>, fid: nat)
    requires fid in fids && fid in users
    requires users[fid].signers != [] && users[fid].signers[0].Key?
    ensures (exists p | p in CensusOf(fids, delegations, users) :: p.fid == fid) <==> Weight(delegations, fid) > 0
  {
    ListedCarryTheirWeight(fids, delegations, users);
    var front, last := fids[..|fids| - 1], fids[|fids| - 1];
    assert fids == front + [last];
    if fid in front {
      ListedIff(front, delegations, users, fid);
    } else {
      var block := ParticipantsOf(delegations, users, fid);
      EmittedOnePerSigner(users[fid], fid, Weight(delegations, fid), |users[fid].signers|);
      if Weight(delegations, fid) > 0 {
        assert block[0] in CensusOf(fids, delegations, users) && block[0].fid == fid;
      }
    }
  }

  /** However participants arrive, each one carries the weight of its user, which is never 0. */
  lemma ParticipantsCarryTheirWeight(ps: seq<Participant>, fids: seq<nat>, delegations: seq<Delegation>,
                                     users: map<nat, User>)
    requires IsCollected(ps, fids, delegations, users)
    ensures forall p | p in ps :: p.fid in fids && p.weight == Weight(delegations, p.fid) && p.weight > 0
  {
    CollectedMembers(ps, fids, delegations, users);
    ListedCarryTheirWeight(fids, delegations, users);
  }

  /** A listed, known user whose first signer decodes is in the census if and only if their weight is not 0. */
  lemma InCensusIff(ps: seq<Participant>, fids: seq<nat>, delegations: seq<Delegation>, users: map<nat, User>, fid: nat)
    requires IsCollected(ps, fids, delegations, users) && fid in fids && fid in users
    requires users[fid].signers != [] && users[fid].signers[0].Key?
    ensures (exists p | p in ps :: p.fid == fid) <==> Weight(delegations, fid) > 0
  {
    CollectedMembers(ps, fids, delegations, users);
    ListedIff(fids, delegations, users, fid);
  }

  // ------------------------------------------------- a participant for every signer

  /** How many signers, from the first on, decode. */
  function Leading(signers: seq<Signer>): (n: nat)
    ensures n <= |signers| && (forall i | 0 <= i < n :: signers[i].Key?) && (n < |signers| ==> signers[n].Malformed?)
  {
    if signers == [] || signers[0].Malformed? then 0
    else
      var n := Leading(signers[1..]);
      assert forall i | 1 <= i < n + 1 :: signers[i] == signers[1..][i - 1];
      n + 1
  }

  /** `p` stands for signer number `i` of `fid`. */
  ghost predicate StandsFor(p: Participant, delegations: seq<Delegation>, users: map<nat, User>, fid: nat, i: nat) {
    && fid in users && Weight(delegations, fid) > 0 && i < Leading(users[fid].signers)
    && p == Participant(users[fid].signers[i].key, Weight(delegations, fid), users[fid].username, fid)
  }

  lemma {:induction false} EmittedAreLeading(user: User, fid: nat, weight: nat, n: nat)
    requires n <= |user.signers|
    ensures |EmittedUpTo(user, fid, weight, n)| == if n <= Leading(user.signers) then n else Leading(user.signers)
  {
    if n > 0 {
      EmittedAreLeading(user, fid, weight, n - 1);
    }
  }

  /** The block of a user: one participant for each leading signer, in order. */
  ghost predicate IsBlock(block: seq<Participant>, delegations: seq<Delegation>, users: map<nat, User>, fid: nat) {
    && |block| == (if fid in users && Weight(delegations, fid) > 0 then Leading(users[fid].signers) else 0)
    && forall i | 0 <= i < |block| :: StandsFor(block[i], delegations, users, fid, i)
  }

  lemma BlocksAreComplete(delegations: seq<Delegation>, users: map<nat, User>, fid: nat)
    ensures IsBlock(ParticipantsOf(delegations, users, fid), delegations, users, fid)
  {
    if fid in users && Weight(delegations, fid) > 0 {
      var user := users[fid];
      EmittedAreLeading(user, fid, Weight(delegations, fid), |user.signers|);
      EmittedOnePerSigner(user, fid, Weight(delegations, fid), |user.signers|);
    }
  }

  lemma {:induction false} ListedSigners(fids: seq<nat>, delegations: seq<Delegation>, users: map<nat, User>,
                                         p: Participant)
    ensures p in CensusOf(fids, delegations, users)
            <==> p.fid in fids && exists i :: StandsFor(p, delegations, users, p.fid, i)
  {
    if fids != [] {
      var front, last := fids[..|fids| - 1], fids[|fids| - 1];
      assert fids == front + [last];
      ListedSigners(front, delegations, users, p);
      BlocksAreComplete(delegations, users, last);
      var block := ParticipantsOf(delegations, users, last);
      if p.fid == last {
        if i: nat :| StandsFor(p, delegations, users, last, i) {
          assert StandsFor(block[i], delegations, users, last, i);
          assert block[i] == p;
        }
      }
    }
  }

  /** However participants arrive, they are exactly those of the leading decodable signers of the
      listed, known users with a positive weight. */
  lemma EverySignerIsThere(ps: seq<Participant>, fids: seq<nat>, delegations: seq<Delegation>, users: map<nat, User>)
    requires IsCollected(ps, fids, delegations, users)
    ensures HoldsAllSigners(ps, fids, delegations, users)
  {
    CollectedMembers(ps, fids, delegations, users);
    forall p ensures p in ps <==> IsSent(p, fids, delegations, users) {
      ListedSigners(fids, delegations, users, p);
    }
  }

  ghost predicate IsSent(p: Participant, fids: seq<nat>, delegations: seq<Delegation>, users: map<nat, User>) {
    p.fid in fids && exists i :: StandsFor(p, delegations, users, p.fid, i)
  }

  ghost predicate HoldsAllSigners(ps: seq<Participant>, fids: seq<nat>, delegations: seq<Delegation>,
                                  users: map<nat, User>) {
    forall p :: p in ps <==> IsSent(p, fids, delegations, users)
  }

  function OfUser(ps: seq<Participant>, fid: nat): seq<Participant> {
    if ps == [] then []
    else OfUser(ps[..|ps| - 1], fid) + if ps[|ps| - 1].fid == fid then [ps[|ps| - 1]] else []
  }

  lemma {:induction false} OfUserConcat(a: seq<Participant>, b: seq<Participant>, fid: nat)
    ensures OfUser(a + b, fid) == OfUser(a, fid) + OfUser(b, fid)
  {
    if b == [] {
      assert a + b == a;
    } else {
      assert (a + b)[..|a + b| - 1] == a + b[..|b| - 1];
      OfUserConcat(a, b[..|b| - 1], fid);
    }
  }

  lemma {:induction false} OfUserCounts(ps: seq<Participant>, fid: nat, p: Participant)
    ensures multiset(OfUser(ps, fid))[p] == if p.fid == fid then multiset(ps)[p] else 0
  {
    if ps != [] {
      var front, last := ps[..|ps| - 1], ps[|ps| - 1];
      assert ps == front + [last];
      OfUserCounts(front, fid, p);
    }
  }

  lemma {:induction false} OfUserUniform(ps: seq<Participant>, of: nat, fid: nat)
    requires forall p | p in ps :: p.fid == of
    ensures OfUser(ps, fid) == if of == fid then ps else []
  {
    if ps != [] {
      var front, last := ps[..|ps| - 1], ps[|ps| - 1];
      assert ps == front + [last];
      OfUserUniform(front, of, fid);
    }
  }

  lemma {:induction false} BlockOfUser(fids: seq<nat>, delegations: seq<Delegation>, users: map<nat, User>, fid: nat)
    requires NoDuplicates(fids)
    ensures OfUser(CensusOf(fids, delegations, users), fid)
            == if fid in fids then ParticipantsOf(delegations, users, fid) else []
  {
    if fids != [] {
      var front, last := fids[..|fids| - 1], fids[|fids| - 1];
      var block := ParticipantsOf(delegations, users, last);
      assert fids == front + [last];
      BlockOfUser(front, delegations, users, fid);
      OfUserConcat(CensusOf(front, delegations, users), block, fid);
      BlocksAreComplete(delegations, users, last);
      OfUserUniform(block, last, fid);
    }
  }

  /** With duplicate-free users, a listed user is there once for each leading decodable signer. */
  lemma OncePerSigner(ps: seq<Participant>, fids: seq<nat>, delegations: seq<Delegation>, users: map<nat, User>,
                      fid: nat)
    requires IsCollected(ps, fids, delegations, users) && NoDuplicates(fids) && fid in fids
    ensures exists block :: IsBlock(block, delegations, users, fid) && multiset(OfUser(ps, fid)) == multiset(block)
    ensures |OfUser(ps, fid)| == if fid in users && Weight(delegations, fid) > 0 then Leading(users[fid].signers) else 0
  {
    var census, block := CensusOf(fids, delegations, users), ParticipantsOf(delegations, users, fid);
    BlockOfUser(fids, delegations, users, fid);
    BlocksAreComplete(delegations, users, fid);
    forall p ensures multiset(OfUser(ps, fid))[p] == multiset(OfUser(census, fid))[p] {
      OfUserCounts(ps, fid, p);
      OfUserCounts(census, fid, p);
    }
    assert multiset(OfUser(ps, fid)) == multiset(block);
    assert |multiset(OfUser(ps, fid))| == |multiset(block)|;
  }

  // ----------------------------------------------------------- the vote gate

  /** The first check of the vote handler; elections outside communities have none. */
  method TurnedAway(db: Storage, community: Option<string>, fid: nat) returns (turnedAway: bool)
    requires community.Some? ==> Resolvable(db.Contents(), community.value, fid)
    ensures turnedAway <==> community.Some? && HasDelegated(InCommunity(db.delegations, community.value), fid)
  {
    turnedAway := false;
    if community.Some? {
      var delegations := db.DelegationsByCommunityFrom(community.value, fid);
      GateSeesDelegations(InCommunity(db.delegations, community.value), fid);
      turnedAway := |delegations| > 0;
    }
  }

  lemma GateSeesDelegations(g: seq<Delegation>, fid: nat)
    requires Grounded(g, fid)
    ensures AllGrounded(g, Outgoing(g, fid))
    ensures Resolve(g, Outgoing(g, fid)) != [] <==> HasDelegated(g, fid)
  {
    NextIsLower(g, fid);
    var l := Outgoing(g, fid);
    OutgoingMembers(g, fid);
    if HasDelegated(g, fid) {
      ResolvedEnds(g, l, fid);
      assert HasDelegated(l, fid);
    } else if r :| r in l {
      assert HasDelegated(g, fid);
    }
  }

  /** The gate and the census agree: whoever is turned away has no weight, and nobody else. */
  lemma GateAgreesWithCensus(g: seq<Delegation>, fid: nat)
    requires AllGrounded(g, g) && Grounded(g, fid)
    ensures AllGrounded(g, Outgoing(g, fid))
    ensures Resolve(g, Outgoing(g, fid)) != [] <==> Weight(Resolve(g, g), fid) == 0
  {
    GateSeesDelegations(g, fid);
    ResolvedEnds(g, g, fid);
    ReceivedIffSomeTo(Resolve(g, g), fid);
  }

  lemma {:induction false} ReceivedIffSomeTo(delegations: seq<Delegation>, fid: nat)
    ensures Received(delegations, fid) > 0 <==> exists d | d in delegations :: d.to == fid
  {
    if delegations != [] {
      var front, last := delegations[..|delegations| - 1], delegations[|delegations| - 1];
      assert delegations == front + [last];
      ReceivedIffSomeTo(front, fid);
    }
  }
}
