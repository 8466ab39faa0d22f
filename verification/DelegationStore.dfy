/** The delegation collection, the queries over it, and the handlers that add and remove
    delegations (mongo/delegations.go, users.go). */
module DelegationStore {
  import opened Prelude
  import opened Delegations
  import opened DelegationGuard

  datatype Status = Accepted | MissingFields | SelfDelegation | UnknownUser | CircularDelegation
                  | NotFound | NotOwner

  // ------------------------------------------------------------------- queries

  /** The stored delegations of one community, in stored order. */
  function InCommunity(all: seq<Delegation>, c: string): seq<Delegation> {
    if all == [] then []
    else
      var last := all[|all| - 1];
      InCommunity(all[..|all| - 1], c) + if last.community == c then [last] else []
  }

  lemma InCommunitySnoc(all: seq<Delegation>, d: Delegation, c: string)
    ensures InCommunity(all + [d], c) == InCommunity(all, c) + if d.community == c then [d] else []
  {
    assert (all + [d])[..|all|] == all;
  }

  lemma {:induction false} InCommunityMembers(all: seq<Delegation>, c: string)
    ensures forall d :: d in InCommunity(all, c) <==> d in all && d.community == c
  {
    if all != [] {
      InCommunityMembers(all[..|all| - 1], c);
      assert all == all[..|all| - 1] + [all[|all| - 1]];
    }
  }

  lemma {:induction false} InCommunityConcat(a: seq<Delegation>, b: seq<Delegation>, c: string)
    ensures InCommunity(a + b, c) == InCommunity(a, c) + InCommunity(b, c)
  {
    if b == [] {
      assert a + b == a;
    } else {
      var front, last := b[..|b| - 1], b[|b| - 1];
      assert a + b == a + front + [last] && b == front + [last];
      InCommunityConcat(a, front, c);
      InCommunitySnoc(a + front, last, c);
      InCommunitySnoc(front, last, c);
    }
  }

  /** `found` takes the delegations of the community, all of them and in stored order: from the
      increasing positions `ps`. */
  ghost predicate IsSelection(all: seq<Delegation>, c: string, ps: seq<nat>, found: seq<Delegation>) {
    && |ps| == |found|
    && (forall k | 0 <= k < |ps| :: ps[k] < |all| && found[k] == all[ps[k]])
    && (forall j, k | 0 <= j < k < |ps| :: ps[j] < ps[k])
    && (forall i: nat | i < |all| :: all[i].community == c <==> i in ps)
  }

  lemma SelectionSnoc(all: seq<Delegation>, d: Delegation, c: string, ps: seq<nat>, found: seq<Delegation>)
    requires IsSelection(all, c, ps, found)
    ensures d.community == c ==> IsSelection(all + [d], c, ps + [|all|], found + [d])
    ensures d.community != c ==> IsSelection(all + [d], c, ps, found)
  {
    var more := all + [d];
    assert forall i | 0 <= i < |all| :: more[i] == all[i];
    assert forall k | 0 <= k < |ps| :: ps[k] < |all| && more[ps[k]] == all[ps[k]];
    assert |all| !in ps;
  }

  lemma {:induction false} InCommunityIsSelection(all: seq<Delegation>, c: string) returns (ps: seq<nat>)
    ensures IsSelection(all, c, ps, InCommunity(all, c))
  {
    ps := [];
    if all != [] {
      var front, last := all[..|all| - 1], all[|all| - 1];
      ps := InCommunityIsSelection(front, c);
      SelectionSnoc(front, last, c, ps, InCommunity(front, c));
      assert all == front + [last];
      if last.community == c {
        ps := ps + [|front|];
      } else {
        assert InCommunity(front, c) + [] == InCommunity(front, c);
      }
    }
  }

  function PositionOf(all: seq<Delegation>, id: nat): (r: Option<nat>)
    ensures r.Some? ==> r.value < |all| && all[r.value].id == id && forall j | 0 <= j < r.value :: all[j].id != id
    ensures r.None? <==> forall d | d in all :: d.id != id
  {
    if all == [] then None
    else if all[0].id == id then Some(0)
    else
      match PositionOf(all[1..], id)
      case Some(i) => Some(i + 1)
      case None => None
  }

  ghost predicate IsFirst(all: seq<Delegation>, i: nat, d: Delegation) {
    i < |all| && all[i] == d && forall j | 0 <= j < i :: all[j].id != d.id
  }

  lemma PositionOfFirst(all: seq<Delegation>, i: nat, d: Delegation)
    requires IsFirst(all, i, d)
    ensures PositionOf(all, d.id) == Some(i)
  {
    assert all[i] in all;
  }

  // ------------------------------------------------- what each request does

  /** The delegation collection, the next object ID to be handed out, and the known users. */
  datatype State = State(delegations: seq<Delegation>, nextID: nat, users: set<nat>)

  ghost predicate Resolvable(s: State, c: string, user: nat) {
    Grounded(InCommunity(s.delegations, c), user)
  }

  function Delegated(s: State, from: nat, to: nat, c: string): (State, Status)
    requires Resolvable(s, c, to)
  {
    if to == 0 || c == "" then (s, MissingFields)
    else if from == to then (s, SelfDelegation)
    else if to !in s.users then (s, UnknownUser)
    else if RefusedAsCircular(InCommunity(s.delegations, c), from, to) then (s, CircularDelegation)
    else (s.(delegations := s.delegations + [Delegation(s.nextID, from, to, c)], nextID := s.nextID + 1), Accepted)
  }

  function Removed(s: State, user: nat, id: nat): (State, Status) {
    match PositionOf(s.delegations, id)
    case None => (s, NotFound)
    case Some(i) =>
      if s.delegations[i].from != user then (s, NotOwner)
      else (s.(delegations := s.delegations[..i] + s.delegations[i + 1..]), Accepted)
  }

  // --------------------------------------------------------------- whole runs

  ghost predicate IDsAreUnique(s: State) {
    && (forall i, j | 0 <= i < j < |s.delegations| :: s.delegations[i].id != s.delegations[j].id)
    && (forall d | d in s.delegations :: d.id < s.nextID)
  }

  lemma OnlyOneWithID(s: State, d: Delegation)
    requires IDsAreUnique(s) && d in s.delegations
    ensures forall e | e in s.delegations && e.id == d.id :: e == d
  {
    var i :| 0 <= i < |s.delegations| && s.delegations[i] == d;
    forall e | e in s.delegations && e.id == d.id ensures e == d {
      var j :| 0 <= j < |s.delegations| && s.delegations[j] == e;
    }
  }

  ghost predicate IsForest(g: seq<Delegation>) {
    Acyclic(g) && OneDelegationPerUser(g)
  }

  ghost predicate Sound(s: State) {
    IDsAreUnique(s) && forall c :: IsForest(InCommunity(s.delegations, c))
  }

  datatype Request = Delegate(from: nat, to: nat, community: string) | Remove(user: nat, id: nat)

  /** One request, handled from start to end. A user asks to delegate only while having no delegation
      in that community. */
  ghost predicate Transition(s: State, r: Request, s': State) {
    match r
    case Delegate(from, to, c) =>
      && !HasDelegated(InCommunity(s.delegations, c), from)
      && Resolvable(s, c, to)
      && s' == Delegated(s, from, to, c).0
    case Remove(user, id) => s' == Removed(s, user, id).0
  }

  ghost predicate IsRun(states: seq<State>, requests: seq<Request>) {
    && |states| == |requests| + 1
    && states[0].delegations == []
    && (forall i | 0 <= i < |requests| :: Transition(states[i], requests[i], states[i + 1]))
  }

  lemma AddKeepsForest(all: seq<Delegation>, d: Delegation, c: string)
    requires IsForest(InCommunity(all, c))
    requires d.community == c ==> (!HasDelegated(InCommunity(all, c), d.from)
                                   && !Reaches(InCommunity(all, c), d.to, d.from))
    ensures IsForest(InCommunity(all + [d], c))
  {
    var g := InCommunity(all, c);
    InCommunitySnoc(all, d, c);
    if d.community == c {
      AddKeepsAcyclicIff(g, d);
      AddKeepsOnePerUser(g, d);
    } else {
      assert g + [] == g;
    }
  }

  lemma DelegateKeepsSound(s: State, from: nat, to: nat, c: string)
    requires Sound(s) && !HasDelegated(InCommunity(s.delegations, c), from)
    ensures Resolvable(s, c, to) && Sound(Delegated(s, from, to, c).0)
  {
    AcyclicIsGrounded(InCommunity(s.delegations, c), to);
    var (s', status) := Delegated(s, from, to, c);
    if status == Accepted {
      GuardMeaning(InCommunity(s.delegations, c), from, to);
      forall c' ensures IsForest(InCommunity(s'.delegations, c')) {
        AddKeepsForest(s.delegations, Delegation(s.nextID, from, to, c), c');
      }
    }
  }

  lemma RemoveKeepsForest(a: seq<Delegation>, e: Delegation, b: seq<Delegation>, c: string)
    requires IsForest(InCommunity(a + [e] + b, c))
    ensures IsForest(InCommunity(a + b, c))
  {
    var ga, gb := InCommunity(a, c), InCommunity(b, c);
    InCommunityConcat(a + [e], b, c);
    InCommunitySnoc(a, e, c);
    InCommunityConcat(a, b, c);
    if e.community == c {
      RemoveKeepsOnePerUser(ga, e, gb);
      FewerKeepsAcyclic(ga + gb, ga + [e] + gb);
    } else {
      assert ga + [] == ga;
    }
  }

  lemma RemoveKeepsSound(s: State, user: nat, id: nat)
    requires Sound(s)
    ensures Sound(Removed(s, user, id).0)
  {
    var (s', status) := Removed(s, user, id);
    if status == Accepted {
      var i := PositionOf(s.delegations, id).value;
      var a, e, b := s.delegations[..i], s.delegations[i], s.delegations[i + 1..];
      assert s.delegations == a + [e] + b;
      forall c ensures IsForest(InCommunity(a + b, c)) {
        RemoveKeepsForest(a, e, b, c);
      }
    }
  }

  lemma {:induction false} PositionOfLast(all: seq<Delegation>, d: Delegation)
    requires forall e | e in all :: e.id != d.id
    ensures PositionOf(all + [d], d.id) == Some(|all|)
  {
    if all != [] {
      assert (all + [d])[1..] == all[1..] + [d];
      assert all[0] in all;
      PositionOfLast(all[1..], d);
    }
  }

  lemma RemoveTakesBack(s: State, d: Delegation, n: nat)
    requires forall e | e in s.delegations :: e.id != d.id
    ensures Removed(State(s.delegations + [d], n, s.users), d.from, d.id)
            == (State(s.delegations, n, s.users), Accepted)
  {
    var all := s.delegations;
    PositionOfLast(all, d);
    assert (all + [d])[..|all|] == all && (all + [d])[|all| + 1..] == [];
    assert all + [] == all;
  }

  /** Removing a delegation right after making it restores the collection. */
  lemma RemoveUndoesDelegate(s: State, from: nat, to: nat, c: string)
    requires IDsAreUnique(s) && Resolvable(s, c, to) && Delegated(s, from, to, c).1 == Accepted
    ensures Removed(Delegated(s, from, to, c).0, from, s.nextID) == (s.(nextID := s.nextID + 1), Accepted)
  {
    var d := Delegation(s.nextID, from, to, c);
    RemoveTakesBack(s, d, s.nextID + 1);
    assert Delegated(s, from, to, c).0 == State(s.delegations + [d], s.nextID + 1, s.users);
  }

  /** Requests handled one after the other keep every community graph acyclic with at most one
      delegation per user, so every later request can be resolved. Requests handled at the same
      time are the subject of DelegationRaces. */
  lemma {:induction false} RunsStaySound(states: seq<State>, requests: seq<Request>, i: nat)
    requires IsRun(states, requests) && i < |states|
    ensures Sound(states[i])
    ensures forall c, user :: Resolvable(states[i], c, user)
  {
    if i == 0 {
      forall c, x, p | Joins(InCommunity([], c), x, p, x) ensures p == [] {}
    } else {
      RunsStaySound(states, requests, i - 1);
      assert Transition(states[i - 1], requests[i - 1], states[i]);
      match requests[i - 1]
      case Delegate(from, to, c) => DelegateKeepsSound(states[i - 1], from, to, c);
      case Remove(user, id) => RemoveKeepsSound(states[i - 1], user, id);
    }
    forall c, user ensures Resolvable(states[i], c, user) {
      AcyclicIsGrounded(InCommunity(states[i].delegations, c), user);
    }
  }

  /** In a reachable state, the answer to a well-formed request by a user without a delegation. */
  lemma GuardIsExact(s: State, from: nat, to: nat, c: string)
    requires Sound(s) && !HasDelegated(InCommunity(s.delegations, c), from)
    requires to != 0 && c != "" && to in s.users
    ensures Resolvable(s, c, to)
    ensures Delegated(s, from, to, c).1 != Accepted
            <==> from == to || Reaches(InCommunity(s.delegations, c), to, from)
  {
    var g := InCommunity(s.delegations, c);
    AcyclicIsGrounded(g, to);
    if from != to {
      GuardMeaning(g, from, to);
    }
  }

  // ------------------------------------------------------- the store, in place

  class Storage {
    var delegations: seq<Delegation>
    var nextID: nat
    const users: set<nat>

    constructor (users: set<nat>)
      ensures this.users == users && delegations == []
    {
      this.users := users;
      delegations := [];
      nextID := 0;
    }

    ghost function Contents(): State
      reads this
    {
      State(delegations, nextID, users)
    }

    method SetDelegation(from: nat, to: nat, community: string) returns (id: nat)
      modifies this
      ensures id == old(nextID) && nextID == old(nextID) + 1
      ensures delegations == old(delegations) + [Delegation(id, from, to, community)]
    {
      id := nextID;
      nextID := nextID + 1;
      delegations := delegations + [Delegation(id, from, to, community)];
    }

    /** The first delegation with that identifier; with unique identifiers, the only one. */
    method DelegationByID(id: nat) returns (found: Option<Delegation>)
      ensures found.None? <==> forall d | d in delegations :: d.id != id
      ensures found.Some? ==> found.value.id == id && exists i :: IsFirst(delegations, i, found.value)
      ensures IDsAreUnique(Contents()) ==> forall d :: found == Some(d) <==> d in delegations && d.id == id
    {
      var position := PositionOf(delegations, id);
      if position.None? {
        return None;
      }
      found := Some(delegations[position.value]);
      assert IsFirst(delegations, position.value, found.value);
      if IDsAreUnique(Contents()) {
        OnlyOneWithID(Contents(), found.value);
      }
    }

    method DelegationsByCommunity(community: string) returns (found: seq<Delegation>)
      ensures found == InCommunity(delegations, community)
      ensures exists ps :: IsSelection(delegations, community, ps, found)
    {
      found := [];
      for i := 0 to |delegations|
        invariant found == InCommunity(delegations[..i], community)
      {
        assert delegations[..i + 1][..i] == delegations[..i];
        if delegations[i].community == community {
          found := found + [delegations[i]];
        }
      }
      assert delegations[..|delegations|] == delegations;
      ghost var ps := InCommunityIsSelection(delegations, community);
    }

    /** The list that community censuses are built from. */
    method FinalDelegationsByCommunity(community: string) returns (final: seq<Delegation>)
      requires AllGrounded(InCommunity(delegations, community), InCommunity(delegations, community))
      ensures final == Resolve(InCommunity(delegations, community), InCommunity(delegations, community))
    {
      var communityDelegations := DelegationsByCommunity(community);
      final := SolveNestedDelegations(communityDelegations, None);
    }

    /** The resolved delegations of one user; nobody's when the user has none. */
    method DelegationsByCommunityFrom(community: string, user: nat) returns (final: seq<Delegation>)
      requires Resolvable(Contents(), community, user)
      ensures AllGrounded(InCommunity(delegations, community), Outgoing(InCommunity(delegations, community), user))
      ensures final == Resolve(InCommunity(delegations, community), Outgoing(InCommunity(delegations, community), user))
    {
      var communityDelegations := DelegationsByCommunity(community);
      GroundedDelegates(communityDelegations, user);
      var userDelegations := DelegationsMadeBy(communityDelegations, user);
      final := SolveNestedDelegations(communityDelegations, Some(userDelegations));
    }

    method DeleteDelegation(id: nat)
      modifies this`delegations
      ensures delegations == match PositionOf(old(delegations), id)
                             case Some(i) => old(delegations)[..i] + old(delegations)[i + 1..]
                             case None => old(delegations)
    {
      var position := PositionOf(delegations, id);
      if position.Some? {
        delegations := delegations[..position.value] + delegations[position.value + 1..];
      }
    }
  }

  method AnyDelegatesTo(delegations: seq<Delegation>, user: nat) returns (found: bool)
    ensures found <==> exists d :: d in delegations && d.to == user
  {
    for i := 0 to |delegations|
      invariant forall j | 0 <= j < i :: delegations[j].to != user
    {
      if delegations[i].to == user {
        assert delegations[i] in delegations;
        return true;
      }
    }
    found := false;
  }

  /** The delegations made by others than `user`, in stored order. */
  function MadeByOthers(all: seq<Delegation>, user: nat): seq<Delegation> {
    if all == [] then []
    else
      var last := all[|all| - 1];
      MadeByOthers(all[..|all| - 1], user) + if last.from == user then [] else [last]
  }

  lemma {:induction false} MadeByOthersConcat(a: seq<Delegation>, b: seq<Delegation>, user: nat)
    ensures MadeByOthers(a + b, user) == MadeByOthers(a, user) + MadeByOthers(b, user)
  {
    if b == [] {
      assert a + b == a;
    } else {
      assert (a + b)[..|a + b| - 1] == a + b[..|b| - 1];
      MadeByOthersConcat(a, b[..|b| - 1], user);
    }
  }

  lemma OthersAreKept(all: seq<Delegation>, i: nat, user: nat)
    requires i < |all| && all[i].from == user
    ensures MadeByOthers(all[..i] + all[i + 1..], user) == MadeByOthers(all, user)
  {
    assert all == all[..i] + [all[i]] + all[i + 1..];
    MadeByOthersConcat(all[..i] + [all[i]], all[i + 1..], user);
    MadeByOthersConcat(all[..i], [all[i]], user);
    assert [all[i]][..0] == [];
    MadeByOthersConcat(all[..i], all[i + 1..], user);
  }

  /** `after` is `before` less one delegation, which `user` made under that identifier. */
  ghost predicate LosesOwn(before: seq<Delegation>, after: seq<Delegation>, user: nat, id: nat) {
    exists i :: LosesOwnAt(before, after, user, id, i)
  }

  ghost predicate LosesOwnAt(before: seq<Delegation>, after: seq<Delegation>, user: nat, id: nat, i: nat) {
    i < |before| && before[i].id == id && before[i].from == user && after == before[..i] + before[i + 1..]
  }

  /** A user has a delegation stored under that identifier. */
  ghost predicate Owns(s: State, user: nat, id: nat) {
    exists d :: d in s.delegations && d.id == id && d.from == user
  }

  method DelegateVoteHandler(db: Storage, user: nat, to: nat, community: string) returns (status: Status)
    requires Resolvable(db.Contents(), community, to)
    modifies db
    ensures (db.Contents(), status) == Delegated(old(db.Contents()), user, to, community)
    ensures status == Accepted
            <==> to != 0 && community != "" && user != to && to in db.users
                 && !(Reaches(InCommunity(old(db.delegations), community), to, user)
                      && !HasDelegated(InCommunity(old(db.delegations), community), user))
    ensures status == Accepted ==>
              db.delegations == old(db.delegations) + [Delegation(old(db.nextID), user, to, community)]
    ensures status != Accepted ==> db.delegations == old(db.delegations) && db.nextID == old(db.nextID)
  {
    if to == 0 || community == "" {
      return MissingFields;
    }
    if user == to {
      return SelfDelegation;
    }
    if to !in db.users {
      return UnknownUser;
    }
    GuardMeaning(InCommunity(db.delegations, community), user, to);
    var delegations := db.DelegationsByCommunityFrom(community, to);
    var circular := AnyDelegatesTo(delegations, user);
    if circular {
      return CircularDelegation;
    }
    var _ := db.SetDelegation(user, to, community);
    status := Accepted;
  }

  method RemoveVoteDelegationHandler(db: Storage, user: nat, delegationID: nat) returns (status: Status)
    modifies db
    ensures (db.Contents(), status) == Removed(old(db.Contents()), user, delegationID)
    ensures status == Accepted ==> LosesOwn(old(db.delegations), db.delegations, user, delegationID)
    ensures status != Accepted ==> db.Contents() == old(db.Contents())
    ensures IDsAreUnique(old(db.Contents())) ==> (status == Accepted <==> Owns(old(db.Contents()), user, delegationID))
    ensures status == NotFound <==> forall d | d in old(db.delegations) :: d.id != delegationID
    ensures MadeByOthers(db.delegations, user) == MadeByOthers(old(db.delegations), user)
  {
    var delegation := db.DelegationByID(delegationID);
    if delegation.None? {
      return NotFound;
    }
    ghost var i: nat :| IsFirst(db.delegations, i, delegation.value);
    PositionOfFirst(db.delegations, i, delegation.value);
    if IDsAreUnique(db.Contents()) {
      OnlyOneWithID(db.Contents(), delegation.value);
    }
    if delegation.value.from != user {
      return NotOwner;
    }
    OthersAreKept(db.delegations, i, user);
    db.DeleteDelegation(delegationID);
    assert LosesOwnAt(old(db.delegations), db.delegations, user, delegationID, i);
    status := Accepted;
  }
}
