/** Delegation requests handled at the same time (users.go, mongo/delegations.go). The handler reads
    the delegations under one hold of the store's lock and inserts under a later one, so a request is
    two steps here, with steps of other requests in between. */
module DelegationRaces {
  import opened Delegations
  import opened DelegationGuard
  import opened DelegationStore

  datatype Request = Request(from: nat, to: nat, community: string)

  /** The store, and the requests that have passed the check and are about to be inserted. */
  datatype Racing = Racing(store: State, checked: map<nat, Request>)

  datatype Event =
    | Check(handler: nat, request: Request)
    | Insert(handler: nat)
    | RemoveOwn(user: nat, id: nat)

  function Graph(s: Racing, c: string): seq<Delegation> {
    InCommunity(s.store.delegations, c)
  }

  /** What the handler finds before it inserts: the request is well formed and not seen as circular. */
  predicate Passes(s: Racing, r: Request)
    requires Resolvable(s.store, r.community, r.to)
  {
    Delegated(s.store, r.from, r.to, r.community).1 == Accepted
  }

  function Inserted(s: State, r: Request): State {
    s.(delegations := s.delegations + [Delegation(s.nextID, r.from, r.to, r.community)], nextID := s.nextID + 1)
  }

  ghost predicate Step(s: Racing, e: Event, s': Racing) {
    match e
    case Check(h, r) =>
      && h !in s.checked
      && Resolvable(s.store, r.community, r.to)
      && s' == if Passes(s, r) then s.(checked := s.checked[h := r]) else s
    case Insert(h) =>
      && h in s.checked
      && s' == Racing(Inserted(s.store, s.checked[h]), s.checked - {h})
    case RemoveOwn(user, id) => s' == s.(store := Removed(s.store, user, id).0)
  }

  ghost predicate IsRacingRun(states: seq<Racing>, events: seq<Event>) {
    && |states| == |events| + 1
    && states[0].store.delegations == [] && states[0].checked == map[]
    && (forall i | 0 <= i < |events| :: Step(states[i], events[i], states[i + 1]))
  }

  // ------------------------------------------------------- two requests at once

  lemma EmptyGraph(x: nat)
    ensures Acyclic([]) && Grounded([], x) && forall y | Reaches([], x, y) :: x == y
  {
    forall y, p | Joins([], x, p, y) ensures x == y {}
    forall y, p | Joins([], y, p, y) ensures p == [] {}
  }

  /** Two users without a delegation ask for each other at the same time: both pass, and the graph
      ends up with a cycle. */
  lemma TwoRequestsCloseACycle(a: nat, b: nat, c: string) returns (states: seq<Racing>, events: seq<Event>)
    requires a != b && a != 0 && b != 0 && c != ""
    ensures IsRacingRun(states, events) && |states| == 5
    ensures forall i | 0 <= i < 2 :: events[i].Check? && !HasDelegated(Graph(states[i], c), events[i].request.from)
    ensures !Acyclic(Graph(states[4], c))
  {
    var ab, ba := Request(a, b, c), Request(b, a, c);
    var empty := State([], 0, {a, b});
    var one, two := Inserted(empty, ab), Inserted(Inserted(empty, ab), ba);
    states := [Racing(empty, map[]), Racing(empty, map[0 := ab]), Racing(empty, map[0 := ab, 1 := ba]),
               Racing(one, map[1 := ba]), Racing(two, map[])];
    events := [Check(0, ab), Check(1, ba), Insert(0), Insert(1)];
    EmptyGraph(a);
    EmptyGraph(b);
    assert GuardPasses(empty, ab) by { GuardMeaning([], a, b); }
    assert GuardPasses(empty, ba) by { GuardMeaning([], b, a); }
    CheckStep(empty, map[], 0, ab);
    CheckStep(empty, map[0 := ab], 1, ba);
    InsertStep(empty, map[0 := ab, 1 := ba], 0, ab, map[1 := ba]);
    InsertStep(one, map[1 := ba], 1, ba, map[]);
    assert two.delegations == [Delegation(0, a, b, c), Delegation(1, b, a, c)];
    TwoEdgesCycle(a, b, c);
  }

  lemma CheckStep(store: State, checked: map<nat, Request>, h: nat, r: Request)
    requires GuardPasses(store, r) && h !in checked
    ensures Step(Racing(store, checked), Check(h, r), Racing(store, checked[h := r]))
  {}

  lemma InsertStep(store: State, checked: map<nat, Request>, h: nat, r: Request, left: map<nat, Request>)
    requires h in checked && checked[h] == r && left == checked - {h}
    ensures Step(Racing(store, checked), Insert(h), Racing(Inserted(store, r), left))
  {}

  ghost predicate GuardPasses(s: State, r: Request) {
    Resolvable(s, r.community, r.to) && Passes(Racing(s, map[]), r)
  }

  lemma TwoEdgesCycle(a: nat, b: nat, c: string)
    ensures !Acyclic(InCommunity([Delegation(0, a, b, c), Delegation(1, b, a, c)], c))
  {
    var d, e := Delegation(0, a, b, c), Delegation(1, b, a, c);
    InCommunitySnoc([d], e, c);
    InCommunitySnoc([], d, c);
    assert [] + [d] == [d] && [d] + [e] == [d, e];
    EmptyGraph(b);
    EdgePath([d], 0);
    EdgePath([d, e], 0);
    EdgePath([d, e], 1);
    PathConcat([d, e], a, [0], [1]);
    assert Joins([d, e], a, [0] + [1], a);
  }

  // ------------------------------------------- exactly when runs stay acyclic

  /** What has to hold at the moment of the insertion. */
  ghost predicate IsSafeNow(s: Racing, r: Request) {
    !HasDelegated(Graph(s, r.community), r.from) && !Reaches(Graph(s, r.community), r.to, r.from)
  }

  /** An insertion keeps the store sound exactly when, at that moment, the author has no delegation
      in the community and is not reachable from the delegate. */
  lemma InsertKeepsSoundIff(s: Racing, r: Request)
    requires Sound(s.store)
    ensures Sound(Inserted(s.store, r)) <==> IsSafeNow(s, r)
  {
    var all, d := s.store.delegations, Delegation(s.store.nextID, r.from, r.to, r.community);
    var g := Graph(s, r.community);
    InCommunitySnoc(all, d, r.community);
    AddKeepsAcyclicIff(g, d);
    AddKeepsOnePerUser(g, d);
    assert IsForest(InCommunity(all + [d], r.community)) <==> IsSafeNow(s, r);
    forall c | c != r.community ensures IsForest(InCommunity(all + [d], c)) {
      AddKeepsForest(all, d, c);
    }
  }

  ghost predicate InsertsSafely(s: Racing, e: Event) {
    e.Insert? ==> e.handler in s.checked && IsSafeNow(s, s.checked[e.handler])
  }

  lemma StepKeepsSoundIff(s: Racing, e: Event, s': Racing)
    requires Sound(s.store) && Step(s, e, s')
    ensures Sound(s'.store) <==> InsertsSafely(s, e)
  {
    match e
    case Check(h, r) =>
    case Insert(h) => InsertKeepsSoundIff(s, s.checked[h]);
    case RemoveOwn(user, id) => RemoveKeepsSound(s.store, user, id);
  }

  /** A run stays sound throughout exactly when every insertion is safe at its own moment. */
  lemma RunStaysSoundIff(states: seq<Racing>, events: seq<Event>)
    requires IsRacingRun(states, events)
    ensures (forall i | 0 <= i < |states| :: Sound(states[i].store))
            <==> forall i | 0 <= i < |events| :: InsertsSafely(states[i], events[i])
  {
    if forall i | 0 <= i < |states| :: Sound(states[i].store) {
      forall i | 0 <= i < |events| ensures InsertsSafely(states[i], events[i]) {
        assert Sound(states[i].store) && Sound(states[i + 1].store);
        StepKeepsSoundIff(states[i], events[i], states[i + 1]);
      }
    }
    if forall i | 0 <= i < |events| :: InsertsSafely(states[i], events[i]) {
      forall i | 0 <= i < |states| ensures Sound(states[i].store) {
        SafeInsertsStaySound(states, events, i);
      }
    }
  }

  lemma {:induction false} SafeInsertsStaySound(states: seq<Racing>, events: seq<Event>, i: nat)
    requires IsRacingRun(states, events) && i < |states|
    requires forall j | 0 <= j < |events| :: InsertsSafely(states[j], events[j])
    ensures Sound(states[i].store)
  {
    if i == 0 {
      EmptyGraph(0);
    } else {
      SafeInsertsStaySound(states, events, i - 1);
      assert Step(states[i - 1], events[i - 1], states[i]) && InsertsSafely(states[i - 1], events[i - 1]);
      StepKeepsSoundIff(states[i - 1], events[i - 1], states[i]);
    }
  }

  // ----------------------------------------- when a check is still good later

  /** The event inserts nothing into the community. */
  ghost predicate LeavesAlone(s: Racing, e: Event, c: string) {
    e.Insert? ==> e.handler in s.checked && s.checked[e.handler].community != c
  }

  lemma NothingAdded(s: Racing, e: Event, s': Racing, c: string)
    requires Step(s, e, s') && LeavesAlone(s, e, c)
    ensures forall d | d in Graph(s', c) :: d in Graph(s, c)
  {
    InCommunityMembers(s.store.delegations, c);
    InCommunityMembers(s'.store.delegations, c);
  }

  lemma {:induction false} NothingAddedSince(states: seq<Racing>, events: seq<Event>, i: nat, j: nat, c: string)
    requires IsRacingRun(states, events) && i <= j < |states|
    requires forall k | i <= k < j :: LeavesAlone(states[k], events[k], c)
    ensures forall d | d in Graph(states[j], c) :: d in Graph(states[i], c)
    decreases j
  {
    if i < j {
      NothingAddedSince(states, events, i, j - 1, c);
      assert Step(states[j - 1], events[j - 1], states[j]) && LeavesAlone(states[j - 1], events[j - 1], c);
      NothingAdded(states[j - 1], events[j - 1], states[j], c);
    }
  }

  /** A request that passes the check while its author has no delegation is safe to insert as long as
      nothing else has been inserted into that community since. */
  lemma LoneRequestIsSafe(states: seq<Racing>, events: seq<Event>, i: nat, j: nat, r: Request)
    requires IsRacingRun(states, events) && i <= j < |states|
    requires Resolvable(states[i].store, r.community, r.to) && Passes(states[i], r)
    requires !HasDelegated(Graph(states[i], r.community), r.from)
    requires forall k | i <= k < j :: LeavesAlone(states[k], events[k], r.community)
    ensures IsSafeNow(states[j], r)
  {
    var before, after := Graph(states[i], r.community), Graph(states[j], r.community);
    NothingAddedSince(states, events, i, j, r.community);
    GuardMeaning(before, r.from, r.to);
    if p :| Joins(after, r.to, p, r.from) {
      var q := PathLifts(after, before, r.to, p);
      assert Joins(before, r.to, q, r.from);
    }
  }
}
