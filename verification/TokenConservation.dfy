/** The census built from token holders gives away exactly the weight of the holders, in whatever
    order addresses are processed and participants arrive (census.go). */
module TokenConservation {
  import opened Prelude
  import opened Sums
  import opened Delegations
  import opened DelegationLaws
  import opened DelegationStore
  import opened FidCensus
  import opened TokenCensus

  /** The users owning the addresses of the map. */
  ghost function Holders(m: map<nat, int>, dir: Directory): set<nat> {
    set a | a in m && a in dir.owners :: dir.owners[a]
  }

  /** Every address of the map belongs to exactly one known user, who lists it once. */
  ghost predicate HoldersAreKnown(m: map<nat, int>, dir: Directory) {
    && UsersAreKeyed(dir.users)
    && (forall a | a in m :: a in dir.owners && dir.owners[a] in dir.users && a in dir.users[dir.owners[a]].addresses)
    && (forall fid, a | fid in dir.users && a in dir.users[fid].addresses && a in m :: dir.owners[a] == fid)
    && (forall fid | fid in dir.users :: NoDuplicates(dir.users[fid].addresses))
  }

  /** Holders have different usernames and a signer that decodes. */
  ghost predicate HoldersCanVote(m: map<nat, int>, dir: Directory)
    requires HoldersAreKnown(m, dir)
  {
    && (forall f, f' | f in Holders(m, dir) && f' in Holders(m, dir) && f != f' ::
          dir.users[f].username != dir.users[f'].username)
    && (forall f | f in Holders(m, dir) :: exists s | s in dir.users[f].signers :: s.Key?)
  }

  ghost function FinalWeights(m: map<nat, int>, dir: Directory, ds: seq<Delegation>, hs: set<nat>): map<nat, int> {
    map f | f in hs :: FinalWeight(m, dir, ds, f)
  }

  // ------------------------------------------------ a delegation moves weight

  lemma FinalWeightStep(m: map<nat, int>, dir: Directory, ds: seq<Delegation>, d: Delegation, f: nat)
    requires !HasDelegated(ds, d.from)
    ensures FinalWeight(m, dir, ds + [d], f)
            == FinalWeight(m, dir, ds, f)
               - (if d.from == f then OwnWeight(m, dir, f) else 0)
               + (if d.to == f then OwnWeight(m, dir, d.from) else 0)
  {
    assert (ds + [d])[..|ds|] == ds;
    HasDelegatedSnoc(ds, d, f);
  }

  lemma DelegationMovesWeight(m: map<nat, int>, dir: Directory, ds: seq<Delegation>, d: Delegation, hs: set<nat>)
    requires !HasDelegated(ds, d.from)
    requires d.from in hs || OwnWeight(m, dir, d.from) == 0
    ensures MapSum(FinalWeights(m, dir, ds + [d], hs))
            == MapSum(FinalWeights(m, dir, ds, hs)) - if d.to in hs then 0 else OwnWeight(m, dir, d.from)
  {
    var own := OwnWeight(m, dir, d.from);
    var before, after := FinalWeights(m, dir, ds, hs), FinalWeights(m, dir, ds + [d], hs);
    forall f | f in hs
      ensures after[f] == before[f] - (if d.from == f then own else 0) + (if d.to == f then own else 0)
    {
      FinalWeightStep(m, dir, ds, d, f);
    }
    Move(before, after, d.from, d.to, own);
  }

  lemma Move(before: map<nat, int>, after: map<nat, int>, from: nat, to: nat, v: int)
    requires (from in before || v == 0) && after.Keys == before.Keys
    requires forall f | f in before :: after[f] == before[f] - (if from == f then v else 0) + (if to == f then v else 0)
    ensures MapSum(after) == MapSum(before) - if to in before then 0 else v
  {
    var mid := before;
    if to in before {
      mid := before[to := before[to] + v];
      MapSumRaise(before, mid, to, v);
    }
    if from in before {
      MapSumRaise(mid, after, from, -v);
    } else {
      assert after == mid;
    }
  }

  /** The weight of the delegators whose delegate is not one of `hs`. */
  ghost function Stranded(m: map<nat, int>, dir: Directory, ds: seq<Delegation>, hs: set<nat>): int {
    if ds == [] then 0
    else
      var last := ds[|ds| - 1];
      Stranded(m, dir, ds[..|ds| - 1], hs) + if last.to in hs then 0 else OwnWeight(m, dir, last.from)
  }

  lemma {:induction false} NobodyStranded(m: map<nat, int>, dir: Directory, ds: seq<Delegation>, hs: set<nat>)
    requires forall d | d in ds :: d.to in hs
    ensures Stranded(m, dir, ds, hs) == 0
  {
    if ds != [] {
      NobodyStranded(m, dir, ds[..|ds| - 1], hs);
    }
  }

  lemma {:induction false} DelegationsConserve(m: map<nat, int>, dir: Directory, ds: seq<Delegation>, hs: set<nat>)
    requires OneDelegationPerUser(ds)
    requires forall f | f !in hs :: OwnWeight(m, dir, f) == 0
    ensures MapSum(FinalWeights(m, dir, ds, hs)) == MapSum(FinalWeights(m, dir, [], hs)) - Stranded(m, dir, ds, hs)
  {
    if ds != [] {
      var front, last := ds[..|ds| - 1], ds[|ds| - 1];
      assert ds == front + [last];
      DelegationsConserve(m, dir, front, hs);
      forall d | d in front ensures d.from != last.from {
        var j :| 0 <= j < |front| && front[j] == d;
        assert ds[j].from != ds[|front|].from;
      }
      DelegationMovesWeight(m, dir, front, last, hs);
    }
  }

  // -------------------------------------- own weights add up to the address map

  lemma {:induction false} AddressWeightTake(m: map<nat, int>, addresses: seq<nat>, a: nat)
    requires a in m && NoDuplicates(addresses)
    ensures AddressWeight(m, addresses) == AddressWeight(m - {a}, addresses) + if a in addresses then m[a] else 0
  {
    if addresses != [] {
      var front, last := addresses[..|addresses| - 1], addresses[|addresses| - 1];
      assert addresses == front + [last];
      AddressWeightTake(m, front, a);
    }
  }

  lemma {:induction false} OwnWeightsAddUp(m: map<nat, int>, dir: Directory, hs: set<nat>)
    requires HoldersAreKnown(m, dir) && Holders(m, dir) <= hs
    ensures MapSum(FinalWeights(m, dir, [], hs)) == MapSum(m)
    decreases |m|
  {
    if m == map[] {
      NothingToShare(m, dir, hs);
    } else {
      var a :| a in m;
      FewerAddresses(m, dir, a);
      OwnWeightsAddUp(m - {a}, dir, hs);
      MapSumTake(m, a);
      OneAddressMore(m, dir, a, hs);
    }
  }

  lemma OneAddressMore(m: map<nat, int>, dir: Directory, a: nat, hs: set<nat>)
    requires HoldersAreKnown(m, dir) && a in m && dir.owners[a] in hs
    ensures MapSum(FinalWeights(m, dir, [], hs)) == MapSum(FinalWeights(m - {a}, dir, [], hs)) + m[a]
  {
    var before, after := FinalWeights(m - {a}, dir, [], hs), FinalWeights(m, dir, [], hs);
    forall h | h in hs ensures after[h] == before[h] + if h == dir.owners[a] then m[a] else 0 {
      if h in dir.users {
        AddressWeightTake(m, dir.users[h].addresses, a);
      }
    }
    MapSumRaise(before, after, dir.owners[a], m[a]);
  }

  lemma FewerAddresses(m: map<nat, int>, dir: Directory, a: nat)
    requires HoldersAreKnown(m, dir) && a in m
    ensures HoldersAreKnown(m - {a}, dir)
    ensures Holders(m - {a}, dir) <= Holders(m, dir) && dir.owners[a] in Holders(m, dir)
  {}

  lemma {:induction false} NoAddressListed(m: map<nat, int>, addresses: seq<nat>)
    requires forall a | a in addresses :: a !in m
    ensures AddressWeight(m, addresses) == 0
  {
    if addresses != [] {
      var front, last := addresses[..|addresses| - 1], addresses[|addresses| - 1];
      assert addresses == front + [last];
      NoAddressListed(m, front);
    }
  }

  lemma NothingToShare(m: map<nat, int>, dir: Directory, hs: set<nat>)
    requires m == map[]
    ensures MapSum(FinalWeights(m, dir, [], hs)) == 0
  {
    var w := FinalWeights(m, dir, [], hs);
    forall f | f in hs ensures w[f] == 0 {
      if f in dir.users {
        NoAddressListed(m, dir.users[f].addresses);
      }
    }
    MapSumDropZeros(w, map[]);
  }

  lemma OnlyHoldersOwn(m: map<nat, int>, dir: Directory, f: nat)
    requires HoldersAreKnown(m, dir) && f !in Holders(m, dir)
    ensures OwnWeight(m, dir, f) == 0
  {
    if f in dir.users {
      assert forall a | a in m :: dir.owners[a] in Holders(m, dir);
      NoAddressListed(m, dir.users[f].addresses);
    }
  }

  // ----------------------------------------------------- what the census lists

  /** The weights by username, stated without any order of processing. */
  ghost predicate IsCensus(m: map<nat, int>, dir: Directory, ds: seq<Delegation>, weights: map<string, int>)
    requires HoldersAreKnown(m, dir)
  {
    && (forall f | f in Holders(m, dir) && FinalWeight(m, dir, ds, f) != 0 ::
          dir.users[f].username in weights && weights[dir.users[f].username] == FinalWeight(m, dir, ds, f))
    && (forall u | u in weights :: exists f | f in Holders(m, dir) ::
          dir.users[f].username == u && FinalWeight(m, dir, ds, f) != 0)
  }

  lemma {:induction false} DecodableMembers(user: User, weight: int, n: nat)
    requires n <= |user.signers|
    ensures forall p | p in DecodableOnly(user, weight, n) :: p.username == user.username && p.weight == weight
    ensures (exists i | 0 <= i < n :: user.signers[i].Key?) ==> DecodableOnly(user, weight, n) != []
  {
    if n > 0 {
      DecodableMembers(user, weight, n - 1);
    }
  }

  /** `ps` holds what the addresses of the map emit, arrived in any order. */
  ghost predicate IsCollection(m: map<nat, int>, dir: Directory, ds: seq<Delegation>, ps: seq<Participant>) {
    forall p :: p in ps <==> exists a | a in m :: p in ParticipantsAt(m, dir, ds, a)
  }

  lemma {:induction false} FirstWeightsMembers(ps: seq<Participant>)
    ensures forall p | p in ps :: p.username in FirstWeights(ps)
    ensures forall u | u in FirstWeights(ps) :: exists p | p in ps :: p.username == u && p.weight == FirstWeights(ps)[u]
  {
    if ps != [] {
      var front, last := ps[..|ps| - 1], ps[|ps| - 1];
      assert ps == front + [last];
      FirstWeightsMembers(front);
    }
  }

  lemma ParticipantOfHolder(m: map<nat, int>, dir: Directory, ds: seq<Delegation>, a: nat, p: Participant)
    requires HoldersAreKnown(m, dir) && a in m && p in ParticipantsAt(m, dir, ds, a)
    ensures var f := dir.owners[a];
            f in Holders(m, dir) && p.username == dir.users[f].username
            && p.weight == FinalWeight(m, dir, ds, f) && p.weight != 0
  {
    var user := dir.users[dir.owners[a]];
    DecodableMembers(user, FinalWeight(m, dir, ds, user.fid), |user.signers|);
  }

  lemma HolderIsListed(m: map<nat, int>, dir: Directory, ds: seq<Delegation>, f: nat) returns (a: nat, p: Participant)
    requires HoldersAreKnown(m, dir) && HoldersCanVote(m, dir)
    requires f in Holders(m, dir) && FinalWeight(m, dir, ds, f) != 0
    ensures a in m && p in ParticipantsAt(m, dir, ds, a) && p.username == dir.users[f].username
  {
    a :| a in m && dir.owners[a] == f;
    var user := dir.users[f];
    DecodableMembers(user, FinalWeight(m, dir, ds, f), |user.signers|);
    var s :| s in user.signers && s.Key?;
    var i :| 0 <= i < |user.signers| && user.signers[i] == s;
    p := ParticipantsAt(m, dir, ds, a)[0];
  }

  /** Whatever the order, the deduplicated weights are those of the holders. */
  lemma CensusIsOrderFree(m: map<nat, int>, dir: Directory, ds: seq<Delegation>, ps: seq<Participant>)
    requires HoldersAreKnown(m, dir) && HoldersCanVote(m, dir)
    requires IsCollection(m, dir, ds, ps)
    ensures IsCensus(m, dir, ds, FirstWeights(ps))
  {
    var weights := FirstWeights(ps);
    FirstWeightsMembers(ps);
    forall u | u in weights
      ensures exists f | f in Holders(m, dir) ::
                dir.users[f].username == u && FinalWeight(m, dir, ds, f) != 0
                    && weights[u] == FinalWeight(m, dir, ds, f)
    {
      var p :| p in ps && p.username == u && p.weight == weights[u];
      var a :| a in m && p in ParticipantsAt(m, dir, ds, a);
      ParticipantOfHolder(m, dir, ds, a, p);
    }
    forall f | f in Holders(m, dir) && FinalWeight(m, dir, ds, f) != 0
      ensures dir.users[f].username in weights && weights[dir.users[f].username] == FinalWeight(m, dir, ds, f)
    {
      var a, p := HolderIsListed(m, dir, ds, f);
      assert p in ps;
    }
  }

  ghost function Voting(m: map<nat, int>, dir: Directory, ds: seq<Delegation>): map<nat, int> {
    map f | f in Holders(m, dir) && FinalWeight(m, dir, ds, f) != 0 :: FinalWeight(m, dir, ds, f)
  }

  lemma VotersAddUp(m: map<nat, int>, dir: Directory, ds: seq<Delegation>, weights: map<string, int>)
    requires HoldersAreKnown(m, dir) && HoldersCanVote(m, dir) && IsCensus(m, dir, ds, weights)
    ensures MapSum(Voting(m, dir, ds)) == MapSum(weights)
  {
    var voting := Voting(m, dir, ds);
    var name := (f: nat) => if f in dir.users then dir.users[f].username else "";
    forall u | u in weights ensures exists f | f in voting :: name(f) == u {
      var f :| f in Holders(m, dir) && dir.users[f].username == u && FinalWeight(m, dir, ds, f) != 0;
      assert f in voting && name(f) == u;
    }
    MapSumRename(voting, weights, name);
  }

  lemma CensusAddsUp(m: map<nat, int>, dir: Directory, ds: seq<Delegation>, weights: map<string, int>)
    requires HoldersAreKnown(m, dir) && HoldersCanVote(m, dir) && IsCensus(m, dir, ds, weights)
    ensures MapSum(weights) == MapSum(FinalWeights(m, dir, ds, Holders(m, dir)))
  {
    VotersAddUp(m, dir, ds, weights);
    MapSumDropZeros(FinalWeights(m, dir, ds, Holders(m, dir)), Voting(m, dir, ds));
  }

  /** The total weight of the census is the total weight of the address map, less what was
      delegated to users without a listed address. */
  lemma TokenWeightIsConserved(m: map<nat, int>, dir: Directory, ds: seq<Delegation>, ps: seq<Participant>)
    requires HoldersAreKnown(m, dir) && HoldersCanVote(m, dir)
    requires OneDelegationPerUser(ds)
    requires IsCollection(m, dir, ds, ps)
    ensures MapSum(FirstWeights(ps)) == MapSum(m) - Stranded(m, dir, ds, Holders(m, dir))
    ensures (forall d | d in ds :: d.to in Holders(m, dir)) ==> MapSum(FirstWeights(ps)) == MapSum(m)
  {
    var hs := Holders(m, dir);
    CensusIsOrderFree(m, dir, ds, ps);
    CensusAddsUp(m, dir, ds, FirstWeights(ps));
    forall f | f !in hs ensures OwnWeight(m, dir, f) == 0 {
      OnlyHoldersOwn(m, dir, f);
    }
    DelegationsConserve(m, dir, ds, hs);
    OwnWeightsAddUp(m, dir, hs);
    if forall d | d in ds :: d.to in hs {
      NobodyStranded(m, dir, ds, hs);
    }
  }

  lemma ResolvedHasOnePerUser(g: seq<Delegation>)
    requires IsForest(g)
    ensures AllGrounded(g, g) && OneDelegationPerUser(Resolve(g, g))
  {
    ResolveRedirects(g, g);
    var out := Resolve(g, g);
    forall i, j | 0 <= i < j < |out| ensures out[i].from != out[j].from {
      assert g[i].from != g[j].from && out[i].from == g[i].from && out[j].from == g[j].from;
    }
  }

  /** The census of a community passes the resolved delegations of that community. Its total is the
      address map less what final delegates without a listed address received. */
  lemma CommunityWeightIsConserved(m: map<nat, int>, dir: Directory, g: seq<Delegation>, ps: seq<Participant>)
    requires HoldersAreKnown(m, dir) && HoldersCanVote(m, dir) && IsForest(g)
    requires AllGrounded(g, g) ==> IsCollection(m, dir, Resolve(g, g), ps)
    ensures AllGrounded(g, g)
    ensures MapSum(FirstWeights(ps)) == MapSum(m) - Stranded(m, dir, Resolve(g, g), Holders(m, dir))
    ensures (forall d | d in g :: FinalDelegatesHold(m, dir, g, d.to)) ==> MapSum(FirstWeights(ps)) == MapSum(m)
  {
    ResolvedHasOnePerUser(g);
    TokenWeightIsConserved(m, dir, Resolve(g, g), ps);
    if forall d | d in g :: FinalDelegatesHold(m, dir, g, d.to) {
      forall r | r in Resolve(g, g) ensures r.to in Holders(m, dir) {
        ResolvedEnds(g, g, r.to);
      }
    }
  }

  /** Whoever finally represents `x` holds an address. */
  ghost predicate FinalDelegatesHold(m: map<nat, int>, dir: Directory, g: seq<Delegation>, x: nat) {
    forall y | Reaches(g, x, y) && !HasDelegated(g, y) :: y in Holders(m, dir)
  }
}
