/** Voting weights of a census built from token holders (census.go). */
module TokenCensus {
  import opened Prelude
  import opened Decimal
  import opened Sums
  import opened Delegations
  import opened FidCensus

  datatype RecordError = InvalidRecord | NoValidParticipants

  /** The text conversions of the libraries the census relies on: an address in normalized
      (20-byte) form, and a decimal number. */
  datatype Reader = Reader(address: string -> Option<nat>, number: string -> Option<int>)

  // ------------------------------------------------------- weights of addresses

  /** The address and the weight that one record adds, if any. */
  function Contribution(rd: Reader, record: seq<string>): Option<(nat, int)>
    requires |record| == 2
  {
    var (address, weight) :=
      if rd.address(record[0]).Some? then (rd.address(record[0]), record[1])
      else (rd.address(record[1]), record[0]);
    var number := if weight == "" then rd.number("1") else rd.number(weight);
    if address.None? || weight == "0" || number.None? then None
    else Some((address.value, number.value))
  }

  /** What a record adds, case by case: the address is the first field, or else the second; an empty
      weight counts as "1"; a weight "0", no address, or no number adds nothing. */
  lemma ContributionCases(rd: Reader, first: string, second: string)
    ensures var added, a, b := Contribution(rd, [first, second]), rd.address(first), rd.address(second);
            && (a.None? && b.None? ==> added == None)
            && (a.Some? && second == "" ==> added == Weighed(a.value, rd.number("1")))
            && (a.Some? && second == "0" ==> added == None)
            && (a.Some? && second != "" && second != "0" ==> added == Weighed(a.value, rd.number(second)))
            && (a.None? && b.Some? && first == "" ==> added == Weighed(b.value, rd.number("1")))
            && (a.None? && b.Some? && first == "0" ==> added == None)
            && (a.None? && b.Some? && first != "" && first != "0" ==> added == Weighed(b.value, rd.number(first)))
  {}

  /** An address with a weight, if there is one. */
  function Weighed(address: nat, weight: Option<int>): Option<(nat, int)> {
    match weight
    case Some(w) => Some((address, w))
    case None => None
  }

  /** What the records add up to for one address; None when none of them lists it. */
  function Listed(rd: Reader, records: seq<seq<string>>, a: nat): Option<int>
    requires forall r | r in records :: |r| == 2
  {
    if records == [] then None
    else
      var before := Listed(rd, records[..|records| - 1], a);
      match Contribution(rd, records[|records| - 1])
      case Some((address, weight)) => if address == a then Some(before.GetOr(0) + weight) else before
      case None => before
  }

  /** What all the records add up to. */
  function ContributionTotal(rd: Reader, records: seq<seq<string>>): int
    requires forall r | r in records :: |r| == 2
  {
    if records == [] then 0
    else
      ContributionTotal(rd, records[..|records| - 1])
      + match Contribution(rd, records[|records| - 1]) case Some((_, weight)) => weight case None => 0
  }

  lemma RecordStep(rd: Reader, front: seq<seq<string>>, record: seq<string>)
    requires |record| == 2 && forall r | r in front :: |r| == 2
    ensures forall r | r in front + [record] :: |r| == 2
    ensures Contribution(rd, record).None? ==>
              && (forall a :: Listed(rd, front + [record], a) == Listed(rd, front, a))
              && ContributionTotal(rd, front + [record]) == ContributionTotal(rd, front)
    ensures Contribution(rd, record).Some? ==>
              var (address, weight) := Contribution(rd, record).value;
              && (forall a | a != address :: Listed(rd, front + [record], a) == Listed(rd, front, a))
              && Listed(rd, front + [record], address) == Some(Listed(rd, front, address).GetOr(0) + weight)
              && ContributionTotal(rd, front + [record]) == ContributionTotal(rd, front) + weight
  {
    assert (front + [record])[..|front|] == front;
  }

  /** One round of the loop over the records: what the record adds, if it is usable. */
  method ReadRecord(rd: Reader, record: seq<string>) returns (c: Option<(nat, int)>)
    requires |record| == 2
    ensures c == Contribution(rd, record)
    ensures rd.address(record[0]).Some? && record[1] != "" && record[1] != "0" ==>
              c == Weighed(rd.address(record[0]).value, rd.number(record[1]))
    ensures rd.address(record[0]).None? && rd.address(record[1]).Some? && record[0] != "" && record[0] != "0" ==>
              c == Weighed(rd.address(record[1]).value, rd.number(record[0]))
  {
    var address, weightRecord;
    if rd.address(record[0]).Some? {
      address, weightRecord := rd.address(record[0]).value, record[1];
    } else if rd.address(record[1]).Some? {
      address, weightRecord := rd.address(record[1]).value, record[0];
    } else {
      return None;
    }
    // if the weight is not provided, it is 1
    if weightRecord == "" {
      weightRecord := "1";
    }
    if weightRecord == "0" {
      return None;
    }
    var weight := rd.number(weightRecord);
    c := if weight.None? then None else Some((address, weight.value));
  }

  ghost predicate Holds(m: map<nat, int>, a: nat, entry: Option<int>) {
    entry == if a in m then Some(m[a]) else None
  }

  method AggregateRecords(rd: Reader, records: seq<seq<string>>) returns (r: Result<map<nat, int>, RecordError>)
    ensures r == Err(InvalidRecord) <==> exists record | record in records :: |record| != 2
    ensures r.Ok? ==> r.value != map[]
    ensures r.Ok? ==> forall a :: Holds(r.value, a, Listed(rd, records, a))
    ensures r.Ok? ==> MapSum(r.value) == ContributionTotal(rd, records)
    ensures r == Err(NoValidParticipants) ==> forall a :: Listed(rd, records, a) == None
  {
    var addressMap := map[];
    for i := 0 to |records|
      invariant forall record | record in records[..i] :: |record| == 2
      invariant forall a :: Holds(addressMap, a, Listed(rd, records[..i], a))
      invariant MapSum(addressMap) == ContributionTotal(rd, records[..i])
    {
      PrefixSnoc(records, i);
      if |records[i]| != 2 {
        assert records[i] in records;
        return Err(InvalidRecord);
      }
      RecordStep(rd, records[..i], records[i]);
      var contribution := ReadRecord(rd, records[i]);
      if contribution.None? {
        continue;
      }
      var (address, weight) := contribution.value;
      var sum := weight;
      if address in addressMap {
        sum := addressMap[address] + weight;
      }
      assert Holds(addressMap, address, Listed(rd, records[..i], address));
      MapSumAdd(addressMap, address, sum);
      addressMap := addressMap[address := sum];
    }
    assert records[..|records|] == records;
    r := if addressMap == map[] then Err(NoValidParticipants) else Ok(addressMap);
    assert r.Err? ==> forall a :: Holds(addressMap, a, Listed(rd, records, a));
  }

  // ------------------------------------------------- records written by a program

  /** Record number `i` is the text of an address and the decimal form of a weight. */
  ghost predicate AreWritten(rd: Reader, entries: seq<(nat, int)>, records: seq<seq<string>>) {
    && |records| == |entries|
    && (forall i | 0 <= i < |records| ::
          && |records[i]| == 2
          && rd.address(records[i][0]) == Some(entries[i].0) && records[i][1] == PrintBig(entries[i].1))
  }

  ghost predicate ReadsDecimals(rd: Reader) {
    forall w :: rd.number(PrintBig(w)) == Some(w)
  }

  function SumFor(entries: seq<(nat, int)>, a: nat): int {
    if entries == [] then 0
    else SumFor(entries[..|entries| - 1], a) + if entries[|entries| - 1].0 == a then entries[|entries| - 1].1 else 0
  }

  /** The address occurs with a weight other than 0. */
  ghost predicate OccursIn(entries: seq<(nat, int)>, a: nat) {
    exists e :: e in entries && e.0 == a && e.1 != 0
  }

  lemma PrintedWeights(w: int)
    ensures PrintBig(w) != "" && (PrintBig(w) == "0" <==> w == 0)
  {
    ParseUndoesPrintBig(w);
    ParseUndoesPrintBig(0);
    assert PrintBig(0) == "0";
    PrintIsDigits(if w < 0 then -w else w);
  }

  /** A record adds an entry, unless its weight is 0. */
  ghost predicate Adds(rd: Reader, record: seq<string>, e: (nat, int)) {
    |record| == 2 && Contribution(rd, record) == if e.1 == 0 then None else Some(e)
  }

  ghost predicate AddsUp(rd: Reader, entries: seq<(nat, int)>, records: seq<seq<string>>, a: nat) {
    && (forall r | r in records :: |r| == 2)
    && Listed(rd, records, a) == (if OccursIn(entries, a) then Some(SumFor(entries, a)) else None)
    && (!OccursIn(entries, a) ==> SumFor(entries, a) == 0)
  }

  lemma EntryAddsUp(rd: Reader, entries: seq<(nat, int)>, records: seq<seq<string>>, e: (nat, int), record: seq<string>,
                    a: nat)
    requires AddsUp(rd, entries, records, a) && Adds(rd, record, e)
    ensures AddsUp(rd, entries + [e], records + [record], a)
  {
    ListedSnoc(rd, records, record, e, a);
    SumSnoc(entries, e, a);
  }

  lemma {:induction false} EntriesAddUp(rd: Reader, entries: seq<(nat, int)>, records: seq<seq<string>>, a: nat, n: nat)
    requires n <= |records| == |entries| && forall i | 0 <= i < |records| :: Adds(rd, records[i], entries[i])
    ensures AddsUp(rd, entries[..n], records[..n], a)
  {
    if n > 0 {
      EntriesAddUp(rd, entries, records, a, n - 1);
      EntryAddsUp(rd, entries[..n - 1], records[..n - 1], entries[n - 1], records[n - 1], a);
      PrefixSnoc(records, n - 1);
      PrefixSnoc(entries, n - 1);
    }
  }

  lemma ListedSnoc(rd: Reader, front: seq<seq<string>>, record: seq<string>, e: (nat, int), a: nat)
    requires Adds(rd, record, e) && forall r | r in front :: |r| == 2
    ensures forall r | r in front + [record] :: |r| == 2
    ensures Listed(rd, front + [record], a)
            == if e.0 == a && e.1 != 0 then Some(Listed(rd, front, a).GetOr(0) + e.1) else Listed(rd, front, a)
  {
    assert (front + [record])[..|front|] == front;
  }

  /** Of written records, an address gets the sum of its weights, and is there if one of them is not 0. */
  lemma WrittenRecordsAddUp(rd: Reader, entries: seq<(nat, int)>, records: seq<seq<string>>, a: nat)
    requires AreWritten(rd, entries, records) && ReadsDecimals(rd)
    ensures forall r | r in records :: |r| == 2
    ensures Listed(rd, records, a) == if OccursIn(entries, a) then Some(SumFor(entries, a)) else None
  {
    forall i | 0 <= i < |records| ensures Adds(rd, records[i], entries[i]) {
      WrittenRecord(rd, records[i], entries[i]);
    }
    EntriesAddUp(rd, entries, records, a, |records|);
    assert records[..|records|] == records && entries[..|records|] == entries;
  }

  lemma WrittenRecord(rd: Reader, record: seq<string>, e: (nat, int))
    requires |record| == 2 && rd.address(record[0]) == Some(e.0) && record[1] == PrintBig(e.1) && ReadsDecimals(rd)
    ensures Adds(rd, record, e)
  {
    PrintedWeights(e.1);
    assert record == [record[0], PrintBig(e.1)];
    ContributionCases(rd, record[0], PrintBig(e.1));
  }

  lemma SumSnoc(front: seq<(nat, int)>, e: (nat, int), a: nat)
    ensures SumFor(front + [e], a) == SumFor(front, a) + if e.0 == a then e.1 else 0
    ensures OccursIn(front + [e], a) <==> OccursIn(front, a) || (e.0 == a && e.1 != 0)
  {
    assert (front + [e])[..|front|] == front && (front + [e])[|front|] == e;
  }

  /** The map built from written records holds exactly these sums. */
  lemma WrittenMap(rd: Reader, entries: seq<(nat, int)>, records: seq<seq<string>>, m: map<nat, int>)
    requires AreWritten(rd, entries, records) && ReadsDecimals(rd)
    requires forall r | r in records :: |r| == 2
    requires forall a :: Holds(m, a, Listed(rd, records, a))
    ensures forall a :: a in m <==> OccursIn(entries, a)
    ensures forall a | a in m :: m[a] == SumFor(entries, a)
  {
    forall a ensures (a in m <==> OccursIn(entries, a)) && (a in m ==> m[a] == SumFor(entries, a)) {
      WrittenRecordsAddUp(rd, entries, records, a);
      assert Holds(m, a, Listed(rd, records, a));
    }
  }

  // ------------------------------------------------------------ weights of users

  /** The users in the database, and the user found for each address. */
  datatype Directory = Directory(users: map<nat, User>, owners: map<nat, nat>)

  ghost predicate UsersAreKeyed(users: map<nat, User>) {
    forall fid | fid in users :: users[fid].fid == fid
  }

  function AddressWeight(m: map<nat, int>, addresses: seq<nat>): int {
    if addresses == [] then 0
    else
      var last := addresses[|addresses| - 1];
      AddressWeight(m, addresses[..|addresses| - 1]) + if last in m then m[last] else 0
  }

  function OwnWeight(m: map<nat, int>, dir: Directory, fid: nat): int {
    if fid in dir.users then AddressWeight(m, dir.users[fid].addresses) else 0
  }

  function DelegatedWeight(m: map<nat, int>, dir: Directory, ds: seq<Delegation>, fid: nat): int {
    if ds == [] then 0
    else
      var last := ds[|ds| - 1];
      DelegatedWeight(m, dir, ds[..|ds| - 1], fid) + if last.to == fid then OwnWeight(m, dir, last.from) else 0
  }

  function FinalWeight(m: map<nat, int>, dir: Directory, ds: seq<Delegation>, fid: nat): int {
    (if HasDelegated(ds, fid) then 0 else OwnWeight(m, dir, fid)) + DelegatedWeight(m, dir, ds, fid)
  }

  /** One participant per signer that decodes; the others are skipped. */
  function DecodableOnly(user: User, weight: int, n: nat): seq<Participant>
    requires n <= |user.signers|
  {
    if n == 0 then []
    else
      DecodableOnly(user, weight, n - 1) +
      if user.signers[n - 1].Key? then [Participant(user.signers[n - 1].key, weight, user.username, user.fid)] else []
  }

  ghost predicate IsPending(dir: Directory, a: nat) {
    a !in dir.owners || dir.owners[a] !in dir.users || dir.users[dir.owners[a]].signers == []
  }

  function ParticipantsAt(m: map<nat, int>, dir: Directory, ds: seq<Delegation>, a: nat): seq<Participant> {
    if a !in dir.owners || dir.owners[a] !in dir.users then []
    else
      var user := dir.users[dir.owners[a]];
      var weight := FinalWeight(m, dir, ds, user.fid);
      if weight == 0 then [] else DecodableOnly(user, weight, |user.signers|)
  }

  lemma {:induction false} DecodableSigners(user: User, weight: int, n: nat, p: Participant)
    requires n <= |user.signers|
    ensures p in DecodableOnly(user, weight, n)
            <==> exists i :: 0 <= i < n && user.signers[i].Key?
                             && p == Participant(user.signers[i].key, weight, user.username, user.fid)
  {
    if n > 0 {
      DecodableSigners(user, weight, n - 1, p);
    }
  }

  /** `p` stands for signer number `i` of the owner of `a`. */
  ghost predicate StandsForHolder(p: Participant, m: map<nat, int>, dir: Directory, ds: seq<Delegation>, a: nat,
                                  i: nat) {
    && a in dir.owners && dir.owners[a] in dir.users
    && var user := dir.users[dir.owners[a]];
       var weight := FinalWeight(m, dir, ds, user.fid);
       && weight != 0 && i < |user.signers| && user.signers[i].Key?
       && p == Participant(user.signers[i].key, weight, user.username, user.fid)
  }

  /** An address brings exactly the decodable signers of its owner, malformed ones in between or not. */
  lemma ParticipantsAreSigners(m: map<nat, int>, dir: Directory, ds: seq<Delegation>, a: nat)
    ensures forall p :: p in ParticipantsAt(m, dir, ds, a) <==> exists i :: StandsForHolder(p, m, dir, ds, a, i)
  {
    forall p ensures p in ParticipantsAt(m, dir, ds, a) <==> exists i :: StandsForHolder(p, m, dir, ds, a, i) {
      if a in dir.owners && dir.owners[a] in dir.users {
        var user := dir.users[dir.owners[a]];
        var weight := FinalWeight(m, dir, ds, user.fid);
        DecodableSigners(user, weight, |user.signers|, p);
        if weight != 0 && p in DecodableOnly(user, weight, |user.signers|) {
          var i :| 0 <= i < |user.signers| && user.signers[i].Key?
                   && p == Participant(user.signers[i].key, weight, user.username, user.fid);
          assert StandsForHolder(p, m, dir, ds, a, i);
        }
      }
    }
  }

  method SumAddresses(m: map<nat, int>, addresses: seq<nat>) returns (weight: int)
    ensures weight == AddressWeight(m, addresses)
  {
    weight := 0;
    for i := 0 to |addresses|
      invariant weight == AddressWeight(m, addresses[..i])
    {
      assert addresses[..i + 1][..i] == addresses[..i];
      if addresses[i] in m {
        weight := weight + m[addresses[i]];
      }
    }
    assert addresses[..|addresses|] == addresses;
  }

  /** The work done for one address of the map: the participants found, and whether the address is
      left for the next phase. */
  method ProcessAddress(m: map<nat, int>, dir: Directory, ds: seq<Delegation>, a: nat)
      returns (participants: seq<Participant>, pending: bool)
    requires UsersAreKeyed(dir.users)
    ensures pending <==> IsPending(dir, a)
    ensures !pending <==> a in dir.owners && dir.owners[a] in dir.users && dir.users[dir.owners[a]].signers != []
    ensures forall p :: p in participants <==> exists i :: StandsForHolder(p, m, dir, ds, a, i)
    ensures participants == ParticipantsAt(m, dir, ds, a)
  {
    ParticipantsAreSigners(m, dir, ds, a);
    participants := [];
    pending := a !in dir.owners || dir.owners[a] !in dir.users || dir.users[dir.owners[a]].signers == [];
    if pending {
      assert participants == ParticipantsAt(m, dir, ds, a);
      return;
    }
    var user := dir.users[dir.owners[a]];
    var userWeight := SumAddresses(m, user.addresses);
    var delegatedWeight := 0;
    for i := 0 to |ds|
      invariant userWeight == if HasDelegated(ds[..i], user.fid) then 0 else OwnWeight(m, dir, user.fid)
      invariant delegatedWeight == DelegatedWeight(m, dir, ds[..i], user.fid)
    {
      PrefixSnoc(ds, i);
      assert ds[..i + 1][..i] == ds[..i];
      HasDelegatedSnoc(ds[..i], ds[i], user.fid);
      if ds[i].from == user.fid {
        userWeight := 0;
      }
      if ds[i].to == user.fid {
        if ds[i].from !in dir.users {
          continue;
        }
        var delegatorWeight := SumAddresses(m, dir.users[ds[i].from].addresses);
        delegatedWeight := delegatedWeight + delegatorWeight;
      }
    }
    assert ds[..|ds|] == ds;
    var finalWeight := userWeight + delegatedWeight;
    if finalWeight == 0 {
      assert participants == ParticipantsAt(m, dir, ds, a);
      return;
    }
    for i := 0 to |user.signers|
      invariant participants == DecodableOnly(user, finalWeight, i)
    {
      if user.signers[i].Malformed? {
        continue;
      }
      participants := participants + [Participant(user.signers[i].key, finalWeight, user.username, user.fid)];
    }
    assert participants == ParticipantsAt(m, dir, ds, a);
  }

  /** The database phase: every address of the map is taken once, in an order the language leaves open. */
  method CollectParticipants(m: map<nat, int>, dir: Directory, ds: seq<Delegation>)
      returns (participants: seq<Participant>, pendingAddresses: seq<nat>)
    requires UsersAreKeyed(dir.users)
    ensures forall p :: p in participants <==> exists a | a in m :: p in ParticipantsAt(m, dir, ds, a)
    ensures forall a :: a in pendingAddresses <==> a in m && IsPending(dir, a)
  {
    participants, pendingAddresses := [], [];
    var rest := m.Keys;
    while rest != {}
      invariant rest <= m.Keys
      invariant forall p :: p in participants <==> exists a | a in m.Keys - rest :: p in ParticipantsAt(m, dir, ds, a)
      invariant forall a :: a in pendingAddresses <==> a in m.Keys - rest && IsPending(dir, a)
      decreases |rest|
    {
      var address :| address in rest;
      var found, pending := ProcessAddress(m, dir, ds, address);
      participants := participants + found;
      if pending {
        pendingAddresses := pendingAddresses + [address];
      }
      rest := rest - {address};
    }
  }

  // ---------------------------------------------------- one entry per username

  /** For each username, the weight of its first participant. */
  function FirstWeights(ps: seq<Participant>): map<string, int> {
    if ps == [] then map[]
    else
      var before, last := FirstWeights(ps[..|ps| - 1]), ps[|ps| - 1];
      if last.username in before then before else before[last.username := last.weight]
  }

  /** Number `i` is the first participant of that username. */
  ghost predicate IsFirstOf(ps: seq<Participant>, u: string, i: nat) {
    i < |ps| && ps[i].username == u && forall j | 0 <= j < i :: ps[j].username != u
  }

  lemma {:induction false} FirstWeightsAreFirst(ps: seq<Participant>)
    ensures forall u :: u in FirstWeights(ps) <==> exists i :: IsFirstOf(ps, u, i)
    ensures forall u, i: nat | IsFirstOf(ps, u, i) :: u in FirstWeights(ps) && FirstWeights(ps)[u] == ps[i].weight
  {
    if ps != [] {
      var n := |ps| - 1;
      var front, last := ps[..n], ps[n];
      FirstWeightsAreFirst(front);
      forall u, i: nat | i < n ensures IsFirstOf(ps, u, i) <==> IsFirstOf(front, u, i) {}
      if last.username !in FirstWeights(front) {
        NoneBefore(front, last.username);
        assert IsFirstOf(ps, last.username, n);
      }
      forall u, i: nat | IsFirstOf(ps, u, i) ensures u in FirstWeights(ps) && FirstWeights(ps)[u] == ps[i].weight {
      }
    }
  }

  lemma {:induction false} NoneBefore(ps: seq<Participant>, u: string)
    requires forall i :: !IsFirstOf(ps, u, i)
    ensures forall i | 0 <= i < |ps| :: ps[i].username != u
  {
    forall i | 0 <= i < |ps| ensures ps[i].username != u {
      NotThere(ps, u, i);
    }
  }

  lemma {:induction false} NotThere(ps: seq<Participant>, u: string, i: nat)
    requires i < |ps| && forall j :: !IsFirstOf(ps, u, j)
    ensures ps[i].username != u
  {
    forall j | 0 <= j < i ensures ps[j].username != u {
      NotThere(ps, u, j);
    }
    assert !IsFirstOf(ps, u, i);
  }

  method UniqueParticipants(ps: seq<Participant>) returns (weights: map<string, int>, totalWeight: int)
    ensures weights == FirstWeights(ps)
    ensures forall u :: u in weights <==> exists i :: IsFirstOf(ps, u, i)
    ensures forall u, i: nat | IsFirstOf(ps, u, i) :: u in weights && weights[u] == ps[i].weight
    ensures totalWeight == MapSum(weights)
  {
    FirstWeightsAreFirst(ps);
    weights, totalWeight := map[], 0;
    for i := 0 to |ps|
      invariant weights == FirstWeights(ps[..i])
      invariant totalWeight == MapSum(weights)
    {
      var p := ps[i];
      assert ps[..i + 1][..i] == ps[..i];
      if p.username in weights {
        // the username is already counted
        continue;
      }
      MapSumAdd(weights, p.username, p.weight);
      weights := weights[p.username := p.weight];
      totalWeight := totalWeight + p.weight;
    }
    assert ps[..|ps|] == ps;
  }
}
