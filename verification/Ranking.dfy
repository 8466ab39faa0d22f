/** The heaviest participants of a census (mongo/census.go). */
module Ranking {
  import opened Prelude
  import opened Decimal

  /** Every stored weight is a decimal number. */
  ghost predicate AreNumeric(participants: map<string, string>) {
    forall k | k in participants :: ParseBig(participants[k]).Some?
  }

  /** The stored weights as numbers. */
  function Weights(participants: map<string, string>): (weights: map<string, int>)
    requires AreNumeric(participants)
  {
    map k | k in participants :: ParseBig(participants[k]).value
  }

  ghost predicate Descending<K(!new)>(weights: map<K, int>, keys: seq<K>) {
    && (forall k | k in keys :: k in weights)
    && (forall i, j | 0 <= i < j < |keys| :: weights[keys[i]] >= weights[keys[j]])
  }

  lemma InsertedIsDescending<K(!new)>(weights: map<K, int>, a: seq<K>, key: K, b: seq<K>)
    requires Descending(weights, a + b) && key in weights
    requires forall k | k in a :: k in weights && weights[k] >= weights[key]
    requires forall k | k in b :: k in weights && weights[k] <= weights[key]
    ensures Descending(weights, a + [key] + b)
  {
    var r, s := a + [key] + b, a + b;
    forall i, j | 0 <= i < j < |r| ensures weights[r[i]] >= weights[r[j]] {
      assert i < |a| ==> r[i] in a && r[i] == s[i];
      assert j > |a| ==> r[j] in b && r[j] == s[j - 1];
      assert i > |a| ==> r[i] == s[i - 1];
      assert j < |a| ==> r[j] == s[j];
    }
  }

  lemma MultisetInsert<K>(a: seq<K>, key: K, b: seq<K>)
    ensures multiset(a + [key] + b) == multiset(a + b) + multiset{key}
  {}

  /** Insertion behind every key that weighs at least as much, which keeps a sort stable. */
  method InsertByWeight<K(==, !new)>(weights: map<K, int>, sorted: seq<K>, key: K) returns (r: seq<K>)
    requires Descending(weights, sorted) && key in weights
    ensures multiset(r) == multiset(sorted) + multiset{key}
    ensures Descending(weights, r)
  {
    var i := |sorted|;
    while i > 0 && weights[key] > weights[sorted[i - 1]]
      invariant 0 <= i <= |sorted|
      invariant forall j | i <= j < |sorted| :: weights[key] > weights[sorted[j]]
    {
      i := i - 1;
    }
    InsertAt(weights, sorted, key, i);
    r := sorted[..i] + [key] + sorted[i..];
  }

  lemma InsertAt<K(!new)>(weights: map<K, int>, sorted: seq<K>, key: K, i: nat)
    requires Descending(weights, sorted) && key in weights && i <= |sorted|
    requires forall j | i <= j < |sorted| :: weights[sorted[j]] < weights[key]
    requires i > 0 ==> weights[sorted[i - 1]] >= weights[key]
    ensures Descending(weights, sorted[..i] + [key] + sorted[i..])
    ensures multiset(sorted[..i] + [key] + sorted[i..]) == multiset(sorted) + multiset{key}
  {
    var a, b := sorted[..i], sorted[i..];
    assert sorted == a + b;
    forall k | k in a ensures weights[k] >= weights[key] {
      var j :| 0 <= j < i && sorted[j] == k;
      assert j < i - 1 ==> weights[sorted[j]] >= weights[sorted[i - 1]];
    }
    InsertedIsDescending(weights, a, key, b);
    MultisetInsert(a, key, b);
  }

  method SortByWeight<K(==, !new)>(weights: map<K, int>, keys: seq<K>) returns (sorted: seq<K>)
    requires forall k | k in keys :: k in weights
    ensures multiset(sorted) == multiset(keys) && Descending(weights, sorted)
  {
    sorted := [];
    for i := 0 to |keys|
      invariant multiset(sorted) == multiset(keys[..i]) && Descending(weights, sorted)
    {
      PrefixSnoc(keys, i);
      sorted := InsertByWeight(weights, sorted, keys[i]);
    }
    assert keys[..|keys|] == keys;
  }

  ghost predicate ListsKeys<K(!new)>(weights: map<K, int>, keys: seq<K>) {
    NoDuplicates(keys) && forall k :: k in keys <==> k in weights
  }

  lemma {:induction false} MultisetOfDistinct<K(!new)>(s: seq<K>)
    ensures NoDuplicates(s) <==> forall k | k in s :: multiset(s)[k] == 1
  {
    if s != [] {
      var front, last := s[..|s| - 1], s[|s| - 1];
      assert s == front + [last];
      MultisetOfDistinct(front);
      if NoDuplicates(s) {
        assert last !in front;
      }
      if forall k | k in s :: multiset(s)[k] == 1 {
        assert multiset(s)[last] == multiset(front)[last] + 1;
        assert last !in front;
        forall k | k in front ensures multiset(front)[k] == 1 {
          assert k in s;
        }
      }
    }
  }

  lemma PermutationListsKeys<K(!new)>(weights: map<K, int>, keys: seq<K>, sorted: seq<K>)
    requires ListsKeys(weights, keys) && multiset(sorted) == multiset(keys)
    ensures ListsKeys(weights, sorted)
  {
    MultisetOfDistinct(keys);
    MultisetOfDistinct(sorted);
    assert forall k :: k in sorted <==> k in multiset(sorted);
    assert forall k :: k in keys <==> k in multiset(keys);
  }

  lemma {:induction false} DistinctCount<K(!new)>(s: seq<K>)
    requires NoDuplicates(s)
    ensures |(set k | k in s)| == |s|
  {
    if s != [] {
      var front, last := s[..|s| - 1], s[|s| - 1];
      assert s == front + [last];
      DistinctCount(front);
      assert (set k | k in s) == (set k | k in front) + {last};
    }
  }

  /** `found` holds `n` of the participants with their weights, and none left out weighs more. */
  ghost predicate AreHeaviest<K(!new)>(weights: map<K, int>, found: map<K, int>, n: nat) {
    && |found| == n
    && (forall k | k in found :: k in weights && found[k] == weights[k])
    && (forall k, l | k in found && l in weights && l !in found :: weights[k] >= weights[l])
  }

  lemma PrefixIsHeaviest<K(!new)>(weights: map<K, int>, sorted: seq<K>, n: nat, found: map<K, int>)
    requires ListsKeys(weights, sorted) && Descending(weights, sorted) && n <= |sorted|
    requires found.Keys == set k | k in sorted[..n]
    requires forall k | k in found :: k in weights && found[k] == weights[k]
    ensures AreHeaviest(weights, found, n)
  {
    DistinctCount(sorted[..n]);
    assert |found| == |found.Keys|;
    forall k, l | k in found && l in weights && l !in found ensures weights[k] >= weights[l] {
      var i :| 0 <= i < n && sorted[..n][i] == k;
      var j :| 0 <= j < |sorted| && sorted[j] == l;
      assert forall m | 0 <= m < n :: sorted[..n][m] in found;
    }
  }

  method TakeFirst<K(==, !new)>(weights: map<K, int>, sorted: seq<K>, n: nat) returns (found: map<K, int>)
    requires ListsKeys(weights, sorted) && Descending(weights, sorted) && n <= |sorted|
    ensures AreHeaviest(weights, found, n)
  {
    found := map[];
    for i := 0 to n
      invariant found.Keys == set k | k in sorted[..i]
      invariant forall k | k in found :: k in weights && found[k] == weights[k]
    {
      PrefixSnoc(sorted, i);
      found := found[sorted[i] := weights[sorted[i]]];
    }
    PrefixIsHeaviest(weights, sorted, n, found);
  }

  lemma CountOfKeys<K(!new)>(weights: map<K, int>, keys: seq<K>)
    requires ListsKeys(weights, keys)
    ensures |keys| == |weights|
  {
    DistinctCount(keys);
    assert (set k | k in keys) == weights.Keys;
  }

  /** The keys of the census come in any order; a negative number of participants ends the process. */
  method ParticipantsByWeight(participants: map<string, string>, keys: seq<string>, n: int)
      returns (users: Option<map<string, int>>)
    requires AreNumeric(participants) && ListsKeys(Weights(participants), keys)
    ensures users.None? <==> n < 0
    ensures users.Some? ==>
              AreHeaviest(Weights(participants), users.value, if n < |participants| then n else |participants|)
  {
    if n < 0 {
      return None;
    }
    var weights := Weights(participants);
    var sorted := SortByWeight(weights, keys);
    PermutationListsKeys(weights, keys, sorted);
    CountOfKeys(weights, sorted);
    assert weights.Keys == participants.Keys;
    var found := TakeFirst(weights, sorted, if n > |sorted| then |sorted| else n);
    users := Some(found);
  }
}
