/** The delegation graph of one community and the resolution of delegation
    chains (mongo/delegations.go). */
module Delegations {
  import opened Prelude

  /** A stored delegation: an edge from one user to another. */
  datatype Delegation = Delegation(id: nat, from: nat, to: nat, community: string)

  // ---------------------------------------------------------------- the graph

  /** The delegations in `g` made by `user`, in stored order. */
  function Outgoing(g: seq<Delegation>, user: nat): seq<Delegation> {
    if g == [] then []
    else
      var last := g[|g| - 1];
      Outgoing(g[..|g| - 1], user) + if last.from == user then [last] else []
  }

  lemma {:induction false} OutgoingMembers(g: seq<Delegation>, user: nat)
    ensures forall d :: d in Outgoing(g, user) <==> d in g && d.from == user
  {
    if g != [] {
      OutgoingMembers(g[..|g| - 1], user);
      assert g == g[..|g| - 1] + [g[|g| - 1]];
    }
  }

  lemma OutgoingSnoc(g: seq<Delegation>, d: Delegation, user: nat)
    ensures Outgoing(g + [d], user) == Outgoing(g, user) + if d.from == user then [d] else []
  {
    assert (g + [d])[..|g|] == g;
  }

  predicate HasDelegated(g: seq<Delegation>, user: nat) {
    exists d :: d in g && d.from == user
  }

  lemma HasDelegatedSnoc(g: seq<Delegation>, d: Delegation, user: nat)
    ensures HasDelegated(g + [d], user) <==> HasDelegated(g, user) || d.from == user
  {
    assert (g + [d])[|g|] == d;
  }

  ghost predicate OneDelegationPerUser(g: seq<Delegation>) {
    forall i, j | 0 <= i < j < |g| :: g[i].from != g[j].from
  }

  /** `p` lists the positions in `g` of consecutive delegations, the first one made by `x`. */
  ghost predicate IsPath(g: seq<Delegation>, x: nat, p: seq<nat>)
    decreases |p|
  {
    p == [] || (p[0] < |g| && g[p[0]].from == x && IsPath(g, g[p[0]].to, p[1..]))
  }

  /** The user at the end of a path. */
  ghost function End(g: seq<Delegation>, x: nat, p: seq<nat>): nat
    requires IsPath(g, x, p)
    decreases |p|
  {
    if p == [] then x else End(g, g[p[0]].to, p[1..])
  }

  ghost predicate Joins(g: seq<Delegation>, x: nat, p: seq<nat>, y: nat) {
    IsPath(g, x, p) && End(g, x, p) == y
  }

  ghost predicate Reaches(g: seq<Delegation>, x: nat, y: nat) {
    exists p :: Joins(g, x, p, y)
  }

  /** No user is led back to themselves. */
  ghost predicate Acyclic(g: seq<Delegation>) {
    forall x, p | Joins(g, x, p, x) :: p == []
  }

  /** No user reachable from `x` is led back to themselves. */
  ghost predicate Grounded(g: seq<Delegation>, x: nat) {
    forall q, y, p | Joins(g, x, q, y) && Joins(g, y, p, y) :: p == []
  }

  lemma {:induction false} PathConcat(g: seq<Delegation>, x: nat, p: seq<nat>, q: seq<nat>)
    requires IsPath(g, x, p) && IsPath(g, End(g, x, p), q)
    ensures IsPath(g, x, p + q) && End(g, x, p + q) == End(g, End(g, x, p), q)
    decreases |p|
  {
    if p == [] {
      assert p + q == q;
    } else {
      PathConcat(g, g[p[0]].to, p[1..], q);
      assert (p + q)[1..] == p[1..] + q;
    }
  }

  lemma EdgePath(g: seq<Delegation>, i: nat)
    requires i < |g|
    ensures Joins(g, g[i].from, [i], g[i].to)
  {
    assert [i][1..] == [];
  }

  lemma ReachesTransitive(g: seq<Delegation>, x: nat, y: nat, z: nat)
    requires Reaches(g, x, y) && Reaches(g, y, z)
    ensures Reaches(g, x, z)
  {
    var p :| Joins(g, x, p, y);
    var q :| Joins(g, y, q, z);
    PathConcat(g, x, p, q);
    assert Joins(g, x, p + q, z);
  }

  lemma GroundedInherited(g: seq<Delegation>, x: nat, y: nat)
    requires Grounded(g, x) && Reaches(g, x, y)
    ensures Grounded(g, y)
  {
    forall q, z, p | Joins(g, y, q, z) && Joins(g, z, p, z) ensures p == [] {
      var r :| Joins(g, x, r, y);
      PathConcat(g, x, r, q);
      assert Joins(g, x, r + q, z);
    }
  }

  lemma EdgeReaches(g: seq<Delegation>, d: Delegation)
    requires d in g
    ensures Reaches(g, d.from, d.to)
  {
    var i :| 0 <= i < |g| && g[i] == d;
    EdgePath(g, i);
  }

  // -------------------------------------------------- the termination measure

  ghost function Targets(g: seq<Delegation>): set<nat> {
    set d | d in g :: d.to
  }

  /** Every user `x` leads to, `x` included. */
  ghost function Below(g: seq<Delegation>, x: nat): set<nat> {
    set y | y in Targets(g) + {x} && Reaches(g, x, y)
  }

  ghost function Height(g: seq<Delegation>, x: nat): nat {
    |Below(g, x)|
  }

  lemma BelowShrinks(g: seq<Delegation>, d: Delegation)
    requires d in g && Grounded(g, d.from)
    ensures Height(g, d.to) < Height(g, d.from)
    ensures Grounded(g, d.to)
  {
    EdgeReaches(g, d);
    GroundedInherited(g, d.from, d.to);
    assert Joins(g, d.from, [], d.from);
    if Reaches(g, d.to, d.from) {
      var i :| 0 <= i < |g| && g[i] == d;
      var p :| Joins(g, d.to, p, d.from);
      EdgePath(g, i);
      PathConcat(g, d.from, [i], p);
      assert Joins(g, d.from, [i] + p, d.from);
      assert false;
    }
    assert Below(g, d.to) < Below(g, d.from) by {
      forall y | y in Below(g, d.to) ensures y in Below(g, d.from) {
        ReachesTransitive(g, d.from, d.to, y);
      }
      assert d.from in Below(g, d.from) && d.from !in Below(g, d.to);
    }
    SmallerSet(Below(g, d.to), Below(g, d.from));
  }

  lemma {:induction false} SmallerSet(a: set<nat>, b: set<nat>)
    requires a < b
    ensures |a| < |b|
  {
    assert b == a + (b - a);
    assert b - a != {};
  }

  ghost function ListHeight(g: seq<Delegation>, l: seq<Delegation>): nat {
    if l == [] then 0
    else
      var rest, last := ListHeight(g, l[..|l| - 1]), Height(g, l[|l| - 1].to);
      if rest < last then last else rest
  }

  lemma {:induction false} ListHeightBounds(g: seq<Delegation>, l: seq<Delegation>, bound: nat)
    ensures forall d | d in l :: Height(g, d.to) <= ListHeight(g, l)
    ensures (forall d | d in l :: Height(g, d.to) < bound) && l != [] ==> ListHeight(g, l) < bound
  {
    if l != [] {
      var front, last := l[..|l| - 1], l[|l| - 1];
      assert l == front + [last];
      ListHeightBounds(g, front, bound);
    }
  }

  /** Chains that start with a delegation in `l` never come back to a user. */
  ghost predicate AllGrounded(g: seq<Delegation>, l: seq<Delegation>) {
    forall d | d in l :: Grounded(g, d.to)
  }

  lemma NextIsLower(g: seq<Delegation>, x: nat)
    requires Grounded(g, x)
    ensures AllGrounded(g, Outgoing(g, x))
    ensures Outgoing(g, x) != [] ==> ListHeight(g, Outgoing(g, x)) < Height(g, x)
  {
    var next := Outgoing(g, x);
    OutgoingMembers(g, x);
    forall d | d in next ensures Grounded(g, d.to) && Height(g, d.to) < Height(g, x) {
      BelowShrinks(g, d);
    }
    ListHeightBounds(g, next, Height(g, x));
  }

  lemma AcyclicIsGrounded(g: seq<Delegation>, x: nat)
    requires Acyclic(g)
    ensures Grounded(g, x)
  {}

  // ------------------------------------------------------ resolving the chains

  /** `resolved`, seen as the resolution of `d`: each entry keeps the ID and the author of `d`. */
  function Relabel(d: Delegation, resolved: seq<Delegation>): (r: seq<Delegation>)
    ensures |r| == |resolved|
    ensures forall i | 0 <= i < |r| :: r[i] == resolved[i].(id := d.id, from := d.from)
  {
    seq(|resolved|, i requires 0 <= i < |resolved| => resolved[i].(id := d.id, from := d.from))
  }

  function ResolveOne(g: seq<Delegation>, d: Delegation): seq<Delegation>
    requires Grounded(g, d.to)
    decreases Height(g, d.to), 0
  {
    var next := Outgoing(g, d.to);
    NextIsLower(g, d.to);
    if next == [] then [d] else Relabel(d, Resolve(g, next))
  }

  function Resolve(g: seq<Delegation>, l: seq<Delegation>): seq<Delegation>
    requires AllGrounded(g, l)
    decreases ListHeight(g, l), |l|
  {
    if l == [] then []
    else
      var front, last := l[..|l| - 1], l[|l| - 1];
      ListHeightBounds(g, l, 0);
      Resolve(g, front) + ResolveOne(g, last)
  }

  lemma ResolveSnoc(g: seq<Delegation>, l: seq<Delegation>, d: Delegation)
    requires AllGrounded(g, l + [d])
    ensures AllGrounded(g, l)
    ensures Resolve(g, l + [d]) == Resolve(g, l) + ResolveOne(g, d)
  {
    assert forall e | e in l :: e in l + [d];
    assert (l + [d])[..|l|] == l;
  }

  /** The scan for the delegations of one user, which the source writes out in both of its callers. */
  method DelegationsMadeBy(delegations: seq<Delegation>, user: nat) returns (made: seq<Delegation>)
    ensures made == Outgoing(delegations, user)
  {
    made := [];
    for i := 0 to |delegations|
      invariant made == Outgoing(delegations[..i], user)
    {
      PrefixSnoc(delegations, i);
      OutgoingSnoc(delegations[..i], delegations[i], user);
      if delegations[i].from == user {
        made := made + [delegations[i]];
      }
    }
    assert delegations[..|delegations|] == delegations;
  }

  /** The loop body of SolveNestedDelegations: what one delegation contributes to the result. */
  method SolveDelegation(original: seq<Delegation>, delegation: Delegation) returns (solved: seq<Delegation>)
    requires Grounded(original, delegation.to)
    ensures solved == ResolveOne(original, delegation)
    decreases Height(original, delegation.to), 0
  {
    // check if the delegate has in turn delegated to somebody
    var delegateDelegations := DelegationsMadeBy(original, delegation.to);
    if |delegateDelegations| == 0 {
      return [delegation];
    }
    NextIsLower(original, delegation.to);
    var nested := SolveNestedDelegations(original, Some(delegateDelegations));
    solved := [];
    for j := 0 to |nested|
      invariant solved == Relabel(delegation, nested[..j])
    {
      PrefixSnoc(nested, j);
      // keep the ID and the author of the delegation being solved
      solved := solved + [nested[j].(id := delegation.id, from := delegation.from)];
    }
    assert nested[..|nested|] == nested;
  }

  method SolveNestedDelegations(original: seq<Delegation>, filter: Option<seq<Delegation>>)
      returns (finalDelegations: seq<Delegation>)
    requires AllGrounded(original, filter.GetOr(original))
    ensures finalDelegations == Resolve(original, filter.GetOr(original))
    decreases ListHeight(original, filter.GetOr(original))
  {
    // no filter means every delegation; an empty filter means none
    var filtered := filter.GetOr(original);
    ListHeightBounds(original, filtered, 0);
    finalDelegations := [];
    for i := 0 to |filtered|
      invariant AllGrounded(original, filtered[..i])
      invariant finalDelegations == Resolve(original, filtered[..i])
    {
      PrefixSnoc(filtered, i);
      ResolveSnoc(original, filtered[..i], filtered[i]);
      var solved := SolveDelegation(original, filtered[i]);
      finalDelegations := finalDelegations + solved;
    }
    assert filtered[..|filtered|] == filtered;
  }
}
