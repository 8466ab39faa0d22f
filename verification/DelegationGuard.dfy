/** The check that refuses circular delegations, and what it protects (users.go). */
module DelegationGuard {
  import opened Delegations
  import opened DelegationLaws

  /** The test of the delegation handler: somebody represented by `to` is finally represented by `from`. */
  predicate RefusedAsCircular(g: seq<Delegation>, from: nat, to: nat)
    requires Grounded(g, to)
  {
    GroundedDelegates(g, to);
    exists d :: d in Resolve(g, Outgoing(g, to)) && d.to == from
  }

  lemma GroundedDelegates(g: seq<Delegation>, user: nat)
    requires Grounded(g, user)
    ensures AllGrounded(g, Outgoing(g, user))
  {
    NextIsLower(g, user);
  }

  /** The test finds the author exactly when the author is reachable and has not delegated yet. */
  lemma GuardMeaning(g: seq<Delegation>, from: nat, to: nat)
    requires Grounded(g, to) && from != to
    ensures RefusedAsCircular(g, from, to) <==> Reaches(g, to, from) && !HasDelegated(g, from)
  {
    GroundedDelegates(g, to);
    var next := Outgoing(g, to);
    OutgoingMembers(g, to);
    ResolvedEnds(g, next, from);
    if Reaches(g, to, from) {
      var p :| Joins(g, to, p, from);
      var d := g[p[0]];
      assert Joins(g, d.to, p[1..], from);
      assert d in next;
    }
    if d :| d in next && Reaches(g, d.to, from) {
      EdgeReaches(g, d);
      ReachesTransitive(g, to, d.to, from);
    }
  }

  // ---------------------------------------------------------- adding a delegation

  lemma {:induction false} PathWeakens(g: seq<Delegation>, h: seq<Delegation>, x: nat, p: seq<nat>)
    requires IsPath(g, x, p)
    ensures IsPath(g + h, x, p) && End(g + h, x, p) == End(g, x, p)
    decreases |p|
  {
    if p != [] {
      PathWeakens(g, h, g[p[0]].to, p[1..]);
    }
  }

  /** A path in the larger graph either stays in the old one, or some first part of it leads to the
      author of the new delegation `e` inside the old graph and then takes `e`. */
  lemma {:induction false} FirstUse(g: seq<Delegation>, e: Delegation, x: nat, p: seq<nat>) returns (k: nat)
    requires IsPath(g + [e], x, p)
    ensures k <= |p| && IsPath(g, x, p[..k])
    ensures End(g, x, p[..k]) == if k < |p| then e.from else End(g + [e], x, p)
    ensures k < |p| ==> IsPath(g + [e], e.to, p[k + 1..])
    ensures k < |p| ==> End(g + [e], e.to, p[k + 1..]) == End(g + [e], x, p)
    decreases |p|
  {
    if p == [] || p[0] == |g| {
      k := 0;
    } else {
      var rest := FirstUse(g, e, g[p[0]].to, p[1..]);
      k := rest + 1;
      assert p[..k][1..] == p[1..][..rest];
      if k < |p| {
        assert p[k + 1..] == p[1..][rest + 1..];
      }
    }
  }

  lemma ReachedWithoutTheNewOne(g: seq<Delegation>, e: Delegation, x: nat, p: seq<nat>)
    requires Joins(g + [e], x, p, e.from)
    ensures Reaches(g, x, e.from)
  {
    var k := FirstUse(g, e, x, p);
    assert p[..|p|] == p;
    assert Joins(g, x, p[..k], e.from);
  }

  lemma CycleUsesNewOne(g: seq<Delegation>, e: Delegation, x: nat, p: seq<nat>)
    requires Acyclic(g) && Joins(g + [e], x, p, x) && p != []
    ensures Reaches(g, e.to, e.from)
  {
    var k := FirstUse(g, e, x, p);
    if k == |p| {
      assert p[..k] == p;
      assert Joins(g, x, p, x);
      assert false;
    }
    PathWeakens(g, [e], x, p[..k]);
    PathConcat(g + [e], e.to, p[k + 1..], p[..k]);
    ReachedWithoutTheNewOne(g, e, e.to, p[k + 1..] + p[..k]);
  }

  /** A delegation keeps an acyclic graph acyclic exactly when its delegate does not lead to its author. */
  lemma AddKeepsAcyclicIff(g: seq<Delegation>, e: Delegation)
    requires Acyclic(g)
    ensures Acyclic(g + [e]) <==> !Reaches(g, e.to, e.from)
  {
    if !Reaches(g, e.to, e.from) {
      forall x, p | Joins(g + [e], x, p, x) ensures p == [] {
        if p != [] { CycleUsesNewOne(g, e, x, p); }
      }
    }
    if p :| Joins(g, e.to, p, e.from) {
      var n := |g|;
      PathWeakens(g, [e], e.to, p);
      assert (g + [e])[n] == e;
      EdgePath(g + [e], n);
      PathConcat(g + [e], e.from, [n], p);
      assert Joins(g + [e], e.from, [n] + p, e.from);
    }
  }

  lemma AddKeepsOnePerUser(g: seq<Delegation>, e: Delegation)
    requires OneDelegationPerUser(g)
    ensures OneDelegationPerUser(g + [e]) <==> !HasDelegated(g, e.from)
  {
    if i :| 0 <= i < |g| && g[i].from == e.from {
      assert (g + [e])[i].from == (g + [e])[|g|].from;
    }
    if d :| d in g && d.from == e.from {
      var i :| 0 <= i < |g| && g[i] == d;
    }
  }

  /** In an acyclic graph the handler lets a cycle through exactly when the author has already
      delegated and the delegate leads to the author; for other authors its check is exact. */
  lemma AcceptedRequestClosesCycleIff(g: seq<Delegation>, e: Delegation)
    requires Acyclic(g) && e.from != e.to
    ensures !RefusedAsCircular(g, e.from, e.to) && !Acyclic(g + [e])
            <==> Reaches(g, e.to, e.from) && HasDelegated(g, e.from)
  {
    GuardMeaning(g, e.from, e.to);
    AddKeepsAcyclicIff(g, e);
  }

  /** Three users: with author -> x and b -> author stored, author -> b passes the check. */
  lemma SecondDelegationPassesTheGuard(c: string)
    ensures var g := [Delegation(0, 1, 9, c), Delegation(1, 2, 1, c)];
            && Acyclic(g)
            && !RefusedAsCircular(g, 1, 2)
            && !Acyclic(g + [Delegation(2, 1, 2, c)])
  {
    var a, b := Delegation(0, 1, 9, c), Delegation(1, 2, 1, c);
    forall x, p | Joins([], x, p, x) ensures p == [] {}
    forall p ensures !Joins([], a.to, p, a.from) {}
    AddKeepsAcyclicIff([], a);
    assert [] + [a] == [a] && [a] + [b] == [a, b];
    forall p ensures !Joins([a], b.to, p, b.from) {
      if p != [] && IsPath([a], b.to, p) {
        if p[1..] != [] {
          PathNeedsDelegation([a], a.to, p[1..]);
        }
        assert End([a], b.to, p) == a.to;
      }
    }
    AddKeepsAcyclicIff([a], b);
    var g := [a, b];
    EdgePath(g, 1);
    assert Reaches(g, 2, 1);
    assert a in g && HasDelegated(g, 1);
    AcceptedRequestClosesCycleIff(g, Delegation(2, 1, 2, c));
  }

  // -------------------------------------------------------- removing delegations

  lemma {:induction false} PathLifts(g: seq<Delegation>, h: seq<Delegation>, x: nat, p: seq<nat>) returns (q: seq<nat>)
    requires IsPath(g, x, p) && forall d | d in g :: d in h
    ensures |q| == |p| && IsPath(h, x, q) && End(h, x, q) == End(g, x, p)
    decreases |p|
  {
    q := [];
    if p != [] {
      assert g[p[0]] in g;
      var i :| 0 <= i < |h| && h[i] == g[p[0]];
      var rest := PathLifts(g, h, g[p[0]].to, p[1..]);
      q := [i] + rest;
      assert q[1..] == rest;
    }
  }

  lemma FewerKeepsAcyclic(g: seq<Delegation>, h: seq<Delegation>)
    requires Acyclic(h) && forall d | d in g :: d in h
    ensures Acyclic(g)
  {
    forall x, p | Joins(g, x, p, x) ensures p == [] {
      var q := PathLifts(g, h, x, p);
      assert Joins(h, x, q, x);
    }
  }

  lemma RemoveKeepsOnePerUser(a: seq<Delegation>, e: Delegation, b: seq<Delegation>)
    requires OneDelegationPerUser(a + [e] + b)
    ensures OneDelegationPerUser(a + b)
  {
    var g := a + [e] + b;
    forall i, j | 0 <= i < j < |a + b| ensures (a + b)[i].from != (a + b)[j].from {
      var i', j' := if i < |a| then i else i + 1, if j < |a| then j else j + 1;
      assert g[i'] == (a + b)[i] && g[j'] == (a + b)[j];
    }
  }
}
