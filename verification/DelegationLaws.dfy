/** Consequences of the account of resolution: who ends up represented by whom, and how
    resolving interacts with filtering and with itself (mongo/delegations.go). */
module DelegationLaws {
  import opened Delegations
  import opened Resolution

  lemma {:induction false} SomeChain(g: seq<Delegation>, x: nat) returns (p: seq<nat>)
    requires Grounded(g, x)
    ensures IsChain(g, x, p)
    decreases Height(g, x)
  {
    p := [];
    if d :| d in g && d.from == x {
      var i :| 0 <= i < |g| && g[i] == d;
      BelowShrinks(g, d);
      var rest := SomeChain(g, d.to);
      p := [i] + rest;
      assert p[1..] == rest;
    }
  }

  /** Who the authors and the delegates of a resolved list are. */
  lemma ResolvedEnds(g: seq<Delegation>, l: seq<Delegation>, user: nat)
    requires AllGrounded(g, l)
    ensures HasDelegated(Resolve(g, l), user) <==> HasDelegated(l, user)
    ensures (exists r | r in Resolve(g, l) :: r.to == user)
            <==> !HasDelegated(g, user) && exists d | d in l :: Reaches(g, d.to, user)
  {
    var out := Resolve(g, l);
    var keys := ResolutionIsChains(g, l);
    if d :| d in l && d.from == user {
      var i :| 0 <= i < |l| && l[i] == d;
      var p := SomeChain(g, d.to);
      KeyInResult(g, l, out, keys, i, p);
    }
    forall r | r in out
      ensures HasDelegated(l, r.from) && !HasDelegated(g, r.to) && exists d | d in l :: Reaches(g, d.to, r.to)
    {
      var i :| 0 <= i < |out| && out[i] == r;
      var d, p := l[keys[i][0]], keys[i][1..];
      assert IsKey(g, l, keys[i]) && r == Outcome(g, d, p);
      assert Joins(g, d.to, p, r.to);
      assert d in l;
    }
    if d :| !HasDelegated(g, user) && d in l && Reaches(g, d.to, user) {
      var i :| 0 <= i < |l| && l[i] == d;
      var p :| Joins(g, d.to, p, user);
      KeyInResult(g, l, out, keys, i, p);
    }
  }

  lemma KeyInResult(g: seq<Delegation>, l: seq<Delegation>, out: seq<Delegation>, keys: seq<seq<nat>>, i: nat,
                    p: seq<nat>)
    requires IsResolution(g, l, out, keys)
    requires i < |l| && IsChain(g, l[i].to, p)
    ensures Outcome(g, l[i], p) in out
  {
    var k := [i] + p;
    assert k[1..] == p;
    assert IsKey(g, l, k);
    var j :| 0 <= j < |keys| && keys[j] == k;
    assert out[j] in out;
  }

  // ------------------------------------------------------- filtering and resolving

  lemma {:induction false} OutgoingConcat(a: seq<Delegation>, b: seq<Delegation>, user: nat)
    ensures Outgoing(a + b, user) == Outgoing(a, user) + Outgoing(b, user)
  {
    if b == [] {
      assert a + b == a;
    } else {
      var front, last := b[..|b| - 1], b[|b| - 1];
      assert a + b == a + front + [last] && b == front + [last];
      OutgoingConcat(a, front, user);
      OutgoingSnoc(a + front, last, user);
      OutgoingSnoc(front, last, user);
    }
  }

  lemma {:induction false} OutgoingUniform(l: seq<Delegation>, from: nat, user: nat)
    requires forall i | 0 <= i < |l| :: l[i].from == from
    ensures Outgoing(l, user) == if from == user then l else []
  {
    if l != [] {
      var front, last := l[..|l| - 1], l[|l| - 1];
      OutgoingUniform(front, from, user);
      assert l == front + [last];
    }
  }

  lemma {:induction false} AllByAuthor(g: seq<Delegation>, d: Delegation, user: nat)
    requires Grounded(g, d.to)
    ensures Outgoing(ResolveOne(g, d), user) == if d.from == user then ResolveOne(g, d) else []
  {
    OutgoingUniform(ResolveOne(g, d), d.from, user);
  }

  /** Filtering by author before or after resolving gives the same list. */
  lemma {:induction false} FilterCommutes(g: seq<Delegation>, l: seq<Delegation>, user: nat)
    requires AllGrounded(g, l)
    ensures AllGrounded(g, Outgoing(l, user))
    ensures Resolve(g, Outgoing(l, user)) == Outgoing(Resolve(g, l), user)
  {
    OutgoingMembers(l, user);
    if l != [] {
      var front, last := l[..|l| - 1], l[|l| - 1];
      assert l == front + [last];
      FilterCommutes(g, front, user);
      FilterCommutesStep(g, front, last, user);
    }
  }

  lemma FilterCommutesStep(g: seq<Delegation>, front: seq<Delegation>, last: Delegation, user: nat)
    requires AllGrounded(g, front + [last]) && AllGrounded(g, front) && AllGrounded(g, Outgoing(front, user))
    requires AllGrounded(g, Outgoing(front + [last], user))
    requires Resolve(g, Outgoing(front, user)) == Outgoing(Resolve(g, front), user)
    ensures Resolve(g, Outgoing(front + [last], user)) == Outgoing(Resolve(g, front + [last]), user)
  {
    OutgoingSnoc(front, last, user);
    ResolveSnoc(g, front, last);
    OutgoingConcat(Resolve(g, front), ResolveOne(g, last), user);
    AllByAuthor(g, last, user);
    if last.from == user {
      ResolveSnoc(g, Outgoing(front, user), last);
    } else {
      assert Outgoing(front, user) + [] == Outgoing(front, user);
      assert Outgoing(Resolve(g, front), user) + [] == Outgoing(Resolve(g, front), user);
    }
  }

  lemma PathNeedsDelegation(g: seq<Delegation>, x: nat, p: seq<nat>)
    requires IsPath(g, x, p) && p != []
    ensures HasDelegated(g, x)
  {
    assert g[p[0]] in g;
  }

  lemma TerminalIsGrounded(g: seq<Delegation>, x: nat)
    requires !HasDelegated(g, x)
    ensures Grounded(g, x) && Outgoing(g, x) == []
  {
    forall q, y, p | Joins(g, x, q, y) && Joins(g, y, p, y) ensures p == [] {
      if q != [] { PathNeedsDelegation(g, x, q); }
      if p != [] { PathNeedsDelegation(g, y, p); }
    }
    OutgoingMembers(g, x);
    if r :| r in Outgoing(g, x) {
      assert HasDelegated(g, x);
    }
  }

  lemma {:induction false} NoDelegateDelegates(g: seq<Delegation>, l: seq<Delegation>)
    requires forall d | d in l :: !HasDelegated(g, d.to)
    ensures AllGrounded(g, l) && Resolve(g, l) == l
  {
    forall d | d in l ensures Grounded(g, d.to) && Outgoing(g, d.to) == [] {
      TerminalIsGrounded(g, d.to);
    }
    if l != [] {
      var front, last := l[..|l| - 1], l[|l| - 1];
      assert l == front + [last];
      NoDelegateDelegates(g, front);
      ResolveSnoc(g, front, last);
    }
  }

  /** Resolving a list that is already resolved changes nothing. */
  lemma ResolveIsIdempotent(g: seq<Delegation>)
    requires AllGrounded(g, g)
    ensures AllGrounded(Resolve(g, g), Resolve(g, g))
    ensures Resolve(Resolve(g, g), Resolve(g, g)) == Resolve(g, g)
  {
    var out := Resolve(g, g);
    forall d | d in out ensures !HasDelegated(out, d.to) {
      ResolvedEnds(g, g, d.to);
    }
    NoDelegateDelegates(out, out);
  }

  // -------------------------------------------------- at most one delegation each

  lemma {:induction false} AtMostOneOutgoing(g: seq<Delegation>, user: nat)
    requires OneDelegationPerUser(g)
    ensures |Outgoing(g, user)| <= 1
  {
    if g != [] {
      var front, last := g[..|g| - 1], g[|g| - 1];
      AtMostOneOutgoing(front, user);
      if Outgoing(front, user) != [] {
        OutgoingMembers(front, user);
        assert Outgoing(front, user)[0] in front;
      }
    }
  }

  ghost predicate Redirected(l: seq<Delegation>, out: seq<Delegation>) {
    |out| == |l| && forall i | 0 <= i < |l| :: out[i].from == l[i].from && out[i].id == l[i].id
  }

  lemma {:induction false} ResolveOneRedirects(g: seq<Delegation>, d: Delegation)
    requires OneDelegationPerUser(g) && Grounded(g, d.to)
    ensures Redirected([d], ResolveOne(g, d))
    decreases Height(g, d.to), 0
  {
    var next := Outgoing(g, d.to);
    NextIsLower(g, d.to);
    if next != [] {
      AtMostOneOutgoing(g, d.to);
      ResolveRedirects(g, next);
    }
  }

  /** With at most one delegation per user, resolving redirects each delegation and adds or drops none. */
  lemma {:induction false} ResolveRedirects(g: seq<Delegation>, l: seq<Delegation>)
    requires OneDelegationPerUser(g) && AllGrounded(g, l)
    ensures Redirected(l, Resolve(g, l))
    decreases ListHeight(g, l), |l|
  {
    if l != [] {
      var front, last := l[..|l| - 1], l[|l| - 1];
      assert l == front + [last];
      ListHeightBounds(g, l, 0);
      ResolveRedirects(g, front);
      ResolveOneRedirects(g, last);
      ResolveSnoc(g, front, last);
    }
  }
}
