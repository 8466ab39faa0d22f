/** What resolving a delegation list means: an account of the result that does
    not mention the recursion, and the laws that follow (mongo/delegations.go). */
module Resolution {
  import opened Prelude
  import opened Delegations

  // --------------------------------------------------- when resolution ends

  ghost function Repeat(p: seq<nat>, n: nat): (r: seq<nat>)
    ensures p != [] ==> |r| >= n
  {
    if n == 0 then [] else p + Repeat(p, n - 1)
  }

  lemma {:induction false} RepeatedCycle(g: seq<Delegation>, x: nat, p: seq<nat>, n: nat)
    requires Joins(g, x, p, x)
    ensures Joins(g, x, Repeat(p, n), x)
  {
    if n > 0 {
      RepeatedCycle(g, x, p, n - 1);
      PathConcat(g, x, p, Repeat(p, n - 1));
    }
  }

  lemma {:induction false} PathShorterThanHeight(g: seq<Delegation>, x: nat, p: seq<nat>)
    requires Grounded(g, x) && IsPath(g, x, p)
    ensures |p| < Height(g, x)
    decreases |p|
  {
    if p == [] {
      assert Joins(g, x, [], x);
      assert x in Below(g, x);
    } else {
      BelowShrinks(g, g[p[0]]);
      PathShorterThanHeight(g, g[p[0]].to, p[1..]);
    }
  }

  ghost predicate ChainsBoundedBy(g: seq<Delegation>, x: nat, n: nat) {
    forall p | IsPath(g, x, p) :: |p| < n
  }

  /** The chains that leave a user are bounded exactly when none of them reaches a cycle. */
  lemma BoundedIffGrounded(g: seq<Delegation>, x: nat)
    ensures Grounded(g, x) <==> exists n :: ChainsBoundedBy(g, x, n)
  {
    if Grounded(g, x) {
      forall p | IsPath(g, x, p) ensures |p| < Height(g, x) {
        PathShorterThanHeight(g, x, p);
      }
      assert ChainsBoundedBy(g, x, Height(g, x));
    }
    if n :| ChainsBoundedBy(g, x, n) {
      forall q, y, p | Joins(g, x, q, y) && Joins(g, y, p, y) ensures p == [] {
        RepeatedCycle(g, y, p, n);
        PathConcat(g, x, q, Repeat(p, n));
        assert |q + Repeat(p, n)| < n;
      }
    }
  }

  /** The recursion of the source on any graph, cut off below `depth` nested calls: None says that
      it wants to go deeper. */
  function Within(g: seq<Delegation>, l: seq<Delegation>, depth: nat): Option<seq<Delegation>>
    decreases depth, |l|
  {
    if l == [] then Some([])
    else
      var next := Outgoing(g, l[|l| - 1].to);
      match Within(g, l[..|l| - 1], depth)
      case None => None
      case Some(front) =>
        if next == [] then Some(front + [l[|l| - 1]])
        else if depth == 0 then None
        else
          match Within(g, next, depth - 1)
          case None => None
          case Some(nested) => Some(front + Relabel(l[|l| - 1], nested))
  }

  lemma GroundedByNext(g: seq<Delegation>, x: nat)
    requires AllGrounded(g, Outgoing(g, x))
    ensures Grounded(g, x)
  {
    OutgoingMembers(g, x);
    forall q, y, p | Joins(g, x, q, y) && Joins(g, y, p, y) ensures p == [] {
      if q != [] {
        var d := g[q[0]];
        assert d in Outgoing(g, x) && Joins(g, d.to, q[1..], y);
      } else if p != [] {
        var d := g[p[0]];
        assert d in Outgoing(g, x) && Joins(g, d.to, p[1..], y);
      }
    }
  }

  /** A recursion that comes back has resolved a list without cycles, and this is its result. */
  lemma {:induction false} ComesBack(g: seq<Delegation>, l: seq<Delegation>, depth: nat)
    requires Within(g, l, depth).Some?
    ensures AllGrounded(g, l) && Within(g, l, depth) == Some(Resolve(g, l))
    decreases depth, |l|
  {
    if l != [] {
      var front, last := l[..|l| - 1], l[|l| - 1];
      var next := Outgoing(g, last.to);
      assert l == front + [last];
      ComesBack(g, front, depth);
      if next != [] {
        ComesBack(g, next, depth - 1);
      }
      GroundedByNext(g, last.to);
      ResolveSnoc(g, front, last);
    }
  }

  lemma {:induction false} DeepEnough(g: seq<Delegation>, l: seq<Delegation>, depth: nat)
    requires AllGrounded(g, l) && ListHeight(g, l) <= depth
    ensures Within(g, l, depth).Some?
    decreases depth, |l|
  {
    if l != [] {
      var front, last := l[..|l| - 1], l[|l| - 1];
      assert l == front + [last];
      DeepEnough(g, front, depth);
      NextIsLower(g, last.to);
      if Outgoing(g, last.to) != [] {
        DeepEnough(g, Outgoing(g, last.to), depth - 1);
      }
    }
  }

  /** The recursion comes back at some depth exactly when the delegates of the list lead to no cycle,
      and whenever it comes back, its result is the resolution. */
  lemma TerminatesIffGrounded(g: seq<Delegation>, l: seq<Delegation>)
    ensures (exists depth: nat :: Within(g, l, depth).Some?) <==> AllGrounded(g, l)
    ensures AllGrounded(g, l) ==> forall depth: nat | Within(g, l, depth).Some? ::
            Within(g, l, depth).value == Resolve(g, l)
  {
    if AllGrounded(g, l) {
      DeepEnough(g, l, ListHeight(g, l));
    }
    forall depth: nat | Within(g, l, depth).Some?
      ensures AllGrounded(g, l) && Within(g, l, depth) == Some(Resolve(g, l))
    {
      ComesBack(g, l, depth);
    }
  }

  // ------------------------------------------------- the result, as a set of chains

  /** A path that cannot be extended: its last user has delegated to nobody. */
  ghost predicate IsChain(g: seq<Delegation>, x: nat, p: seq<nat>) {
    IsPath(g, x, p) && !HasDelegated(g, End(g, x, p))
  }

  /** What the chain `p` makes of the delegation `d`. */
  ghost function Outcome(g: seq<Delegation>, d: Delegation, p: seq<nat>): Delegation
    requires IsPath(g, d.to, p)
  {
    PathInRange(g, d.to, p);
    Delegation(d.id, d.from, End(g, d.to, p),
               if p == [] then d.community else g[p[|p| - 1]].community)
  }

  lemma {:induction false} PathInRange(g: seq<Delegation>, x: nat, p: seq<nat>)
    requires IsPath(g, x, p)
    ensures forall i | 0 <= i < |p| :: p[i] < |g|
    decreases |p|
  {
    if p != [] {
      PathInRange(g, g[p[0]].to, p[1..]);
      assert p == [p[0]] + p[1..];
    }
  }

  /** Lexicographic order on sequences of which neither is a prefix of the other. */
  ghost predicate Before(a: seq<nat>, b: seq<nat>) {
    exists i :: DiffersAt(a, b, i)
  }

  ghost predicate DiffersAt(a: seq<nat>, b: seq<nat>, i: nat) {
    i < |a| && i < |b| && a[..i] == b[..i] && a[i] < b[i]
  }

  ghost predicate Increasing(keys: seq<seq<nat>>) {
    forall i, j | 0 <= i < j < |keys| :: Before(keys[i], keys[j])
  }

  /** A key names an entry of `l` and a chain that starts at its delegate. */
  ghost predicate IsKey(g: seq<Delegation>, l: seq<Delegation>, k: seq<nat>) {
    k != [] && k[0] < |l| && IsChain(g, l[k[0]].to, k[1..])
  }

  /** `out` holds one entry per key, in the lexicographic order of the keys, and nothing else. */
  ghost predicate IsResolution(g: seq<Delegation>, l: seq<Delegation>, out: seq<Delegation>, keys: seq<seq<nat>>) {
    && |out| == |keys|
    && Increasing(keys)
    && (forall k :: k in keys <==> IsKey(g, l, k))
    && (forall i | 0 <= i < |out| :: IsKey(g, l, keys[i]) && out[i] == Outcome(g, l[keys[i][0]], keys[i][1..]))
  }

  // ---------------------------------------------- the recursion meets that account

  /** The entries of `t` at the selected positions below `n`. */
  ghost function Pick(t: seq<Delegation>, sel: set<nat>, n: nat): seq<Delegation>
    requires n <= |t|
  {
    if n == 0 then []
    else if n - 1 in sel then Pick(t, sel, n - 1) + [t[n - 1]]
    else Pick(t, sel, n - 1)
  }

  lemma {:induction false} PickAll(t: seq<Delegation>, sel: set<nat>, n: nat)
    requires n <= |t| && forall i: nat | i < n :: i in sel
    ensures Pick(t, sel, n) == t[..n]
  {
    if n > 0 {
      PickAll(t, sel, n - 1);
      PrefixSnoc(t, n - 1);
    }
  }

  ghost function From(g: seq<Delegation>, x: nat): set<nat> {
    set i: nat | i < |g| && g[i].from == x
  }

  lemma {:induction false} PickOutgoing(g: seq<Delegation>, x: nat, n: nat)
    requires n <= |g|
    ensures Pick(g, From(g, x), n) == Outgoing(g[..n], x)
  {
    if n > 0 {
      PickOutgoing(g, x, n - 1);
      PrefixSnoc(g, n - 1);
      OutgoingSnoc(g[..n - 1], g[n - 1], x);
    }
  }

  ghost predicate IsSelectedKey(g: seq<Delegation>, t: seq<Delegation>, sel: set<nat>, n: nat, k: seq<nat>) {
    IsKey(g, t, k) && k[0] in sel && k[0] < n
  }

  ghost predicate KeysFor(g: seq<Delegation>, t: seq<Delegation>, sel: set<nat>, n: nat,
                          out: seq<Delegation>, keys: seq<seq<nat>>) {
    && |out| == |keys|
    && Increasing(keys)
    && (forall k :: k in keys <==> IsSelectedKey(g, t, sel, n, k))
    && (forall i | 0 <= i < |out| :: IsKey(g, t, keys[i]) && out[i] == Outcome(g, t[keys[i][0]], keys[i][1..]))
  }

  ghost predicate ChainsFor(g: seq<Delegation>, d: Delegation, out: seq<Delegation>, chains: seq<seq<nat>>) {
    && |out| == |chains|
    && Increasing(chains)
    && (forall p :: p in chains <==> IsChain(g, d.to, p))
    && (forall i | 0 <= i < |out| :: IsPath(g, d.to, chains[i]) && out[i] == Outcome(g, d, chains[i]))
  }

  ghost function Prepend(n: nat, s: seq<seq<nat>>): seq<seq<nat>> {
    seq(|s|, i requires 0 <= i < |s| => [n] + s[i])
  }

  lemma PrependIncreasing(n: nat, s: seq<seq<nat>>)
    requires Increasing(s)
    ensures Increasing(Prepend(n, s))
  {
    forall i, j | 0 <= i < j < |s| ensures Before([n] + s[i], [n] + s[j]) {
      assert Before(s[i], s[j]);
      var at: nat :| DiffersAt(s[i], s[j], at);
      assert ([n] + s[i])[..at + 1] == [n] + s[i][..at];
      assert ([n] + s[j])[..at + 1] == [n] + s[j][..at];
      assert DiffersAt([n] + s[i], [n] + s[j], at + 1);
    }
  }

  lemma AppendIncreasing(keys: seq<seq<nat>>, n: nat, chains: seq<seq<nat>>)
    requires Increasing(keys) && Increasing(chains)
    requires forall k | k in keys :: k != [] && k[0] < n
    ensures Increasing(keys + Prepend(n, chains))
  {
    var added := Prepend(n, chains);
    var all := keys + added;
    PrependIncreasing(n, chains);
    forall i, j | 0 <= i < j < |all| ensures Before(all[i], all[j]) {
      if i < |keys| <= j {
        assert all[i] in keys;
        assert DiffersAt(all[i], all[j], 0);
      } else if j < |keys| {
        assert Before(keys[i], keys[j]);
      } else {
        assert Before(added[i - |keys|], added[j - |keys|]);
      }
    }
  }

  lemma AppendMembers(g: seq<Delegation>, t: seq<Delegation>, sel: set<nat>, n: nat,
                      keys: seq<seq<nat>>, chains: seq<seq<nat>>, k: seq<nat>)
    requires n < |t| && n in sel
    requires k in keys <==> IsSelectedKey(g, t, sel, n, k)
    requires forall p :: p in chains <==> IsChain(g, t[n].to, p)
    ensures k in keys + Prepend(n, chains) <==> IsSelectedKey(g, t, sel, n + 1, k)
  {
    var added := Prepend(n, chains);
    if k in added {
      var i :| 0 <= i < |added| && added[i] == k;
      assert k[1..] == chains[i] && chains[i] in chains;
    }
    if k != [] && k[0] == n && k[1..] in chains {
      var i :| 0 <= i < |chains| && chains[i] == k[1..];
      assert added[i] == k;
    }
  }

  lemma KeysAppend(g: seq<Delegation>, t: seq<Delegation>, sel: set<nat>, n: nat,
                   out: seq<Delegation>, keys: seq<seq<nat>>, one: seq<Delegation>, chains: seq<seq<nat>>)
    requires n < |t| && n in sel
    requires KeysFor(g, t, sel, n, out, keys) && ChainsFor(g, t[n], one, chains)
    ensures KeysFor(g, t, sel, n + 1, out + one, keys + Prepend(n, chains))
  {
    var all := keys + Prepend(n, chains);
    AppendIncreasing(keys, n, chains);
    forall k ensures k in all <==> IsSelectedKey(g, t, sel, n + 1, k) {
      AppendMembers(g, t, sel, n, keys, chains, k);
    }
    forall i | 0 <= i < |out + one|
      ensures IsKey(g, t, all[i]) && (out + one)[i] == Outcome(g, t[all[i][0]], all[i][1..])
    {
      assert all[i] in all;
      if i >= |keys| {
        assert all[i][1..] == chains[i - |keys|];
      }
    }
  }

  lemma {:induction false} PickedKeys(g: seq<Delegation>, t: seq<Delegation>, sel: set<nat>, n: nat, height: nat)
      returns (keys: seq<seq<nat>>)
    requires n <= |t|
    requires forall i | i in sel && i < n :: Grounded(g, t[i].to) && Height(g, t[i].to) <= height
    ensures AllGrounded(g, Pick(t, sel, n))
    ensures KeysFor(g, t, sel, n, Resolve(g, Pick(t, sel, n)), keys)
    decreases height, n
  {
    keys := [];
    if n > 0 {
      keys := PickedKeys(g, t, sel, n - 1, height);
      if n - 1 in sel {
        var chains := ChainsOfOne(g, t[n - 1]);
        ResolveSnoc(g, Pick(t, sel, n - 1), t[n - 1]);
        KeysAppend(g, t, sel, n - 1, Resolve(g, Pick(t, sel, n - 1)), keys, ResolveOne(g, t[n - 1]), chains);
        keys := keys + Prepend(n - 1, chains);
      }
    }
  }

  lemma ChainStartsAt(g: seq<Delegation>, x: nat, p: seq<nat>)
    requires HasDelegated(g, x)
    ensures IsSelectedKey(g, g, From(g, x), |g|, p) <==> IsChain(g, x, p)
  {}

  lemma {:induction false} ChainsOfOne(g: seq<Delegation>, d: Delegation) returns (chains: seq<seq<nat>>)
    requires Grounded(g, d.to)
    ensures ChainsFor(g, d, ResolveOne(g, d), chains)
    decreases Height(g, d.to), 0
  {
    var next := Outgoing(g, d.to);
    OutgoingMembers(g, d.to);
    if next == [] {
      chains := [[]];
      assert !HasDelegated(g, d.to);
    } else {
      assert HasDelegated(g, d.to) by { assert next[0] in next; }
      forall i | i in From(g, d.to) ensures Grounded(g, g[i].to) && Height(g, g[i].to) < Height(g, d.to) {
        BelowShrinks(g, g[i]);
      }
      chains := PickedKeys(g, g, From(g, d.to), |g|, Height(g, d.to) - 1);
      PickOutgoing(g, d.to, |g|);
      assert g[..|g|] == g;
      var nested := Resolve(g, next);
      forall p ensures p in chains <==> IsChain(g, d.to, p) {
        ChainStartsAt(g, d.to, p);
      }
      forall i | 0 <= i < |nested|
        ensures IsPath(g, d.to, chains[i]) && ResolveOne(g, d)[i] == Outcome(g, d, chains[i])
      {
        assert chains[i] in chains;
      }
    }
  }

  /** The resolution of `l` holds, for every entry of `l` and every way on from its delegate to a
      user who has delegated to nobody, exactly one delegation, and nothing else. */
  lemma ResolutionIsChains(g: seq<Delegation>, l: seq<Delegation>) returns (keys: seq<seq<nat>>)
    requires AllGrounded(g, l)
    ensures IsResolution(g, l, Resolve(g, l), keys)
  {
    var sel := set i: nat {:trigger l[i]} | i < |l|;
    ListHeightBounds(g, l, 0);
    keys := PickedKeys(g, l, sel, |l|, ListHeight(g, l));
    PickAll(l, sel, |l|);
    assert l[..|l|] == l;
    forall k ensures k in keys <==> IsKey(g, l, k) {
      assert IsSelectedKey(g, l, sel, |l|, k) <==> IsKey(g, l, k);
    }
  }

  lemma {:induction false} IncreasingIsUnique(a: seq<seq<nat>>, b: seq<seq<nat>>)
    requires Increasing(a) && Increasing(b) && forall k :: k in a <==> k in b
    ensures a == b
  {
    assert a != [] ==> a[0] in b by { if a != [] { assert a[0] in a; } }
    assert b != [] ==> b[0] in a by { if b != [] { assert b[0] in b; } }
    if a != [] {
      var i :| 0 <= i < |b| && b[i] == a[0];
      var j :| 0 <= j < |a| && a[j] == b[0];
      if i > 0 && j > 0 {
        BeforeIsAsymmetric(a[0], b[0]);
        assert false;
      }
      var x, y := a[1..], b[1..];
      forall k ensures k in x <==> k in y {
        NotAgain(a, k);
        NotAgain(b, k);
      }
      IncreasingIsUnique(x, y);
      assert a == [a[0]] + x && b == [b[0]] + y;
    }
  }

  lemma BeforeIsAsymmetric(a: seq<nat>, b: seq<nat>)
    requires Before(a, b)
    ensures !Before(b, a)
  {
    var i: nat :| DiffersAt(a, b, i);
    forall j: nat ensures !DiffersAt(b, a, j) {
      if i < j && j < |a| && j < |b| {
        assert a[..j][i] != b[..j][i];
      } else if j < i {
        assert a[..i][j] == b[..i][j];
      }
    }
  }

  lemma NotAgain(a: seq<seq<nat>>, k: seq<nat>)
    requires Increasing(a) && a != []
    ensures k in a[1..] <==> k in a && k != a[0]
  {
    if i :| 1 <= i < |a| && a[i] == a[0] {
      assert Before(a[0], a[i]);
      BeforeIsAsymmetric(a[0], a[i]);
      assert false;
    }
    assert a == [a[0]] + a[1..];
  }

  /** That account leaves no freedom: it determines the resolved list, order included. */
  lemma ResolutionIsDetermined(g: seq<Delegation>, l: seq<Delegation>,
                               out: seq<Delegation>, keys: seq<seq<nat>>, out': seq<Delegation>, keys': seq<seq<nat>>)
    requires IsResolution(g, l, out, keys) && IsResolution(g, l, out', keys')
    ensures out == out'
  {
    forall k ensures k in keys <==> k in keys' {
      assert k in keys <==> IsKey(g, l, k);
    }
    IncreasingIsUnique(keys, keys');
  }
}
