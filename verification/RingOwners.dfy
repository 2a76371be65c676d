/** Who owns a key: routing finds the first virtual node clockwise, and membership changes move as
    few keys as they can. */
module RingOwners {
  import opened Base
  import opened RingModel

  /** Virtual node i of addr is on the ring. */
  predicate InRing(replicas: map<Addr, int>, addr: Addr, i: int) {
    addr in replicas && 0 <= i < replicas[addr]
  }

  /** The clockwise distance from h to p. */
  function Clockwise(h: int, p: int): int {
    (p - h) % RING
  }

  /** No virtual node of another member shares a position with one of a's first n. */
  ghost predicate Clear(hash: HashFunc, replicas: map<Addr, int>, a: Addr, n: int) {
    forall b, i: nat, j: nat :: b != a && InRing(replicas, b, j) && i < n ==>
        Position(hash, a, i) != Position(hash, b, j)
  }

  /** No two members share a position. */
  ghost predicate CollisionFree(hash: HashFunc, replicas: map<Addr, int>) {
    forall a :: a in replicas ==> Clear(hash, replicas, a, replicas[a])
  }

  /** The owner map is exactly the relation from positions to the members that sit there. */
  ghost predicate Exact(hash: HashFunc, r: Ring) {
    && (forall a, i: nat :: InRing(r.replicas, a, i) ==>
        OwnerAt(r.owners, Position(hash, a, i)) == a && Position(hash, a, i) in r.owners)
    && (forall p :: p in r.owners ==> exists i: nat ::
        InRing(r.replicas, r.owners[p], i) && Position(hash, r.owners[p], i) == p)
  }

  /** Some virtual node of addr is at least as near, clockwise from h, as every virtual node. */
  ghost predicate Owns(hash: HashFunc, replicas: map<Addr, int>, h: int, addr: Addr) {
    exists i: nat :: InRing(replicas, addr, i) && Nearest(hash, replicas, h, Position(hash, addr, i))
  }

  ghost predicate Nearest(hash: HashFunc, replicas: map<Addr, int>, h: int, p: int) {
    forall b, j: nat :: InRing(replicas, b, j) ==> Clockwise(h, p) <= Clockwise(h, Position(hash, b, j))
  }

  // ---------------------------------------------------------------------
  // Positions on the ring and keys in the slice
  // ---------------------------------------------------------------------

  lemma {:induction false} OnRing(hash: HashFunc, replicas: map<Addr, int>, p: int)
    ensures CountAt(hash, replicas, p) > 0 <==> exists a, i: nat :: InRing(replicas, a, i) && Position(hash, a, i) == p
    decreases |replicas|
  {
    if replicas != map[] {
      var b := Pick(replicas.Keys);
      CountUnfold(hash, replicas, p);
      OnRing(hash, replicas - {b}, p);
      var ps := Positions(hash, b, replicas[b]);
      TimesIn(ps, p);
      if p in ps {
        var i :| 0 <= i < |ps| && ps[i] == p;
        assert InRing(replicas, b, i) && Position(hash, b, i) == p;
      }
      if CountAt(hash, replicas - {b}, p) > 0 {
        var a, i: nat :| InRing(replicas - {b}, a, i) && Position(hash, a, i) == p;
        assert InRing(replicas, a, i);
      }
      if a, i: nat :| InRing(replicas, a, i) && Position(hash, a, i) == p {
        if a == b {
          assert ps[i] == p;
        } else {
          assert InRing(replicas - {b}, a, i);
        }
      }
    }
  }

  lemma KeyIff(hash: HashFunc, r: Ring, p: int)
    requires Conserved(hash, r)
    ensures p in r.keys <==> exists a, i: nat :: InRing(r.replicas, a, i) && Position(hash, a, i) == p
  {
    OnRing(hash, r.replicas, p);
    TimesIn(r.keys, p);
    assert Times(r.keys, p) == CountAt(hash, r.replicas, p);
  }

  /** The key Get picks is the nearest one clockwise. */
  lemma PickedNearest(keys: seq<int>, h: int)
    requires Sorted(keys) && keys != []
    requires forall i :: 0 <= i < |keys| ==> 0 <= keys[i] < RING
    requires 0 <= h < RING
    ensures var i := FirstAtLeast(keys, h);
            var p := keys[if i == |keys| then 0 else i];
            forall q :: q in keys ==> Clockwise(h, p) <= Clockwise(h, q)
  {
    var i := FirstAtLeast(keys, h);
    var k := if i == |keys| then 0 else i;
    ClockwiseIs(h, keys[k]);
    forall q | q in keys ensures Clockwise(h, keys[k]) <= Clockwise(h, q) {
      var j :| 0 <= j < |keys| && keys[j] == q;
      ClockwiseIs(h, q);
      assert j < i ==> q < h;
      assert k < j ==> keys[k] <= q;
    }
  }

  lemma ClockwiseIs(h: int, q: int)
    requires 0 <= h < RING && 0 <= q < RING
    ensures Clockwise(h, q) == if q >= h then q - h else q - h + RING
  {
  }

  /** Get is "the owner of the first virtual node clockwise": on an exact ring with a member it
      returns an address if and only if that address owns the key. */
  lemma RouteIsOwner(hash: HashFunc, r: Ring, h: uint32, addr: Addr)
    requires Conserved(hash, r) && Exact(hash, r) && r.keys != []
    ensures Route(r, h) == addr <==> Owns(hash, r.replicas, h, addr)
  {
    forall i | 0 <= i < |r.keys| ensures 0 <= r.keys[i] < RING {
      KeyIff(hash, r, r.keys[i]);
    }
    PickedNearest(r.keys, h);
    var k := FirstAtLeast(r.keys, h);
    var p := r.keys[if k == |r.keys| then 0 else k];
    assert p in r.keys;
    KeyIff(hash, r, p);
    var a, i: nat :| InRing(r.replicas, a, i) && Position(hash, a, i) == p;
    assert Route(r, h) == a;
    forall b, j: nat | InRing(r.replicas, b, j) ensures Clockwise(h, p) <= Clockwise(h, Position(hash, b, j)) {
      KeyIff(hash, r, Position(hash, b, j));
    }
    assert Owns(hash, r.replicas, h, a);
    if Owns(hash, r.replicas, h, addr) {
      var j: nat :| InRing(r.replicas, addr, j) && Nearest(hash, r.replicas, h, Position(hash, addr, j));
      assert Clockwise(h, Position(hash, addr, j)) == Clockwise(h, p);
      SameDistance(h, Position(hash, addr, j), p);
    }
  }

  lemma SameDistance(h: int, p: int, q: int)
    requires 0 <= h < RING && 0 <= p < RING && 0 <= q < RING && Clockwise(h, p) == Clockwise(h, q)
    ensures p == q
  {
  }

  /** With no virtual node at all Get returns the empty address. */
  lemma RouteEmpty(hash: HashFunc, r: Ring, h: uint32)
    requires Conserved(hash, r) && forall a :: a in r.replicas ==> r.replicas[a] <= 0
    ensures Route(r, h) == []
  {
    if r.keys != [] {
      assert r.keys[0] in r.keys;
      KeyIff(hash, r, r.keys[0]);
    }
  }

  // ---------------------------------------------------------------------
  // The owner map stays exact
  // ---------------------------------------------------------------------

  lemma {:induction false} ClaimIs(hash: HashFunc, owners: map<int, Addr>, addr: Addr, n: int, p: int)
    ensures var o := Claim(hash, owners, addr, n);
            && (p in o <==> p in owners || p in Positions(hash, addr, n))
            && (p in o ==> o[p] == if p in Positions(hash, addr, n) then addr else owners[p])
  {
    if n > 0 { ClaimIs(hash, owners, addr, n - 1, p); }
  }

  lemma {:induction false} ReleaseIs(hash: HashFunc, owners: map<int, Addr>, addr: Addr, n: int, p: int)
    ensures var o := Release(hash, owners, addr, n);
            && (p in o <==> p in owners && p !in Positions(hash, addr, n))
            && (p in o ==> o[p] == owners[p])
  {
    if n > 0 { ReleaseIs(hash, owners, addr, n - 1, p); }
  }

  lemma PositionIn(hash: HashFunc, addr: Addr, n: int, p: int)
    ensures p in Positions(hash, addr, n) <==> exists i: nat :: i < n && Position(hash, addr, i) == p
  {
    var ps := Positions(hash, addr, n);
    if p in ps {
      var i :| 0 <= i < |ps| && ps[i] == p;
      assert Position(hash, addr, i) == p;
    }
    if i: nat :| i < n && Position(hash, addr, i) == p {
      assert ps[i] == p;
    }
  }

  /** Removing a member never spoils an exact owner map. */
  lemma RemoveExact(hash: HashFunc, r: Ring, addr: Addr)
    requires Exact(hash, r)
    ensures Exact(hash, RemoveNode(hash, r, addr))
  {
    var r', n := RemoveNode(hash, r, addr), ReplicasOf(r, addr);
    forall a, i: nat | InRing(r'.replicas, a, i)
      ensures OwnerAt(r'.owners, Position(hash, a, i)) == a && Position(hash, a, i) in r'.owners {
      var p := Position(hash, a, i);
      assert InRing(r.replicas, a, i);
      ReleaseIs(hash, r.owners, addr, n, p);
      PositionIn(hash, addr, n, p);
    }
    forall p | p in r'.owners
      ensures exists i: nat :: InRing(r'.replicas, r'.owners[p], i) && Position(hash, r'.owners[p], i) == p
    {
      ReleaseIs(hash, r.owners, addr, n, p);
      PositionIn(hash, addr, n, p);
      var a := r.owners[p];
      var i: nat :| InRing(r.replicas, a, i) && Position(hash, a, i) == p;
      assert a != addr;
      assert InRing(r'.replicas, a, i);
    }
  }

  lemma AddKeepsExact(hash: HashFunc, r: Ring, addr: Addr, n: int)
    requires Exact(hash, r) && addr !in r.replicas && Clear(hash, r.replicas, addr, n)
    ensures Exact(hash, AddNode(hash, r, addr, n))
  {
    var r' := AddNode(hash, r, addr, n);
    forall a, i: nat | InRing(r'.replicas, a, i)
      ensures OwnerAt(r'.owners, Position(hash, a, i)) == a && Position(hash, a, i) in r'.owners {
      ClaimedOwner(hash, r, addr, n, a, i);
    }
    forall p | p in r'.owners
      ensures exists i: nat :: InRing(r'.replicas, r'.owners[p], i) && Position(hash, r'.owners[p], i) == p
    {
      ClaimedHeld(hash, r, addr, n, p);
    }
  }

  lemma ClaimedHeld(hash: HashFunc, r: Ring, addr: Addr, n: int, p: int)
    requires Exact(hash, r) && addr !in r.replicas && p in Claim(hash, r.owners, addr, n)
    ensures var a := Claim(hash, r.owners, addr, n)[p];
            exists i: nat :: InRing(r.replicas[addr := n], a, i) && Position(hash, a, i) == p
  {
    ClaimIs(hash, r.owners, addr, n, p);
    PositionIn(hash, addr, n, p);
    if p in Positions(hash, addr, n) {
      var i: nat :| i < n && Position(hash, addr, i) == p;
      assert InRing(r.replicas[addr := n], addr, i);
    } else {
      var i: nat :| InRing(r.replicas, r.owners[p], i) && Position(hash, r.owners[p], i) == p;
      assert InRing(r.replicas[addr := n], r.owners[p], i);
    }
  }

  lemma ClaimedOwner(hash: HashFunc, r: Ring, addr: Addr, n: int, a: Addr, i: nat)
    requires Exact(hash, r) && addr !in r.replicas && Clear(hash, r.replicas, addr, n)
    requires InRing(r.replicas[addr := n], a, i)
    ensures var p, o := Position(hash, a, i), Claim(hash, r.owners, addr, n); OwnerAt(o, p) == a && p in o
  {
    var p := Position(hash, a, i);
    ClaimIs(hash, r.owners, addr, n, p);
    PositionIn(hash, addr, n, p);
    if a != addr { assert InRing(r.replicas, a, i); }
  }

  /** Adding a member keeps the owner map exact if and only if none of its positions is taken by
      another member. */
  lemma AddKeepsExactIff(hash: HashFunc, r: Ring, addr: Addr, n: int)
    requires Exact(hash, r) && addr !in r.replicas
    ensures Exact(hash, AddNode(hash, r, addr, n)) <==> Clear(hash, r.replicas, addr, n)
  {
    var r' := AddNode(hash, r, addr, n);
    if Clear(hash, r.replicas, addr, n) {
      AddKeepsExact(hash, r, addr, n);
    } else {
      var b, i: nat, j: nat :| b != addr && InRing(r.replicas, b, j) && i < n
          && Position(hash, addr, i) == Position(hash, b, j);
      assert InRing(r'.replicas, b, j) && InRing(r'.replicas, addr, i);
    }
  }

  // ---------------------------------------------------------------------
  // Minimal disruption
  // ---------------------------------------------------------------------

  /** The smaller ring lacks only virtual nodes of addr. */
  ghost predicate Lacks(small: map<Addr, int>, big: map<Addr, int>, addr: Addr) {
    && (forall b, j: nat :: InRing(small, b, j) ==> InRing(big, b, j))
    && (forall b, j: nat :: InRing(big, b, j) && b != addr ==> InRing(small, b, j))
  }

  /** A key that the bigger ring does not give to addr has the same owner on the smaller one. */
  lemma RouteKept(hash: HashFunc, small: Ring, big: Ring, addr: Addr, h: uint32)
    requires Conserved(hash, small) && Exact(hash, small) && Conserved(hash, big) && Exact(hash, big)
    requires Lacks(small.replicas, big.replicas, addr)
    ensures Route(big, h) != addr ==> Route(small, h) == Route(big, h)
  {
    if big.keys == [] {
      if small.keys != [] {
        assert small.keys[0] in small.keys;
        KeyIff(hash, small, small.keys[0]);
        KeyIff(hash, big, small.keys[0]);
      }
    } else {
      var b := Route(big, h);
      RouteIsOwner(hash, big, h, b);
      if b != addr {
        var i: nat :| InRing(big.replicas, b, i) && Nearest(hash, big.replicas, h, Position(hash, b, i));
        assert InRing(small.replicas, b, i);
        assert Nearest(hash, small.replicas, h, Position(hash, b, i));
        KeyIff(hash, small, Position(hash, b, i));
        RouteIsOwner(hash, small, h, b);
      }
    }
  }

  /** Adding a member moves keys only to it. */
  lemma AddMovesOnlyToNew(hash: HashFunc, r: Ring, addr: Addr, n: int, h: uint32)
    requires Conserved(hash, r) && Exact(hash, r) && addr !in r.replicas && Clear(hash, r.replicas, addr, n)
    ensures Route(AddNode(hash, r, addr, n), h) != Route(r, h) ==> Route(AddNode(hash, r, addr, n), h) == addr
  {
    AddConserves(hash, r, addr, n);
    AddKeepsExact(hash, r, addr, n);
    RouteKept(hash, r, AddNode(hash, r, addr, n), addr, h);
  }

  /** Removing a member moves only its own keys. */
  lemma RemoveMovesOnlyItsOwn(hash: HashFunc, r: Ring, addr: Addr, h: uint32)
    requires Conserved(hash, r) && Exact(hash, r)
    ensures Route(RemoveNode(hash, r, addr), h) != Route(r, h) ==> Route(r, h) == addr
  {
    RemoveConserves(hash, r, addr);
    RemoveExact(hash, r, addr);
    RouteKept(hash, RemoveNode(hash, r, addr), r, addr, h);
  }

  lemma RebalanceKeeps(hash: HashFunc, r: Ring, addr: Addr, n: int)
    requires Conserved(hash, r) && Exact(hash, r) && Clear(hash, r.replicas, addr, n)
    ensures Conserved(hash, Rebalance(hash, r, addr, n)) && Exact(hash, Rebalance(hash, r, addr, n))
    ensures Rebalance(hash, r, addr, n).replicas == r.replicas[addr := n]
  {
    var mid := RemoveNode(hash, r, addr);
    RemoveConserves(hash, r, addr);
    RemoveExact(hash, r, addr);
    ClearRemoved(hash, r.replicas, addr, n);
    AddConserves(hash, mid, addr, n);
    AddKeepsExact(hash, mid, addr, n);
    ReplaceCount(r.replicas, addr, n);
  }

  lemma ClearRemoved(hash: HashFunc, replicas: map<Addr, int>, addr: Addr, n: int)
    requires Clear(hash, replicas, addr, n)
    ensures Clear(hash, replicas - {addr}, addr, n)
  {
    forall b, i: nat, j: nat | b != addr && InRing(replicas - {addr}, b, j) && i < n
      ensures Position(hash, addr, i) != Position(hash, b, j) {
      assert InRing(replicas, b, j);
    }
  }

  lemma ReplaceCount(replicas: map<Addr, int>, addr: Addr, n: int)
    ensures (replicas - {addr})[addr := n] == replicas[addr := n]
  {
  }

  lemma LacksResized(replicas: map<Addr, int>, addr: Addr, n: int)
    requires addr in replicas
    ensures n >= replicas[addr] ==> Lacks(replicas, replicas[addr := n], addr)
    ensures n <= replicas[addr] ==> Lacks(replicas[addr := n], replicas, addr)
  {
  }

  /** Rebalancing is monotone, although it removes all of a node's virtual nodes and adds them back:
      no key moves between two other nodes, none leaves a growing node, none joins a shrinking one. */
  lemma RebalanceMonotone(hash: HashFunc, r: Ring, addr: Addr, n: int, h: uint32)
    requires Conserved(hash, r) && Exact(hash, r) && addr in r.replicas && Clear(hash, r.replicas, addr, n)
    ensures var before, after := Route(r, h), Route(Rebalance(hash, r, addr, n), h);
            && (before != addr && after != addr ==> before == after)
            && (n >= r.replicas[addr] && before == addr ==> after == addr)
            && (n <= r.replicas[addr] && after == addr ==> before == addr)
  {
    var r' := Rebalance(hash, r, addr, n);
    RebalanceKeeps(hash, r, addr, n);
    LacksResized(r.replicas, addr, n);
    if n >= r.replicas[addr] {
      RouteKept(hash, r, r', addr, h);
    }
    if n <= r.replicas[addr] {
      RouteKept(hash, r', r, addr, h);
    }
  }

  // ---------------------------------------------------------------------
  // History independence
  // ---------------------------------------------------------------------

  lemma OwnersDetermined(hash: HashFunc, r: Ring, s: Ring, p: int)
    requires Exact(hash, r) && Exact(hash, s) && r.replicas == s.replicas && p in r.owners
    ensures p in s.owners && s.owners[p] == r.owners[p]
  {
    var a := r.owners[p];
    var i: nat :| InRing(r.replicas, a, i) && Position(hash, a, i) == p;
    assert InRing(s.replicas, a, i);
  }

  /** The replica counts determine the ring. */
  lemma Determined(hash: HashFunc, r: Ring, s: Ring)
    requires Conserved(hash, r) && Exact(hash, r) && Conserved(hash, s) && Exact(hash, s)
    requires r.replicas == s.replicas
    ensures r.keys == s.keys && r.owners == s.owners
  {
    ConservedBag(hash, r);
    ConservedBag(hash, s);
    SortedUnique(r.keys, s.keys);
    forall p | p in r.owners ensures p in s.owners && s.owners[p] == r.owners[p] { OwnersDetermined(hash, r, s, p); }
    forall p | p in s.owners ensures p in r.owners { OwnersDetermined(hash, s, r, p); }
    assert r.owners.Keys == s.owners.Keys;
  }

  /** Every virtual node of the replica map is one of the universe's. */
  ghost predicate Within(replicas: map<Addr, int>, universe: map<Addr, int>) {
    forall a, i: nat :: InRing(replicas, a, i) ==> InRing(universe, a, i)
  }

  predicate OpWithin(op: RingOp, default: int, universe: map<Addr, int>) {
    match op
    case AddOp(a) => a in universe && default <= universe[a]
    case RemoveOp(a) => true
    case RebalanceOp(a, n) => a in universe && n <= universe[a]
  }

  lemma ClearWithin(hash: HashFunc, replicas: map<Addr, int>, universe: map<Addr, int>, a: Addr, n: int)
    requires CollisionFree(hash, universe) && Within(replicas, universe) && a in universe && n <= universe[a]
    ensures Clear(hash, replicas, a, n)
  {
    forall b, i: nat, j: nat | b != a && InRing(replicas, b, j) && i < n
        ensures Position(hash, a, i) != Position(hash, b, j) {
      assert InRing(universe, b, j);
      assert Clear(hash, universe, a, universe[a]);
    }
  }

  /** On a collision-free universe every run keeps the owner map exact. */
  lemma {:induction false} RunExact(hash: HashFunc, default: int, universe: map<Addr, int>, ops: seq<RingOp>)
    requires CollisionFree(hash, universe)
    requires forall k :: 0 <= k < |ops| ==> OpWithin(ops[k], default, universe)
    ensures Exact(hash, RingRun(hash, default, ops)) && Within(RingRun(hash, default, ops).replicas, universe)
  {
    if ops != [] {
      var ops', op := ops[..|ops| - 1], ops[|ops| - 1];
      assert forall k :: 0 <= k < |ops'| ==> ops'[k] == ops[k];
      RunExact(hash, default, universe, ops');
      StepExact(hash, default, universe, RingRun(hash, default, ops'), op);
    }
  }

  lemma FirstMember(hash: HashFunc, r: Ring, addr: Addr, n: int)
    requires r.keys == [] && r.owners == map[] && r.replicas == map[] && n > 0
    ensures var r' := AddNode(hash, r, addr, n);
            Conserved(hash, r') && Exact(hash, r') && r'.keys != [] && r'.replicas.Keys == {addr}
  {
    var r' := AddNode(hash, r, addr, n);
    AddConserves(hash, r, addr, n);
    AddKeepsExact(hash, r, addr, n);
    assert InRing(r'.replicas, addr, 0);
    OnRing(hash, r'.replicas, Position(hash, addr, 0));
  }

  /** A member added to an empty ring owns every key. */
  lemma OwnsAll(hash: HashFunc, r: Ring, addr: Addr, n: int, h: uint32)
    requires r.keys == [] && r.owners == map[] && r.replicas == map[] && n > 0
    ensures Route(AddNode(hash, r, addr, n), h) == addr
  {
    FirstMember(hash, r, addr, n);
    RouteIsOwner(hash, AddNode(hash, r, addr, n), h, Route(AddNode(hash, r, addr, n), h));
  }

  lemma StepExact(hash: HashFunc, default: int, universe: map<Addr, int>, r: Ring, op: RingOp)
    requires CollisionFree(hash, universe) && Exact(hash, r) && Within(r.replicas, universe)
        && OpWithin(op, default, universe)
    ensures Exact(hash, RingStep(hash, default, r, op)) && Within(RingStep(hash, default, r, op).replicas, universe)
  {
    match op
    case AddOp(a) =>
      if a !in r.replicas {
        ClearWithin(hash, r.replicas, universe, a, default);
        AddKeepsExact(hash, r, a, default);
      }
    case RemoveOp(a) =>
      RemoveExact(hash, r, a);
      WithinRemoved(r.replicas, universe, a);
    case RebalanceOp(a, n) =>
      var mid := RemoveNode(hash, r, a);
      RemoveExact(hash, r, a);
      WithinRemoved(r.replicas, universe, a);
      ClearWithin(hash, mid.replicas, universe, a, n);
      AddKeepsExact(hash, mid, a, n);
  }

  lemma WithinRemoved(replicas: map<Addr, int>, universe: map<Addr, int>, a: Addr)
    requires Within(replicas, universe)
    ensures Within(replicas - {a}, universe)
  {
    forall b, i: nat | InRing(replicas - {a}, b, i) ensures InRing(universe, b, i) {
      assert InRing(replicas, b, i);
    }
  }

  /** History independence: two runs on a collision-free universe that end with the same replica
      counts end with the same keys and owners, and so route every key alike. */
  lemma HistoryIndependent(hash: HashFunc, default: int, universe: map<Addr, int>, ops1: seq<RingOp>, ops2: seq<RingOp>)
    requires CollisionFree(hash, universe)
    requires forall k :: 0 <= k < |ops1| ==> OpWithin(ops1[k], default, universe)
    requires forall k :: 0 <= k < |ops2| ==> OpWithin(ops2[k], default, universe)
    requires RingRun(hash, default, ops1).replicas == RingRun(hash, default, ops2).replicas
    ensures var r, s := RingRun(hash, default, ops1), RingRun(hash, default, ops2);
            r.keys == s.keys && r.owners == s.owners && forall h :: Route(r, h) == Route(s, h)
  {
    RunConserves(hash, default, ops1);
    RunConserves(hash, default, ops2);
    RunExact(hash, default, universe, ops1);
    RunExact(hash, default, universe, ops2);
    Determined(hash, RingRun(hash, default, ops1), RingRun(hash, default, ops2));
  }

  /** Adding a new member and removing it again restores the ring. */
  lemma AddThenRemove(hash: HashFunc, r: Ring, addr: Addr, n: int)
    requires Conserved(hash, r) && Exact(hash, r) && addr !in r.replicas && addr !in r.counts
        && Clear(hash, r.replicas, addr, n)
    ensures RemoveNode(hash, AddNode(hash, r, addr, n), addr) == r
  {
    var r' := AddNode(hash, r, addr, n);
    AddConserves(hash, r, addr, n);
    AddKeepsExact(hash, r, addr, n);
    RemoveConserves(hash, r', addr);
    RemoveExact(hash, r', addr);
    SameTables(r, addr, n);
    Determined(hash, RemoveNode(hash, r', addr), r);
  }

  lemma SameTables(r: Ring, addr: Addr, n: int)
    requires addr !in r.replicas && addr !in r.counts
    ensures r.replicas[addr := n] - {addr} == r.replicas
    ensures r.counts[addr := 0] - {addr} == r.counts && r.counts - {addr} == r.counts
  {
  }

  // ---------------------------------------------------------------------
  // Collisions
  // ---------------------------------------------------------------------

  /** Every key has an owner entry, and every owner entry a key. */
  ghost predicate Indexed(r: Ring) {
    forall p :: p in r.owners <==> p in r.keys
  }

  /** After a removal every remaining key still has an owner if and only if the removed member
      shared no position with another one. */
  lemma RemoveIndexedIff(hash: HashFunc, r: Ring, addr: Addr)
    requires Conserved(hash, r) && Indexed(r) && addr in r.replicas
    ensures Indexed(RemoveNode(hash, r, addr)) <==> Clear(hash, r.replicas, addr, r.replicas[addr])
  {
    var r', n := RemoveNode(hash, r, addr), r.replicas[addr];
    RemoveConserves(hash, r, addr);
    if Clear(hash, r.replicas, addr, n) {
      forall p ensures p in r'.owners <==> p in r'.keys {
        ReleaseIs(hash, r.owners, addr, n, p);
        PositionIn(hash, addr, n, p);
        KeyIff(hash, r, p);
        KeyIff(hash, r', p);
        if p in r'.owners {
          var a, i: nat :| InRing(r.replicas, a, i) && Position(hash, a, i) == p;
          assert a != addr;
          assert InRing(r'.replicas, a, i);
        }
        if p in r'.keys {
          var a, i: nat :| InRing(r'.replicas, a, i) && Position(hash, a, i) == p;
          assert InRing(r.replicas, a, i);
        }
      }
    } else {
      var _ := Orphaned(hash, r, addr);
    }
  }

  /** A shared position loses its owner entry but keeps its key, and a key that hashes there is
      routed to the empty address. */
  lemma Orphaned(hash: HashFunc, r: Ring, addr: Addr) returns (p: uint32)
    requires Conserved(hash, r) && addr in r.replicas && !Clear(hash, r.replicas, addr, r.replicas[addr])
    ensures var r' := RemoveNode(hash, r, addr); p in r'.keys && p !in r'.owners && Route(r', p) == []
  {
    var r', n := RemoveNode(hash, r, addr), r.replicas[addr];
    var b, i: nat, j: nat :| b != addr && InRing(r.replicas, b, j) && i < n
        && Position(hash, addr, i) == Position(hash, b, j);
    p := Position(hash, b, j);
    RemoveConserves(hash, r, addr);
    assert InRing(r'.replicas, b, j);
    KeyIff(hash, r', p);
    ReleaseIs(hash, r.owners, addr, n, p);
    PositionIn(hash, addr, n, p);
    FirstFinds(r'.keys, p);
  }

  lemma FirstFinds(keys: seq<int>, p: int)
    requires Sorted(keys) && p in keys
    ensures FirstAtLeast(keys, p) < |keys| && keys[FirstAtLeast(keys, p)] == p
  {
    var i := FirstAtLeast(keys, p);
    var k :| 0 <= k < |keys| && keys[k] == p;
    assert i <= k;
    assert keys[i] <= keys[k];
  }
}
