/** How a cluster comes about: a node that starts alone is linked, and a node that joins a linked cluster
    leaves a linked cluster, as long as no two nodes share a position on the ring. */
module Joining {
  import opened Base
  import opened StoreModel
  import opened RingModel
  import opened RingOwners
  import opened Cluster
  import opened Network
  import Node = Server
  import ConsistentHash
  import RingBalance
  import Lru2Store

  /** What the nodes have in common: the hash function and the number of virtual nodes each has. */
  datatype Common = Common(hash: HashFunc, default: int)

  // ---------------------------------------------------------------------
  // Rings
  // ---------------------------------------------------------------------

  /** The ring is that of the members, each with the default number of virtual nodes. */
  ghost predicate RingOf(c: Common, r: Ring, members: set<Addr>) {
    && Conserved(c.hash, r) && Exact(c.hash, r)
    && r.replicas.Keys == members && forall a :: a in members ==> r.replicas[a] == c.default
  }

  /** No two of the addresses share a position. */
  ghost predicate Disjoint(c: Common, addrs: set<Addr>) {
    CollisionFree(c.hash, map a | a in addrs :: c.default)
  }

  lemma RingGrows(c: Common, r: Ring, members: set<Addr>, a: Addr, all: set<Addr>)
    requires RingOf(c, r, members) && a !in members && members + {a} <= all && Disjoint(c, all)
    ensures RingOf(c, RingStep(c.hash, c.default, r, AddOp(a)), members + {a})
  {
    AddConserves(c.hash, r, a, c.default);
    ClearWithin(c.hash, r.replicas, map b | b in all :: c.default, a, c.default);
    AddKeepsExact(c.hash, r, a, c.default);
  }

  /** Rings of the same members route alike, to a member. */
  lemma RingsAgree(c: Common, r: Ring, s: Ring, members: set<Addr>, h: uint32)
    requires RingOf(c, r, members) && RingOf(c, s, members) && members != {} && c.default > 0
    ensures Route(r, h) == Route(s, h) && Route(r, h) in members
  {
    assert r.replicas == s.replicas;
    Determined(c.hash, r, s);
    var a :| a in members;
    assert InRing(r.replicas, a, 0);
    OnRing(c.hash, r.replicas, Position(c.hash, a, 0));
    RouteIsOwner(c.hash, r, h, Route(r, h));
  }

  // ---------------------------------------------------------------------
  // Nodes
  // ---------------------------------------------------------------------

  /** The node's ring is that of the members, and it is connected to all of them but itself. */
  ghost predicate Knows(c: Common, n: Node.Server, members: set<Addr>)
    reads n`peers, n.ring`keys, n.ring`hashMap, n.ring`nodeReplicas, n.ring`nodeCounts
  {
    n.ring.hash == c.hash && n.ring.config.default == c.default && RingOf(c, n.ring.View(), members) && n.Wired()
  }

  /** A node with an empty store that has nobody on its ring yet, not even itself. */
  method BareNode(self: Addr, config: RingBalance.Config, hash: HashFunc, redis: Node.Redis,
                  bucketCount: uint16, capPerBucket: uint16, level2Cap: uint16) returns (n: Node.Server)
    requires bucketCount <= 32768 && capPerBucket < 0xFFFF && level2Cap < 0xFFFF
    ensures fresh(n) && fresh(n.ring) && fresh(n.Objects()) && n.Valid() && n.selfAddr == self && n.redis == redis
    ensures n.ring.View() == EMPTY_RING && n.ring.hash == hash && n.ring.config == config && n.peers == map[]
    ensures Empty(n.cache.view) && n.flight.m == map[] && n.flight.view.pcs == map[]
  {
    var ring := new ConsistentHash.Map(config, hash, self);
    var cache := new Lru2Store.Lru2Store(bucketCount, capPerBucket, level2Cap);
    n := new Node.Server(self, ring, cache, redis);
  }

  /** A node that has put itself on its ring. */
  method NewNode(self: Addr, config: RingBalance.Config, hash: HashFunc, redis: Node.Redis,
                 bucketCount: uint16, capPerBucket: uint16, level2Cap: uint16) returns (n: Node.Server)
    requires self != [] && config.default > 0
    requires bucketCount <= 32768 && capPerBucket < 0xFFFF && level2Cap < 0xFFFF
    ensures fresh(n) && fresh(n.ring) && fresh(n.Objects()) && n.Valid() && n.selfAddr == self && n.redis == redis
    ensures Knows(Common(hash, config.default), n, {self}) && n.peers == map[]
    ensures Empty(n.cache.view) && n.flight.m == map[] && n.flight.view.pcs == map[]
  {
    n := BareNode(self, config, hash, redis, bucketCount, capPerBucket, level2Cap);
    ghost var empty := n.ring.View();
    n.ring.Add(self);
    FirstMember(hash, empty, self, config.default);
  }

  // ---------------------------------------------------------------------
  // Discovery
  // ---------------------------------------------------------------------

  /** Two nodes discover each other. */
  method Meet(n: Node.Server, p: Node.Server)
    requires n != p && n.ring != p.ring && n.selfAddr != p.selfAddr && n.selfAddr != [] && p.selfAddr != []
    requires n.ring.Valid() && n.Wired() && p.ring.Valid() && p.Wired()
    modifies n`peers, n.ring`keys, n.ring`hashMap, n.ring`nodeReplicas, n.ring`nodeCounts
    modifies p`peers, p.ring`keys, p.ring`hashMap, p.ring`nodeReplicas, p.ring`nodeCounts
    ensures n.ring.Valid() && n.Wired() && p.ring.Valid() && p.Wired()
    ensures n.peers == old(n.peers)[p.selfAddr := p] && p.peers == old(p.peers)[n.selfAddr := n]
    ensures n.ring.View() == RingStep(n.ring.hash, n.ring.config.default, old(n.ring.View()), AddOp(p.selfAddr))
    ensures p.ring.View() == RingStep(p.ring.hash, p.ring.config.default, old(p.ring.View()), AddOp(n.selfAddr))
  {
    n.AddService(p.selfAddr, p);
    p.AddService(n.selfAddr, n);
  }

  /** And other nodes stay as they are. */
  method MeetBeside(n: Node.Server, p: Node.Server, ghost nodes: map<Addr, Node.Server>, ghost others: set<Addr>)
    requires n != p && n.ring != p.ring && n.selfAddr != p.selfAddr && n.selfAddr != [] && p.selfAddr != []
    requires n.ring.Valid() && n.Wired() && p.ring.Valid() && p.Wired()
    requires others <= nodes.Keys && forall b :: b in others ==> OwnRings(nodes[b], n) && OwnRings(nodes[b], p)
    modifies n`peers, n.ring`keys, n.ring`hashMap, n.ring`nodeReplicas, n.ring`nodeCounts
    modifies p`peers, p.ring`keys, p.ring`hashMap, p.ring`nodeReplicas, p.ring`nodeCounts
    ensures n.ring.Valid() && n.Wired() && p.ring.Valid() && p.Wired()
    ensures n.peers == old(n.peers)[p.selfAddr := p] && p.peers == old(p.peers)[n.selfAddr := n]
    ensures n.ring.View() == RingStep(n.ring.hash, n.ring.config.default, old(n.ring.View()), AddOp(p.selfAddr))
    ensures p.ring.View() == RingStep(p.ring.hash, p.ring.config.default, old(p.ring.View()), AddOp(n.selfAddr))
    ensures forall b {:trigger nodes[b]} :: b in others ==> Untouched(nodes[b])
  {
    Meet(n, p);
  }

  /** Two nodes with a ring each. */
  ghost predicate OwnRings(n: Node.Server, p: Node.Server) {
    n != p && n.ring != p.ring
  }

  /** The node has met the newcomer p: it is connected to p, and p is on its ring. */
  twostate predicate Met(n: Node.Server, new p: Node.Server)
    reads n`peers, n.ring`keys, n.ring`hashMap, n.ring`nodeReplicas, n.ring`nodeCounts
  {
    && n.ring.Valid() && n.Wired() && n.peers == old(n.peers)[p.selfAddr := p]
    && n.ring.View() == RingStep(n.ring.hash, n.ring.config.default, old(n.ring.View()), AddOp(p.selfAddr))
  }

  /** The node's ring and connections are as they were. */
  twostate predicate Untouched(n: Node.Server)
    reads n`peers, n.ring`keys, n.ring`hashMap, n.ring`nodeReplicas, n.ring`nodeCounts
  {
    n.peers == old(n.peers) && n.ring.View() == old(n.ring.View())
  }

  /** The nodes and the newcomer share no object that meeting changes. */
  ghost predicate Distinct(nodes: map<Addr, Node.Server>, p: Node.Server) {
    && p.selfAddr !in nodes && p.selfAddr != [] && [] !in nodes
    && (forall a {:trigger OwnRings(nodes[a], p)} :: a in nodes ==> nodes[a].selfAddr == a && OwnRings(nodes[a], p))
    && (forall a, b {:trigger OwnRings(nodes[a], nodes[b])} :: a in nodes && b in nodes && a != b ==>
        OwnRings(nodes[a], nodes[b]))
  }

  /** Addresses put on a ring one after the other. */
  function AddAll(c: Common, r: Ring, order: seq<Addr>): Ring
    decreases |order|
  {
    if order == [] then r else AddAll(c, RingStep(c.hash, c.default, r, AddOp(order[0])), order[1..])
  }

  /** The newcomer p has met the nodes at the addresses, in this order. */
  twostate predicate HasMet(c: Common, p: Node.Server, new nodes: map<Addr, Node.Server>, new order: seq<Addr>)
    requires forall i :: 0 <= i < |order| ==> order[i] in nodes
    reads p`peers, p.ring`keys, p.ring`hashMap, p.ring`nodeReplicas, p.ring`nodeCounts
  {
    && p.ring.View() == AddAll(c, old(p.ring.View()), order)
    && (forall a :: a in p.peers <==> a in old(p.peers) || a in order)
    && (forall a :: a in p.peers ==> p.peers[a] == if a in order then nodes[a] else old(p.peers[a]))
  }

  lemma Prepended(a: Addr, later: seq<Addr>, rest: set<Addr>)
    requires a in rest && Once(later) && forall x :: x in later <==> x in rest - {a}
    ensures Once([a] + later) && forall x :: x in [a] + later <==> x in rest
  {
    forall j | 0 <= j < |later| ensures later[j] != a { assert later[j] in later; }
  }

  /** The newcomer and the node at one address discover each other. */
  method MeetNext(nodes: map<Addr, Node.Server>, a: Addr, n: Node.Server, p: Node.Server)
    requires Distinct(nodes, p) && a in nodes && n == nodes[a]
    requires n.ring.Valid() && n.Wired() && p.ring.Valid() && p.Wired()
    modifies n`peers, n.ring`keys, n.ring`hashMap, n.ring`nodeReplicas, n.ring`nodeCounts
    modifies p`peers, p.ring`keys, p.ring`hashMap, p.ring`nodeReplicas, p.ring`nodeCounts
    ensures Met(n, p) && p.ring.Valid() && p.Wired() && p.peers == old(p.peers)[a := n]
    ensures p.ring.View() == RingStep(p.ring.hash, p.ring.config.default, old(p.ring.View()), AddOp(a))
    ensures forall b {:trigger nodes[b]} :: b in nodes && b != a ==> Untouched(nodes[b])
  {
    forall b | b in nodes.Keys - {a} ensures OwnRings(nodes[b], nodes[a]) && OwnRings(nodes[b], p) {}
    assert OwnRings(nodes[a], p);
    MeetBeside(n, p, nodes, nodes.Keys - {a});
  }

  /** The newcomer and the nodes it has not met yet discover each other, in any order. */
  method Introduce(nodes: map<Addr, Node.Server>, p: Node.Server, ghost c: Common, rest: set<Addr>)
      returns (ghost order: seq<Addr>)
    requires Distinct(nodes, p) && p.ring.hash == c.hash && p.ring.config.default == c.default
    requires rest <= nodes.Keys && p.ring.Valid() && p.Wired()
    requires forall a :: a in rest ==> nodes[a].ring.Valid() && nodes[a].Wired()
    modifies (set a <- rest :: nodes[a])`peers, (set a <- rest :: nodes[a].ring)`keys
    modifies (set a <- rest :: nodes[a].ring)`hashMap, (set a <- rest :: nodes[a].ring)`nodeReplicas
    modifies (set a <- rest :: nodes[a].ring)`nodeCounts
    modifies p`peers, p.ring`keys, p.ring`hashMap, p.ring`nodeReplicas, p.ring`nodeCounts
    ensures forall a {:trigger Met(nodes[a], p)} :: a in rest ==> Met(nodes[a], p)
    ensures forall b {:trigger nodes[b]} :: b in nodes && b !in rest ==> Untouched(nodes[b])
    ensures Once(order) && (forall a :: a in order <==> a in rest) && HasMet(c, p, nodes, order)
    ensures p.ring.Valid() && p.Wired()
    decreases |rest|
  {
    order := [];
    if rest != {} {
      var a :| a in rest;
      MeetNext(nodes, a, nodes[a], p);
      label met:
      var later := Introduce(nodes, p, c, rest - {a});
      forall b | b in rest ensures Met(nodes[b], p) {
        if b != a { assert Met@met(nodes[b], p); }
      }
      Prepended(a, later, rest);
      order := [a] + later;
    }
  }

  lemma {:induction false} AllAdded(c: Common, r: Ring, members: set<Addr>, order: seq<Addr>, all: set<Addr>)
    requires RingOf(c, r, members) && Once(order) && Disjoint(c, all) && members <= all
    requires forall a :: a in order ==> a !in members
    requires forall a :: a in all <==> a in members || a in order
    ensures RingOf(c, AddAll(c, r, order), all)
    decreases |order|
  {
    if order == [] {
      assert members == all;
    } else {
      var a := order[0];
      RingGrows(c, r, members, a, all);
      FirstAdded(members, order, all);
      AllAdded(c, RingStep(c.hash, c.default, r, AddOp(a)), members + {a}, order[1..], all);
    }
  }

  lemma FirstAdded(members: set<Addr>, order: seq<Addr>, all: set<Addr>)
    requires order != [] && Once(order) && forall a :: a in order ==> a !in members
    requires forall a :: a in all <==> a in members || a in order
    ensures Once(order[1..]) && forall a :: a in order[1..] ==> a !in members + {order[0]}
    ensures forall a :: a in all <==> a in members + {order[0]} || a in order[1..]
    ensures members + {order[0]} <= all
  {
    assert order == [order[0]] + order[1..];
    forall a | a in order[1..] ensures a !in members + {order[0]} {
      var i :| 0 <= i < |order| - 1 && order[1..][i] == a;
      assert order[i + 1] == a;
    }
  }

  // ---------------------------------------------------------------------
  // Clusters
  // ---------------------------------------------------------------------

  /** The nodes are linked, know exactly each other, and have a ring each. */
  ghost predicate Meshed(c: Common, net: Net)
    reads *
  {
    && Linked(net) && [] !in net.nodes
    && (forall a {:trigger Knows(c, net.nodes[a], net.nodes.Keys)} :: a in net.nodes ==>
        Knows(c, net.nodes[a], net.nodes.Keys))
    && (forall a, b {:trigger OwnRings(net.nodes[a], net.nodes[b])} ::
          a in net.nodes && b in net.nodes && a != b ==> OwnRings(net.nodes[a], net.nodes[b]))
  }

  /** Nodes that know each other agree on the owners. */
  lemma KnowingAgree(c: Common, net: Net, self: Addr)
    requires self in net.nodes && c.default > 0 && [] !in net.nodes
    requires forall a {:trigger Knows(c, net.nodes[a], net.nodes.Keys)} :: a in net.nodes ==>
        Knows(c, net.nodes[a], net.nodes.Keys)
    requires forall k :: net.owner(k) == net.nodes[self].Pick(k)
    ensures Agreed(net)
  {
    assert Knows(c, net.nodes[self], net.nodes.Keys);
    forall a, k | a in net.nodes ensures net.nodes[a].Pick(k) == net.owner(k) && net.owner(k) in net.nodes {
      assert Knows(c, net.nodes[a], net.nodes.Keys);
      RingsAgree(c, net.nodes[a].ring.View(), net.nodes[self].ring.View(), net.nodes.Keys, c.hash(k));
    }
    forall k ensures net.owner(k) in net.nodes {
      RingsAgree(c, net.nodes[self].ring.View(), net.nodes[self].ring.View(), net.nodes.Keys, c.hash(k));
    }
  }

  /** The newcomer is valid, knows only itself, and shares nothing with the nodes but Redis. */
  ghost predicate Newcomer(c: Common, net: Net, p: Node.Server)
    reads *
  {
    && p.Valid() && p.redis == net.redis && Knows(c, p, {p.selfAddr}) && p.peers == map[]
    && p.selfAddr !in net.nodes && p.selfAddr != []
    && (forall a {:trigger Strangers(net.nodes[a], p)} :: a in net.nodes ==> Strangers(net.nodes[a], p))
  }

  ghost predicate Strangers(n: Node.Server, p: Node.Server)
    reads n.flight`Repr, p.flight`Repr
  {
    && OwnRings(n, p) && n.Objects() !! p.Objects()
    && n !in p.Objects() && n.ring !in p.Objects() && p !in n.Objects() && p.ring !in n.Objects()
  }

  /** A node that has met the newcomer knows it too. */
  twostate lemma MetKnows(n: Node.Server, new p: Node.Server, new c: Common, new members: set<Addr>)
    requires old(Knows(c, n, members)) && Met(n, p)
    requires p.selfAddr !in members && Disjoint(c, members + {p.selfAddr})
    ensures Knows(c, n, members + {p.selfAddr})
  {
    RingGrows(c, old(n.ring.View()), members, p.selfAddr, members + {p.selfAddr});
  }

  /** The newcomer knows all it has met. */
  twostate lemma NewcomerKnows(p: Node.Server, new c: Common, new nodes: map<Addr, Node.Server>, new order: seq<Addr>)
    requires old(Knows(c, p, {p.selfAddr})) && p.Wired() && Once(order)
    requires p.selfAddr !in nodes && (forall a :: a in order <==> a in nodes) && HasMet(c, p, nodes, order)
    requires Disjoint(c, nodes.Keys + {p.selfAddr})
    ensures Knows(c, p, nodes.Keys + {p.selfAddr})
  {
    AllAdded(c, old(p.ring.View()), {p.selfAddr}, order, nodes.Keys + {p.selfAddr});
  }

  /** All meet the newcomer, and nothing else changes. */
  method IntroduceBeside(nodes: map<Addr, Node.Server>, p: Node.Server, ghost c: Common, ghost others: set<object>)
    returns (ghost order: seq<Addr>)
    requires Distinct(nodes, p) && p.ring.hash == c.hash && p.ring.config.default == c.default
    requires p.ring.Valid() && p.Wired() && p.peers == map[]
    requires forall a :: a in nodes ==> nodes[a].ring.Valid() && nodes[a].Wired()
    requires p !in others && p.ring !in others && forall a :: a in nodes ==>
        nodes[a] !in others && nodes[a].ring !in others
    modifies (set a <- nodes :: nodes[a])`peers, (set a <- nodes :: nodes[a].ring)`keys
    modifies (set a <- nodes :: nodes[a].ring)`hashMap, (set a <- nodes :: nodes[a].ring)`nodeReplicas
    modifies (set a <- nodes :: nodes[a].ring)`nodeCounts
    modifies p`peers, p.ring`keys, p.ring`hashMap, p.ring`nodeReplicas, p.ring`nodeCounts
    ensures forall a {:trigger Met(nodes[a], p)} :: a in nodes ==> Met(nodes[a], p)
    ensures Once(order) && (forall a :: a in order <==> a in nodes) && HasMet(c, p, nodes, order)
    ensures p.ring.Valid() && p.Wired() && p.peers == nodes
    ensures unchanged(others)
  {
    order := Introduce(nodes, p, c, nodes.Keys);
    assert p.peers == nodes;
  }

  /** The nodes that have met the newcomer know it. */
  twostate lemma OthersKnow(net: Net, new c: Common, new self: Addr)
    requires self in net.nodes && net.nodes[self].selfAddr == self && Disjoint(c, net.nodes.Keys)
    requires forall a {:trigger old(Knows(c, net.nodes[a], net.nodes.Keys - {self}))} ::
      a in net.nodes && a != self ==> old(Knows(c, net.nodes[a], net.nodes.Keys - {self}))
    requires forall a {:trigger Met(net.nodes[a], net.nodes[self])} :: a in net.nodes && a != self ==>
        Met(net.nodes[a], net.nodes[self])
    ensures forall a {:trigger Knows(c, net.nodes[a], net.nodes.Keys)} :: a in net.nodes && a != self ==>
        Knows(c, net.nodes[a], net.nodes.Keys)
  {
    assert net.nodes.Keys - {self} + {self} == net.nodes.Keys;
    forall a | a in net.nodes && a != self ensures Knows(c, net.nodes[a], net.nodes.Keys) {
      assert old(Knows(c, net.nodes[a], net.nodes.Keys - {self})) && Met(net.nodes[a], net.nodes[self]);
      MetKnows(net.nodes[a], net.nodes[self], c, net.nodes.Keys - {self});
    }
  }

  /** What the nodes are made of. */
  ghost function Contents(net: Net): set<object>
    reads set a <- net.nodes :: net.nodes[a].flight
  {
    set a, x | a in net.nodes && x in net.nodes[a].Objects() :: x
  }

  /** Nodes that served go on serving. */
  twostate lemma StillServing(net: Net, new c: Common)
    requires forall a {:trigger old(Serving(net, a))} :: a in net.nodes ==> old(Serving(net, a))
    requires forall a {:trigger Knows(c, net.nodes[a], net.nodes.Keys)} :: a in net.nodes ==>
        Knows(c, net.nodes[a], net.nodes.Keys)
    requires unchanged(old(Contents(net)))
    ensures forall a {:trigger Serving(net, a)} :: a in net.nodes ==> Serving(net, a)
    ensures forall a {:trigger net.nodes[a].cache} :: a in net.nodes ==>
        net.nodes[a].cache.view == old(net.nodes[a].cache.view)
  {
    forall a | a in net.nodes ensures Serving(net, a) && net.nodes[a].cache.view == old(net.nodes[a].cache.view) {
      assert old(Serving(net, a)) && Knows(c, net.nodes[a], net.nodes.Keys);
      assert old(net.nodes[a].Objects()) <= old(Contents(net));
    }
  }

  /** The nodes of a cluster and a newcomer that has met them all are connected pairwise. */
  twostate lemma AllApart(net: Net, new self: Addr)
    requires self in net.nodes && unchanged(old(Contents(net)))
    requires forall a {:trigger net.nodes[a].selfAddr} :: a in net.nodes ==> net.nodes[a].selfAddr == a
    requires forall a, b {:trigger old(Apart(net.nodes[a], net.nodes[b]))} ::
      a in net.nodes && b in net.nodes && a != b && a != self && b != self ==> old(Apart(net.nodes[a], net.nodes[b]))
    requires forall a {:trigger old(Strangers(net.nodes[a], net.nodes[self]))} ::
      a in net.nodes && a != self ==> old(Strangers(net.nodes[a], net.nodes[self]))
    requires forall a {:trigger net.nodes[a]} :: a in net.nodes && a != self ==> Met(net.nodes[a], net.nodes[self])
    requires net.nodes[self].peers == net.nodes - {self}
    ensures forall a, b {:trigger Apart(net.nodes[a], net.nodes[b])} ::
      a in net.nodes && b in net.nodes && a != b ==> Apart(net.nodes[a], net.nodes[b])
  {
    forall a | a in net.nodes ensures net.nodes[a].Objects() == old(net.nodes[a].Objects()) {
      assert net.nodes[a].flight in old(net.nodes[a].Objects());
      assert old(net.nodes[a].Objects()) <= old(Contents(net));
    }
    forall a, b | a in net.nodes && b in net.nodes && a != b ensures Apart(net.nodes[a], net.nodes[b]) {
      if a == self {
        assert old(Strangers(net.nodes[b], net.nodes[self]));
      } else if b == self {
        assert old(Strangers(net.nodes[a], net.nodes[self])) && Met(net.nodes[a], net.nodes[self]);
      } else {
        assert old(Apart(net.nodes[a], net.nodes[b])) && Met(net.nodes[a], net.nodes[self]);
      }
    }
  }

  /** The cluster and the newcomer, before they have met. */
  ghost function Both(net: Net, p: Node.Server): Net {
    Net(net.nodes[p.selfAddr := p], net.redis, net.owner)
  }

  /** What the meeting of a cluster and a newcomer needs. */
  lemma CanMeet(c: Common, net: Net, p: Node.Server)
    requires Meshed(c, net) && Newcomer(c, net, p)
    ensures Distinct(net.nodes, p)
    ensures forall a :: a in net.nodes ==> net.nodes[a].ring.Valid() && net.nodes[a].Wired()
  {
    forall a | a in net.nodes ensures net.nodes[a].selfAddr == a && OwnRings(net.nodes[a], p) {
      assert Serving(net, a) && Strangers(net.nodes[a], p);
    }
    forall a | a in net.nodes ensures net.nodes[a].ring.Valid() && net.nodes[a].Wired() {
      assert Knows(c, net.nodes[a], net.nodes.Keys);
    }
  }

  /** What meeting changes is nothing the nodes are made of. */
  lemma MeetingApart(c: Common, net: Net, p: Node.Server)
    requires Meshed(c, net) && Newcomer(c, net, p)
    ensures p !in Contents(Both(net, p)) && p.ring !in Contents(Both(net, p))
    ensures forall a :: a in net.nodes ==>
        net.nodes[a] !in Contents(Both(net, p)) && net.nodes[a].ring !in Contents(Both(net, p))
  {
    var all := Both(net, p);
    forall a, b | a in all.nodes && b in all.nodes
      ensures all.nodes[a] !in all.nodes[b].Objects() && all.nodes[a].ring !in all.nodes[b].Objects()
    {
      assert a in net.nodes ==> Serving(net, a) && Strangers(net.nodes[a], p);
      assert b in net.nodes ==> Serving(net, b) && Strangers(net.nodes[b], p);
      assert a in net.nodes && b in net.nodes && a != b ==> Apart(net.nodes[a], net.nodes[b]);
    }
    assert all.nodes[p.selfAddr] == p;
    assert forall a :: a in net.nodes ==> all.nodes[a] == net.nodes[a];
  }

  /** Any two have a ring each, the newcomer included. */
  lemma RingsApart(c: Common, net: Net, p: Node.Server)
    requires Meshed(c, net) && Newcomer(c, net, p)
    ensures forall a, b {:trigger OwnRings(Both(net, p).nodes[a], Both(net, p).nodes[b])} ::
      a in Both(net, p).nodes && b in Both(net, p).nodes && a != b ==>
          OwnRings(Both(net, p).nodes[a], Both(net, p).nodes[b])
  {
    var all := Both(net, p);
    forall a, b | a in all.nodes && b in all.nodes && a != b ensures OwnRings(all.nodes[a], all.nodes[b]) {
      assert a in net.nodes ==> Strangers(net.nodes[a], p);
      assert b in net.nodes ==> Strangers(net.nodes[b], p);
      assert a in net.nodes && b in net.nodes ==> OwnRings(net.nodes[a], net.nodes[b]);
    }
  }

  /** A newcomer and a cluster discover each other: what the nodes know of each other then. */
  method MeetAll(c: Common, net: Net, p: Node.Server, ghost contents: set<object>) returns (net': Net)
    requires Meshed(c, net) && Newcomer(c, net, p) && Disjoint(c, net.nodes.Keys + {p.selfAddr})
    requires contents == Contents(Both(net, p))
    modifies (set a <- net.nodes :: net.nodes[a])`peers, (set a <- net.nodes :: net.nodes[a].ring)`keys
    modifies (set a <- net.nodes :: net.nodes[a].ring)`hashMap, (set a <- net.nodes :: net.nodes[a].ring)`nodeReplicas
    modifies (set a <- net.nodes :: net.nodes[a].ring)`nodeCounts
    modifies p`peers, p.ring`keys, p.ring`hashMap, p.ring`nodeReplicas, p.ring`nodeCounts
    ensures net'.nodes == net.nodes[p.selfAddr := p] && net'.redis == net.redis && p.peers == net.nodes
    ensures forall a {:trigger Met(net.nodes[a], p)} :: a in net.nodes ==> Met(net.nodes[a], p)
    ensures Knows(c, p, net.nodes.Keys + {p.selfAddr}) && (forall k :: net'.owner(k) == p.Pick(k))
    ensures unchanged(contents)
  {
    CanMeet(c, net, p);
    MeetingApart(c, net, p);
    ghost var order := IntroduceBeside(net.nodes, p, c, contents);
    NewcomerKnows(p, c, net.nodes, order);
    var r := Ring(p.ring.keys, p.ring.hashMap, p.ring.nodeReplicas, p.ring.nodeCounts);
    net' := Net(net.nodes[p.selfAddr := p], net.redis, (k: Key) => Route(r, c.hash(k)));
  }

  /** A cluster and a newcomer, at address self, before they meet. */
  ghost predicate Unmet(c: Common, net: Net, self: Addr)
    requires self in net.nodes
    reads *
  {
    && (forall a {:trigger Serving(net, a)} :: a in net.nodes ==> Serving(net, a))
    && (forall a {:trigger Knows(c, net.nodes[a], net.nodes.Keys - {self})} ::
          a in net.nodes && a != self ==> Knows(c, net.nodes[a], net.nodes.Keys - {self}))
    && (forall a {:trigger Strangers(net.nodes[a], net.nodes[self])} ::
          a in net.nodes && a != self ==> Strangers(net.nodes[a], net.nodes[self]))
    && (forall a, b {:trigger Apart(net.nodes[a], net.nodes[b])} ::
          a in net.nodes && b in net.nodes && a != b && a != self && b != self ==> Apart(net.nodes[a], net.nodes[b]))
  }

  lemma BeforeMeeting(c: Common, net: Net, p: Node.Server)
    requires Meshed(c, net) && Newcomer(c, net, p)
    ensures Unmet(c, Both(net, p), p.selfAddr)
  {
    assert Both(net, p).nodes.Keys - {p.selfAddr} == net.nodes.Keys;
    var all := Both(net, p);
    forall a | a in all.nodes ensures Serving(all, a) { assert a in net.nodes ==> Serving(net, a); }
    forall a | a in all.nodes && a != p.selfAddr
        ensures Knows(c, all.nodes[a], net.nodes.Keys) && Strangers(all.nodes[a], p) {
      assert Knows(c, net.nodes[a], net.nodes.Keys) && Strangers(net.nodes[a], p);
    }
    forall a, b | a in all.nodes && b in all.nodes && a != b && a != p.selfAddr && b != p.selfAddr
      ensures Apart(all.nodes[a], all.nodes[b])
    {
      assert Apart(net.nodes[a], net.nodes[b]);
    }
  }

  /** Nodes that serve, know exactly each other, are connected pairwise, and have a ring each. */
  ghost predicate Acquainted(c: Common, net: Net)
    reads *
  {
    && [] !in net.nodes
    && (forall a {:trigger Serving(net, a)} :: a in net.nodes ==> Serving(net, a))
    && (forall a {:trigger Knows(c, net.nodes[a], net.nodes.Keys)} :: a in net.nodes ==>
        Knows(c, net.nodes[a], net.nodes.Keys))
    && (forall a, b {:trigger Apart(net.nodes[a], net.nodes[b])} ::
          a in net.nodes && b in net.nodes && a != b ==> Apart(net.nodes[a], net.nodes[b]))
    && (forall a, b {:trigger OwnRings(net.nodes[a], net.nodes[b])} ::
          a in net.nodes && b in net.nodes && a != b ==> OwnRings(net.nodes[a], net.nodes[b]))
  }

  /** The cluster and the newcomer once they have met. */
  twostate lemma AfterMeeting(net: Net, new c: Common, new self: Addr)
    requires unchanged(old(Contents(net)))
    requires self in net.nodes && [] !in net.nodes && Disjoint(c, net.nodes.Keys)
    requires old(Unmet(c, net, self))
    requires forall a {:trigger Met(net.nodes[a], net.nodes[self])} :: a in net.nodes && a != self ==>
        Met(net.nodes[a], net.nodes[self])
    requires Knows(c, net.nodes[self], net.nodes.Keys) && net.nodes[self].peers == net.nodes - {self}
    requires forall a, b {:trigger OwnRings(net.nodes[a], net.nodes[b])} ::
      a in net.nodes && b in net.nodes && a != b ==> OwnRings(net.nodes[a], net.nodes[b])
    ensures Acquainted(c, net)
  {
    assert old(Serving(net, self));
    OthersKnow(net, c, self);
    StillServing(net, c);
    forall a | a in net.nodes ensures net.nodes[a].selfAddr == a { assert Serving(net, a); }
    forall a | a in net.nodes && a != self ensures Met(net.nodes[a], net.nodes[self]) {}
    AllApart(net, self);
  }

  /** Acquainted nodes are a cluster, with the owners their rings give. */
  lemma AcquaintedMeshed(c: Common, all: Net, net: Net, self: Addr)
    requires Acquainted(c, all) && net.nodes == all.nodes && net.redis == all.redis && self in net.nodes
        && c.default > 0
    requires forall k :: net.owner(k) == net.nodes[self].Pick(k)
    ensures Meshed(c, net)
  {
    forall a | a in net.nodes ensures Serving(net, a) && Knows(c, net.nodes[a], net.nodes.Keys) {
      assert Serving(all, a) && Knows(c, all.nodes[a], all.nodes.Keys);
    }
    forall a, b | a in net.nodes && b in net.nodes && a != b
      ensures Apart(net.nodes[a], net.nodes[b]) && OwnRings(net.nodes[a], net.nodes[b])
    {
      assert Apart(all.nodes[a], all.nodes[b]) && OwnRings(all.nodes[a], all.nodes[b]);
    }
    KnowingAgree(c, net, self);
  }

  /** A newcomer joins a cluster: it and every node discover each other, and they are a cluster. */
  method Admit(c: Common, net: Net, p: Node.Server) returns (net': Net)
    requires Meshed(c, net) && Newcomer(c, net, p) && Disjoint(c, net.nodes.Keys + {p.selfAddr}) && c.default > 0
    modifies (set a <- net.nodes :: net.nodes[a])`peers, (set a <- net.nodes :: net.nodes[a].ring)`keys
    modifies (set a <- net.nodes :: net.nodes[a].ring)`hashMap, (set a <- net.nodes :: net.nodes[a].ring)`nodeReplicas
    modifies (set a <- net.nodes :: net.nodes[a].ring)`nodeCounts
    modifies p`peers, p.ring`keys, p.ring`hashMap, p.ring`nodeReplicas, p.ring`nodeCounts
    ensures Meshed(c, net') && net'.nodes == net.nodes[p.selfAddr := p] && net'.redis == net.redis
  {
    ghost var all := Both(net, p);
    BeforeMeeting(c, net, p);
    RingsApart(c, net, p);
    net' := MeetAll(c, net, p, Contents(all));
    assert all.nodes.Keys == net.nodes.Keys + {p.selfAddr};
    AfterMeeting(all, c, p.selfAddr);
    AcquaintedMeshed(c, all, net', p.selfAddr);
  }

  /** A node that starts alone is a cluster of one. */
  method Start(c: Common, self: Addr, config: RingBalance.Config, bucketCount: uint16, capPerBucket: uint16,
      level2Cap: uint16)
    returns (net: Net)
    requires self != [] && config.default == c.default > 0
    requires bucketCount <= 32768 && capPerBucket < 0xFFFF && level2Cap < 0xFFFF
    ensures Meshed(c, net) && net.nodes.Keys == {self}
    ensures Empty(net.nodes[self].cache.view) && net.redis.data == map[]
  {
    var redis := new Node.Redis();
    var n := NewNode(self, config, c.hash, redis, bucketCount, capPerBucket, level2Cap);
    var r := Ring(n.ring.keys, n.ring.hashMap, n.ring.nodeReplicas, n.ring.nodeCounts);
    net := Net(map[self := n], redis, (k: Key) => Route(r, c.hash(k)));
    assert c == Common(c.hash, config.default) && net.nodes.Keys == {self};
    AcquaintedMeshed(c, net, net, self);
  }

  /** A node that has just come up is a newcomer to every cluster. */
  method ComeUp(c: Common, net: Net, self: Addr, config: RingBalance.Config,
                bucketCount: uint16, capPerBucket: uint16, level2Cap: uint16) returns (p: Node.Server)
    requires Meshed(c, net) && self !in net.nodes && self != [] && config.default == c.default > 0
    requires bucketCount <= 32768 && capPerBucket < 0xFFFF && level2Cap < 0xFFFF
    ensures Meshed(c, net) && Newcomer(c, net, p) && p.selfAddr == self && Empty(p.cache.view)
    ensures fresh(p) && fresh(p.ring)
  {
    p := NewNode(self, config, c.hash, net.redis, bucketCount, capPerBucket, level2Cap);
    assert c == Common(c.hash, config.default);
    forall a | a in net.nodes ensures Strangers(net.nodes[a], p) { assert old(Serving(net, a)); }
  }

  /** A node comes up and joins a cluster. */
  method Join(c: Common, net: Net, self: Addr, config: RingBalance.Config,
              bucketCount: uint16, capPerBucket: uint16, level2Cap: uint16) returns (net': Net)
    requires Meshed(c, net) && self !in net.nodes && self != [] && config.default == c.default > 0
    requires bucketCount <= 32768 && capPerBucket < 0xFFFF && level2Cap < 0xFFFF
    requires Disjoint(c, net.nodes.Keys + {self})
    modifies (set a <- net.nodes :: net.nodes[a])`peers, (set a <- net.nodes :: net.nodes[a].ring)`keys
    modifies (set a <- net.nodes :: net.nodes[a].ring)`hashMap, (set a <- net.nodes :: net.nodes[a].ring)`nodeReplicas
    modifies (set a <- net.nodes :: net.nodes[a].ring)`nodeCounts
    ensures Meshed(c, net') && net'.redis == net.redis
    ensures net'.nodes.Keys == net.nodes.Keys + {self} && forall a :: a in net.nodes ==> net'.nodes[a] == net.nodes[a]
  {
    var p := ComeUp(c, net, self, config, bucketCount, capPerBucket, level2Cap);
    net' := Admit(c, net, p);
  }

  // ---------------------------------------------------------------------
  // A node that is not on its own ring yet
  // ---------------------------------------------------------------------

  /** One forward, to a node with nobody on its ring. */
  lemma ReachesNobody(na: Node.Server, nb: Node.Server, key: Key)
    requires na.ring.Valid() && nb.ring.Valid() && nb.ring.keys == []
    requires na.Pick(key) == nb.selfAddr && nb.selfAddr != [] && nb.selfAddr != na.selfAddr
    requires nb.selfAddr in na.peers && na.peers[nb.selfAddr] == nb
    requires na.ring !in nb.cache.Repr && na.ring !in nb.flight.Repr && nb.ring !in nb.cache.Repr
        && nb.ring !in nb.flight.Repr
    ensures na.Reaches(key, [na, nb], nb) && Node.Server.Rings([na, nb]) == {na.ring, nb.ring}
  {
    assert [na, nb][1..] == [nb] && [nb][1..] == [];
    assert Node.Server.Rings([nb]) == {nb.ring};
    assert nb.Reaches(key, [nb], nb);
  }

  /** Two nodes on one Redis, with nobody on their rings. */
  method TwoNodes(a: Addr, b: Addr, config: RingBalance.Config, hash: HashFunc,
                  bucketCount: uint16, capPerBucket: uint16, level2Cap: uint16)
                      returns (na: Node.Server, nb: Node.Server)
    requires bucketCount <= 32768 && capPerBucket < 0xFFFF && level2Cap < 0xFFFF
    ensures fresh(na) && fresh(na.ring) && fresh(nb) && fresh(nb.ring) && fresh(nb.Objects()) && fresh(nb.redis)
    ensures nb.Valid() && nb.ring.View() == EMPTY_RING && nb.redis.data == map[] && nb.selfAddr == b
    ensures na.selfAddr == a && na.peers == map[] && na.ring.View() == EMPTY_RING && na.ring.hash == hash
        && na.ring.config == config
    ensures OwnRings(na, nb) && na.ring !in nb.cache.Repr && na.ring !in nb.flight.Repr && na !in nb.Objects()
  {
    var redis := new Node.Redis();
    na := BareNode(a, config, hash, redis, bucketCount, capPerBucket, level2Cap);
    nb := BareNode(b, config, hash, redis, bucketCount, capPerBucket, level2Cap);
  }

  /** The node a discovers b before it has put itself on its ring. */
  method DiscoverFirst(na: Node.Server, nb: Node.Server)
    requires na.ring.View() == EMPTY_RING && na.peers == map[] && na.ring.config.default > 0
    requires nb.selfAddr != [] && nb.selfAddr != na.selfAddr
    modifies na`peers, na.ring`keys, na.ring`hashMap, na.ring`nodeReplicas, na.ring`nodeCounts
    ensures na.ring.Valid() && na.peers == map[nb.selfAddr := nb] && forall k :: na.Pick(k) == nb.selfAddr
  {
    ghost var empty := na.ring.View();
    na.AddService(nb.selfAddr, nb);
    forall k ensures na.Pick(k) == nb.selfAddr {
      OwnsAll(na.ring.hash, empty, nb.selfAddr, na.ring.config.default, na.ring.hash(k));
    }
  }

  /** A Set that is forwarded to a node with nobody on its ring: what is answered, and what is done. */
  method SetForwarded(na: Node.Server, nb: Node.Server, key: Key, data: Bytes) returns (resp: Option<Value>)
    requires na.ring.Valid() && nb.Valid() && nb.ring.keys == []
    requires na.ring !in nb.cache.Repr && na.ring !in nb.flight.Repr
    requires na.Pick(key) == nb.selfAddr && nb.selfAddr != [] && nb.selfAddr != na.selfAddr
    requires nb.selfAddr in na.peers && na.peers[nb.selfAddr] == nb
    modifies na.ring`selfLoad, nb.ring`selfLoad, nb.cache, nb.cache.Repr, nb.redis
    ensures resp == Some(Value.Bytes(data)) && nb.redis.data == old(nb.redis.data)
  {
    ReachesNobody(na, nb, key);
    assert nb.Pick(key) == [];
    ghost var hops;
    resp, hops := na.Set(key, data, [na, nb], nb);
  }

  /** The node b has registered but not yet put itself on its ring, and a has discovered it. A Set at a is
      forwarded to b, which has nowhere to send it. The caller is told it is done, and nothing has been written. */
  method LostSet(a: Addr, b: Addr, key: Key, data: Bytes, config: RingBalance.Config, hash: HashFunc,
                 bucketCount: uint16, capPerBucket: uint16, level2Cap: uint16)
    returns (resp: Option<Value>, redis: Node.Redis)
    requires a != b && b != [] && config.default > 0
    requires bucketCount <= 32768 && capPerBucket < 0xFFFF && level2Cap < 0xFFFF
    ensures resp == Some(Value.Bytes(data)) && redis.data == map[]
  {
    var na, nb := TwoNodes(a, b, config, hash, bucketCount, capPerBucket, level2Cap);
    DiscoverFirst(na, nb);
    resp := SetForwarded(na, nb, key, data);
    redis := nb.redis;
  }
}
