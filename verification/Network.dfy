/** The nodes of a cluster as objects: a request at any of them takes the step of the cluster model. */
module Network {
  import opened Base
  import opened StoreModel
  import opened RingModel
  import opened Cluster
  import Node = Server
  import ConsistentHash

  /** The nodes by address, the Redis they share, and the owner their rings give each key. */
  datatype Net = Net(nodes: map<Addr, Node.Server>, redis: Node.Redis, owner: Owner)

  /** The node can serve. */
  ghost predicate Serving(net: Net, a: Addr)
    requires a in net.nodes
    reads net.nodes[a].cache, net.nodes[a].cache.Repr, net.nodes[a].flight, net.nodes[a].flight.Repr,
        net.nodes[a].ring`keys
  {
    var n := net.nodes[a];
    n.selfAddr == a && n.redis == net.redis && n.Valid()
  }

  /** Node n is connected to p, and shares nothing with it that a request at p changes. */
  ghost predicate Apart(n: Node.Server, p: Node.Server)
    reads n`peers, n.flight`Repr, p.flight`Repr
  {
    && p.selfAddr in n.peers && n.peers[p.selfAddr] == p
    && n.Objects() !! p.Objects() && n.ring !in p.Objects() && n !in p.Objects()
  }

  /** The nodes agree on the owner of every key, and it is one of them. */
  ghost predicate Agreed(net: Net)
    reads set a <- net.nodes :: net.nodes[a].ring
  {
    && (forall a, k :: a in net.nodes ==> net.nodes[a].Pick(k) == net.owner(k))
    && (forall k :: net.owner(k) in net.nodes && net.owner(k) != [])
  }

  ghost predicate Linked(net: Net)
    reads *
  {
    && (forall a {:trigger Serving(net, a)} :: a in net.nodes ==> Serving(net, a))
    && (forall a, b {:trigger Apart(net.nodes[a], net.nodes[b])} :: a in net.nodes && b in net.nodes && a != b ==>
        Apart(net.nodes[a], net.nodes[b]))
    && Agreed(net)
  }

  lemma EveryStore(net: Net)
    requires Linked(net)
    ensures forall a :: a in net.nodes ==> |net.nodes[a].cache.view| > 0
  {
    forall a | a in net.nodes ensures |net.nodes[a].cache.view| > 0 { assert Serving(net, a); }
  }

  /** The cluster the nodes show. */
  ghost function View(net: Net): (s: State)
    requires Linked(net)
    reads *
    ensures s.redis == net.redis.data && s.stores.Keys == net.nodes.Keys && forall a :: a in net.nodes ==>
        s.stores[a] == net.nodes[a].cache.view
    ensures (forall k :: net.owner(k) in s.stores) && (forall a :: a in s.stores ==> |s.stores[a]| > 0)
  {
    EveryStore(net);
    State(map a | a in net.nodes :: net.nodes[a].cache.view, net.redis.data)
  }

  /** Everything a request at node o leaves alone: the nodes, and what the others are made of. */
  ghost function Others(net: Net, o: Addr): set<object>
    reads set a <- net.nodes :: net.nodes[a].flight
  {
    (set a | a in net.nodes :: net.nodes[a] as object)
    + (set a, x | a in net.nodes && a != o && x in net.nodes[a].Objects() :: x)
  }

  ghost function Rings(net: Net): set<ConsistentHash.Map> {
    set a | a in net.nodes :: net.nodes[a].ring
  }

  /** Work on node o. */
  twostate predicate Elsewhere(net: Net, new o: Addr)
    requires o in net.nodes
    reads *
  {
    && unchanged(old(Others(net, o))) && (forall r :: r in Rings(net) ==> r.View() == old(r.View()))
    && fresh(net.nodes[o].flight.Repr - old(net.nodes[o].flight.Repr))
  }

  /** Work on one node leaves the others as they were. */
  twostate lemma OthersStay(net: Net, new o: Addr)
    requires old(Linked(net)) && o in net.nodes && Elsewhere(net, o)
    ensures forall a {:trigger Serving(net, a)} :: a in net.nodes && a != o ==> Serving(net, a)
    ensures forall a {:trigger Serving(net, a)} :: a in net.nodes && a != o ==>
        net.nodes[a].cache.view == old(net.nodes[a].cache.view)
  {
    forall a | a in net.nodes && a != o
        ensures Serving(net, a) && net.nodes[a].cache.view == old(net.nodes[a].cache.view) {
      assert old(Serving(net, a)) && net.nodes[a].ring in Rings(net);
      assert old(net.nodes[a].Objects()) <= old(Others(net, o));
    }
  }

  twostate lemma StayApart(net: Net, new o: Addr)
    requires old(Linked(net)) && o in net.nodes && Elsewhere(net, o)
    ensures forall a, b {:trigger Apart(net.nodes[a], net.nodes[b])} ::
        a in net.nodes && b in net.nodes && a != b ==> Apart(net.nodes[a], net.nodes[b])
  {
    forall a | a in net.nodes && a != o ensures net.nodes[a].Objects() == old(net.nodes[a].Objects()) {
      assert old(net.nodes[a].Objects()) <= old(Others(net, o));
    }
    forall a, b | a in net.nodes && b in net.nodes && a != b ensures Apart(net.nodes[a], net.nodes[b]) {
      assert old(Apart(net.nodes[a], net.nodes[b])) && old(Serving(net, a)) && old(Serving(net, b));
      assert net.nodes[a] in old(Others(net, o));
    }
  }

  /** The way of a request: at most one forward. */
  ghost function Path(net: Net, at: Addr, o: Addr): seq<Node.Server>
    requires at in net.nodes && o in net.nodes
  {
    if at == o then [net.nodes[at]] else [net.nodes[at], net.nodes[o]]
  }

  lemma PathRings(net: Net, at: Addr, o: Addr)
    requires at in net.nodes && o in net.nodes
    ensures Node.Server.Rings(Path(net, at, o)) == {net.nodes[at].ring, net.nodes[o].ring}
  {
    assert [net.nodes[o]][1..] == [] && [net.nodes[at], net.nodes[o]][1..] == [net.nodes[o]];
    assert Node.Server.Rings([net.nodes[o]]) == {net.nodes[o].ring};
  }

  lemma PathReaches(net: Net, at: Addr, key: Key)
    requires Linked(net) && at in net.nodes
    ensures net.owner(key) in net.nodes && Serving(net, net.owner(key))
    ensures net.nodes[at].Reaches(key, Path(net, at, net.owner(key)), net.nodes[net.owner(key)])
    ensures net.nodes[net.owner(key)].Pick(key) != []
    ensures net.nodes[at].Pick(key) != [] && net.nodes[net.owner(key)].redis == net.redis
  {
    var o := net.owner(key);
    assert Serving(net, at) && Serving(net, o);
    if at != o {
      assert Apart(net.nodes[at], net.nodes[o]);
      assert Path(net, at, o)[1..] == [net.nodes[o]];
    }
  }

  /** What a request at node o changes is none of that. */
  lemma Separate(net: Net, o: Addr)
    requires Linked(net) && o in net.nodes
    ensures net.nodes[o].Objects() !! Others(net, o)
    ensures net.redis !in net.nodes[o].Objects() && net.redis !in Others(net, o)
    ensures forall r :: r in Rings(net) ==> r !in net.nodes[o].Objects() && r !in Others(net, o)
  {
    assert Serving(net, o);
    forall x | x in Others(net, o) ensures x !in net.nodes[o].Objects() && x != net.redis {
      if a :| a in net.nodes && a != o && x in net.nodes[a].Objects() {
        assert Apart(net.nodes[a], net.nodes[o]) && Serving(net, a);
      } else {
        var a :| a in net.nodes && x == net.nodes[a];
        if a != o { assert Apart(net.nodes[a], net.nodes[o]); }
      }
    }
    forall r | r in Rings(net) ensures r !in net.nodes[o].Objects() && r !in Others(net, o) {
      var b :| b in net.nodes && net.nodes[b].ring == r;
      forall a | a in net.nodes ensures r !in net.nodes[a].Objects() {
        assert Serving(net, a) && (a != b ==> Apart(net.nodes[b], net.nodes[a]));
      }
    }
  }

  /** The nodes after work on one of them: linked again. */
  twostate lemma StillLinked(net: Net, new o: Addr)
    requires old(Linked(net)) && o in net.nodes && Elsewhere(net, o)
    requires forall a :: a == o ==> Serving(net, a)
    ensures Linked(net)
  {
    OthersStay(net, o);
    StayApart(net, o);
    forall a | a in net.nodes ensures net.nodes[a].ring.View() == old(net.nodes[a].ring.View()) {
      assert net.nodes[a].ring in Rings(net);
    }
  }

  /** And they show its new store. */
  twostate lemma OneStore(net: Net, new o: Addr)
    requires old(Linked(net)) && o in net.nodes && Elsewhere(net, o) && Linked(net)
    ensures View(net).stores == old(View(net)).stores[o := net.nodes[o].cache.view]
  {
    forall a | a in net.nodes && a != o ensures net.nodes[a].cache.view == old(net.nodes[a].cache.view) {
      assert net.nodes[a].cache in old(Others(net, o)) by { assert old(net.nodes[a].Objects()) <= old(Others(net, o)); }
    }
  }

  /** A Get at node n whose way to its owner o is known. */
  method GetAlong(n: Node.Server, ghost o: Node.Server, key: Key, ghost caller: nat, now: int64, later: int64,
      fill: int64, ghost path: seq<Node.Server>)
    returns (resp: Option<Value>, ghost hops: nat)
    requires o.Valid() && n.Reaches(key, path, o) && caller !in o.flight.view.pcs && o.NoWait(key)
    requires Node.Server.Rings(path) == {n.ring, o.ring}
    modifies n.ring`selfLoad, o.ring`selfLoad, o.cache, o.cache.Repr, o.flight
    ensures o.Serves(key, now, later, fill, resp) && hops == |path| - 1
  {
    resp, hops := n.Get(key, caller, now, later, fill, path, o);
  }

  /** And what it leaves alone. */
  method GetBeside(n: Node.Server, ghost o: Node.Server, key: Key, ghost caller: nat, now: int64, later: int64,
      fill: int64, ghost path: seq<Node.Server>, ghost others: set<object>, ghost rings: set<ConsistentHash.Map>)
    returns (resp: Option<Value>, ghost hops: nat)
    requires o.Valid() && n.Reaches(key, path, o) && caller !in o.flight.view.pcs && o.NoWait(key)
    requires Node.Server.Rings(path) == {n.ring, o.ring}
    requires o.Objects() !! others && n.ring !in others && o.ring !in others && forall r <- rings :: r !in o.Objects()
    modifies n.ring`selfLoad, o.ring`selfLoad, o.cache, o.cache.Repr, o.flight
    ensures o.Serves(key, now, later, fill, resp) && hops == |path| - 1
    ensures unchanged(others) && forall r <- rings :: r.View() == old(r.View())
  {
    resp, hops := GetAlong(n, o, key, caller, now, later, fill, path);
  }

  /** A Get at any node is served at the owner, and leaves everything else alone. */
  method GetAt(net: Net, at: Addr, key: Key, ghost o: Addr, ghost caller: nat, now: int64, later: int64, fill: int64)
    returns (resp: Option<Value>, ghost hops: nat)
    requires Linked(net) && at in net.nodes && o == net.owner(key) && o in net.nodes
    requires caller !in net.nodes[o].flight.view.pcs && key !in net.nodes[o].flight.m
    modifies net.nodes[at].ring`selfLoad, net.nodes[o].ring`selfLoad
    modifies net.nodes[o].cache, net.nodes[o].cache.Repr, net.nodes[o].flight
    ensures Serving(net, o) && Elsewhere(net, o) && hops == if o == at then 0 else 1
    ensures Served(net.nodes[o].cache.view, resp) ==
        (assert old(Serving(net, o)); old(net.nodes[o].Answer(key, now, later, fill)))
  {
    ghost var path := Path(net, at, o);
    PathReaches(net, at, key);
    PathRings(net, at, o);
    Separate(net, o);
    resp, hops := GetBeside(net.nodes[at], net.nodes[o], key, caller, now, later, fill, path, Others(net, o),
        Rings(net));
  }

  /** A Get at any node takes the model's step, and is forwarded once unless the node owns the key. */
  method Get(net: Net, at: Addr, key: Key, ghost caller: nat, now: int64, later: int64, fill: int64)
    returns (resp: Option<Value>, ghost hops: nat)
    requires Linked(net) && at in net.nodes && net.owner(key) in net.nodes
    requires caller !in net.nodes[net.owner(key)].flight.view.pcs && key !in net.nodes[net.owner(key)].flight.m
    modifies net.nodes[at].ring`selfLoad, net.nodes[net.owner(key)].ring`selfLoad
    modifies net.nodes[net.owner(key)].cache, net.nodes[net.owner(key)].cache.Repr, net.nodes[net.owner(key)].flight
    ensures Linked(net) && hops == if net.owner(key) == at then 0 else 1
    ensures (View(net), resp) == Handle(net.owner, old(View(net)), Request.Get(at, key, now, later, fill))
  {
    ghost var o := net.owner(key);
    PathReaches(net, at, key);
    resp, hops := GetAt(net, at, key, o, caller, now, later, fill);
    StillLinked(net, o);
    OneStore(net, o);
  }

  /** A Set, or with no data a Delete, at node n whose way to its owner o is known. */
  method ChangeAlong(n: Node.Server, ghost o: Node.Server, key: Key, data: Option<Bytes>, ghost path: seq<Node.Server>)
    returns (resp: Option<Value>, ghost hops: nat)
    requires o.Valid() && n.Reaches(key, path, o) && n.Pick(key) != []
    requires Node.Server.Rings(path) == {n.ring, o.ring}
    modifies n.ring`selfLoad, o.ring`selfLoad, o.cache, o.cache.Repr, o.redis
    ensures o.Changes(key, data) && hops == |path| - 1
    ensures resp == Some(if data.Some? then Value.Bytes(data.value) else Nil)
  {
    if data.Some? {
      resp, hops := n.Set(key, data.value, path, o);
    } else {
      var ok;
      ok, hops := n.Delete(key, path, o);
      resp := if ok then Some(Nil) else None;
    }
  }

  /** And what it leaves alone. */
  method ChangeBeside(n: Node.Server, ghost o: Node.Server, key: Key, data: Option<Bytes>,
                      ghost path: seq<Node.Server>, ghost others: set<object>, ghost rings: set<ConsistentHash.Map>)
    returns (resp: Option<Value>, ghost hops: nat)
    requires o.Valid() && n.Reaches(key, path, o) && n.Pick(key) != []
    requires Node.Server.Rings(path) == {n.ring, o.ring}
    requires o.Objects() !! others && n.ring !in others && o.ring !in others && o.redis !in others
    requires forall r <- rings :: r !in o.Objects()
    modifies n.ring`selfLoad, o.ring`selfLoad, o.cache, o.cache.Repr, o.redis
    ensures o.Changes(key, data) && hops == |path| - 1
    ensures resp == Some(if data.Some? then Value.Bytes(data.value) else Nil)
    ensures unchanged(others) && forall r <- rings :: r.View() == old(r.View())
  {
    resp, hops := ChangeAlong(n, o, key, data, path);
  }

  /** A Set or Delete at any node takes place at the owner, and leaves everything else alone. */
  method ChangeAt(net: Net, at: Addr, key: Key, data: Option<Bytes>, ghost o: Addr)
      returns (resp: Option<Value>, ghost hops: nat)
    requires Linked(net) && at in net.nodes && o == net.owner(key) && o in net.nodes
    modifies net.nodes[at].ring`selfLoad, net.nodes[o].ring`selfLoad
    modifies net.nodes[o].cache, net.nodes[o].cache.Repr, net.redis
    ensures Serving(net, o) && Elsewhere(net, o) && hops == if o == at then 0 else 1
    ensures net.redis.data == if data.Some? then old(net.redis.data)[key := data.value] else old(net.redis.data) - {key}
    ensures net.nodes[o].cache.view != [] && old(net.nodes[o].cache.view) != []
    ensures net.nodes[o].cache.view == Step(old(net.nodes[o].cache.view), Op.Delete(key))
    ensures resp == Some(if data.Some? then Value.Bytes(data.value) else Nil)
  {
    ghost var path := Path(net, at, o);
    PathReaches(net, at, key);
    PathRings(net, at, o);
    Separate(net, o);
    resp, hops := ChangeBeside(net.nodes[at], net.nodes[o], key, data, path, Others(net, o), Rings(net));
  }

  /** A Set or Delete at any node leaves the nodes linked, with the owner's store and Redis changed. */
  method Change(net: Net, at: Addr, key: Key, data: Option<Bytes>, ghost o: Addr)
      returns (resp: Option<Value>, ghost hops: nat)
    requires Linked(net) && at in net.nodes && o == net.owner(key) && o in net.nodes
    modifies net.nodes[at].ring`selfLoad, net.nodes[o].ring`selfLoad
    modifies net.nodes[o].cache, net.nodes[o].cache.Repr, net.redis
    ensures Linked(net) && hops == if o == at then 0 else 1
    ensures var s, s' := old(View(net)), View(net);
            && s'.stores == s.stores[o := Step(s.stores[o], Op.Delete(key))]
            && s'.redis == if data.Some? then s.redis[key := data.value] else s.redis - {key}
    ensures resp == Some(if data.Some? then Value.Bytes(data.value) else Nil)
  {
    resp, hops := ChangeAt(net, at, key, data, o);
    StillLinked(net, o);
    OneStore(net, o);
  }

  /** A Set at any node takes the model's step. */
  method Set(net: Net, at: Addr, key: Key, data: Bytes) returns (resp: Option<Value>, ghost hops: nat)
    requires Linked(net) && at in net.nodes && net.owner(key) in net.nodes
    modifies net.nodes[at].ring`selfLoad, net.nodes[net.owner(key)].ring`selfLoad
    modifies net.nodes[net.owner(key)].cache, net.nodes[net.owner(key)].cache.Repr, net.redis
    ensures Linked(net) && hops == if net.owner(key) == at then 0 else 1
    ensures (View(net), resp) == Handle(net.owner, old(View(net)), Request.Set(at, key, data))
  {
    resp, hops := Change(net, at, key, Some(data), net.owner(key));
  }

  /** A Delete is the model's step once the owner's store and Redis are known. */
  lemma DeleteStep(owner: Owner, s: State, s': State, at: Addr, key: Key)
    requires (forall k :: owner(k) in s.stores) && forall a :: a in s.stores ==> |s.stores[a]| > 0
    requires s'.stores == s.stores[owner(key) := Step(s.stores[owner(key)], Op.Delete(key))]
    requires s'.redis == s.redis - {key}
    ensures (s', Some(Nil)) == Handle(owner, s, Request.Delete(at, key))
  {
  }

  /** A Delete at any node takes the model's step. */
  method Delete(net: Net, at: Addr, key: Key) returns (resp: Option<Value>, ghost hops: nat)
    requires Linked(net) && at in net.nodes && net.owner(key) in net.nodes
    modifies net.nodes[at].ring`selfLoad, net.nodes[net.owner(key)].ring`selfLoad
    modifies net.nodes[net.owner(key)].cache, net.nodes[net.owner(key)].cache.Repr, net.redis
    ensures Linked(net) && hops == if net.owner(key) == at then 0 else 1
    ensures (View(net), resp) == Handle(net.owner, old(View(net)), Request.Delete(at, key))
  {
    resp, hops := Change(net, at, key, None, net.owner(key));
    DeleteStep(net.owner, old(View(net)), View(net), at, key);
  }

  /** A cleanup tick of a node's store, and what it leaves alone. */
  method TickBeside(n: Node.Server, now: int64, ghost others: set<object>, ghost rings: set<ConsistentHash.Map>)
    requires n.Valid() && n.Objects() !! others && forall r <- rings :: r !in n.Objects()
    modifies n.cache, n.cache.Repr
    ensures n.Valid() && n.cache.view != [] && old(n.cache.view) != []
        && n.cache.view == Step(old(n.cache.view), Op.Tick(now))
    ensures unchanged(others) && forall r <- rings :: r.View() == old(r.View())
  {
    n.cache.Tick(now);
  }

  method TickAt(net: Net, at: Addr, now: int64)
    requires Linked(net) && at in net.nodes
    modifies net.nodes[at].cache, net.nodes[at].cache.Repr
    ensures Serving(net, at) && Elsewhere(net, at)
    ensures net.nodes[at].cache.view != [] && old(net.nodes[at].cache.view) != []
    ensures net.nodes[at].cache.view == Step(old(net.nodes[at].cache.view), Op.Tick(now))
  {
    assert Serving(net, at);
    Separate(net, at);
    TickBeside(net.nodes[at], now, Others(net, at), Rings(net));
  }

  /** A cleanup tick of a node's store takes the model's step. */
  method Tick(net: Net, at: Addr, now: int64)
    requires Linked(net) && at in net.nodes
    modifies net.nodes[at].cache, net.nodes[at].cache.Repr
    ensures Linked(net) && View(net) == Handle(net.owner, old(View(net)), Request.Tick(at, now)).0
  {
    TickAt(net, at, now);
    StillLinked(net, at);
    OneStore(net, at);
  }
}
