/** The nodes: each serves the keys it owns from its cache and Redis, and forwards the others to the node
    its ring names, which does the same. */
module Server {
  import opened Base
  import opened StoreModel
  import opened RingModel
  import opened RingOwners
  import opened Cluster
  import Lru2Store
  import ConsistentHash
  import FlightGroup

  class Redis {
    var data: RedisMap

    constructor ()
      ensures data == map[]
    {
      data := map[];
    }
  }

  class Server {
    const selfAddr: Addr
    const ring: ConsistentHash.Map
    const cache: Lru2Store.Lru2Store
    const flight: FlightGroup.Group
    const redis: Redis
    /** The clients to the other nodes. */
    var peers: map<Addr, Server>

    constructor (selfAddr: Addr, ring: ConsistentHash.Map, cache: Lru2Store.Lru2Store, redis: Redis)
      requires cache.Valid() && ring.Valid()
      requires cache !in cache.Repr && ring !in cache.Repr && redis !in cache.Repr
      ensures Valid() && peers == map[]
      ensures this.selfAddr == selfAddr && this.ring == ring && this.cache == cache && this.redis == redis
      ensures fresh(flight) && flight.view.pcs == map[] && flight.m == map[] && flight.Repr == {}
    {
      this.selfAddr, this.ring, this.cache, this.redis := selfAddr, ring, cache, redis;
      flight := new FlightGroup.Group();
      peers := map[];
    }

    /** What serving a request at this node may change, besides Redis. */
    ghost function Objects(): set<object>
      reads flight`Repr
    {
      {cache, flight as object} + cache.Repr + flight.Repr
    }

    ghost predicate Valid()
      reads cache, cache.Repr, flight, flight.Repr, ring`keys
    {
      && cache.Valid() && flight.Valid() && ring.Valid()
      && cache !in cache.Repr && cache !in flight.Repr
      && flight !in cache.Repr && flight !in flight.Repr && flight.Repr !! cache.Repr
      && ring !in cache.Repr && ring !in flight.Repr && redis !in cache.Repr && redis !in flight.Repr
      && this !in cache.Repr && this !in flight.Repr
    }

    /** Nobody has to wait for the key here: no call is in flight for it, or it has been released. */
    ghost predicate NoWait(key: Key)
      reads flight, flight.Repr
      requires flight.Valid()
    {
      key in flight.m ==> flight.ShowsEntry(key) && flight.m[key].done
    }

    /** What Do answers for the key: Redis's value, or the results of a released call. */
    ghost function Found(key: Key): Option<Value>
      reads flight, flight.Repr, redis
      requires flight.Valid() && NoWait(key)
    {
      if key !in flight.m then Held(redis.data, key)
      else if flight.m[key].err then None
      else Some(flight.m[key].val)
    }

    /** What a Get served here answers, and the store it leaves. */
    ghost function Answer(key: Key, now: int64, later: int64, fill: int64): Served
      reads cache, cache.Repr, flight, flight.Repr, redis, ring`keys
      requires Valid() && NoWait(key)
    {
      ServeGet(cache.view, Found(key), key, now, later, fill)
    }

    /** Get at the node that owns the key, after a cache miss: Do answers, and the answer is cached. */
    method Fetch(key: Key, ghost caller: nat, fill: int64) returns (resp: Option<Value>)
      requires Valid() && caller !in flight.view.pcs && NoWait(key)
      modifies cache, cache.Repr, flight
      ensures Valid() && flight.m == old(flight.m) && fresh(flight.Repr - old(flight.Repr))
      ensures resp == if key !in old(flight.m) then Held(old(redis.data), key)
          else if old(flight.m[key].err) then None
          else Some(old(flight.m[key].val))
      ensures cache.view != [] && old(cache.view) != []
      ensures cache.view == if resp.Some? then Step(old(cache.view), Op.Set(key, resp.value, LONG, fill))
          else old(cache.view)
    {
      var val, err := Nil, true;
      if key in redis.data {
        val, err := Value.Bytes(redis.data[key]), false;
      }
      val, err := flight.Do(caller, key, val, err);
      if err {
        return None;
      }
      cache.Set(key, val, fill);
      return Some(val);
    }

    /** Get at the node that owns the key. */
    method GetOwn(key: Key, ghost caller: nat, now: int64, later: int64, fill: int64) returns (resp: Option<Value>)
      requires Valid() && caller !in flight.view.pcs && NoWait(key)
      modifies cache, cache.Repr, flight
      ensures Valid() && flight.m == old(flight.m) && fresh(flight.Repr - old(flight.Repr))
      ensures Served(cache.view, resp) == old(Answer(key, now, later, fill))
    {
      var value, ok := cache.Get(key, now, later);
      if ok {
        return Some(value);
      }
      resp := Fetch(key, caller, fill);
    }

    /** Set at the node that owns the key: Redis first, then the cached copies go. */
    method SetOwn(key: Key, data: Bytes)
      requires Valid()
      modifies cache, cache.Repr, redis
      ensures Valid()
      ensures redis.data == old(redis.data)[key := data] && cache.view == Step(old(cache.view), Op.Delete(key))
    {
      redis.data := redis.data[key := data];
      var _ := cache.Delete(key);
    }

    /** Delete at the node that owns the key. */
    method DeleteOwn(key: Key)
      requires Valid()
      modifies cache, cache.Repr, redis
      ensures Valid()
      ensures redis.data == old(redis.data) - {key} && cache.view == Step(old(cache.view), Op.Delete(key))
    {
      redis.data := redis.data - {key};
      var _ := cache.Delete(key);
    }

    // ---------------------------------------------------------------------
    // Forwarding
    // ---------------------------------------------------------------------

    /** Where this node's ring sends a key; nowhere is the empty address. */
    ghost function Pick(key: Key): Addr
      reads ring`keys, ring`hashMap, ring`nodeReplicas, ring`nodeCounts
    {
      Route(ring.View(), ring.hash(key))
    }

    /** The rings of the nodes of a path. */
    static ghost function Rings(path: seq<Server>): set<ConsistentHash.Map> {
      if path == [] then {} else {path[0].ring} + Rings(path[1..])
    }

    /** A request for the key comes by the path to its owner: each node sends it to a connected peer, which
        is the next, and the last keeps it or has nowhere to send it. The rings need not agree. */
    ghost predicate Reaches(key: Key, path: seq<Server>, owner: Server)
      reads (set p <- path :: p)`peers, (set p <- path :: p.ring)`keys, (set p <- path :: p.ring)`hashMap,
          (set p <- path :: p.ring)`nodeReplicas, (set p <- path :: p.ring)`nodeCounts, owner.flight`Repr
      decreases |path|
    {
      && path != [] && path[0] == this && ring.Valid() && ring !in owner.cache.Repr && ring !in owner.flight.Repr
      && var addr := Pick(key);
         if |path| == 1 then owner == this && (addr == [] || addr == selfAddr)
         else && addr != [] && addr != selfAddr && addr in peers && peers[addr] == path[1]
              && (assert forall p <- path[1..] :: p in path; path[1].Reaches(key, path[1..], owner))
    }

    /** PickPeer: the owner of the key, whether there is one, and whether it is this node. */
    method PickPeer(key: Key) returns (peer: Addr, ok: bool, self: bool)
      requires ring.Valid()
      modifies ring`selfLoad
      ensures peer == Pick(key) && ok == (peer != []) && self == (ok && peer == selfAddr)
    {
      peer := ring.Get(key);
      if peer == [] {
        return [], false, false;
      }
      return peer, true, peer == selfAddr;
    }

    /** What serving a Get leaves at the node that keeps the key. */
    twostate predicate Serves(key: Key, now: int64, later: int64, fill: int64, new resp: Option<Value>)
      requires old(Valid()) && old(NoWait(key))
      reads cache, cache.Repr, flight, flight.Repr, redis, ring
    {
      && Valid() && flight.m == old(flight.m) && fresh(flight.Repr - old(flight.Repr))
      && Served(cache.view, resp) == if Pick(key) == [] then Served(old(cache.view), None)
          else old(Answer(key, now, later, fill))
    }

    /** Get issued at this node: served here, or forwarded along the path to the node that keeps it. An
        error if that node has nobody on its ring. */
    method Get(key: Key, ghost caller: nat, now: int64, later: int64, fill: int64, ghost path: seq<Server>,
        ghost owner: Server)
      returns (resp: Option<Value>, ghost hops: nat)
      requires owner.Valid() && Reaches(key, path, owner) && caller !in owner.flight.view.pcs && owner.NoWait(key)
      modifies Rings(path)`selfLoad, owner.cache, owner.cache.Repr, owner.flight
      ensures owner.Serves(key, now, later, fill, resp) && hops == |path| - 1
      decreases |path|, 1
    {
      var peer, ok, self := Choose(key, path, owner);
      resp, hops := GetFrom(peer, ok, self, key, caller, now, later, fill, path, owner);
    }

    /** The pick leaves whoever serves the request as it was. */
    method Choose(key: Key, ghost path: seq<Server>, ghost owner: Server) returns (peer: Addr, ok: bool, self: bool)
      requires owner.Valid() && Reaches(key, path, owner)
      modifies ring`selfLoad
      ensures peer == Pick(key) && ok == (peer != []) && self == (ok && peer == selfAddr)
      ensures owner.Valid() && Reaches(key, path, owner)
      ensures old(owner.NoWait(key)) ==> owner.NoWait(key) && owner.Found(key) == old(owner.Found(key))
    {
      peer, ok, self := PickFor(key, owner);
    }

    method PickFor(key: Key, ghost owner: Server) returns (peer: Addr, ok: bool, self: bool)
      requires owner.Valid() && ring.Valid() && ring !in owner.cache.Repr && ring !in owner.flight.Repr
      modifies ring`selfLoad
      ensures peer == Pick(key) && ok == (peer != []) && self == (ok && peer == selfAddr)
      ensures owner.Valid()
      ensures old(owner.NoWait(key)) ==> owner.NoWait(key) && owner.Found(key) == old(owner.Found(key))
    {
      peer, ok, self := PickPeer(key);
      assert owner.flight.m == old(owner.flight.m) && owner.redis.data == old(owner.redis.data);
    }

    /** Get once the peer is picked. */
    method GetFrom(peer: Addr, ok: bool, self: bool, key: Key, ghost caller: nat, now: int64, later: int64, fill: int64,
                   ghost path: seq<Server>, ghost owner: Server)
      returns (resp: Option<Value>, ghost hops: nat)
      requires peer == Pick(key) && ok == (peer != []) && self == (ok && peer == selfAddr)
      requires owner.Valid() && Reaches(key, path, owner) && caller !in owner.flight.view.pcs && owner.NoWait(key)
      modifies Rings(path)`selfLoad, owner.cache, owner.cache.Repr, owner.flight
      ensures owner.Serves(key, now, later, fill, resp) && hops == |path| - 1
      decreases |path|, 0
    {
      hops := 0;
      if !ok {
        resp := None;
      } else if self {
        resp := GetOwn(key, caller, now, later, fill);
      } else {
        resp, hops := peers[peer].Get(key, caller, now, later, fill, path[1..], owner);
        hops := hops + 1;
      }
    }

    /** What serving a Set, or with no data a Delete, leaves at the node that keeps the key. */
    twostate predicate Changes(key: Key, data: Option<Bytes>)
      reads cache, cache.Repr, flight, flight.Repr, redis, ring
    {
      && Valid()
      && if Pick(key) == [] then redis.data == old(redis.data) && cache.view == old(cache.view)
         else && redis.data == (if data.Some? then old(redis.data)[key := data.value] else old(redis.data) - {key})
              && cache.view != [] && old(cache.view) != [] && cache.view == Step(old(cache.view), Op.Delete(key))
    }

    /** Set issued at this node. An error only if this node has nobody on its ring: what a peer answers is
        not looked at, so if the last node of the path has nobody the caller is told all is well. */
    method Set(key: Key, data: Bytes, ghost path: seq<Server>, ghost owner: Server)
      returns (resp: Option<Value>, ghost hops: nat)
      requires owner.Valid() && Reaches(key, path, owner)
      modifies Rings(path)`selfLoad, owner.cache, owner.cache.Repr, owner.redis
      ensures owner.Changes(key, Some(data)) && hops == |path| - 1
      ensures resp == if old(Pick(key)) == [] then None else Some(Value.Bytes(data))
      decreases |path|, 1
    {
      var peer, ok, self := Choose(key, path, owner);
      hops := SetFrom(peer, ok, self, key, data, path, owner);
      resp := if ok then Some(Value.Bytes(data)) else None;
    }

    /** Set once the peer is picked. */
    method SetFrom(peer: Addr, ok: bool, self: bool, key: Key, data: Bytes, ghost path: seq<Server>,
        ghost owner: Server)
      returns (ghost hops: nat)
      requires peer == Pick(key) && ok == (peer != []) && self == (ok && peer == selfAddr)
      requires owner.Valid() && Reaches(key, path, owner)
      modifies Rings(path)`selfLoad, owner.cache, owner.cache.Repr, owner.redis
      ensures owner.Changes(key, Some(data)) && hops == |path| - 1
      decreases |path|, 0
    {
      hops := 0;
      if self {
        SetOwn(key, data);
      } else if ok {
        var _, n := peers[peer].Set(key, data, path[1..], owner);
        hops := n + 1;
      }
    }

    /** Delete issued at this node. */
    method Delete(key: Key, ghost path: seq<Server>, ghost owner: Server) returns (ok: bool, ghost hops: nat)
      requires owner.Valid() && Reaches(key, path, owner)
      modifies Rings(path)`selfLoad, owner.cache, owner.cache.Repr, owner.redis
      ensures owner.Changes(key, None) && hops == |path| - 1 && ok == (old(Pick(key)) != [])
      decreases |path|, 1
    {
      var peer, picked, self := Choose(key, path, owner);
      hops := DeleteFrom(peer, picked, self, key, path, owner);
      ok := picked;
    }

    /** Delete once the peer is picked. */
    method DeleteFrom(peer: Addr, ok: bool, self: bool, key: Key, ghost path: seq<Server>, ghost owner: Server)
      returns (ghost hops: nat)
      requires peer == Pick(key) && ok == (peer != []) && self == (ok && peer == selfAddr)
      requires owner.Valid() && Reaches(key, path, owner)
      modifies Rings(path)`selfLoad, owner.cache, owner.cache.Repr, owner.redis
      ensures owner.Changes(key, None) && hops == |path| - 1
      decreases |path|, 0
    {
      hops := 0;
      if self {
        DeleteOwn(key);
      } else if ok {
        var _, n := peers[peer].Delete(key, path[1..], owner);
        hops := n + 1;
      }
    }

    // ---------------------------------------------------------------------
    // Service discovery
    // ---------------------------------------------------------------------

    /** Every other member of the ring is connected. */
    ghost predicate Wired()
      reads `peers, ring`nodeReplicas
    {
      forall a :: a in ring.nodeReplicas && a != selfAddr ==> a in peers
    }

    /** A node that has appeared is put on the ring and connected. */
    method AddService(addr: Addr, peer: Server)
      requires ring.Valid() && Wired()
      modifies `peers, ring`keys, ring`hashMap, ring`nodeReplicas, ring`nodeCounts
      ensures ring.Valid() && Wired()
      ensures if addr == [] || addr == selfAddr then peers == old(peers) && ring.View() == old(ring.View())
              else && peers == old(peers)[addr := peer]
                   && ring.View() == RingStep(ring.hash, ring.config.default, old(ring.View()), AddOp(addr))
    {
      if addr != [] && addr != selfAddr {
        peers := peers[addr := peer];
        ring.Add(addr);
      }
    }

    /** A node that has gone is disconnected and taken off the ring. */
    method RemoveService(addr: Addr)
      requires ring.Valid() && Wired()
      modifies `peers, ring`keys, ring`hashMap, ring`nodeReplicas, ring`nodeCounts
      ensures ring.Valid() && Wired()
      ensures if addr == [] || addr == selfAddr then peers == old(peers) && ring.View() == old(ring.View())
              else && peers == old(peers) - {addr}
                   && ring.View() == RingStep(ring.hash, ring.config.default, old(ring.View()), RemoveOp(addr))
    {
      if addr != [] && addr != selfAddr {
        peers := peers - {addr};
        ring.Remove(addr);
      }
    }

    /** With an exact ring a wired node never picks a peer it is not connected to. */
    lemma PicksConnected(key: Key)
      requires Wired() && Conserved(ring.hash, ring.View()) && Exact(ring.hash, ring.View())
      ensures Pick(key) == [] || Pick(key) == selfAddr || Pick(key) in peers
    {
      if ring.keys != [] {
        RouteIsOwner(ring.hash, ring.View(), ring.hash(key), Pick(key));
      }
    }
  }
}
