/** The cache-aside cluster as a value: every node's store and the Redis map, with requests that take
    effect one at a time at the node that owns their key. */
module Cluster {
  import opened Base
  import opened Recency
  import TwoLevel
  import opened StoreModel
  import opened Guarantees
  import opened RingModel
  import opened RingOwners

  type Bytes = seq<Byte>
  type RedisMap = map<Key, Bytes>

  /** The lifetime Set gives an entry, in nanoseconds. */
  const LONG: int64 := 9999999999999999

  // ---------------------------------------------------------------------
  // Requests at the node that owns the key
  // ---------------------------------------------------------------------

  /** What the node answers, or nothing for an error. */
  datatype Served = Served(store: Store, resp: Option<Value>)

  /** What Redis holds for the key, if anything. */
  function Held(redis: RedisMap, key: Key): Option<Value> {
    if key in redis then Some(Value.Bytes(redis[key])) else None
  }

  /** Get: the cache, and on a miss what Do answers, which is put in the cache. */
  function ServeGet(st: Store, found: Option<Value>, key: Key, now: int64, later: int64, fill: int64): Served
    requires |st| > 0
  {
    var o := TwoLevel.Get(BucketOf(st, key), key, now, later);
    var st1 := Step(st, Op.Get(key, now, later));
    if o.hit.Some? then Served(st1, o.hit)
    else if found.Some? then Served(Step(st1, Op.Set(key, found.value, LONG, fill)), found)
    else Served(st1, None)
  }

  // ---------------------------------------------------------------------
  // The cluster
  // ---------------------------------------------------------------------

  datatype State = State(stores: map<Addr, Store>, redis: RedisMap)

  /** A request issued at node `at`, or a cleanup tick of the node's own store. */
  datatype Request =
    | Get(at: Addr, key: Key, now: int64, later: int64, fill: int64)
    | Set(at: Addr, key: Key, data: Bytes)
    | Delete(at: Addr, key: Key)
    | Tick(at: Addr, now: int64)

  /** The agreed ring, as the function from keys to owners that every node computes. */
  type Owner = Key -> Addr

  ghost predicate Ready(owner: Owner, s: State) {
    && (forall k :: owner(k) in s.stores)
    && (forall a :: a in s.stores ==> Sound(s.stores[a]))
  }

  function Handle(owner: Owner, s: State, r: Request): (State, Option<Value>)
    requires forall k :: owner(k) in s.stores
    requires forall a :: a in s.stores ==> |s.stores[a]| > 0
  {
    match r
    case Get(_, key, now, later, fill) =>
      var o := owner(key);
      var g := ServeGet(s.stores[o], Held(s.redis, key), key, now, later, fill);
      (s.(stores := s.stores[o := g.store]), g.resp)
    case Set(_, key, data) =>
      var o := owner(key);
      (State(s.stores[o := Step(s.stores[o], Op.Delete(key))], s.redis[key := data]), Some(Value.Bytes(data)))
    case Delete(_, key) =>
      var o := owner(key);
      (State(s.stores[o := Step(s.stores[o], Op.Delete(key))], s.redis - {key}), Some(Nil))
    case Tick(at, now) =>
      (if at in s.stores then s.(stores := s.stores[at := Step(s.stores[at], Op.Tick(now))]) else s, None)
  }

  // ---------------------------------------------------------------------
  // Every copy in a store
  // ---------------------------------------------------------------------

  /** Every live copy of k in the bucket, in either level, has value v. */
  ghost predicate CopiesAre(b: TwoLevel.Bucket, k: Key, v: Option<Value>) {
    && (HasLive(b.l1, k) ==> v == Some(At(b.l1, k).v))
    && (HasLive(b.l2, k) ==> v == Some(At(b.l2, k).v))
  }

  lemma CopiesCarry(b: TwoLevel.Bucket, b': TwoLevel.Bucket, k: Key, v: Option<Value>)
    requires CopiesAre(b, k, v) && CopiesFrom(b, b', k)
    ensures CopiesAre(b', k, v)
  {
  }

  /** Reading a key makes no new copies of it. */
  lemma GetOwnCopies(b: TwoLevel.Bucket, k: Key, now: int, later: int)
    requires TwoLevel.WellFormed(b)
    ensures CopiesFrom(b, TwoLevel.Get(b, k, now, later).b, k)
  {
    DelAt(b.l1, k, k);
    if HasLive(b.l1, k) {
      var b1 := b.(l1 := Del(b.l1, k));
      DelAt(b1.l1, k, k);
      DelAt(b1.l2, k, k);
      PutAt(b.l2, b.c2, At(b.l1, k), k);
    } else {
      TouchAt(b.l2, k, k);
      DelAt(Touch(b.l2, k), k, k);
    }
  }

  /** A live write leaves every copy of its key with value v exactly when it writes v, a dead one in any case. */
  lemma SetOwnCopies(b: TwoLevel.Bucket, n: Node, v: Option<Value>)
    requires TwoLevel.WellFormed(b) && CopiesAre(b, n.k, v)
    ensures CopiesAre(TwoLevel.Set(b, n).b, n.k, v) <==> !n.Live() || v == Some(n.v)
  {
    PutAt(b.l1, b.c1, n, n.k);
    TwoLevel.SetOwn(b, n);
  }

  /** No live copy of k anywhere in the store but copies with value v. */
  ghost predicate StoreCopies(st: Store, k: Key, v: Option<Value>)
    requires |st| > 0
  {
    CopiesAre(BucketOf(st, k), k, v)
  }

  /** Operations on the store and the copies of a key. */
  lemma StepKeepsCopies(st: Store, op: Op, k: Key, v: Option<Value>)
    requires Sound(st) && StoreCopies(st, k, v) && !op.Clear?
    requires op.Set? && op.k == k ==> !Written(op).Live() || v == Some(op.v)
    ensures StoreCopies(Step(st, op), k, v)
  {
    var b := BucketOf(st, k);
    if Leaves(op, k) {
      StepCopies(st, op, k);
      CopiesCarry(b, BucketOf(Step(st, op), k), k, v);
    } else {
      match op
      case Get(g, now, later) =>
        GetOwnCopies(b, k, now, later);
        CopiesCarry(b, BucketOf(Step(st, op), k), k, v);
      case Set(g, _, _, _) => SetOwnCopies(b, Written(op), v);
      case Delete(g) => TwoLevel.DeleteAt(b, k, k);
    }
  }

  lemma DeleteDropsCopies(st: Store, k: Key)
    requires Sound(st)
    ensures StoreCopies(Step(st, Op.Delete(k)), k, None)
  {
    TwoLevel.DeleteAt(BucketOf(st, k), k, k);
  }

  // ---------------------------------------------------------------------
  // Coherence
  // ---------------------------------------------------------------------

  /** What every copy of k in the store of node a must be: Redis's value at the owner, and no copy at
      any other node. */
  function Allowed(owner: Owner, redis: RedisMap, a: Addr, k: Key): Option<Value> {
    if owner(k) == a then Held(redis, k) else None
  }

  /** Only owners cache a key, and every live copy, visible or hidden, is Redis's current value. */
  ghost predicate Coherent(owner: Owner, s: State) {
    && Ready(owner, s)
    && forall a, k :: a in s.stores ==> StoreCopies(s.stores[a], k, Allowed(owner, s.redis, a, k))
  }

  lemma GetCoherent(owner: Owner, s: State, r: Request)
    requires Coherent(owner, s) && r.Get?
    ensures Coherent(owner, Handle(owner, s, r).0)
    ensures Handle(owner, s, r).1 == Held(s.redis, r.key)
  {
    var o, key := owner(r.key), r.key;
    var st := s.stores[o];
    var get := Op.Get(key, r.now, r.later);
    TwoLevel.GetAt(BucketOf(st, key), key, r.now, r.later, key);
    assert StoreCopies(st, key, Allowed(owner, s.redis, o, key));
    var st1 := Step(st, get);
    StepSound(st, get);
    if key in s.redis {
      StepSound(st1, Op.Set(key, Value.Bytes(s.redis[key]), LONG, r.fill));
    }
    forall k ensures StoreCopies(Handle(owner, s, r).0.stores[o], k, Allowed(owner, s.redis, o, k)) {
      assert StoreCopies(st, k, Allowed(owner, s.redis, o, k));
      StepKeepsCopies(st, get, k, Allowed(owner, s.redis, o, k));
      if key in s.redis {
        StepKeepsCopies(st1, Op.Set(key, Value.Bytes(s.redis[key]), LONG, r.fill), k, Allowed(owner, s.redis, o, k));
      }
    }
  }

  lemma ChangeCoherent(owner: Owner, s: State, r: Request)
    requires Coherent(owner, s) && (r.Set? || r.Delete?)
    ensures Coherent(owner, Handle(owner, s, r).0)
  {
    var s' := Handle(owner, s, r).0;
    StepSound(s.stores[owner(r.key)], Op.Delete(r.key));
    forall a, k | a in s'.stores ensures StoreCopies(s'.stores[a], k, Allowed(owner, s'.redis, a, k)) {
      ChangeCopies(owner, s, r, a, k);
    }
  }

  /** Set and Delete take effect: Redis has the new value, or none, under the key and is otherwise as before, the
      owner shows no copy, and no other store changes. */
  lemma ChangeTakesEffect(owner: Owner, s: State, r: Request, k: Key, a: Addr)
    requires Coherent(owner, s) && (r.Set? || r.Delete?) && a in s.stores
    ensures var s' := Handle(owner, s, r).0;
            && Held(s'.redis, k) ==
                 (if k != r.key then Held(s.redis, k) else if r.Set? then Some(Value.Bytes(r.data)) else None)
            && owner(r.key) in s'.stores && |s'.stores[owner(r.key)]| > 0
            && Seen(s'.stores[owner(r.key)], r.key) == None
            && (a != owner(r.key) ==> s'.stores[a] == s.stores[a])
  {
    TwoLevel.DeleteAt(BucketOf(s.stores[owner(r.key)], r.key), r.key, r.key);
  }

  /** A Get that misses the cache leaves Redis's value there, for as long as a fill lasts. */
  lemma MissIsCached(owner: Owner, s: State, r: Request)
    requires Coherent(owner, s) && r.Get? && r.key in s.redis && Lasting(r.fill, LONG)
    requires TwoLevel.Get(BucketOf(s.stores[owner(r.key)], r.key), r.key, r.now, r.later).hit == None
    ensures var s' := Handle(owner, s, r).0;
            && owner(r.key) in s'.stores && |s'.stores[owner(r.key)]| > 0
            && Seen(s'.stores[owner(r.key)], r.key) ==
                 Some(Node(r.key, Value.Bytes(s.redis[r.key]), r.fill + LONG))
  {
    var st1, fill := Step(s.stores[owner(r.key)], Op.Get(r.key, r.now, r.later)),
                     Op.Set(r.key, Value.Bytes(s.redis[r.key]), LONG, r.fill);
    StepSound(s.stores[owner(r.key)], Op.Get(r.key, r.now, r.later));
    LiveWriteIff(fill);
    TwoLevel.SetOwn(BucketOf(st1, r.key), Written(fill));
  }

  lemma ChangeCopies(owner: Owner, s: State, r: Request, a: Addr, k: Key)
    requires Coherent(owner, s) && (r.Set? || r.Delete?) && a in s.stores
    ensures var s' := Handle(owner, s, r).0;
            |s'.stores[a]| > 0 && StoreCopies(s'.stores[a], k, Allowed(owner, s'.redis, a, k))
  {
    var before := Allowed(owner, s.redis, a, k);
    assert StoreCopies(s.stores[a], k, before);
    AllowedChange(owner, s, r, a, k);
    if a == owner(r.key) {
      OwnerCopies(s.stores[a], r.key, k, before);
    }
  }

  lemma AllowedChange(owner: Owner, s: State, r: Request, a: Addr, k: Key)
    requires (forall q :: owner(q) in s.stores) && (forall b :: b in s.stores ==> |s.stores[b]| > 0)
    requires (r.Set? || r.Delete?) && a in s.stores
    ensures var s' := Handle(owner, s, r).0;
            && s'.stores[a] == (if a == owner(r.key) then Step(s.stores[a], Op.Delete(r.key)) else s.stores[a])
            && (a != owner(r.key) || k != r.key ==> Allowed(owner, s'.redis, a, k) == Allowed(owner, s.redis, a, k))
  {
  }

  /** Deleting a key drops its copies and keeps those of the others. */
  lemma OwnerCopies(st: Store, d: Key, k: Key, v: Option<Value>)
    requires Sound(st) && StoreCopies(st, k, v)
    ensures var st' := Step(st, Op.Delete(d)); StoreCopies(st', k, v) && (k == d ==> forall u :: StoreCopies(st', k, u))
  {
    StepKeepsCopies(st, Op.Delete(d), k, v);
    if k == d { DeleteDropsCopies(st, k); }
  }

  lemma TickCoherent(owner: Owner, s: State, r: Request)
    requires Coherent(owner, s) && r.Tick?
    ensures Coherent(owner, Handle(owner, s, r).0)
  {
    if r.at in s.stores {
      var st := s.stores[r.at];
      StepSound(st, Op.Tick(r.now));
      forall k ensures StoreCopies(Step(st, Op.Tick(r.now)), k, Allowed(owner, s.redis, r.at, k)) {
        assert StoreCopies(st, k, Allowed(owner, s.redis, r.at, k));
        StepKeepsCopies(st, Op.Tick(r.now), k, Allowed(owner, s.redis, r.at, k));
      }
    }
  }

  /** A tick at a node leaves nothing expired in its store, and touches no other. */
  lemma TickTakesEffect(owner: Owner, s: State, r: Request, i: nat, n: Node, a: Addr)
    requires Coherent(owner, s) && r.Tick? && r.at in s.stores && a in s.stores && a != r.at
    ensures var s' := Handle(owner, s, r).0;
            && s'.redis == s.redis && s'.stores[a] == s.stores[a]
            && (i < |s'.stores[r.at]| && n.Live() && (n in s'.stores[r.at][i].l1 || n in s'.stores[r.at][i].l2) ==>
                  n.expireAt > r.now)
  {
    var st := s.stores[r.at];
    if i < |st| && n.Live() && (n in Step(st, Op.Tick(r.now))[i].l1 || n in Step(st, Op.Tick(r.now))[i].l2) {
      TickLeavesUnexpired(st, r.now, i, n);
    }
  }

  lemma HandleCoherent(owner: Owner, s: State, r: Request)
    requires Coherent(owner, s)
    ensures Coherent(owner, Handle(owner, s, r).0)
  {
    match r
    case Get(_, _, _, _, _) => GetCoherent(owner, s, r);
    case Set(_, _, _) => ChangeCoherent(owner, s, r);
    case Delete(_, _) => ChangeCoherent(owner, s, r);
    case Tick(_, _) => TickCoherent(owner, s, r);
  }

  /** Every node starts with an empty store; Redis may hold anything. */
  ghost predicate Fresh(owner: Owner, s: State) {
    && (forall k :: owner(k) in s.stores)
    && (forall a :: a in s.stores ==> Empty(s.stores[a]))
  }

  ghost function HandleAll(owner: Owner, s: State, rs: seq<Request>): (t: State)
    requires Coherent(owner, s)
    ensures Coherent(owner, t)
  {
    if rs == [] then s
    else
      var before := HandleAll(owner, s, rs[..|rs| - 1]);
      HandleCoherent(owner, before, rs[|rs| - 1]);
      Handle(owner, before, rs[|rs| - 1]).0
  }

  lemma FreshCoherent(owner: Owner, s: State)
    requires Fresh(owner, s)
    ensures Coherent(owner, s)
  {
  }

  /** What Redis holds after the requests: the last Set of each key that no Delete followed. */
  function RedisAfter(redis: RedisMap, rs: seq<Request>): RedisMap {
    if rs == [] then redis
    else
      var before, r := RedisAfter(redis, rs[..|rs| - 1]), rs[|rs| - 1];
      if r.Set? then before[r.key := r.data] else if r.Delete? then before - {r.key} else before
  }

  lemma {:induction false} RedisTracks(owner: Owner, s: State, rs: seq<Request>)
    requires Coherent(owner, s)
    ensures HandleAll(owner, s, rs).redis == RedisAfter(s.redis, rs)
  {
    if rs != [] { RedisTracks(owner, s, rs[..|rs| - 1]); }
  }

  /** Cluster coherence: after any run of requests issued at any nodes, with cleanup ticks anywhere
      and any clock readings, a Get answers exactly Redis's current value, or an error when Redis has
      none; and only the owner holds live copies of a key. */
  lemma ClusterCoherent(owner: Owner, s: State, rs: seq<Request>, r: Request)
    requires Fresh(owner, s) && r.Get?
    ensures Coherent(owner, s)
    ensures var t := HandleAll(owner, s, rs);
            && t.redis == RedisAfter(s.redis, rs)
            && Handle(owner, t, r).1 == Held(t.redis, r.key)
            && (forall a, k :: a in t.stores && a != owner(k) ==> Seen(t.stores[a], k) == None)
  {
    FreshCoherent(owner, s);
    var t := HandleAll(owner, s, rs);
    RedisTracks(owner, s, rs);
    GetCoherent(owner, t, r);
    forall a, k | a in t.stores && a != owner(k) ensures Seen(t.stores[a], k) == None {
      assert StoreCopies(t.stores[a], k, Allowed(owner, t.redis, a, k));
    }
  }

  /** An agreed ring with a virtual node, all of whose members are nodes of the cluster, routes every
      key to a node of the cluster. */
  lemma RingRoutesInside(hash: HashFunc, r: Ring, nodes: set<Addr>, k: Key)
    requires Conserved(hash, r) && Exact(hash, r) && r.keys != [] && r.replicas.Keys <= nodes
    ensures Route(r, hash(k)) in nodes
  {
    RouteIsOwner(hash, r, hash(k), Route(r, hash(k)));
  }

  /** Cluster coherence, for the routing an agreed ring gives. */
  lemma RingClusterCoherent(hash: HashFunc, ring: Ring, owner: Owner, s: State, rs: seq<Request>, r: Request)
    requires Conserved(hash, ring) && Exact(hash, ring) && ring.keys != [] && ring.replicas.Keys <= s.stores.Keys
    requires forall k :: owner(k) == Route(ring, hash(k))
    requires (forall a :: a in s.stores ==> Empty(s.stores[a])) && r.Get?
    ensures Coherent(owner, s)
    ensures var t := HandleAll(owner, s, rs);
            && Handle(owner, t, r).1 == Held(t.redis, r.key)
            && (forall a, k :: a in t.stores && a != Route(ring, hash(k)) ==> Seen(t.stores[a], k) == None)
  {
    forall k ensures owner(k) in s.stores {
      RingRoutesInside(hash, ring, s.stores.Keys, k);
    }
    ClusterCoherent(owner, s, rs, r);
  }
}
