/** The cluster with requests broken into their steps and interleaved at will: cache lookup, flight,
    Redis read and cache fill for Get; Redis write and cache deletion, separately, for Set and Delete.
    The ring may change at any time, so any node may serve any key. */
module Interleaved {
  import opened Base
  import opened Recency
  import TwoLevel
  import opened StoreModel
  import opened Guarantees
  import opened RingModel
  import opened Cluster
  import Flight = SingleFlight

  /** A Get request after its cache lookup. */
  datatype Reader =
    | InFlight(at: Addr, key: Key, read: Option<Flight.Answer>)  // in Do; read is what fn got from Redis
    | Answered(key: Key, resp: Option<Value>)

  /** The cluster, with all that Redis has held for each key so far: values, or nothing. */
  datatype World = World(
    stores: map<Addr, Store>,
    redis: RedisMap,
    past: map<Key, set<Option<Value>>>,
    flights: map<Addr, Flight.State>,
    readers: map<nat, Reader>)

  datatype Event =
    | Lookup(r: nat, at: Addr, key: Key, now: int64, later: int64)  // Get's cache lookup; on a miss it calls Do
    | FlightStep(at: Addr, e: Flight.Event)                         // any step of Do but its entry
    | ReadRedis(r: nat)                                             // fn reads Redis
    | Fill(r: nat, now: int64)                                      // Do has returned: answer, and fill the cache
    | RedisSet(key: Key, data: Bytes)
    | RedisDelete(key: Key)
    | CacheDelete(at: Addr, key: Key)
    | Tick(at: Addr, now: int64)

  /** A key that Redis has never had a value for has always had none. */
  function PastOf(past: map<Key, set<Option<Value>>>, k: Key): set<Option<Value>> {
    if k in past then past[k] else {None}
  }

  /** What a caller of Do makes of its answer: a value, or an error. */
  function RespOf(ans: Flight.Answer): Option<Value> {
    if ans.err then None else Some(ans.val)
  }

  predicate Enabled(w: World, ev: Event) {
    match ev
    case Lookup(r, at, key, now, later) =>
      r !in w.readers && at in w.stores && |w.stores[at]| > 0 && at in w.flights && r !in w.flights[at].pcs
    case FlightStep(at, e) =>
      && at in w.flights && Flight.Enabled(w.flights[at], e) && !e.Enter?
      && (e.RunFn? ==>
            && e.t in w.readers && w.readers[e.t].InFlight? && w.readers[e.t].at == at
            && w.readers[e.t].read == Some(e.ans))
    case ReadRedis(r) =>
      && r in w.readers && w.readers[r].InFlight? && w.readers[r].read == None && w.readers[r].at in w.flights
      && r in w.flights[w.readers[r].at].pcs && w.flights[w.readers[r].at].pcs[r].Stored?
    case Fill(r, now) =>
      && r in w.readers && w.readers[r].InFlight? && w.readers[r].at in w.flights
      && w.readers[r].at in w.stores && |w.stores[w.readers[r].at]| > 0
      && r in w.flights[w.readers[r].at].pcs && w.flights[w.readers[r].at].pcs[r].Returned?
    case RedisSet(_, _) => true
    case RedisDelete(_) => true
    case CacheDelete(at, _) => at in w.stores && |w.stores[at]| > 0
    case Tick(at, _) => at in w.stores && |w.stores[at]| > 0
  }

  function Next(w: World, ev: Event): World
    requires Enabled(w, ev)
  {
    match ev
    case Lookup(r, at, key, now, later) =>
      var st := w.stores[at];
      var hit := TwoLevel.Get(BucketOf(st, key), key, now, later).hit;
      var w1 := w.(stores := w.stores[at := Step(st, Op.Get(key, now, later))]);
      if hit.Some? then w1.(readers := w.readers[r := Answered(key, hit)])
      else w1.(readers := w.readers[r := InFlight(at, key, None)],
               flights := w.flights[at := Flight.Next(w.flights[at], Flight.Event.Enter(r, key))])
    case FlightStep(at, e) =>
      w.(flights := w.flights[at := Flight.Next(w.flights[at], e)])
    case ReadRedis(r) =>
      var key := w.readers[r].key;
      w.(readers := w.readers[r := w.readers[r].(read := Some(
        if key in w.redis then Flight.Answer(Value.Bytes(w.redis[key]), false) else Flight.Answer(Nil, true)))])
    case Fill(r, now) =>
      var InFlight(at, key, _) := w.readers[r];
      var ans := w.flights[at].pcs[r].ans;
      if ans.err then w.(readers := w.readers[r := Answered(key, None)])
      else w.(readers := w.readers[r := Answered(key, Some(ans.val))],
              stores := w.stores[at := Step(w.stores[at], Op.Set(key, ans.val, LONG, now))])
    case RedisSet(key, data) =>
      w.(redis := w.redis[key := data], past := w.past[key := PastOf(w.past, key) + {Some(Value.Bytes(data))}])
    case RedisDelete(key) => w.(redis := w.redis - {key}, past := w.past[key := PastOf(w.past, key) + {None}])
    case CacheDelete(at, key) => w.(stores := w.stores[at := Step(w.stores[at], Op.Delete(key))])
    case Tick(at, now) => w.(stores := w.stores[at := Step(w.stores[at], Op.Tick(now))])
  }

  // ---------------------------------------------------------------------
  // No invented values
  // ---------------------------------------------------------------------

  /** Every live copy of k in the bucket has a value Redis has had for k. */
  ghost predicate CopiesFromPast(b: TwoLevel.Bucket, k: Key, past: set<Option<Value>>) {
    && (HasLive(b.l1, k) ==> Some(At(b.l1, k).v) in past)
    && (HasLive(b.l2, k) ==> Some(At(b.l2, k).v) in past)
  }

  ghost predicate AnswerFromPast(ans: Flight.Answer, past: set<Option<Value>>) {
    RespOf(ans) in past
  }

  type Past = map<Key, set<Option<Value>>>

  ghost predicate StoreFromPast(st: Store, past: Past) {
    Sound(st) && forall k :: CopiesFromPast(BucketOf(st, k), k, PastOf(past, k))
  }

  /** Every answer in a flight group is of the past of its key. */
  ghost predicate FlightFromPast(f: Flight.State, past: Past) {
    && Flight.Inv(f)
    && forall c :: c in f.calls && f.calls[c].ans.Some? ==>
        AnswerFromPast(f.calls[c].ans.value, PastOf(past, f.calls[c].key))
  }

  ghost predicate ReaderFromPast(reader: Reader, past: Past) {
    match reader
    case Answered(key, resp) => resp in PastOf(past, key)
    case InFlight(at, key, read) => read.Some? ==> AnswerFromPast(read.value, PastOf(past, key))
  }

  /** A reader in Do is a caller of the flight group of its node, for its key. */
  ghost predicate InGroup(w: World, r: nat)
    requires r in w.readers
  {
    w.readers[r].InFlight? ==>
      var at := w.readers[r].at;
      at in w.flights && r in w.flights[at].pcs && w.flights[at].pcs[r].key == w.readers[r].key
  }

  ghost predicate Inv(w: World) {
    && (forall k :: Held(w.redis, k) in PastOf(w.past, k))
    && (forall a :: a in w.stores ==> StoreFromPast(w.stores[a], w.past))
    && (forall a :: a in w.flights ==> FlightFromPast(w.flights[a], w.past))
    && (forall r :: r in w.readers ==> ReaderFromPast(w.readers[r], w.past) && InGroup(w, r))
  }

  lemma StoreStepCopies(st: Store, op: Op, k: Key, past: set<Option<Value>>)
    requires Sound(st) && CopiesFromPast(BucketOf(st, k), k, past) && !op.Clear?
    requires op.Set? && op.k == k ==> Some(op.v) in past
    ensures CopiesFromPast(BucketOf(Step(st, op), k), k, past)
  {
    var b := BucketOf(st, k);
    if Leaves(op, k) {
      StepCopies(st, op, k);
    } else {
      match op
      case Get(g, now, later) => GetOwnCopies(b, k, now, later);
      case Set(g, _, _, _) =>
        PutAt(b.l1, b.c1, Written(op), k);
        TwoLevel.SetOwn(b, Written(op));
      case Delete(g) => TwoLevel.DeleteAt(b, k, k);
    }
  }

  /** A store operation keeps every copy in the past, provided a written value is. */
  lemma StoreStepKeeps(st: Store, op: Op, past: Past)
    requires StoreFromPast(st, past) && !op.Clear?
    requires op.Set? ==> Some(op.v) in PastOf(past, op.k)
    ensures StoreFromPast(Step(st, op), past)
  {
    StepSound(st, op);
    forall k ensures CopiesFromPast(BucketOf(Step(st, op), k), k, PastOf(past, k)) {
      StoreStepCopies(st, op, k, PastOf(past, k));
    }
  }

  /** A step of Do keeps every answer in the past, provided an answer just computed is. */
  lemma FlightStepKeeps(f: Flight.State, e: Flight.Event, past: Past)
    requires FlightFromPast(f, past) && Flight.Enabled(f, e)
    requires e.RunFn? ==> AnswerFromPast(e.ans, PastOf(past, f.pcs[e.t].key))
    ensures FlightFromPast(Flight.Next(f, e), past)
  {
    Flight.InvStep(f, e);
    var f' := Flight.Next(f, e);
    assert e.RunFn? ==> Flight.CallFits(f, e.t);
    forall c | c in f'.calls && f'.calls[c].ans.Some?
        ensures AnswerFromPast(f'.calls[c].ans.value, PastOf(past, f'.calls[c].key)) {
      if !(e.RunFn? && c == e.t) {
        assert c in f.calls && f.calls[c].ans == f'.calls[c].ans;
      }
    }
  }

  lemma FlightKeys(f: Flight.State, e: Flight.Event, r: nat)
    requires Flight.Enabled(f, e) && r in f.pcs
    ensures r in Flight.Next(f, e).pcs && Flight.Next(f, e).pcs[r].key == f.pcs[r].key
  {
  }

  lemma LookupKeeps(w: World, ev: Event)
    requires Inv(w) && Enabled(w, ev) && ev.Lookup?
    ensures Inv(Next(w, ev))
  {
    var st, get := w.stores[ev.at], Op.Get(ev.key, ev.now, ev.later);
    var w1 := w.(stores := w.stores[ev.at := Step(st, get)]);
    OneStore(w, ev.at, get);
    assert CopiesFromPast(BucketOf(st, ev.key), ev.key, PastOf(w.past, ev.key));
    TwoLevel.GetAt(BucketOf(st, ev.key), ev.key, ev.now, ev.later, ev.key);
    var hit := TwoLevel.Get(BucketOf(st, ev.key), ev.key, ev.now, ev.later).hit;
    if hit.Some? {
      OneReader(w1, ev.r, Answered(ev.key, hit));
    } else {
      NewFlight(w1, ev.r, ev.at, ev.key);
    }
  }

  /** A reader gets its answer. */
  lemma OneReader(w: World, r: nat, reader: Reader)
    requires Inv(w) && reader.Answered? && ReaderFromPast(reader, w.past)
    ensures Inv(w.(readers := w.readers[r := reader]))
  {
    var w' := w.(readers := w.readers[r := reader]);
    forall q | q in w'.readers ensures ReaderFromPast(w'.readers[q], w'.past) && InGroup(w', q) {
      if q != r { assert ReaderFromPast(w.readers[q], w.past) && InGroup(w, q); }
    }
  }

  /** A reader enters Do. */
  lemma NewFlight(w: World, r: nat, at: Addr, key: Key)
    requires Inv(w) && r !in w.readers && at in w.flights && r !in w.flights[at].pcs
    ensures Inv(w.(readers := w.readers[r := InFlight(at, key, None)],
                   flights := w.flights[at := Flight.Next(w.flights[at], Flight.Event.Enter(r, key))]))
  {
    var f' := Flight.Next(w.flights[at], Flight.Event.Enter(r, key));
    var w' := w.(readers := w.readers[r := InFlight(at, key, None)], flights := w.flights[at := f']);
    FlightStepKeeps(w.flights[at], Flight.Event.Enter(r, key), w.past);
    forall q | q in w'.readers ensures ReaderFromPast(w'.readers[q], w'.past) && InGroup(w', q) {
      if q != r { assert ReaderFromPast(w.readers[q], w.past) && InGroup(w, q); }
    }
  }

  lemma FlightKeeps(w: World, ev: Event)
    requires Inv(w) && Enabled(w, ev) && ev.FlightStep?
    ensures Inv(Next(w, ev))
  {
    var w' := Next(w, ev);
    if ev.e.RunFn? { assert ReaderFromPast(w.readers[ev.e.t], w.past) && InGroup(w, ev.e.t); }
    FlightStepKeeps(w.flights[ev.at], ev.e, w.past);
    forall r | r in w'.readers ensures ReaderFromPast(w'.readers[r], w'.past) && InGroup(w', r) {
      assert ReaderFromPast(w.readers[r], w.past) && InGroup(w, r);
      if w.readers[r].InFlight? && w.readers[r].at == ev.at { FlightKeys(w.flights[ev.at], ev.e, r); }
    }
  }

  /** What Do returned to a reader is of the past of its key. */
  lemma ReturnedFromPast(w: World, r: nat)
    requires Inv(w) && r in w.readers && w.readers[r].InFlight?
    requires w.readers[r].at in w.flights && r in w.flights[w.readers[r].at].pcs
    requires w.flights[w.readers[r].at].pcs[r].Returned?
    ensures AnswerFromPast(w.flights[w.readers[r].at].pcs[r].ans, PastOf(w.past, w.readers[r].key))
  {
    var f := w.flights[w.readers[r].at];
    assert InGroup(w, r) && FlightFromPast(f, w.past) && Flight.CallFits(f, r);
  }

  lemma FillKeeps(w: World, ev: Event)
    requires Inv(w) && Enabled(w, ev) && ev.Fill?
    ensures Inv(Next(w, ev))
  {
    var at, key := w.readers[ev.r].at, w.readers[ev.r].key;
    var ans := w.flights[at].pcs[ev.r].ans;
    ReturnedFromPast(w, ev.r);
    if ans.err {
      OneReader(w, ev.r, Answered(key, None));
    } else {
      var set_ := Op.Set(key, ans.val, LONG, ev.now);
      var w1 := w.(stores := w.stores[at := Step(w.stores[at], set_)]);
      OneStore(w, at, set_);
      OneReader(w1, ev.r, Answered(key, Some(ans.val)));
    }
  }

  lemma ReadKeeps(w: World, ev: Event)
    requires Inv(w) && Enabled(w, ev) && ev.ReadRedis?
    ensures Inv(Next(w, ev))
  {
    var w' := Next(w, ev);
    forall r | r in w'.readers ensures ReaderFromPast(w'.readers[r], w'.past) && InGroup(w', r) {
      assert ReaderFromPast(w.readers[r], w.past) && InGroup(w, r);
    }
  }

  /** Gaining past values spoils nothing. */
  lemma PastGrows(w: World, past: Past)
    requires Inv(w) && forall k :: PastOf(w.past, k) <= PastOf(past, k)
    ensures Inv(w.(past := past))
  {
    forall a | a in w.stores ensures StoreFromPast(w.stores[a], past) {
      assert StoreFromPast(w.stores[a], w.past);
    }
    forall a | a in w.flights ensures FlightFromPast(w.flights[a], past) {
      assert FlightFromPast(w.flights[a], w.past);
    }
    forall r | r in w.readers ensures ReaderFromPast(w.readers[r], past) && InGroup(w.(past := past), r) {
      assert ReaderFromPast(w.readers[r], w.past) && InGroup(w, r);
    }
  }

  lemma RedisKeeps(w: World, ev: Event)
    requires Inv(w) && Enabled(w, ev) && (ev.RedisSet? || ev.RedisDelete?)
    ensures Inv(Next(w, ev))
  {
    var past := Next(w, ev).past;
    PastAdds(w.past, ev.key, if ev.RedisSet? then Some(Value.Bytes(ev.data)) else None);
    PastGrows(w, past);
    OnlyRedis(w.(past := past), Next(w, ev));
  }

  lemma PastAdds(past: Past, key: Key, v: Option<Value>)
    ensures forall k :: PastOf(past, k) <= PastOf(past[key := PastOf(past, key) + {v}], k)
    ensures v in PastOf(past[key := PastOf(past, key) + {v}], key)
  {
  }

  lemma OnlyRedis(w: World, w': World)
    requires Inv(w) && w' == w.(redis := w'.redis)
    requires forall k :: Held(w'.redis, k) in PastOf(w.past, k)
    ensures Inv(w')
  {
    forall r | r in w'.readers ensures InGroup(w', r) { assert InGroup(w, r); }
  }

  lemma SweptKeeps(w: World, ev: Event)
    requires Inv(w) && Enabled(w, ev) && (ev.CacheDelete? || ev.Tick?)
    ensures Inv(Next(w, ev))
  {
    OneStore(w, ev.at, if ev.Tick? then Op.Tick(ev.now) else Op.Delete(ev.key));
  }

  /** An operation on the store of one node. */
  lemma OneStore(w: World, at: Addr, op: Op)
    requires Inv(w) && at in w.stores && |w.stores[at]| > 0 && !op.Clear?
    requires op.Set? ==> Some(op.v) in PastOf(w.past, op.k)
    ensures Inv(w.(stores := w.stores[at := Step(w.stores[at], op)]))
  {
    StoreStepKeeps(w.stores[at], op, w.past);
    OnlyStores(w, w.(stores := w.stores[at := Step(w.stores[at], op)]));
  }

  lemma OnlyStores(w: World, w': World)
    requires Inv(w) && w' == w.(stores := w'.stores)
    requires forall a :: a in w'.stores ==> StoreFromPast(w'.stores[a], w.past)
    ensures Inv(w')
  {
    forall r | r in w'.readers ensures InGroup(w', r) { assert InGroup(w, r); }
  }

  lemma InvStep(w: World, ev: Event)
    requires Inv(w) && Enabled(w, ev)
    ensures Inv(Next(w, ev))
  {
    match ev
    case Lookup(_, _, _, _, _) => LookupKeeps(w, ev);
    case FlightStep(_, _) => FlightKeeps(w, ev);
    case ReadRedis(_) => ReadKeeps(w, ev);
    case Fill(_, _) => FillKeeps(w, ev);
    case RedisSet(_, _) => RedisKeeps(w, ev);
    case RedisDelete(_) => RedisKeeps(w, ev);
    case _ => SweptKeeps(w, ev);
  }

  // ---------------------------------------------------------------------
  // Runs
  // ---------------------------------------------------------------------

  /** Empty caches and idle flight groups; Redis may hold anything, and its past is what it holds. */
  ghost predicate Fresh(w: World) {
    && (forall a :: a in w.stores ==> Empty(w.stores[a]))
    && (forall a :: a in w.flights ==> w.flights[a] == Flight.IDLE)
    && w.readers == map[]
    && forall k :: PastOf(w.past, k) == {Held(w.redis, k)}
  }

  predicate Possible(w: World, es: seq<Event>)
    decreases |es|, 0
  {
    es == [] || (Possible(w, es[..|es| - 1]) && Enabled(After(w, es[..|es| - 1]), es[|es| - 1]))
  }

  function After(w: World, es: seq<Event>): World
    requires Possible(w, es)
    decreases |es|, 1
  {
    if es == [] then w else Next(After(w, es[..|es| - 1]), es[|es| - 1])
  }

  lemma {:induction false} InvHolds(w: World, es: seq<Event>)
    requires Fresh(w) && Possible(w, es)
    ensures Inv(After(w, es))
  {
    if es == [] {
      forall a | a in w.stores ensures StoreFromPast(w.stores[a], w.past) {
        assert Empty(w.stores[a]);
      }
    } else {
      InvHolds(w, es[..|es| - 1]);
      InvStep(After(w, es[..|es| - 1]), es[|es| - 1]);
    }
  }

  /** After the first i events Redis held the value for the key, or nothing. */
  ghost predicate HeldAt(w: World, es: seq<Event>, i: int, k: Key, v: Option<Value>) {
    0 <= i <= |es| && Possible(w, es[..i]) && v == Held(After(w, es[..i]).redis, k)
  }

  lemma HeldLater(w: World, es: seq<Event>, n: nat, i: int, k: Key, v: Option<Value>)
    requires n <= |es| && HeldAt(w, es[..n], i, k, v)
    ensures HeldAt(w, es, i, k, v)
  {
    assert es[..n][..i] == es[..i];
  }

  /** An event adds to the past of a key at most what Redis holds after it. */
  lemma PastStep(w: World, ev: Event, k: Key)
    requires Enabled(w, ev)
    ensures PastOf(Next(w, ev).past, k) <= PastOf(w.past, k) + {Held(Next(w, ev).redis, k)}
  {
  }

  /** The recorded past is the true one. */
  lemma {:induction false} PastIsTrue(w: World, es: seq<Event>, k: Key, v: Option<Value>)
    requires Fresh(w) && Possible(w, es) && v in PastOf(After(w, es).past, k)
    ensures exists i :: HeldAt(w, es, i, k, v)
  {
    assert es[..|es|] == es;
    if es == [] {
      assert HeldAt(w, es, 0, k, v);
    } else {
      var n := |es| - 1;
      var before, ev := es[..n], es[n];
      PastStep(After(w, before), ev, k);
      if v in PastOf(After(w, before).past, k) {
        PastIsTrue(w, before, k, v);
        var i :| HeldAt(w, before, i, k, v);
        HeldLater(w, es, n, i, k, v);
      } else {
        assert HeldAt(w, es, |es|, k, v);
      }
    }
  }

  /** No invented answers: whatever the interleaving of lookups, flights, Redis reads, fills, writes,
      deletions and cleanup ticks, at whichever nodes the ring happens to choose, what a Get answers for
      a key is what Redis held for that key at some earlier point of the run: the value, or an error if
      it held none. */
  lemma NoInventedValues(w: World, es: seq<Event>, r: nat)
    requires Fresh(w) && Possible(w, es) && r in After(w, es).readers && After(w, es).readers[r].Answered?
    ensures var Answered(key, resp) := After(w, es).readers[r]; exists i :: HeldAt(w, es, i, key, resp)
  {
    InvHolds(w, es);
    var Answered(key, resp) := After(w, es).readers[r];
    assert ReaderFromPast(After(w, es).readers[r], After(w, es).past);
    PastIsTrue(w, es, key, resp);
  }

  /** So while Redis holds a value for a key, no Get of it is answered with an error. */
  lemma HeldIsAnswered(w: World, es: seq<Event>, r: nat)
    requires Fresh(w) && Possible(w, es) && r in After(w, es).readers && After(w, es).readers[r].Answered?
    requires forall i :: 0 <= i <= |es| && Possible(w, es[..i]) ==>
        After(w, es).readers[r].key in After(w, es[..i]).redis
    ensures After(w, es).readers[r].resp.Some?
  {
    NoInventedValues(w, es, r);
    var i :| HeldAt(w, es, i, After(w, es).readers[r].key, After(w, es).readers[r].resp);
  }

  // ---------------------------------------------------------------------
  // What interleaving costs
  // ---------------------------------------------------------------------

  lemma Extend(w: World, es: seq<Event>, ev: Event)
    requires Possible(w, es) && Enabled(After(w, es), ev)
    ensures Possible(w, es + [ev]) && After(w, es + [ev]) == Next(After(w, es), ev)
  {
    assert (es + [ev])[..|es + [ev]| - 1] == es;
  }

  /** Node a has a reader r of key k in flight, whose call is stored and whose fn has read v. */
  ghost predicate HasRead(w: World, a: Addr, r: nat, k: Key, v: Bytes) {
    && a in w.stores && Sound(w.stores[a]) && a in w.flights
    && r in w.readers && w.readers[r] == InFlight(a, k, Some(Flight.Answer(Value.Bytes(v), false)))
    && var f := w.flights[a];
       r in f.pcs && f.pcs[r] == Flight.Stored(k) && r in f.calls && f.calls[r] == Flight.Call(k, None, false)
  }

  /** One step of Do at node a. */
  lemma FlightEvent(w: World, es: seq<Event>, a: Addr, e: Flight.Event)
    requires Possible(w, es) && Enabled(After(w, es), FlightStep(a, e))
    ensures Possible(w, es + [FlightStep(a, e)])
    ensures var x := After(w, es);
            After(w, es + [FlightStep(a, e)]) == x.(flights := x.flights[a := Flight.Next(x.flights[a], e)])
  {
    Extend(w, es, FlightStep(a, e));
  }

  /** A lookup in an empty cache misses and enters Do. */
  lemma ReachMiss(w: World, a: Addr, k: Key, t: int64) returns (es: seq<Event>)
    requires Fresh(w) && a in w.stores && a in w.flights
    ensures Possible(w, es)
    ensures var x := After(w, es);
            && x.redis == w.redis && x.readers == map[0 := InFlight(a, k, None)]
            && a in x.stores && Sound(x.stores[a])
            && a in x.flights && x.flights[a] == Flight.Next(Flight.IDLE, Flight.Event.Enter(0, k))
  {
    var st := w.stores[a];
    StepSound(st, Op.Get(k, t, t));
    TwoLevel.GetAt(BucketOf(st, k), k, t, t, k);
    assert BucketOf(st, k).l1 == [] && BucketOf(st, k).l2 == [];
    es := [Lookup(0, a, k, t, t)];
    Extend(w, [], Lookup(0, a, k, t, t));
    assert [] + es == es;
  }

  /** Two steps of Do at node a. */
  lemma FlightEvents(w: World, es: seq<Event>, a: Addr, e: Flight.Event, e': Flight.Event) returns (es': seq<Event>)
    requires Possible(w, es) && Enabled(After(w, es), FlightStep(a, e)) && !e'.Enter? && !e'.RunFn?
    requires Flight.Enabled(Flight.Next(After(w, es).flights[a], e), e')
    ensures Possible(w, es') && es <= es'
    ensures var x := After(w, es);
            After(w, es') == x.(flights := x.flights[a := Flight.Next(Flight.Next(x.flights[a], e), e')])
  {
    FlightEvent(w, es, a, e);
    es' := es + [FlightStep(a, e)];
    var x := After(w, es');
    FlightEvent(w, es', a, e');
    es' := es' + [FlightStep(a, e')];
  }

  /** And fn reads Redis. */
  lemma ReachRead(w: World, a: Addr, k: Key, t: int64) returns (es: seq<Event>)
    requires Fresh(w) && a in w.stores && a in w.flights && k in w.redis
    ensures Possible(w, es) && HasRead(After(w, es), a, 0, k, w.redis[k])
    ensures After(w, es).redis == w.redis && After(w, es).readers.Keys == {0} && After(w, es).flights[a].pcs.Keys == {0}
  {
    var e1 := ReachMiss(w, a, k, t);
    var e2 := FlightEvents(w, e1, a, Flight.Load(0), Flight.Store(0));
    Extend(w, e2, ReadRedis(0));
    es := e2 + [ReadRedis(0)];
  }

  /** The group after the reader's fn has returned and Do has run to its end. */
  function Finished(f: Flight.State, r: nat, k: Key, ans: Flight.Answer): Flight.State {
    Flight.State(f.pcs[r := Flight.Returned(k, ans, r)], f.m - {k}, f.calls[r := Flight.Call(k, Some(ans), true)])
  }

  lemma FinishSteps(f: Flight.State, r: nat, k: Key, ans: Flight.Answer)
    requires r in f.pcs && f.pcs[r] == Flight.Stored(k) && r in f.calls && f.calls[r] == Flight.Call(k, None, false)
    ensures Flight.Enabled(f, Flight.RunFn(r, ans))
    ensures var f1 := Flight.Next(f, Flight.RunFn(r, ans));
            Flight.Enabled(f1, Flight.Done(r)) &&
            var f2 := Flight.Next(f1, Flight.Done(r));
            Flight.Enabled(f2, Flight.Delete(r)) &&
            var f3 := Flight.Next(f2, Flight.Delete(r));
            Flight.Enabled(f3, Flight.Leave(r)) && Flight.Next(f3, Flight.Leave(r)) == Finished(f, r, k, ans)
  {
  }

  /** The flight of the reader ends and Do returns what it read. */
  lemma ReachReturned(w: World, es: seq<Event>, a: Addr, k: Key, v: Bytes) returns (es': seq<Event>)
    requires Possible(w, es) && HasRead(After(w, es), a, 0, k, v)
    ensures Possible(w, es') && es <= es'
    ensures var x := After(w, es);
            After(w, es') ==
              x.(flights := x.flights[a := Finished(x.flights[a], 0, k, Flight.Answer(Value.Bytes(v), false))])
  {
    var ans := Flight.Answer(Value.Bytes(v), false);
    var x := After(w, es);
    FinishSteps(x.flights[a], 0, k, ans);
    var e1 := FlightEvents(w, es, a, Flight.RunFn(0, ans), Flight.Done(0));
    es' := FlightEvents(w, e1, a, Flight.Delete(0), Flight.Leave(0));
  }

  /** What a fill leaves in a store. */
  lemma FilledStore(st: Store, k: Key, v: Value, t: int64)
    requires Sound(st) && Lasting(t, LONG)
    ensures var st' := Step(st, Op.Set(k, v, LONG, t)); Sound(st') && Seen(st', k) == Some(Node(k, v, t + LONG))
  {
    StepSound(st, Op.Set(k, v, LONG, t));
    LiveWriteIff(Op.Set(k, v, LONG, t));
    TwoLevel.SetOwn(BucketOf(st, k), Written(Op.Set(k, v, LONG, t)));
  }

  /** The reader's node caches the value read and the answer goes out. */
  lemma ReachFilled(w: World, es: seq<Event>, a: Addr, k: Key, v: Bytes, t: int64) returns (es': seq<Event>)
    requires Possible(w, es) && HasRead(After(w, es), a, 0, k, v)
    requires After(w, es).readers.Keys == {0} && After(w, es).flights[a].pcs.Keys == {0}
    requires Lasting(t, LONG)
    ensures Possible(w, es') && es <= es'
    ensures var x := After(w, es');
            && x.redis == After(w, es).redis && x.readers.Keys == {0} && a in x.flights && x.flights[a].pcs.Keys == {0}
            && a in x.stores && Sound(x.stores[a]) && Seen(x.stores[a], k) == Some(Node(k, Value.Bytes(v), t + LONG))
  {
    var e1 := ReachReturned(w, es, a, k, v);
    FilledStore(After(w, es).stores[a], k, Value.Bytes(v), t);
    Extend(w, e1, Fill(0, t));
    es' := e1 + [Fill(0, t)];
  }

  lemma SeenHits(st: Store, k: Key, t: int64)
    requires Sound(st) && Seen(st, k).Some? && t < Seen(st, k).value.expireAt
    ensures TwoLevel.Get(BucketOf(st, k), k, t, t).hit == Some(Seen(st, k).value.v)
  {
    TwoLevel.GetAt(BucketOf(st, k), k, t, t, k);
  }

  /** Coherence needs requests to be atomic: a Get that has read Redis may fill the cache after a Set
      has written Redis and deleted the cached copies, and later Gets then answer the old value. */
  lemma StaleFill(w: World, a: Addr, k: Key, data: Bytes, t: int64) returns (es: seq<Event>)
    requires Fresh(w) && a in w.stores && a in w.flights && k in w.redis && w.redis[k] != data
    requires Lasting(t, LONG)
    ensures Possible(w, es) && RedisSet(k, data) in es && CacheDelete(a, k) in es
    ensures es[|es| - 1] == Lookup(1, a, k, t, t)
    ensures var x := After(w, es);
            && k in x.redis && x.redis[k] == data
            && 1 in x.readers && x.readers[1] == Answered(k, Some(Value.Bytes(w.redis[k])))
            && w.redis[k] != data
  {
    var e3 := ReachChanged(w, a, k, data, t);
    var e4 := ReachFilled(w, e3, a, k, w.redis[k], t);
    es := e4 + [Lookup(1, a, k, t, t)];
    Kept(e3, e4, RedisSet(k, data));
    Kept(e3, e4, CacheDelete(a, k));
    SeenHits(After(w, e4).stores[a], k, t);
    Extend(w, e4, Lookup(1, a, k, t, t));
  }

  /** A reader has read Redis, and a Set of another value has taken place from beginning to end. */
  lemma ReachChanged(w: World, a: Addr, k: Key, data: Bytes, t: int64) returns (es: seq<Event>)
    requires Fresh(w) && a in w.stores && a in w.flights && k in w.redis
    ensures Possible(w, es) && RedisSet(k, data) in es && CacheDelete(a, k) in es
    ensures HasRead(After(w, es), a, 0, k, w.redis[k]) && After(w, es).redis == w.redis[k := data]
    ensures After(w, es).readers.Keys == {0} && After(w, es).flights[a].pcs.Keys == {0}
  {
    var e1 := ReachRead(w, a, k, t);
    var e2 := e1 + [RedisSet(k, data)];
    Extend(w, e1, RedisSet(k, data));
    es := e2 + [CacheDelete(a, k)];
    Extend(w, e2, CacheDelete(a, k));
    StepSound(After(w, e2).stores[a], Op.Delete(k));
    assert es[|e1|] == RedisSet(k, data) && es[|e2|] == CacheDelete(a, k);
  }

  lemma Kept(es: seq<Event>, es': seq<Event>, ev: Event)
    requires ev in es && es <= es'
    ensures ev in es'
  {
    var i :| 0 <= i < |es| && es[i] == ev;
    assert es'[i] == ev;
  }
}
