/** When the caches stay current although requests interleave: exactly when no fill brings back a value
    that Redis no longer holds. */
module Freshness {
  import opened Base
  import TwoLevel
  import opened StoreModel
  import opened RingModel
  import opened Cluster
  import opened Steps = Interleaved

  /** Every live copy of k in the store of node a, visible or hidden, is what Redis holds. */
  ghost predicate Current(w: World, a: Addr, k: Key) {
    a in w.stores && Sound(w.stores[a]) && StoreCopies(w.stores[a], k, Held(w.redis, k))
  }

  /** The event fills k into the store of node a, and its answer is not what Redis holds any more. */
  predicate Stale(w: World, ev: Event, a: Addr, k: Key)
    requires Steps.Enabled(w, ev)
  {
    ev.Fill? && w.readers[ev.r].at == a && w.readers[ev.r].key == k
    && var ans := w.flights[a].pcs[ev.r].ans;
       !ans.err && Lasting(ev.now, LONG) && Held(w.redis, k) != Some(ans.val)
  }

  /** The event changes k in Redis. */
  predicate Changes(ev: Event, k: Key) {
    (ev.RedisSet? || ev.RedisDelete?) && ev.key == k
  }

  /** k was changed in Redis, and node a has not deleted its copies since. */
  predicate Gap(es: seq<Event>, a: Addr, k: Key) {
    es != [] && var ev := es[|es| - 1];
                Changes(ev, k) || (ev != CacheDelete(a, k) && Gap(es[..|es| - 1], a, k))
  }

  // ---------------------------------------------------------------------
  // One event
  // ---------------------------------------------------------------------

  /** A fill on its own: copies that are what Redis holds remain so if and only if the fill writes that
      too, or writes a node that is dead at once. */
  lemma FillCurrentIff(st: Store, k: Key, v: Value, t: int64, held: Option<Value>)
    requires Sound(st) && StoreCopies(st, k, held)
    ensures StoreCopies(Step(st, Op.Set(k, v, LONG, t)), k, held) <==> !Lasting(t, LONG) || held == Some(v)
  {
    LiveWriteIff(Op.Set(k, v, LONG, t));
    SetOwnCopies(BucketOf(st, k), Written(Op.Set(k, v, LONG, t)), held);
  }

  /** What the event does to the store of node a, if anything. */
  function StoreOp(w: World, ev: Event, a: Addr): Option<Op>
    requires Steps.Enabled(w, ev)
  {
    match ev
    case Lookup(_, at, key, now, later) => if at == a then Some(Op.Get(key, now, later)) else None
    case Fill(r, now) =>
      var ans := w.flights[w.readers[r].at].pcs[r].ans;
      if w.readers[r].at == a && !ans.err then Some(Op.Set(w.readers[r].key, ans.val, LONG, now)) else None
    case CacheDelete(at, key) => if at == a then Some(Op.Delete(key)) else None
    case Tick(at, now) => if at == a then Some(Op.Tick(now)) else None
    case _ => None
  }

  lemma StoreAfter(w: World, ev: Event, a: Addr)
    requires Steps.Enabled(w, ev) && a in w.stores && |w.stores[a]| > 0
    ensures var st, op := w.stores[a], StoreOp(w, ev, a);
            a in Steps.Next(w, ev).stores
            && Steps.Next(w, ev).stores[a] == if op.Some? then Step(st, op.value) else st
  {
  }

  lemma HeldAfter(w: World, ev: Event, k: Key)
    requires Steps.Enabled(w, ev) && !Changes(ev, k)
    ensures Held(Steps.Next(w, ev).redis, k) == Held(w.redis, k)
  {
  }

  /** Any event that does not change k in Redis keeps node a current unless it is a stale fill. */
  lemma StepCurrentIff(w: World, ev: Event, a: Addr, k: Key)
    requires Steps.Enabled(w, ev) && Current(w, a, k) && !Changes(ev, k)
    ensures Current(Steps.Next(w, ev), a, k) <==> !Stale(w, ev, a, k)
  {
    var op := StoreOp(w, ev, a);
    StoreAfter(w, ev, a);
    HeldAfter(w, ev, k);
    if op.Some? {
      StepSound(w.stores[a], op.value);
      if op.value.Set? && op.value.k == k {
        FillCurrentIff(w.stores[a], k, op.value.v, op.value.now, Held(w.redis, k));
      } else {
        StepKeepsCopies(w.stores[a], op.value, k, Held(w.redis, k));
      }
    }
  }

  /** Deleting the copies closes the gap. */
  lemma DeleteCurrent(w: World, a: Addr, k: Key)
    requires Steps.Enabled(w, CacheDelete(a, k)) && Sound(w.stores[a])
    ensures Current(Steps.Next(w, CacheDelete(a, k)), a, k)
  {
    StepSound(w.stores[a], Op.Delete(k));
    DeleteDropsCopies(w.stores[a], k);
    StoreAfter(w, CacheDelete(a, k), a);
  }

  // ---------------------------------------------------------------------
  // Every run
  // ---------------------------------------------------------------------

  /** At every moment of the run outside the gaps node a was current for k. */
  ghost predicate AlwaysCurrent(w: World, es: seq<Event>, a: Addr, k: Key)
    requires Steps.Possible(w, es)
    decreases |es|
  {
    (Gap(es, a, k) || Current(Steps.After(w, es), a, k)) && (es != [] ==> AlwaysCurrent(w, es[..|es| - 1], a, k))
  }

  /** No fill outside the gaps was stale. */
  ghost predicate NeverStale(w: World, es: seq<Event>, a: Addr, k: Key)
    requires Steps.Possible(w, es)
    decreases |es|
  {
    es != [] ==>
      var before := es[..|es| - 1];
      NeverStale(w, before, a, k) && (Gap(before, a, k) || !Stale(Steps.After(w, before), es[|es| - 1], a, k))
  }

  lemma {:induction false} NodeStays(w: World, es: seq<Event>, a: Addr)
    requires Steps.Fresh(w) && Steps.Possible(w, es) && a in w.stores
    ensures a in Steps.After(w, es).stores && Sound(Steps.After(w, es).stores[a])
  {
    Steps.InvHolds(w, es);
    if es != [] {
      NodeStays(w, es[..|es| - 1], a);
      StoreAfter(Steps.After(w, es[..|es| - 1]), es[|es| - 1], a);
    }
    assert a in Steps.After(w, es).stores ==> StoreFromPast(Steps.After(w, es).stores[a], Steps.After(w, es).past);
  }

  /** In every interleaving, under any changes of the ring: outside the gaps between a change in Redis and
      the deletion of the node's copies, the node's copies of a key are what Redis holds, at every
      moment of the run, if and only if no fill outside the gaps carries an answer that Redis has since
      replaced or dropped. */
  lemma {:induction false} CurrentIff(w: World, es: seq<Event>, a: Addr, k: Key)
    requires Steps.Fresh(w) && Steps.Possible(w, es) && a in w.stores
    ensures AlwaysCurrent(w, es, a, k) <==> NeverStale(w, es, a, k)
  {
    if es == [] {
      assert Empty(w.stores[a]);
    } else {
      var before, ev := es[..|es| - 1], es[|es| - 1];
      CurrentIff(w, before, a, k);
      NodeStays(w, before, a);
      var x := Steps.After(w, before);
      if ev == CacheDelete(a, k) {
        DeleteCurrent(x, a, k);
      } else if !Changes(ev, k) && Current(x, a, k) {
        StepCurrentIff(x, ev, a, k);
      }
    }
  }

  /** What a caller gets: if no fill was stale, a lookup outside the gaps that hits answers what Redis
      holds at that moment. */
  lemma HitsAreCurrent(w: World, es: seq<Event>, a: Addr, k: Key, now: int64, later: int64)
    requires Steps.Fresh(w) && Steps.Possible(w, es) && a in w.stores
    requires NeverStale(w, es, a, k) && !Gap(es, a, k)
    ensures var x := Steps.After(w, es);
            && a in x.stores && |x.stores[a]| > 0
            && var hit := TwoLevel.Get(BucketOf(x.stores[a], k), k, now, later).hit;
               hit.Some? ==> hit == Held(x.redis, k)
  {
    CurrentIff(w, es, a, k);
    var x := Steps.After(w, es);
    assert Current(x, a, k);
    TwoLevel.GetAt(BucketOf(x.stores[a], k), k, now, later, k);
  }
}
