/** Single requests among interleaved ones: what Redis holds when, that no request gets stuck, and that each is
    answered with what its flight returned. */
module Requests {
  import opened Base
  import opened Recency
  import TwoLevel
  import opened StoreModel
  import opened RingModel
  import opened Cluster
  import opened Interleaved
  import opened Freshness
  import Flight = SingleFlight

  // ---------------------------------------------------------------------
  // Redis
  // ---------------------------------------------------------------------

  /** Redis holds what the last change of the key left there: event i, if nothing after it changes the key. */
  lemma {:induction false} RedisIs(w: World, es: seq<Event>, i: nat, k: Key)
    requires Possible(w, es) && i < |es| && Changes(es[i], k) && forall j :: i < j < |es| ==> !Changes(es[j], k)
    ensures Held(After(w, es).redis, k) == Left(es[i])
  {
    var n := |es| - 1;
    var before := es[..n];
    if i < n {
      assert before[i] == es[i];
      RedisIs(w, before, i, k);
      HeldAfter(After(w, before), es[n], k);
    } else {
      LeftAfter(After(w, before), es[n], k);
    }
  }

  /** What a change leaves under its key. */
  function Left(ev: Event): Option<Value>
    requires ev.RedisSet? || ev.RedisDelete?
  {
    if ev.RedisSet? then Some(Value.Bytes(ev.data)) else None
  }

  lemma LeftAfter(w: World, ev: Event, k: Key)
    requires Enabled(w, ev) && Changes(ev, k)
    ensures Held(Next(w, ev).redis, k) == Left(ev)
  {
  }

  /** And what it held at first, if nothing changes the key. */
  lemma {:induction false} RedisStays(w: World, es: seq<Event>, k: Key)
    requires Possible(w, es) && forall j :: 0 <= j < |es| ==> !Changes(es[j], k)
    ensures Held(After(w, es).redis, k) == Held(w.redis, k)
  {
    if es != [] {
      var n := |es| - 1;
      RedisStays(w, es[..n], k);
      HeldAfter(After(w, es[..n]), es[n], k);
    }
  }

  // ---------------------------------------------------------------------
  // Answers
  // ---------------------------------------------------------------------

  /** A lookup that hits is an answer; any other sends its reader into Do. */
  lemma LookupAnswers(w: World, ev: Event)
    requires Enabled(w, ev) && ev.Lookup?
    ensures var hit := TwoLevel.Get(BucketOf(w.stores[ev.at], ev.key), ev.key, ev.now, ev.later).hit;
            ev.r in Next(w, ev).readers
            && Next(w, ev).readers[ev.r] == if hit.Some? then Answered(ev.key, hit) else InFlight(ev.at, ev.key, None)
  {
  }

  /** A hit leaves the entry at the front of level 2 in that node's cache. */
  lemma LookupMoves(w: World, ev: Event)
    requires Enabled(w, ev) && ev.Lookup? && Sound(w.stores[ev.at])
    requires TwoLevel.Get(BucketOf(w.stores[ev.at], ev.key), ev.key, ev.now, ev.later).hit.Some?
    ensures var st, st' := w.stores[ev.at], Next(w, ev).stores[ev.at];
            && |st'| == |st| && Seen(st, ev.key).Some?
            && BucketOf(st', ev.key).l2 != [] && BucketOf(st', ev.key).l2[0] == Seen(st, ev.key).value
  {
    TwoLevel.HitIff(BucketOf(w.stores[ev.at], ev.key), ev.key, ev.now, ev.later);
    TwoLevel.GetMoves(BucketOf(w.stores[ev.at], ev.key), ev.key, ev.now, ev.later);
  }

  /** A cleanup tick leaves nothing expired in that node's cache. */
  lemma TickSweeps(w: World, ev: Event, i: nat, n: Node)
    requires Enabled(w, ev) && ev.Tick? && Sound(w.stores[ev.at]) && i < |Next(w, ev).stores[ev.at]| && n.Live()
    requires n in Next(w, ev).stores[ev.at][i].l1 || n in Next(w, ev).stores[ev.at][i].l2
    ensures n.expireAt > ev.now
  {
    TickLeavesUnexpired(w.stores[ev.at], ev.now, i, n);
  }

  /** When Do has returned, the reader is answered with the value Do returned, or an error if Do did. */
  lemma FillAnswers(w: World, ev: Event)
    requires Enabled(w, ev) && ev.Fill?
    ensures var reader := w.readers[ev.r];
            var ans := w.flights[reader.at].pcs[ev.r].ans;
            && ev.r in Next(w, ev).readers
            && Next(w, ev).readers[ev.r] == Answered(reader.key, if ans.err then None else Some(ans.val))
  {
  }

  /** And a value is cached at its node, for the lifetime of a fill. */
  lemma FillCaches(w: World, ev: Event)
    requires Enabled(w, ev) && ev.Fill? && Sound(w.stores[w.readers[ev.r].at]) && Lasting(ev.now, LONG)
    requires !w.flights[w.readers[ev.r].at].pcs[ev.r].ans.err
    ensures var reader := w.readers[ev.r];
            var st' := Next(w, ev).stores[reader.at];
            |st'| > 0 && Seen(st', reader.key) ==
              Some(Node(reader.key, w.flights[reader.at].pcs[ev.r].ans.val, ev.now + LONG))
  {
    var InFlight(at, key, _) := w.readers[ev.r];
    FilledStore(w.stores[at], key, w.flights[at].pcs[ev.r].ans.val, ev.now);
  }

  lemma AnswerStays(w: World, ev: Event, r: nat)
    requires Enabled(w, ev) && r in w.readers && w.readers[r].Answered?
    ensures r in Next(w, ev).readers && Next(w, ev).readers[r] == w.readers[r]
  {
  }

  /** Once its flight has ended a request is answered, for good. */
  lemma {:induction false} FilledIsAnswered(w: World, es: seq<Event>, i: nat)
    requires Possible(w, es) && i < |es| && es[i].Fill?
    ensures es[i].r in After(w, es).readers && After(w, es).readers[es[i].r].Answered?
  {
    var n := |es| - 1;
    if i < n {
      FilledIsAnswered(w, es[..n], i);
      AnswerStays(After(w, es[..n]), es[n], es[i].r);
    } else {
      FillAnswers(After(w, es[..n]), es[n]);
    }
  }

  // ---------------------------------------------------------------------
  // Progress
  // ---------------------------------------------------------------------

  /** A caller of the flight group of node a is a reader there, or has been answered. */
  ghost predicate Known(w: World, a: Addr, t: nat)
    requires a in w.flights && t in w.flights[a].pcs
  {
    && t in w.readers
    && if w.readers[t].InFlight? then w.readers[t].at == a else w.flights[a].pcs[t].Returned?
  }

  /** Every caller in every group is known, and readers are at nodes with a store. */
  ghost predicate AllKnown(w: World) {
    && (forall a, t {:trigger Known(w, a, t)} :: a in w.flights && t in w.flights[a].pcs ==> Known(w, a, t))
    && (forall r :: r in w.readers && w.readers[r].InFlight? ==>
          w.readers[r].at in w.stores && |w.stores[w.readers[r].at]| > 0)
  }

  lemma KnownStep(w: World, ev: Event)
    requires Enabled(w, ev) && AllKnown(w)
    ensures AllKnown(Next(w, ev))
  {
    var w' := Next(w, ev);
    forall a, t | a in w'.flights && t in w'.flights[a].pcs ensures Known(w', a, t) { KnownAt(w, ev, a, t); }
    forall r | r in w'.readers && w'.readers[r].InFlight?
      ensures w'.readers[r].at in w'.stores && |w'.stores[w'.readers[r].at]| > 0
    {
      StoreStays(w, ev, r);
    }
  }

  lemma KnownAt(w: World, ev: Event, a: Addr, t: nat)
    requires Enabled(w, ev) && AllKnown(w) && a in Next(w, ev).flights && t in Next(w, ev).flights[a].pcs
    ensures Known(Next(w, ev), a, t)
  {
    CallerAfter(w, ev, a, t);
    if t in w.flights[a].pcs {
      assert Known(w, a, t);
      ReaderAfter(w, ev, t);
    }
  }

  /** A caller in the group of node a was there before, or has just looked its key up. */
  lemma CallerAfter(w: World, ev: Event, a: Addr, t: nat)
    requires Enabled(w, ev) && a in Next(w, ev).flights && t in Next(w, ev).flights[a].pcs
    ensures a in w.flights
    ensures if t in w.flights[a].pcs then w.flights[a].pcs[t].Returned? ==> Next(w, ev).flights[a].pcs[t].Returned?
            else t in Next(w, ev).readers && Next(w, ev).readers[t].InFlight? && Next(w, ev).readers[t].at == a
  {
    if ev.FlightStep? {
      if ev.at == a { CallerStays(w.flights[a], ev.e, t); }
    } else if !ev.Lookup? {
      assert Next(w, ev).flights == w.flights;
    }
  }

  lemma CallerStays(f: Flight.State, e: Flight.Event, t: nat)
    requires Flight.Enabled(f, e) && !e.Enter? && t in Flight.Next(f, e).pcs
    ensures t in f.pcs && (f.pcs[t].Returned? ==> Flight.Next(f, e).pcs[t].Returned?)
  {
  }

  /** A reader stays, at its node, and is answered only when its flight has returned. */
  lemma ReaderAfter(w: World, ev: Event, t: nat)
    requires Enabled(w, ev) && t in w.readers
    ensures var x, y := w.readers[t], Next(w, ev).readers;
            && t in y && (y[t].InFlight? ==> x.InFlight? && x.at == y[t].at)
            && (x.InFlight? && y[t].Answered? ==>
                  x.at in w.flights && t in w.flights[x.at].pcs && w.flights[x.at].pcs[t].Returned?)
  {
  }

  lemma StoreStays(w: World, ev: Event, r: nat)
    requires Enabled(w, ev) && AllKnown(w) && r in Next(w, ev).readers && Next(w, ev).readers[r].InFlight?
    ensures Next(w, ev).readers[r].at in Next(w, ev).stores && |Next(w, ev).stores[Next(w, ev).readers[r].at]| > 0
  {
  }

  lemma {:induction false} KnownHolds(w: World, es: seq<Event>)
    requires Interleaved.Fresh(w) && Possible(w, es)
    ensures AllKnown(After(w, es))
  {
    if es != [] {
      KnownHolds(w, es[..|es| - 1]);
      KnownStep(After(w, es[..|es| - 1]), es[|es| - 1]);
    }
  }

  /** The next step of a caller that need not wait: of Do, of fn, or the answer. */
  function StepOf(w: World, a: Addr, t: nat, now: int64): Event
    requires a in w.flights && t in w.flights[a].pcs && t in w.readers && w.readers[t].InFlight?
  {
    match w.flights[a].pcs[t]
    case Start(_) => FlightStep(a, Flight.Load(t))
    case Missed(_) => FlightStep(a, Flight.Store(t))
    case Stored(_) =>
      if w.readers[t].read == None then ReadRedis(t) else FlightStep(a, Flight.RunFn(t, w.readers[t].read.value))
    case Computed(_) => FlightStep(a, Flight.Done(t))
    case Signalled(_) => FlightStep(a, Flight.Delete(t))
    case Cleared(_) => FlightStep(a, Flight.Leave(t))
    case Waiting(_, _) => FlightStep(a, Flight.Wake(t))
    case Returned(_, _, _) => Fill(t, now)
  }

  lemma StepEnabled(w: World, a: Addr, t: nat, now: int64)
    requires a in w.flights && t in w.flights[a].pcs && Flight.Inv(w.flights[a])
    requires t in w.readers && w.readers[t].InFlight? && w.readers[t].at == a && a in w.stores && |w.stores[a]| > 0
    requires w.flights[a].pcs[t].Waiting? ==>
        w.flights[a].pcs[t].call in w.flights[a].calls && w.flights[a].calls[w.flights[a].pcs[t].call].done
    ensures Enabled(w, StepOf(w, a, t, now))
  {
    var ans := if w.readers[t].read == None then Flight.Answer(Nil, true) else w.readers[t].read.value;
    Flight.CanStep(w.flights[a], t, ans);
  }

  /** No request is stuck, whatever interleaves: as long as one is unanswered some request can take a step, in Do,
      in fn, or to its answer. */
  lemma NobodyStuck(w: World, es: seq<Event>, r: nat, now: int64) returns (ev: Event)
    requires Interleaved.Fresh(w) && Possible(w, es) && r in After(w, es).readers && After(w, es).readers[r].InFlight?
    ensures Enabled(After(w, es), ev) && (ev.FlightStep? || ev.ReadRedis? || ev.Fill?)
  {
    var x := After(w, es);
    InvHolds(w, es);
    KnownHolds(w, es);
    var a := x.readers[r].at;
    assert InGroup(x, r);
    var f, t := x.flights[a], r;
    assert FlightFromPast(f, x.past);
    if f.pcs[r].Waiting? {
      Flight.WaitsForOther(f, r);
      assert Known(x, a, f.pcs[r].call);
      if !f.calls[f.pcs[r].call].done { t := f.pcs[r].call; }
    }
    StepEnabled(x, a, t, now);
    ev := StepOf(x, a, t, now);
  }
}
