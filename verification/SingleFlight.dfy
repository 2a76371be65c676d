/** Group.Do as a machine: callers step one at a time, in any order, over a shared map of calls. */
module SingleFlight {
  import opened Base

  /** What fn returns: a value and whether there was an error. */
  datatype Answer = Answer(val: Value, err: bool)

  /** Where a caller of Do is. A caller is one invocation; its call object carries its number. */
  datatype Pc =
    | Start(key: Key)                       // about to Load
    | Waiting(key: Key, call: nat)          // Load hit; in wg.Wait
    | Missed(key: Key)                      // Load missed; about to Store
    | Stored(key: Key)                      // call stored; fn not finished
    | Computed(key: Key)                    // val and err set; about to wg.Done
    | Signalled(key: Key)                   // waiters released; about to Delete
    | Cleared(key: Key)                     // map entry deleted; about to return
    | Returned(key: Key, ans: Answer, call: nat)

  /** A call object: its answer once set, and whether waiters are released. */
  datatype Call = Call(key: Key, ans: Option<Answer>, done: bool)

  datatype State = State(pcs: map<nat, Pc>, m: map<Key, nat>, calls: map<nat, Call>)

  const IDLE := State(map[], map[], map[])

  datatype Event =
    | Enter(t: nat, key: Key)
    | Load(t: nat)
    | Store(t: nat)
    | RunFn(t: nat, ans: Answer)
    | Done(t: nat)
    | Delete(t: nat)
    | Leave(t: nat)
    | Wake(t: nat)

  /** The event is possible in the state. */
  predicate Enabled(s: State, e: Event) {
    match e
    case Enter(t, key) => t !in s.pcs
    case Load(t) => t in s.pcs && s.pcs[t].Start?
    case Store(t) => t in s.pcs && s.pcs[t].Missed?
    case RunFn(t, ans) => t in s.pcs && s.pcs[t].Stored? && t in s.calls
    case Done(t) => t in s.pcs && s.pcs[t].Computed? && t in s.calls
    case Delete(t) => t in s.pcs && s.pcs[t].Signalled?
    case Leave(t) => t in s.pcs && s.pcs[t].Cleared? && t in s.calls && s.calls[t].ans.Some?
    case Wake(t) => t in s.pcs && s.pcs[t].Waiting? && s.pcs[t].call in s.calls
                    && s.calls[s.pcs[t].call].done && s.calls[s.pcs[t].call].ans.Some?
  }

  function Next(s: State, e: Event): State
    requires Enabled(s, e)
  {
    match e
    case Enter(t, key) => s.(pcs := s.pcs[t := Start(key)])
    case Load(t) =>
      var key := s.pcs[t].key;
      s.(pcs := s.pcs[t := if key in s.m then Waiting(key, s.m[key]) else Missed(key)])
    case Store(t) =>
      var key := s.pcs[t].key;
      State(s.pcs[t := Stored(key)], s.m[key := t], s.calls[t := Call(key, None, false)])
    case RunFn(t, ans) =>
      s.(pcs := s.pcs[t := Computed(s.pcs[t].key)], calls := s.calls[t := s.calls[t].(ans := Some(ans))])
    case Done(t) =>
      s.(pcs := s.pcs[t := Signalled(s.pcs[t].key)], calls := s.calls[t := s.calls[t].(done := true)])
    case Delete(t) =>
      s.(pcs := s.pcs[t := Cleared(s.pcs[t].key)], m := s.m - {s.pcs[t].key})
    case Leave(t) =>
      s.(pcs := s.pcs[t := Returned(s.pcs[t].key, s.calls[t].ans.value, t)])
    case Wake(t) =>
      s.(pcs := s.pcs[t := Returned(s.pcs[t].key, s.calls[s.pcs[t].call].ans.value, s.pcs[t].call)])
  }

  /** The events can happen in this order. */
  predicate Possible(es: seq<Event>)
    decreases |es|, 0
  {
    es == [] || (Possible(es[..|es| - 1]) && Enabled(After(es[..|es| - 1]), es[|es| - 1]))
  }

  function After(es: seq<Event>): State
    requires Possible(es)
    decreases |es|, 1
  {
    if es == [] then IDLE else Next(After(es[..|es| - 1]), es[|es| - 1])
  }

  /** The caller's call is on the map's side of Do: stored, and not yet deleted by its owner. */
  predicate Active(pc: Pc) {
    pc.Stored? || pc.Computed? || pc.Signalled?
  }

  /** The caller missed at Load. */
  predicate Leads(pc: Pc) {
    pc.Missed? || Active(pc)
  }

  // ---------------------------------------------------------------------
  // Safety over all interleavings
  // ---------------------------------------------------------------------

  /** The call object of caller t fits where t is. */
  ghost predicate CallFits(s: State, t: nat)
    requires t in s.pcs
  {
    var pc := s.pcs[t];
    match pc
    case Start(_) => t !in s.calls
    case Missed(_) => t !in s.calls
    case Waiting(key, c) => t !in s.calls && c in s.calls && s.calls[c].key == key
    case Stored(key) => t in s.calls && s.calls[t] == Call(key, None, false)
    case Computed(key) => t in s.calls && s.calls[t].key == key && s.calls[t].ans.Some? && !s.calls[t].done
    case Signalled(key) => t in s.calls && s.calls[t].key == key && s.calls[t].ans.Some? && s.calls[t].done
    case Cleared(key) => t in s.calls && s.calls[t].key == key && s.calls[t].ans.Some? && s.calls[t].done
    case Returned(key, ans, c) => c in s.calls && s.calls[c] == Call(key, Some(ans), true) && (c != t ==> t !in s.calls)
  }

  /** An entry of the map is a call of an active caller of its key. */
  ghost predicate EntryFits(s: State, k: Key)
    requires k in s.m
  {
    s.m[k] in s.pcs && Active(s.pcs[s.m[k]]) && s.pcs[s.m[k]].key == k
  }

  ghost predicate Inv(s: State) {
    && (forall t {:trigger CallFits(s, t)} :: t in s.pcs ==> CallFits(s, t))
    && (forall c :: c in s.calls ==> c in s.pcs)
    && (forall k {:trigger EntryFits(s, k)} :: k in s.m ==> EntryFits(s, k))
  }

  lemma EntryCall(s: State, k: Key)
    requires Inv(s) && k in s.m
    ensures EntryFits(s, k) && s.m[k] in s.calls && s.calls[s.m[k]].key == k
  {
    assert EntryFits(s, k) && CallFits(s, s.m[k]);
  }

  lemma InvStep(s: State, e: Event)
    requires Inv(s) && Enabled(s, e)
    ensures Inv(Next(s, e))
  {
    var s' := Next(s, e);
    forall t | t in s'.pcs ensures CallFits(s', t) {
      if t in s.pcs { assert CallFits(s, t); }
      if e.t in s.pcs { assert CallFits(s, e.t); }
      if e.Load? && s.pcs[e.t].key in s.m { EntryCall(s, s.pcs[e.t].key); }
    }
    forall k | k in s'.m ensures EntryFits(s', k) {
      if k in s.m { assert EntryFits(s, k); }
    }
  }

  lemma {:induction false} InvHolds(es: seq<Event>)
    requires Possible(es)
    ensures Inv(After(es))
  {
    if es != [] {
      InvHolds(es[..|es| - 1]);
      InvStep(After(es[..|es| - 1]), es[|es| - 1]);
    }
  }

  /** Everybody has returned. */
  predicate Quiescent(s: State) {
    forall t :: t in s.pcs ==> s.pcs[t].Returned?
  }

  /** A call is in the map only between its own Store and its owner's Delete, under its own key; when
      everybody has returned the map is empty. All this although a Store may overwrite another
      caller's entry and a Delete may remove it. */
  lemma MapHoldsActiveCalls(es: seq<Event>, k: Key)
    requires Possible(es)
    ensures var s := After(es);
            && (k in s.m ==> s.m[k] in s.pcs && Active(s.pcs[s.m[k]]) && s.pcs[s.m[k]].key == k)
            && (Quiescent(s) ==> s.m == map[])
  {
    InvHolds(es);
    var s := After(es);
    forall j | j in s.m ensures EntryFits(s, j) {}
  }

  // ---------------------------------------------------------------------
  // What a waiter returns
  // ---------------------------------------------------------------------

  /** At event i caller w looked key up and found the call of c, whose owner had not returned. */
  ghost predicate HitAt(es: seq<Event>, i: int, w: nat, key: Key, c: nat) {
    && 0 <= i < |es| && es[i] == Load(w) && Possible(es[..i])
    && var s := After(es[..i]);
       && w in s.pcs && s.pcs[w] == Start(key) && key in s.m && s.m[key] == c
       && c in s.pcs && Active(s.pcs[c]) && s.pcs[c].key == key
  }

  lemma HitLater(es: seq<Event>, n: nat, i: int, w: nat, key: Key, c: nat)
    requires n <= |es| && HitAt(es[..n], i, w, key, c)
    ensures HitAt(es, i, w, key, c)
  {
    assert es[..n][..i] == es[..i];
  }

  predicate Follows(pc: Pc, key: Key, c: nat) {
    pc.key == key && ((pc.Waiting? && pc.call == c) || (pc.Returned? && pc.call == c))
  }

  lemma {:induction false} LookedUp(es: seq<Event>, w: nat, key: Key, c: nat)
    requires Possible(es) && w in After(es).pcs && Follows(After(es).pcs[w], key, c) && c != w
    ensures exists i :: HitAt(es, i, w, key, c)
  {
    var n := |es| - 1;
    var before, e := es[..n], es[n];
    var s := After(before);
    InvHolds(before);
    if e == Load(w) {
      assert EntryFits(s, key);
      assert HitAt(es, n, w, key, c);
    } else {
      assert w in s.pcs && Follows(s.pcs[w], key, c);
      LookedUp(before, w, key, c);
      var i :| HitAt(before, i, w, key, c);
      HitLater(es, n, i, w, key, c);
    }
  }

  lemma {:induction false} RanFn(es: seq<Event>, c: nat, ans: Answer)
    requires Possible(es) && c in After(es).calls && After(es).calls[c].ans == Some(ans)
    ensures exists j :: 0 <= j < |es| && es[j] == RunFn(c, ans)
  {
    var n := |es| - 1;
    var before, e := es[..n], es[n];
    var s := After(before);
    if e == RunFn(c, ans) {
      assert es[n] == RunFn(c, ans);
    } else {
      assert c in s.calls && s.calls[c].ans == Some(ans);
      RanFn(before, c, ans);
      var j :| 0 <= j < |before| && before[j] == RunFn(c, ans);
      assert es[j] == RunFn(c, ans);
    }
  }

  /** A caller that returns another caller's answer returns exactly what that caller's run of fn, for
      the same key, produced; and it looked the call up while its owner had not returned. A caller
      that ran fn itself returns its own answer. */
  lemma ReturnsACompletedRun(es: seq<Event>, w: nat)
    requires Possible(es) && w in After(es).pcs && After(es).pcs[w].Returned?
    ensures var Returned(key, ans, c) := After(es).pcs[w];
            && (exists j :: 0 <= j < |es| && es[j] == RunFn(c, ans))
            && c in After(es).calls && After(es).calls[c].key == key
            && (c != w ==> exists i :: HitAt(es, i, w, key, c))
  {
    var Returned(key, ans, c) := After(es).pcs[w];
    InvHolds(es);
    assert CallFits(After(es), w);
    RanFn(es, c, ans);
    if c != w { LookedUp(es, w, key, c); }
  }

  // ---------------------------------------------------------------------
  // How often fn runs
  // ---------------------------------------------------------------------

  function Runs(es: seq<Event>): nat {
    if es == [] then 0 else Runs(es[..|es| - 1]) + if es[|es| - 1].RunFn? then 1 else 0
  }

  /** The event is a Load that finds nothing. */
  predicate Misses(s: State, e: Event) {
    e.Load? && e.t in s.pcs && s.pcs[e.t].Start? && s.pcs[e.t].key !in s.m
  }

  function Missing(es: seq<Event>): nat
    requires Possible(es)
  {
    if es == [] then 0
    else Missing(es[..|es| - 1]) + if Misses(After(es[..|es| - 1]), es[|es| - 1]) then 1 else 0
  }

  /** Callers that missed and have not run fn yet. */
  function Pending(s: State): set<nat> {
    set t | t in s.pcs && (s.pcs[t].Missed? || s.pcs[t].Stored?)
  }

  lemma PendingStep(s: State, e: Event)
    requires Enabled(s, e)
    ensures var p, p' := Pending(s), Pending(Next(s, e));
            if Misses(s, e) then e.t !in p && p' == p + {e.t}
            else if e.RunFn? then e.t in p && p' == p - {e.t}
            else p' == p
  {
  }

  /** Every caller that missed at Load runs fn once, and nobody else does: the runs are the misses,
      less the callers still on their way to fn; in a quiescent group they are equal. */
  lemma {:induction false} RunsAreMisses(es: seq<Event>)
    requires Possible(es)
    ensures Missing(es) == Runs(es) + |Pending(After(es))|
    ensures Quiescent(After(es)) ==> Runs(es) == Missing(es)
  {
    if es != [] {
      RunsAreMisses(es[..|es| - 1]);
      PendingStep(After(es[..|es| - 1]), es[|es| - 1]);
    }
    if Quiescent(After(es)) {
      assert Pending(After(es)) == {};
    }
  }

  /** The promise that fn runs once for concurrent callers of a key does not hold: two callers that
      both Load before either Stores both run fn, whatever it returns. */
  lemma BothRun(key: Key, x: Answer, y: Answer)
    ensures var es := [Enter(0, key), Enter(1, key), Load(0), Load(1), Store(0), Store(1), RunFn(0, x), RunFn(1, y)];
            Possible(es) && Runs(es) == 2
  {
    var e1 := [Enter(0, key)];
    var e2 := e1 + [Enter(1, key)];
    var e3 := e2 + [Load(0)];
    var e4 := e3 + [Load(1)];
    var e5 := e4 + [Store(0)];
    var e6 := e5 + [Store(1)];
    var e7 := e6 + [RunFn(0, x)];
    var e8 := e7 + [RunFn(1, y)];
    Extend([], Enter(0, key));
    assert [] + [Enter(0, key)] == e1;
    Extend(e1, Enter(1, key));
    Extend(e2, Load(0));
    Extend(e3, Load(1));
    Extend(e4, Store(0));
    Extend(e5, Store(1));
    Extend(e6, RunFn(0, x));
    Extend(e7, RunFn(1, y));
    assert e8 == [Enter(0, key), Enter(1, key), Load(0), Load(1), Store(0), Store(1), RunFn(0, x), RunFn(1, y)];
  }

  lemma Extend(es: seq<Event>, e: Event)
    requires Possible(es) && Enabled(After(es), e)
    ensures Possible(es + [e]) && After(es + [e]) == Next(After(es), e)
    ensures Runs(es + [e]) == Runs(es) + if e.RunFn? then 1 else 0
  {
    assert (es + [e])[..|es + [e]| - 1] == es;
  }

  // ---------------------------------------------------------------------
  // Exactly when the runs of one key do not overlap
  // ---------------------------------------------------------------------

  /** At most one caller per key is between its missed Load and its Delete. */
  ghost predicate Exclusive(s: State) {
    forall t, u :: t in s.pcs && u in s.pcs && t != u && Leads(s.pcs[t]) && Leads(s.pcs[u]) ==>
        s.pcs[t].key != s.pcs[u].key
  }

  /** The event is a Load that finds nothing although another caller of the key has missed and not stored. */
  ghost predicate Slips(s: State, e: Event) {
    Misses(s, e) && exists u :: u in s.pcs && u != e.t && s.pcs[u].Missed? && s.pcs[u].key == s.pcs[e.t].key
  }

  ghost predicate AlwaysExclusive(es: seq<Event>)
    requires Possible(es)
    decreases |es|
  {
    Exclusive(After(es)) && (es != [] ==> AlwaysExclusive(es[..|es| - 1]))
  }

  ghost predicate NeverSlips(es: seq<Event>)
    requires Possible(es)
    decreases |es|
  {
    es != [] ==> NeverSlips(es[..|es| - 1]) && !Slips(After(es[..|es| - 1]), es[|es| - 1])
  }

  /** While no two callers overlapped, an active caller's entry is the one in the map. */
  ghost predicate Entered(s: State) {
    forall t :: t in s.pcs && Active(s.pcs[t]) ==> s.pcs[t].key in s.m && s.m[s.pcs[t].key] == t
  }

  lemma EnteredStep(s: State, e: Event)
    requires Inv(s) && Enabled(s, e) && Exclusive(s) && Entered(s)
    ensures Entered(Next(s, e))
  {
    var s' := Next(s, e);
    forall t | t in s'.pcs && Active(s'.pcs[t]) ensures s'.pcs[t].key in s'.m && s'.m[s'.pcs[t].key] == t {
      assert t in s.pcs && Leads(s.pcs[t]) && s.pcs[t].key == s'.pcs[t].key;
      if t != e.t {
        assert Active(s.pcs[t]);
        if e.Store? || e.Delete? { assert Leads(s.pcs[e.t]); }
      }
    }
  }

  lemma ExclusiveStep(s: State, e: Event)
    requires Enabled(s, e) && Exclusive(s) && Entered(s)
    ensures Exclusive(Next(s, e)) <==> !Slips(s, e)
  {
    if Misses(s, e) {
      ExclusiveMiss(s, e);
    } else {
      var s' := Next(s, e);
      assert forall t :: t in s'.pcs && Leads(s'.pcs[t]) ==>
          t in s.pcs && Leads(s.pcs[t]) && s.pcs[t].key == s'.pcs[t].key;
    }
  }

  lemma ExclusiveMiss(s: State, e: Event)
    requires Enabled(s, e) && Misses(s, e) && Exclusive(s) && Entered(s)
    ensures Exclusive(Next(s, e)) <==> !Slips(s, e)
  {
    var s', key := Next(s, e), s.pcs[e.t].key;
    assert s'.pcs == s.pcs[e.t := Missed(key)];
    if Slips(s, e) {
      var u :| u in s.pcs && u != e.t && s.pcs[u].Missed? && s.pcs[u].key == key;
      assert Leads(s'.pcs[e.t]) && Leads(s'.pcs[u]) && s'.pcs[u].key == s'.pcs[e.t].key;
    } else {
      forall u | u in s.pcs && u != e.t && Leads(s.pcs[u]) ensures s.pcs[u].key != key {
        if Active(s.pcs[u]) { assert s.pcs[u].key in s.m; }
      }
    }
  }

  lemma {:induction false} EnteredHolds(es: seq<Event>)
    requires Possible(es) && AlwaysExclusive(es)
    ensures Entered(After(es))
  {
    if es != [] {
      var before := es[..|es| - 1];
      InvHolds(before);
      EnteredHolds(before);
      EnteredStep(After(before), es[|es| - 1]);
    }
  }

  /** At most one caller of a key is ever between a missed Load and its Delete if and only if no Load
      misses while another caller of that key is between its own missed Load and its Store. */
  lemma {:induction false} ExclusiveIff(es: seq<Event>)
    requires Possible(es)
    ensures AlwaysExclusive(es) <==> NeverSlips(es)
  {
    if es != [] {
      var before := es[..|es| - 1];
      ExclusiveIff(before);
      if AlwaysExclusive(before) {
        InvHolds(before);
        EnteredHolds(before);
        ExclusiveStep(After(before), es[|es| - 1]);
      }
    }
  }

  // ---------------------------------------------------------------------
  // Progress
  // ---------------------------------------------------------------------

  /** Nobody is stuck: unless everybody has returned, some caller can take a step. */
  lemma NoDeadlock(es: seq<Event>, ans: Answer) returns (e: Event)
    requires Possible(es) && !Quiescent(After(es))
    ensures Enabled(After(es), e) && !e.Enter?
  {
    var s := After(es);
    InvHolds(es);
    var t :| t in s.pcs && !s.pcs[t].Returned?;
    if s.pcs[t].Waiting? {
      WaitsForOther(s, t);
      if !s.calls[s.pcs[t].call].done { t := s.pcs[t].call; }
    }
    CanStep(s, t, ans);
    match s.pcs[t]
    case Start(_) => e := Load(t);
    case Waiting(_, c) => e := Wake(t);
    case Missed(_) => e := Store(t);
    case Stored(_) => e := RunFn(t, ans);
    case Computed(_) => e := Done(t);
    case Signalled(_) => e := Delete(t);
    case Cleared(_) => e := Leave(t);
  }

  /** What a caller can do next, unless it has to wait for its call to be released. */
  lemma CanStep(s: State, t: nat, ans: Answer)
    requires Inv(s) && t in s.pcs
    requires s.pcs[t].Waiting? ==> s.pcs[t].call in s.calls && s.calls[s.pcs[t].call].done
    ensures match s.pcs[t]
            case Start(_) => Enabled(s, Load(t))
            case Waiting(_, _) => Enabled(s, Wake(t))
            case Missed(_) => Enabled(s, Store(t))
            case Stored(_) => Enabled(s, RunFn(t, ans))
            case Computed(_) => Enabled(s, Done(t))
            case Signalled(_) => Enabled(s, Delete(t))
            case Cleared(_) => Enabled(s, Leave(t))
            case Returned(_, _, _) => true
  {
    assert CallFits(s, t);
    if s.pcs[t].Waiting? { assert CallFits(s, s.pcs[t].call); }
  }

  /** Whoever has to wait waits for a caller that need not. */
  lemma WaitsForOther(s: State, t: nat)
    requires Inv(s) && t in s.pcs && s.pcs[t].Waiting?
    ensures var c := s.pcs[t].call;
            c in s.calls && c in s.pcs && (!s.calls[c].done ==> s.pcs[c].Stored? || s.pcs[c].Computed?)
  {
    assert CallFits(s, t);
    assert CallFits(s, s.pcs[t].call);
  }

  /** How many steps of Do a caller still has ahead of it, at most. */
  function Ahead(pc: Pc): nat {
    match pc
    case Start(_) => 6
    case Missed(_) => 5
    case Stored(_) => 4
    case Computed(_) => 3
    case Signalled(_) => 2
    case Cleared(_) => 1
    case Waiting(_, _) => 1
    case Returned(_, _, _) => 0
  }

  ghost function Work(pcs: map<nat, Pc>): nat {
    if pcs == map[] then 0 else Ahead(pcs[Pick(pcs.Keys)]) + Work(pcs - {Pick(pcs.Keys)})
  }

  lemma {:induction false} WorkSplit(pcs: map<nat, Pc>, t: nat)
    requires t in pcs
    ensures Work(pcs) == Ahead(pcs[t]) + Work(pcs - {t})
    decreases |pcs|
  {
    var u := Pick(pcs.Keys);
    if t != u {
      WorkSplit(pcs - {u}, t);
      WorkSplit(pcs - {t}, u);
      assert pcs - {u} - {t} == pcs - {t} - {u};
    }
  }

  lemma WorkUpdate(pcs: map<nat, Pc>, t: nat, pc: Pc)
    ensures Work(pcs[t := pc]) == Work(pcs) + Ahead(pc) - (if t in pcs then Ahead(pcs[t]) else 0)
  {
    WorkSplit(pcs[t := pc], t);
    assert pcs[t := pc] - {t} == pcs - {t};
    if t in pcs {
      WorkSplit(pcs, t);
    } else {
      assert pcs - {t} == pcs;
    }
  }

  /** Every caller takes at most six steps after entering, so every schedule of finitely many callers
      is finite; with NoDeadlock, it can only end quiescent. */
  lemma {:induction false} BoundedSteps(es: seq<Event>)
    requires Possible(es)
    ensures |es| + Work(After(es).pcs) <= 7 * |After(es).pcs|
  {
    if es != [] {
      var before := es[..|es| - 1];
      BoundedSteps(before);
      StepWork(After(before), es[|es| - 1]);
    }
  }

  /** Entering adds a caller with six steps ahead; any other event leaves its caller with fewer. */
  lemma StepWork(s: State, e: Event)
    requires Enabled(s, e)
    ensures var s' := Next(s, e);
            if e.Enter? then |s'.pcs| == |s.pcs| + 1 && Work(s'.pcs) == Work(s.pcs) + 6
            else |s'.pcs| == |s.pcs| && Work(s'.pcs) < Work(s.pcs)
  {
    var pc := Next(s, e).pcs[e.t];
    OneMoves(s, e);
    WorkUpdate(s.pcs, e.t, pc);
    SizeUpdate(s.pcs, e.t, pc);
  }

  /** Only the caller of an event moves, and it comes nearer to its return. */
  lemma OneMoves(s: State, e: Event)
    requires Enabled(s, e)
    ensures e.t in Next(s, e).pcs && Next(s, e).pcs == s.pcs[e.t := Next(s, e).pcs[e.t]]
    ensures if e.Enter? then e.t !in s.pcs && Ahead(Next(s, e).pcs[e.t]) == 6
            else e.t in s.pcs && Ahead(Next(s, e).pcs[e.t]) < Ahead(s.pcs[e.t])
  {
  }

  lemma SizeUpdate(pcs: map<nat, Pc>, t: nat, pc: Pc)
    ensures |pcs[t := pc]| == |pcs| + if t in pcs then 0 else 1
  {
    assert pcs[t := pc].Keys == pcs.Keys + {t};
    assert |pcs[t := pc].Keys| == |pcs[t := pc]| && |pcs.Keys| == |pcs|;
  }
}
