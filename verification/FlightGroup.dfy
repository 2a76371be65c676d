/** The Group of calls in flight over call objects on the heap, proved to take the steps of the machine.
    A caller of Do keeps a reference to the call it made or joined, so what happens to the map afterwards
    does not matter to it. */
module FlightGroup {
  import opened Base
  import Machine = SingleFlight

  /** A call object: the results of fn, and whether its wait group has been released. */
  class Call {
    /** The caller that made it, and for which key. */
    ghost const owner: nat
    ghost const key: Key
    var val: Value
    var err: bool
    var done: bool
    /** fn has returned and its results are written. */
    ghost var ran: bool

    constructor (ghost owner: nat, ghost key: Key)
      ensures this.owner == owner && this.key == key && !done && !ran
    {
      this.owner, this.key := owner, key;
      val, err, done, ran := Nil, false, false, false;
    }

    ghost function View(): Machine.Call
      reads this
    {
      Machine.Call(key, if ran then Some(Machine.Answer(val, err)) else None, done)
    }
  }

  class Group {
    /** The calls in flight. */
    var m: map<Key, Call>
    /** Every call object made, by the caller that made it. */
    ghost var calls: map<nat, Call>
    ghost var Repr: set<object>
    /** The state of the machine. */
    ghost var view: Machine.State

    ghost predicate ShowsCall(t: nat)
      requires t in calls
      reads this, calls[t]
    {
      calls[t].owner == t && t in view.calls && calls[t].View() == view.calls[t]
    }

    /** The map holds references to calls of the group. */
    ghost predicate ShowsEntry(k: Key)
      requires k in m
      reads this
    {
      k in view.m && view.m[k] == m[k].owner && Known(m[k])
    }

    /** The call object is one of the group. */
    ghost predicate Known(c: Call)
      reads this
    {
      c.owner in calls && calls[c.owner] == c && c in Repr
    }

    /** The objects show the machine's state, and it is one the machine's invariant allows. */
    ghost predicate Valid()
      reads this, Repr
    {
      && view.m.Keys == m.Keys && view.calls.Keys == calls.Keys
      && (forall t :: t in calls ==> calls[t] in Repr)
      && (forall t {:trigger ShowsCall(t)} :: t in calls ==> ShowsCall(t))
      && (forall k {:trigger ShowsEntry(k)} :: k in m ==> ShowsEntry(k))
      && Machine.Inv(view)
    }

    /** Caller t has made call c, and is at the given place of Do. */
    ghost predicate Owns(t: nat, c: Call, pc: Machine.Pc)
      reads this
    {
      Known(c) && c.owner == t && t in view.pcs && view.pcs[t] == pc
    }

    /** Caller t waits for call c. */
    ghost predicate WaitsFor(t: nat, c: Call, key: Key)
      reads this
    {
      Known(c) && t in view.pcs && view.pcs[t] == Machine.Waiting(key, c.owner)
    }

    /** The group has taken a step of the machine. */
    twostate predicate Takes(e: Machine.Event)
      reads this
    {
      Machine.Enabled(old(view), e) && view == Machine.Next(old(view), e)
    }

    constructor ()
      ensures Valid() && view == Machine.IDLE && m == map[] && calls == map[] && Repr == {}
    {
      m, calls, view, Repr := map[], map[], Machine.IDLE, {};
    }

    /** At most one call object has been made or changed. */
    twostate lemma CallsSettled(new c: Call)
      requires old(Valid()) && Known(c) && calls == old(calls)[c.owner := c]
      requires c.owner in calls && ShowsCall(c.owner)
      requires forall t :: t in old(calls) ==> calls[t] == c || unchanged(old(calls[t]))
      requires view.calls == old(view).calls[c.owner := c.View()]
      ensures forall t {:trigger ShowsCall(t)} :: t in calls ==> ShowsCall(t)
    {
      forall t | t in calls ensures ShowsCall(t) {
        if t != c.owner { assert old(ShowsCall(t)); }
      }
    }

    /** No call object has been made or changed. */
    twostate lemma CallsStay()
      requires old(Valid()) && calls == old(calls) && view.calls == old(view).calls
      requires forall t :: t in calls ==> unchanged(calls[t])
      ensures forall t {:trigger ShowsCall(t)} :: t in calls ==> ShowsCall(t)
    {
      forall t | t in calls ensures ShowsCall(t) { assert old(ShowsCall(t)); }
    }

    /** Entries that are still there are as they were. */
    twostate lemma EntriesSettled()
      requires old(Valid()) && old(Repr) <= Repr && forall t :: t in old(calls) ==>
          t in calls && calls[t] == old(calls[t])
      requires forall k :: k in m ==>
          ShowsEntry(k) || (k in old(m) && m[k] == old(m[k]) && k in view.m && view.m[k] == old(view.m[k]))
      ensures forall k {:trigger ShowsEntry(k)} :: k in m ==> ShowsEntry(k)
    {
      forall k | k in m ensures ShowsEntry(k) {
        if k in old(m) { assert old(ShowsEntry(k)); }
      }
    }

    /** A caller calls Do. */
    ghost method Enter(t: nat, key: Key)
      requires Valid() && t !in view.pcs
      modifies `view
      ensures Valid() && Takes(Machine.Enter(t, key))
    {
      Machine.InvStep(view, Machine.Enter(t, key));
      view := Machine.Next(view, Machine.Enter(t, key));
      CallsStay();
      EntriesSettled();
    }

    /** m.Load: a caller that finds a call gets a reference to it, and the call is one of its key that its
        owner has stored and has not yet deleted from the map; any other goes on to make one. */
    method Load(ghost t: nat, key: Key) returns (c: Call?)
      requires Valid() && t in view.pcs && view.pcs[t] == Machine.Start(key)
      modifies `view
      ensures Valid() && Takes(Machine.Load(t))
      ensures if key in m then c == m[key] && WaitsFor(t, c, key) && InFlight(c, key)
          else c == null && view.pcs[t] == Machine.Missed(key)
    {
      Machine.InvStep(view, Machine.Load(t));
      view := Machine.Next(view, Machine.Load(t));
      CallsStay();
      EntriesSettled();
      if key in m {
        Found(key);
        c := m[key];
      } else {
        c := null;
      }
    }

    /** The owner of the call, for the key, has stored it and not yet deleted the entry. */
    ghost predicate InFlight(c: Call, key: Key)
      reads this
    {
      c.owner in view.pcs && view.pcs[c.owner].key == key && Machine.Active(view.pcs[c.owner])
    }

    lemma Found(key: Key)
      requires Valid() && key in m
      ensures ShowsEntry(key) && InFlight(m[key], key)
    {
      assert ShowsEntry(key) && Machine.EntryFits(view, key);
    }

    /** The statements of Do from making the call object to storing it. */
    method Publish(ghost t: nat, key: Key) returns (c: Call)
      modifies `m, `calls, `Repr
      ensures fresh(c) && c.owner == t && c.View() == Machine.Call(key, None, false)
      ensures m == old(m)[key := c] && calls == old(calls)[t := c] && Repr == old(Repr) + {c}
    {
      c := new Call(t, key);
      m, calls, Repr := m[key := c], calls[t := c], Repr + {c};
    }

    /** A new call object with its wait group raised, put in the map whatever is there. */
    method Store(ghost t: nat, key: Key) returns (c: Call)
      requires Valid() && t in view.pcs && view.pcs[t] == Machine.Missed(key)
      modifies this
      ensures Valid() && Takes(Machine.Store(t))
      ensures fresh(c) && !c.done && Owns(t, c, Machine.Stored(key))
      ensures m == old(m)[key := c] && calls == old(calls)[t := c] && Repr == old(Repr) + {c}
    {
      Machine.InvStep(view, Machine.Store(t));
      assert Machine.CallFits(view, t);
      c := Publish(t, key);
      view := Machine.Next(view, Machine.Store(t));
      CallsSettled(c);
      EntriesSettled();
    }

    /** fn returns, and its results are written to the caller's own call object. */
    method RunFn(ghost t: nat, ghost key: Key, c: Call, val: Value, err: bool)
      requires Valid() && Owns(t, c, Machine.Stored(key))
      modifies `view, c
      ensures Valid() && Takes(Machine.RunFn(t, Machine.Answer(val, err)))
      ensures Owns(t, c, Machine.Computed(key)) && c.val == val && c.err == err
    {
      assert ShowsCall(t) && Machine.CallFits(view, t);
      Machine.InvStep(view, Machine.RunFn(t, Machine.Answer(val, err)));
      c.val, c.err, c.ran := val, err, true;
      view := Machine.Next(view, Machine.RunFn(t, Machine.Answer(val, err)));
      CallsSettled(c);
      EntriesSettled();
    }

    /** wg.Done: whoever waits on this call object is released. */
    method Done(ghost t: nat, ghost key: Key, c: Call)
      requires Valid() && Owns(t, c, Machine.Computed(key))
      modifies `view, c`done
      ensures Valid() && Takes(Machine.Done(t))
      ensures Owns(t, c, Machine.Signalled(key)) && c.done
    {
      assert ShowsCall(t) && Machine.CallFits(view, t);
      Machine.InvStep(view, Machine.Done(t));
      c.done := true;
      view := Machine.Next(view, Machine.Done(t));
      CallsSettled(c);
      EntriesSettled();
    }

    /** m.Delete: whatever call is under the key goes; who refers to it keeps it. */
    method Delete(ghost t: nat, key: Key, ghost c: Call)
      requires Valid() && Owns(t, c, Machine.Signalled(key))
      modifies `view, `m
      ensures Valid() && Takes(Machine.Delete(t))
      ensures Owns(t, c, Machine.Cleared(key)) && m == old(m) - {key}
    {
      Machine.InvStep(view, Machine.Delete(t));
      m := m - {key};
      view := Machine.Next(view, Machine.Delete(t));
      CallsStay();
      EntriesSettled();
    }

    /** The owner returns its own results. */
    method Leave(ghost t: nat, ghost key: Key, c: Call) returns (val: Value, err: bool)
      requires Valid() && Owns(t, c, Machine.Cleared(key))
      modifies `view
      ensures Valid() && Takes(Machine.Leave(t))
      ensures val == c.val && err == c.err && Owns(t, c, Machine.Returned(key, Machine.Answer(val, err), t))
    {
      assert ShowsCall(t) && Machine.CallFits(view, t);
      Machine.InvStep(view, Machine.Leave(t));
      view := Machine.Next(view, Machine.Leave(t));
      CallsStay();
      EntriesSettled();
      return c.val, c.err;
    }

    /** A released waiter returns the results of the call it joined, which fn has written for its key,
        whether or not the call is still in the map. */
    method Wake(ghost t: nat, ghost key: Key, c: Call) returns (val: Value, err: bool)
      requires Valid() && WaitsFor(t, c, key) && c.done
      modifies `view
      ensures Valid() && Takes(Machine.Wake(t))
      ensures c.ran && c.key == key && val == c.val && err == c.err
      ensures view.pcs[t] == Machine.Returned(key, Machine.Answer(val, err), c.owner)
    {
      Released(t, key, c);
      Machine.InvStep(view, Machine.Wake(t));
      view := Machine.Next(view, Machine.Wake(t));
      CallsStay();
      EntriesSettled();
      return c.val, c.err;
    }

    /** A released call has run. */
    lemma Released(t: nat, key: Key, c: Call)
      requires Valid() && WaitsFor(t, c, key) && c.done
      ensures Machine.Enabled(view, Machine.Wake(t)) && c.ran && c.key == key && c.View() == view.calls[c.owner]
    {
      assert ShowsCall(c.owner) && Machine.CallFits(view, t);
      assert Machine.CallFits(view, c.owner);
    }

    /** Whatever another caller does, storing over the entry or deleting it included, a waiter keeps waiting
        for the call it joined. */
    twostate lemma StillWaits(t: nat, c: Call, key: Key, e: Machine.Event)
      requires old(Valid()) && old(WaitsFor(t, c, key)) && Takes(e) && e.t != t && old(Repr) <= Repr
      requires calls == old(calls) || (e.Store? && e.t in calls && calls == old(calls)[e.t := calls[e.t]])
      ensures WaitsFor(t, c, key)
    {
      if e.Store? { assert Machine.CallFits(old(view), e.t); }
    }

    /** Do up to the lookup. */
    method Arrive(ghost t: nat, key: Key) returns (c: Call?)
      requires Valid() && t !in view.pcs
      modifies `view
      ensures Valid()
      ensures if key in m then c == m[key] && WaitsFor(t, c, key)
          else c == null && t in view.pcs && view.pcs[t] == Machine.Missed(key)
    {
      Enter(t, key);
      c := Load(t, key);
    }

    /** Do for a caller that found nothing, up to the results of fn. */
    method Run(ghost t: nat, key: Key, val: Value, err: bool) returns (c: Call)
      requires Valid() && t in view.pcs && view.pcs[t] == Machine.Missed(key)
      modifies this
      ensures Valid() && fresh(c) && Owns(t, c, Machine.Computed(key)) && c.val == val && c.err == err
      ensures m == old(m)[key := c] && Repr == old(Repr) + {c}
    {
      c := Store(t, key);
      RunFn(t, key, c, val, err);
    }

    /** And from there on. */
    method Finish(ghost t: nat, key: Key, c: Call) returns (val: Value, err: bool)
      requires Valid() && Owns(t, c, Machine.Computed(key))
      modifies `view, `m, c`done
      ensures Valid() && m == old(m) - {key} && val == c.val && err == c.err
    {
      Done(t, key, c);
      Delete(t, key, c);
      val, err := Leave(t, key, c);
    }

    /** Do for a caller that found nothing: the map ends as it began. */
    method Lead(ghost t: nat, key: Key, val: Value, err: bool) returns (v: Value, e: bool)
      requires Valid() && key !in m && t in view.pcs && view.pcs[t] == Machine.Missed(key)
      modifies this
      ensures Valid() && m == old(m) && fresh(Repr - old(Repr)) && v == val && e == err
    {
      var c := Run(t, key, val, err);
      PutTaken(old(m), key, c);
      v, e := Finish(t, key, c);
    }

    lemma PutTaken(m: map<Key, Call>, key: Key, c: Call)
      requires key !in m
      ensures m[key := c] - {key} == m
    {
    }

    /** Do from beginning to end, for a caller nobody makes wait. With no call in flight for its key fn runs
        once and its answer is returned; if the call in flight has been released, that call's results are
        returned and fn does not run. Either way the map ends as it began. */
    method Do(ghost t: nat, key: Key, val: Value, err: bool) returns (v: Value, e: bool)
      requires Valid() && t !in view.pcs && (key in m ==> m[key].done)
      modifies this
      ensures Valid() && m == old(m) && fresh(Repr - old(Repr))
      ensures if key in m then v == m[key].val && e == m[key].err else v == val && e == err
    {
      var c := Arrive(t, key);
      if c != null {
        v, e := Wake(t, key, c);
      } else {
        v, e := Lead(t, key, val, err);
      }
    }
  }
}
