/** What callers of the byte-bounded LRU cache see: which value a read finds, what a read and an eviction do to the
    order, how many bytes are live, and what the eviction callback is told. */
module LruReads {
  import opened Base
  import opened LruModel

  // ---------------------------------------------------------------------
  // Live bytes
  // ---------------------------------------------------------------------

  /** The bytes of all keys and values, whatever the order of the list. */
  ghost function LiveBytes(items: map<Key, Bytes>): nat {
    if items == map[] then 0
    else
      var k := Pick(items.Keys);
      |k| + |items[k]| + LiveBytes(items - {k})
  }

  lemma {:induction false} LiveBytesSplit(items: map<Key, Bytes>, k: Key)
    requires k in items
    ensures LiveBytes(items) == |k| + |items[k]| + LiveBytes(items - {k})
    decreases |items|
  {
    var j := Pick(items.Keys);
    if j != k {
      LiveBytesSplit(items - {j}, k);
      LiveBytesSplit(items - {k}, j);
      assert items - {j} - {k} == items - {k} - {j};
    }
  }

  /** The size of the list is the live bytes: each entry counts with its key and its value. */
  lemma {:induction false} SizeIsLiveBytes(list: seq<Key>, items: map<Key, Bytes>)
    requires Once(list) && forall k :: k in list <==> k in items
    ensures SizeOf(list, items) == LiveBytes(items)
  {
    if list == [] {
      assert items == map[];
    } else {
      var n := |list| - 1;
      InitOnce(list);
      assert list[n] in list;
      SizeIsLiveBytes(list[..n], items - {list[n]});
      SizeSame(list[..n], items, items - {list[n]});
      LiveBytesSplit(items, list[n]);
    }
  }

  /** The drift law in bytes: after every run the counter is the bytes of all live keys and values, less those
      evicted for capacity since the last Clear. */
  lemma CounterIs(limit: int, ops: seq<Op>)
    ensures var c := Run(limit, ops); c.used == LiveBytes(c.items) - PushedSinceClear(limit, ops)
  {
    DriftLaw(limit, ops);
    SizeIsLiveBytes(Run(limit, ops).list, Run(limit, ops).items);
  }

  // ---------------------------------------------------------------------
  // Which value a read finds
  // ---------------------------------------------------------------------

  /** The operation writes, deletes or clears the entry of k. */
  predicate Replaces(op: Op, k: Key) {
    op.Clear? || op == Delete(k) || (Writes(op) && op.k == k)
  }

  lemma StepItem(c: Lru, op: Op, k: Key)
    requires Kept(c) && k in Step(c, op).items
    ensures if Writes(op) && op.k == k then Step(c, op).items[k] == op.v
            else !Replaces(op, k) && k in c.items && Step(c, op).items[k] == c.items[k]
  {
    if Writes(op) {
      WriteKeeps(c, op);
      EvictExact(Write(c, op));
    } else if op.Cleanup? {
      CleanupExact(c, op.order, op.now, k);
    }
  }

  /** Operation i of the run wrote the entry of k that is there at the end. */
  ghost predicate LastWrote(ops: seq<Op>, i: int, k: Key) {
    0 <= i < |ops| && Writes(ops[i]) && ops[i].k == k && forall j :: i < j < |ops| ==> !Replaces(ops[j], k)
  }

  lemma {:induction false} ItemIsLastWrite(limit: int, ops: seq<Op>, k: Key)
    requires k in Run(limit, ops).items
    ensures exists i :: LastWrote(ops, i, k) && Run(limit, ops).items[k] == ops[i].v
  {
    var n := |ops| - 1;
    var before, op := ops[..n], ops[n];
    StepItem(Run(limit, before), op, k);
    if Writes(op) && op.k == k {
      assert LastWrote(ops, n, k);
    } else {
      ItemIsLastWrite(limit, before, k);
      var i :| LastWrote(before, i, k) && Run(limit, before).items[k] == before[i].v;
      WroteLater(ops, i, k);
    }
  }

  lemma WroteLater(ops: seq<Op>, i: int, k: Key)
    requires ops != [] && i < |ops| - 1
    ensures LastWrote(ops, i, k) <==> LastWrote(ops[..|ops| - 1], i, k) && !Replaces(ops[|ops| - 1], k)
  {
  }

  /** An entry written with an expiration has that expiry time, for as long as nothing else writes it. */
  lemma {:induction false} TimeIsLastWrite(limit: int, ops: seq<Op>, i: int, k: Key)
    requires LastWrote(ops, i, k) && ops[i].SetWithExpiration? && k in Run(limit, ops).items
    ensures var c := Run(limit, ops);
            && (k in c.expires <==> ops[i].expiration > 0)
            && (k in c.expires ==> c.expires[k] == ops[i].now + ops[i].expiration)
  {
    var n := |ops| - 1;
    var c := Run(limit, ops[..n]);
    if i < n {
      StepItem(c, ops[n], k);
      WroteLater(ops, i, k);
      TimeIsLastWrite(limit, ops[..n], i, k);
    }
    StepTime(c, ops[n], k);
  }

  lemma StepTime(c: Lru, op: Op, k: Key)
    requires Kept(c) && k in Step(c, op).items
    ensures var d := Step(c, op);
            if op.SetWithExpiration? && op.k == k then
              (k in d.expires <==> op.expiration > 0) && (k in d.expires ==> d.expires[k] == op.now + op.expiration)
            else
              (k in d.expires <==> k in c.expires) && (k in d.expires ==> d.expires[k] == c.expires[k])
  {
    if Writes(op) {
      WriteKeeps(c, op);
      EvictTimes(Write(c, op), k);
      WriteTimes(c, op, k);
    } else if op.Cleanup? {
      CleanupExact(c, op.order, op.now, k);
    }
  }

  /** After every run a read that hits finds the value last written under its key and not since deleted or cleared,
      and not after the end of the lifetime that write gave it, if it gave it one. */
  lemma ReadFindsLastWrite(limit: int, ops: seq<Op>, k: Key, now: int)
    requires Good(Run(limit, ops), k, now)
    ensures exists i ::
              && LastWrote(ops, i, k) && Run(limit, ops).items[k] == ops[i].v
              && (ops[i].SetWithExpiration? && ops[i].expiration > 0 ==> now <= ops[i].now + ops[i].expiration)
  {
    ItemIsLastWrite(limit, ops, k);
    var i :| LastWrote(ops, i, k) && Run(limit, ops).items[k] == ops[i].v;
    if ops[i].SetWithExpiration? { TimeIsLastWrite(limit, ops, i, k); }
  }

  /** The operation removes the entry of k by what it does, not for capacity: a deletion, Clear, or a read or
      cleanup that finds it expired. */
  predicate Removes(c: Lru, op: Op, k: Key) {
    op.Clear? || op == Delete(k)
    || (op.Get? && op.k == k && IsExpired(c, k, op.now))
    || (op.Cleanup? && k in op.order && IsExpired(c, k, op.now))
  }

  /** Without a limit nothing else is lost. */
  lemma StaysIff(c: Lru, op: Op, k: Key)
    requires Kept(c) && c.limit <= 0
    ensures k in Step(c, op).items <==> (Writes(op) && op.k == k) || (k in c.items && !Removes(c, op, k))
  {
    if op.Cleanup? { CleanupExact(c, op.order, op.now, k); }
  }

  // ---------------------------------------------------------------------
  // The order
  // ---------------------------------------------------------------------

  /** Taking a key out leaves the others in their order. */
  lemma {:induction false} WithoutCut(list: seq<Key>, i: nat)
    requires Once(list) && i < |list|
    ensures Without(list, list[i]) == list[..i] + list[i + 1..]
  {
    var n := |list| - 1;
    var before := list[..n];
    InitOnce(list);
    if i < n {
      WithoutCut(before, i);
      assert list[..i] + list[i + 1..] == (before[..i] + before[i + 1..]) + [list[n]];
    } else {
      WithoutIs(before, list[n]);
      assert list[..i] + list[i + 1..] == before;
    }
  }

  /** A read that hits moves its key to the front and changes nothing else. */
  lemma ReadRefreshes(c: Lru, k: Key, now: int) returns (i: nat)
    requires Kept(c) && Good(c, k, now)
    ensures i < |c.list| && c.list[i] == k
    ensures GetStep(c, k, now) == c.(list := [k] + (c.list[..i] + c.list[i + 1..]))
  {
    i :| i < |c.list| && c.list[i] == k;
    WithoutCut(c.list, i);
  }

  /** A read that does not removes the entry if there is one, which then has expired, and changes nothing else. */
  lemma ReadMisses(c: Lru, k: Key, now: int)
    requires Kept(c) && !Good(c, k, now)
    ensures GetStep(c, k, now).items == c.items - {k} && GetStep(c, k, now).expires == c.expires - {k}
    ensures k !in c.items ==> GetStep(c, k, now) == c
  {
    if k !in c.items { assert c.items - {k} == c.items && c.expires - {k} == c.expires; }
  }

  /** What evict leaves of the first entries of the list: if one goes, so do all behind it. */
  lemma EvictedBehind(c: Lru, i: nat, j: nat)
    requires Kept(c) && i <= j < |c.list| && c.list[j] in Evict(c).items
    ensures c.list[i] in Evict(c).items
  {
    EvictExact(c);
    InPrefix(c.list, Evict(c).list, i);
    InPrefix(c.list, Evict(c).list, j);
  }

  /** The key just read is the last to be evicted: if the next write of another key pushes it out, nothing but what
      was written is left. */
  lemma ReadOutlives(c: Lru, k: Key, now: int, op: Op, q: Key)
    requires Kept(c) && Good(c, k, now) && Writes(op) && op.k != k && q != op.k
    ensures var r := GetStep(c, k, now); Kept(r) && (q in Step(r, op).items ==> k in Step(r, op).items)
  {
    var r := GetStep(c, k, now);
    StepKeeps(c, Get(k, now));
    var i := ReadRefreshes(c, k, now);
    WriteKeeps(r, op);
    var w := Write(r, op);
    StoreKept(r, op.k, op.v);
    assert r.list[0] == k;
    SecondInLine(r.list, op.k);
    if q in Step(r, op).items {
      EvictExact(w);
      assert q in w.items && q in w.list;
      var j :| 0 <= j < |w.list| && w.list[j] == q;
      EvictedBehind(w, 1, j);
    }
  }

  lemma SecondInLine(list: seq<Key>, k: Key)
    requires Once(list) && list != [] && list[0] != k
    ensures var s := [k] + Without(list, k); |s| > 1 && s[0] == k && s[1] == list[0]
  {
    if k in list {
      var i :| 0 <= i < |list| && list[i] == k;
      WithoutCut(list, i);
    } else {
      WithoutIs(list, k);
    }
  }

  // ---------------------------------------------------------------------
  // Where evict stops
  // ---------------------------------------------------------------------

  /** The counter with m entries left, every evicted one subtracted twice. */
  ghost function CounterAt(c: Lru, m: nat): int
    requires Kept(c) && m <= |c.list|
  {
    c.used - 2 * (SizeOf(c.list, c.items) - Prefix(c, m))
  }

  /** evict stops as soon as the counter is within the limit, and not before: it leaves the first m entries, at m the
      counter is within the limit or nothing is left, and at every number of entries above m it is over the limit. */
  lemma {:induction false} EvictStops(c: Lru, j: nat)
    requires Kept(c) && c.limit > 0
    ensures var d := Evict(c);
            && d.list <= c.list && d.used == CounterAt(c, |d.list|)
            && (d.used <= c.limit || d.list == [])
            && (|d.list| < j <= |c.list| ==> CounterAt(c, j) > c.limit)
  {
    EvictExact(c);
    EvictedTo(c);
    if |Evict(c).list| < j <= |c.list| { NotBefore(c, j); }
  }

  lemma {:induction false} EvictedTo(c: Lru)
    requires Kept(c)
    ensures Evict(c).list <= c.list && Evict(c).used == CounterAt(c, |Evict(c).list|)
    decreases |c.list|
  {
    EvictExact(c);
    PrefixAll(c);
    if c.limit > 0 && c.used > c.limit && c.list != [] {
      DropLastKept(c);
      EvictedTo(DropLast(c));
      CounterStays(c, |Evict(c).list|);
    }
  }

  lemma {:induction false} NotBefore(c: Lru, j: nat)
    requires Kept(c) && c.limit > 0 && |Evict(c).list| < j <= |c.list|
    ensures CounterAt(c, j) > c.limit
    decreases |c.list|
  {
    if j == |c.list| {
      PrefixAll(c);
    } else {
      DropLastKept(c);
      NotBefore(DropLast(c), j);
      CounterStays(c, j);
    }
  }

  lemma CounterStays(c: Lru, m: nat)
    requires Kept(c) && m < |c.list|
    ensures Kept(DropLast(c)) && CounterAt(DropLast(c), m) == CounterAt(c, m)
  {
    DropLastDrifts(c);
    PrefixStays(c, m);
  }

  // ---------------------------------------------------------------------
  // The eviction callback
  // ---------------------------------------------------------------------

  /** What an operation reports. */
  function StepReports(c: Lru, op: Op): seq<Call>
    requires Kept(c)
  {
    match op
    case Set(_, _) => WriteKeeps(c, op); EvictReports(Write(c, op))
    case SetWithExpiration(_, _, _, _) => WriteKeeps(c, op); EvictReports(Write(c, op))
    case Get(k, now) => GetReports(c, k, now)
    case Delete(k) => DropReports(c, k)
    case Cleanup(order, now) => CleanupReports(c, order, now)
    case Clear => []
  }

  /** The entries an operation has to answer for: those there before it, and the one it writes. */
  function ItemsWith(c: Lru, op: Op): map<Key, Bytes> {
    if Writes(op) then c.items[op.k := op.v] else c.items
  }

  /** The entry was there and is not any more. */
  ghost predicate Gone(before: map<Key, Bytes>, after: map<Key, Bytes>, r: Call) {
    r.0 in before && r.0 !in after && r.1 == before[r.0]
  }

  /** Every operation but Clear reports exactly the entries that go, each once and with its value: evicted, deleted
      or expired; overwriting an entry is not reported. */
  lemma ReportsAreRemovals(c: Lru, op: Op, r: Call)
    requires Kept(c) && !op.Clear?
    ensures r in StepReports(c, op) <==> Gone(ItemsWith(c, op), Step(c, op).items, r)
    ensures KeysOnce(StepReports(c, op))
  {
    if Writes(op) {
      WriteKeeps(c, op);
      EvictionsAreRemovals(Write(c, op), r);
    } else if op.Cleanup? {
      CleanupReportsExact(c, op.order, op.now, r.0, r.1);
      CleanupExact(c, op.order, op.now, r.0);
      CleanupReportsOnce(c, op.order, op.now);
    }
  }

  lemma EvictionsAreRemovals(c: Lru, r: Call)
    requires Kept(c)
    ensures r in EvictReports(c) <==> Gone(c.items, Evict(c).items, r)
    ensures KeysOnce(EvictReports(c))
  {
    EvictReportsExact(c);
    EvictedOnce(c);
    if r in EvictReports(c) { ReportedGone(c, r); }
    if Gone(c.items, Evict(c).items, r) {
      assert r.0 in c.list;
      var j :| 0 <= j < |c.list| && c.list[j] == r.0;
      FromBackGone(c, |c.list| - 1 - j);
      assert FromBack(c, |c.list| - 1 - j) == r;
    }
  }

  lemma ReportedGone(c: Lru, r: Call)
    requires Kept(c) && r in EvictReports(c)
    ensures Gone(c.items, Evict(c).items, r)
  {
    var rs := EvictReports(c);
    EvictReportsExact(c);
    var i :| 0 <= i < |rs| && rs[i] == r;
    FromBackGone(c, i);
  }

  lemma EvictedOnce(c: Lru)
    requires Kept(c)
    ensures KeysOnce(EvictReports(c))
  {
    var rs := EvictReports(c);
    EvictReportsExact(c);
    forall i, j | 0 <= i < j < |rs| ensures rs[i].0 != rs[j].0 {
      assert rs[i] == FromBack(c, i) && rs[j] == FromBack(c, j);
    }
  }

  /** The i-th entry from the back goes exactly if evict goes that far. */
  lemma FromBackGone(c: Lru, i: nat)
    requires Kept(c) && i < |c.list|
    ensures Gone(c.items, Evict(c).items, FromBack(c, i)) <==> i < |EvictReports(c)|
    ensures i < |EvictReports(c)| ==> EvictReports(c)[i] == FromBack(c, i)
  {
    EvictExact(c);
    EvictReportsExact(c);
    InPrefix(c.list, Evict(c).list, |c.list| - 1 - i);
  }

  lemma InPrefix(list: seq<Key>, prefix: seq<Key>, j: nat)
    requires Once(list) && prefix <= list && j < |list|
    ensures list[j] in prefix <==> j < |prefix|
  {
    if j < |prefix| { assert prefix[j] == list[j]; }
  }
}
