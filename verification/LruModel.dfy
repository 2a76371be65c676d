/** The byte-bounded LRU cache as a value, and the exact law of its byte counter. */
module LruModel {
  import opened Base

  type Bytes = seq<Byte>

  /** The byte limit, the recency list (front first), the entries, the expiry times, and the byte counter. */
  datatype Lru = Lru(limit: int, list: seq<Key>, items: map<Key, Bytes>, expires: map<Key, int>, used: int)

  /** A call of the eviction callback. */
  type Call = (Key, Bytes)

  function EmptyLru(limit: int): Lru {
    Lru(limit, [], map[], map[], 0)
  }

  function EntrySize(k: Key, v: Bytes): nat {
    |k| + |v|
  }

  /** The list holds each key of the entries exactly once, and only entries have expiry times. */
  ghost predicate Kept(c: Lru) {
    && Once(c.list)
    && (forall k :: k in c.list <==> k in c.items)
    && c.expires.Keys <= c.items.Keys
  }

  /** The bytes the listed entries take. */
  function SizeOf(list: seq<Key>, items: map<Key, Bytes>): nat
    requires forall k :: k in list ==> k in items
  {
    if list == [] then 0
    else
      var n := |list| - 1;
      assert list[n] in list;
      SizeOf(list[..n], items) + EntrySize(list[n], items[list[n]])
  }

  /** How far the counter is below the live bytes. */
  ghost function Drift(c: Lru): int
    requires Kept(c)
  {
    SizeOf(c.list, c.items) - c.used
  }

  function Without(list: seq<Key>, k: Key): seq<Key> {
    if list == [] then []
    else
      var n := |list| - 1;
      Without(list[..n], k) + if list[n] == k then [] else [list[n]]
  }

  /** removeElement: subtract the entry's size once. */
  function Drop(c: Lru, k: Key): Lru
    requires k in c.items
  {
    Lru(c.limit, Without(c.list, k), c.items - {k}, c.expires - {k}, c.used - EntrySize(k, c.items[k]))
  }

  /** evict: while over the limit, subtract the last entry's size and then remove it, which subtracts
      the size again. */
  function Evict(c: Lru): Lru
    requires Kept(c)
    decreases |c.list|
  {
    if c.limit > 0 && c.used > c.limit && c.list != [] then
      DropLastKept(c);
      Evict(DropLast(c))
    else c
  }

  function DropLast(c: Lru): Lru
    requires c.list != [] && c.list[|c.list| - 1] in c.items
  {
    var n := |c.list| - 1;
    var k := c.list[n];
    var size := EntrySize(k, c.items[k]);
    Lru(c.limit, c.list[..n], c.items - {k}, c.expires - {k}, c.used - 2 * size)
  }

  lemma DropLastKept(c: Lru)
    requires Kept(c) && c.list != []
    ensures c.list[|c.list| - 1] in c.items && Kept(DropLast(c))
  {
    var n := |c.list| - 1;
    assert c.list[n] in c.list;
    InitOnce(c.list);
  }

  lemma InitOnce(list: seq<Key>)
    requires Once(list) && list != []
    ensures var n := |list| - 1;
            Once(list[..n]) && forall k :: k in list[..n] <==> k in list && k != list[n]
  {
    var n := |list| - 1;
    assert list == list[..n] + [list[n]];
    forall k | k in list[..n] ensures k != list[n] {
      var i :| 0 <= i < n && list[i] == k;
    }
  }

  /** Put the entry at the front, with its size added and the old value's size subtracted. */
  function Store(c: Lru, k: Key, v: Bytes): Lru {
    if k in c.items
    then c.(list := [k] + Without(c.list, k), items := c.items[k := v], used := c.used + |v| - |c.items[k]|)
    else c.(list := [k] + c.list, items := c.items[k := v], used := c.used + EntrySize(k, v))
  }

  /** Store, read field by field. */
  lemma StoreIs(c: Lru, d: Lru, k: Key, v: Bytes)
    requires d.limit == c.limit && d.expires == c.expires && d.items == c.items[k := v]
    requires d.list == [k] + if k in c.items then Without(c.list, k) else c.list
    requires d.used == c.used + if k in c.items then |v| - |c.items[k]| else EntrySize(k, v)
    ensures d == Store(c, k, v)
  {
  }

  function Touch(c: Lru, k: Key): Lru {
    if k in c.items then c.(list := [k] + Without(c.list, k)) else c
  }

  // ---------------------------------------------------------------------
  // The list
  // ---------------------------------------------------------------------

  lemma {:induction false} WithoutIs(list: seq<Key>, k: Key)
    requires Once(list)
    ensures Once(Without(list, k))
    ensures forall q :: q in Without(list, k) <==> q in list && q != k
    ensures k !in list ==> Without(list, k) == list
    ensures |Without(list, k)| == |list| - if k in list then 1 else 0
  {
    if list != [] {
      var n := |list| - 1;
      var before := list[..n];
      assert list == before + [list[n]];
      WithoutIs(before, k);
      assert list[n] !in before by {
        forall i | 0 <= i < n ensures before[i] != list[n] { assert list[i] != list[n]; }
      }
    }
  }

  lemma {:induction false} SizeSame(list: seq<Key>, items: map<Key, Bytes>, items': map<Key, Bytes>)
    requires forall k :: k in list ==> k in items && k in items' && items[k] == items'[k]
    ensures SizeOf(list, items') == SizeOf(list, items)
  {
    if list != [] {
      var n := |list| - 1;
      assert list[n] in list;
      assert forall k :: k in list[..n] ==> k in list;
      SizeSame(list[..n], items, items');
    }
  }

  lemma {:induction false} SizeWithout(list: seq<Key>, items: map<Key, Bytes>, k: Key)
    requires Once(list) && k in list && forall q :: q in list ==> q in items
    ensures forall q :: q in Without(list, k) ==> q in items
    ensures SizeOf(list, items) == SizeOf(Without(list, k), items) + EntrySize(k, items[k])
  {
    WithoutIs(list, k);
    var n := |list| - 1;
    var before := list[..n];
    assert list == before + [list[n]];
    if list[n] == k {
      assert k !in before by {
        forall i | 0 <= i < n ensures before[i] != k { assert list[i] != list[n]; }
      }
      WithoutIs(before, k);
      assert Without(list, k) == before;
    } else {
      SizeWithout(before, items, k);
      var w := Without(before, k);
      assert Without(list, k) == w + [list[n]];
      assert (w + [list[n]])[..|w|] == w;
    }
  }

  lemma {:induction false} SizeFront(k: Key, list: seq<Key>, items: map<Key, Bytes>)
    requires k in items && forall q :: q in list ==> q in items
    ensures SizeOf([k] + list, items) == EntrySize(k, items[k]) + SizeOf(list, items)
  {
    if list == [] {
      assert [k] + list == [k] && [k][..0] == [];
    } else {
      var n := |list| - 1;
      var s := [k] + list;
      assert s[..|s| - 1] == [k] + list[..n] && s[|s| - 1] == list[n];
      assert forall q :: q in list[..n] ==> q in list;
      SizeFront(k, list[..n], items);
    }
  }

  // ---------------------------------------------------------------------
  // Every operation keeps the books
  // ---------------------------------------------------------------------

  lemma DropKeeps(c: Lru, k: Key)
    requires Kept(c) && k in c.items
    ensures Kept(Drop(c, k)) && Drift(Drop(c, k)) == Drift(c)
  {
    WithoutIs(c.list, k);
    SizeWithout(c.list, c.items, k);
    SizeSame(Without(c.list, k), c.items, c.items - {k});
  }

  lemma TouchKeeps(c: Lru, k: Key)
    requires Kept(c)
    ensures Kept(Touch(c, k)) && Drift(Touch(c, k)) == Drift(c)
  {
    if k in c.items {
      WithoutIs(c.list, k);
      SizeWithout(c.list, c.items, k);
      SizeFront(k, Without(c.list, k), c.items);
    }
  }

  /** A key that is not in a list, put in front of it. */
  lemma FrontOnce(list: seq<Key>, k: Key)
    requires Once(list) && k !in list
    ensures Once([k] + list) && forall q :: q in [k] + list <==> q == k || q in list
  {
    forall j | 0 <= j < |list| ensures list[j] != k { assert list[j] in list; }
  }

  lemma StoreKept(c: Lru, k: Key, v: Bytes)
    requires Kept(c)
    ensures Kept(Store(c, k, v)) && Store(c, k, v).list == [k] + Without(c.list, k)
  {
    WithoutIs(c.list, k);
    FrontOnce(Without(c.list, k), k);
  }

  lemma StoreKeeps(c: Lru, k: Key, v: Bytes)
    requires Kept(c)
    ensures Kept(Store(c, k, v)) && Drift(Store(c, k, v)) == Drift(c)
  {
    StoreKept(c, k, v);
    WithoutIs(c.list, k);
    var rest, items' := Without(c.list, k), c.items[k := v];
    SizeSame(rest, c.items, items');
    SizeFront(k, rest, items');
    if k in c.items { SizeWithout(c.list, c.items, k); }
  }

  lemma DropLastDrifts(c: Lru)
    requires Kept(c) && c.list != []
    ensures c.list[|c.list| - 1] in c.items && Kept(DropLast(c))
    ensures Drift(DropLast(c)) == Drift(c) + SizeOf(c.list, c.items) - SizeOf(DropLast(c).list, DropLast(c).items)
    ensures SizeOf(DropLast(c).list, DropLast(c).items) <= SizeOf(c.list, c.items)
  {
    DropLastKept(c);
    SizeSame(c.list[..|c.list| - 1], c.items, DropLast(c).items);
  }

  /** evict ends, removes a suffix of the recency order and exactly the entries listed there, stops with
      the counter within the limit or the cache empty, and drifts by what it removes. */
  lemma {:induction false} EvictExact(c: Lru)
    requires Kept(c)
    ensures var d := Evict(c);
            && Kept(d)
            && d.list <= c.list
            && (forall k :: k in d.items <==> k in d.list)
            && (forall k :: k in d.items ==> k in c.items && d.items[k] == c.items[k])
            && d.limit == c.limit && (c.limit > 0 ==> d.used <= c.limit || d.list == [])
            && SizeOf(d.list, d.items) <= SizeOf(c.list, c.items)
            && Drift(d) == Drift(c) + SizeOf(c.list, c.items) - SizeOf(d.list, d.items)
    decreases |c.list|
  {
    if c.limit > 0 && c.used > c.limit && c.list != [] {
      DropLastDrifts(c);
      EvictExact(DropLast(c));
      SizeSame(c.list[..|c.list| - 1], c.items, DropLast(c).items);
    }
  }

  // ---------------------------------------------------------------------
  // Runs
  // ---------------------------------------------------------------------

  datatype Op =
    | Set(k: Key, v: Bytes)
    | SetWithExpiration(k: Key, v: Bytes, expiration: int, now: int)
    | Get(k: Key, now: int)
    | Delete(k: Key)
    | Cleanup(order: seq<Key>, now: int)   // the runtime picks the order of the iteration
    | Clear

  /** An expiry time in the past. */
  predicate IsExpired(c: Lru, k: Key, now: int) {
    k in c.expires && now > c.expires[k]
  }

  /** Set leaves the expiry time of the key as it is. */
  function SetStep(c: Lru, k: Key, v: Bytes): Lru
    requires Kept(c)
  {
    StoreKeeps(c, k, v);
    Evict(Store(c, k, v))
  }

  /** A positive expiration sets the expiry time, any other removes it. */
  function Timed(c: Lru, k: Key, expiration: int, now: int): Lru {
    c.(expires := if expiration > 0 then c.expires[k := now + expiration] else c.expires - {k})
  }

  function SetTimedStep(c: Lru, k: Key, v: Bytes, expiration: int, now: int): Lru
    requires Kept(c)
  {
    StoreKeeps(c, k, v);
    TimedKeeps(Store(c, k, v), k, expiration, now);
    Evict(Timed(Store(c, k, v), k, expiration, now))
  }

  lemma TimedKeeps(c: Lru, k: Key, expiration: int, now: int)
    requires Kept(c) && k in c.items
    ensures Kept(Timed(c, k, expiration, now)) && Drift(Timed(c, k, expiration, now)) == Drift(c)
  {
  }

  function GetStep(c: Lru, k: Key, now: int): Lru {
    if k !in c.items then c
    else if IsExpired(c, k, now) then Drop(c, k)
    else Touch(c, k)
  }

  function DeleteStep(c: Lru, k: Key): Lru {
    if k in c.items then Drop(c, k) else c
  }

  /** The cleanup loop: each expired entry met is removed. */
  function CleanupStep(c: Lru, order: seq<Key>, now: int): Lru
    decreases |order|
  {
    if order == [] then c
    else
      var d := if IsExpired(c, order[0], now) && order[0] in c.items then Drop(c, order[0]) else c;
      CleanupStep(d, order[1..], now)
  }

  lemma {:induction false} CleanupKeeps(c: Lru, order: seq<Key>, now: int)
    requires Kept(c)
    ensures Kept(CleanupStep(c, order, now)) && Drift(CleanupStep(c, order, now)) == Drift(c)
    ensures CleanupStep(c, order, now).limit == c.limit && CleanupStep(c, order, now).used <= c.used
    decreases |order|
  {
    if order != [] {
      if IsExpired(c, order[0], now) {
        DropKeeps(c, order[0]);
        CleanupKeeps(Drop(c, order[0]), order[1..], now);
      } else {
        CleanupKeeps(c, order[1..], now);
      }
    }
  }

  /** In whatever order it iterates, a cleanup that meets every expiry time removes exactly the expired entries. */
  lemma {:induction false} CleanupExact(c: Lru, order: seq<Key>, now: int, k: Key)
    requires Kept(c)
    ensures var d := CleanupStep(c, order, now);
            && (k in d.items <==> k in c.items && !(k in order && IsExpired(c, k, now)))
            && (k in d.items ==> d.items[k] == c.items[k] && (k in d.expires <==> k in c.expires)
                                 && (k in c.expires ==> d.expires[k] == c.expires[k]))
    decreases |order|
  {
    if order != [] {
      assert k in order <==> k == order[0] || k in order[1..] by { assert order == [order[0]] + order[1..]; }
      if IsExpired(c, order[0], now) {
        DropKeeps(c, order[0]);
        CleanupExact(Drop(c, order[0]), order[1..], now, k);
      } else {
        CleanupExact(c, order[1..], now, k);
      }
    }
  }

  /** The operation writes an entry, and how it writes it before it evicts. */
  function Write(c: Lru, op: Op): Lru {
    match op
    case Set(k, v) => Store(c, k, v)
    case SetWithExpiration(k, v, expiration, now) => Timed(Store(c, k, v), k, expiration, now)
    case _ => c
  }

  predicate Writes(op: Op) {
    op.Set? || op.SetWithExpiration?
  }

  lemma WriteKeeps(c: Lru, op: Op)
    requires Kept(c)
    ensures Kept(Write(c, op)) && Drift(Write(c, op)) == Drift(c) && Write(c, op).limit == c.limit
  {
    if Writes(op) {
      StoreKeeps(c, op.k, op.v);
      if op.SetWithExpiration? { TimedKeeps(Store(c, op.k, op.v), op.k, op.expiration, op.now); }
    }
  }

  function Step(c: Lru, op: Op): (d: Lru)
    requires Kept(c)
    ensures Kept(d) && d.limit == c.limit
  {
    match op
    case Set(k, v) => StepKeeps(c, op); SetStep(c, k, v)
    case SetWithExpiration(k, v, expiration, now) => StepKeeps(c, op); SetTimedStep(c, k, v, expiration, now)
    case Get(k, now) => StepKeeps(c, op); GetStep(c, k, now)
    case Delete(k) => StepKeeps(c, op); DeleteStep(c, k)
    case Cleanup(order, now) => StepKeeps(c, op); CleanupStep(c, order, now)
    case Clear => EmptyLru(c.limit)
  }

  lemma StepKeeps(c: Lru, op: Op)
    requires Kept(c)
    ensures Writes(op) ==> Kept(Write(c, op)) && Kept(Evict(Write(c, op))) && Evict(Write(c, op)).limit == c.limit
    ensures op.Get? ==> Kept(GetStep(c, op.k, op.now)) && Drift(GetStep(c, op.k, op.now)) == Drift(c)
    ensures op.Delete? ==> Kept(DeleteStep(c, op.k)) && Drift(DeleteStep(c, op.k)) == Drift(c)
    ensures op.Cleanup? ==>
        Kept(CleanupStep(c, op.order, op.now)) && Drift(CleanupStep(c, op.order, op.now)) == Drift(c)
                            && CleanupStep(c, op.order, op.now).limit == c.limit
  {
    match op
    case Get(k, now) =>
      TouchKeeps(c, k);
      if k in c.items { DropKeeps(c, k); }
    case Delete(k) => if k in c.items { DropKeeps(c, k); }
    case Cleanup(order, now) => CleanupKeeps(c, order, now);
    case Clear =>
    case _ =>
      WriteKeeps(c, op);
      EvictExact(Write(c, op));
  }

  /** The state after operations from state c. */
  function Later(c: Lru, ops: seq<Op>): (d: Lru)
    requires Kept(c)
    ensures Kept(d) && d.limit == c.limit
  {
    if ops == [] then c else Step(Later(c, ops[..|ops| - 1]), ops[|ops| - 1])
  }

  /** The state after a run. */
  function Run(limit: int, ops: seq<Op>): (c: Lru)
    ensures Kept(c) && c.limit == limit
  {
    Later(EmptyLru(limit), ops)
  }

  // ---------------------------------------------------------------------
  // The eviction callback
  // ---------------------------------------------------------------------

  /** What evict reports, entry by entry from the back. */
  function EvictReports(c: Lru): seq<Call>
    requires Kept(c)
    decreases |c.list|
  {
    if c.limit > 0 && c.used > c.limit && c.list != [] then
      DropLastKept(c);
      var k := c.list[|c.list| - 1];
      [(k, c.items[k])] + EvictReports(DropLast(c))
    else []
  }

  /** A deletion or an expiry reports the entry it removes. */
  function DropReports(c: Lru, k: Key): seq<Call> {
    if k in c.items then [(k, c.items[k])] else []
  }

  function GetReports(c: Lru, k: Key, now: int): seq<Call> {
    if IsExpired(c, k, now) then DropReports(c, k) else []
  }

  function CleanupReports(c: Lru, order: seq<Key>, now: int): seq<Call>
    decreases |order|
  {
    if order == [] then []
    else if IsExpired(c, order[0], now) && order[0] in c.items
    then [(order[0], c.items[order[0]])] + CleanupReports(Drop(c, order[0]), order[1..], now)
    else CleanupReports(c, order[1..], now)
  }

  /** The i-th entry from the back. */
  function FromBack(c: Lru, i: nat): Call
    requires Kept(c) && i < |c.list|
  {
    var k := c.list[|c.list| - 1 - i];
    assert k in c.list;
    (k, c.items[k])
  }

  lemma FromBackShifts(c: Lru, i: nat)
    requires Kept(c) && 0 < i < |c.list|
    ensures c.list[|c.list| - 1] in c.items && Kept(DropLast(c)) && FromBack(DropLast(c), i - 1) == FromBack(c, i)
  {
    DropLastKept(c);
  }

  /** evict reports exactly the entries it removes, each once, from the back of the list. */
  lemma {:induction false} EvictReportsExact(c: Lru)
    requires Kept(c)
    ensures |EvictReports(c)| == |c.list| - |Evict(c).list|
    ensures forall i :: 0 <= i < |EvictReports(c)| ==> EvictReports(c)[i] == FromBack(c, i)
    decreases |c.list|
  {
    if c.limit > 0 && c.used > c.limit && c.list != [] {
      DropLastKept(c);
      var rest := EvictReports(DropLast(c));
      EvictReportsExact(DropLast(c));
      assert EvictReports(c) == [FromBack(c, 0)] + rest;
      forall i | 0 < i <= |rest| ensures EvictReports(c)[i] == FromBack(c, i) {
        FromBackShifts(c, i);
      }
    }
  }

  /** cleanup reports exactly the expired entries it meets. */
  lemma {:induction false} CleanupReportsExact(c: Lru, order: seq<Key>, now: int, k: Key, v: Bytes)
    requires Kept(c)
    ensures (k, v) in CleanupReports(c, order, now) <==>
        k in order && IsExpired(c, k, now) && (k, v) in DropReports(c, k)
    decreases |order|
  {
    if order != [] {
      assert k in order <==> k == order[0] || k in order[1..] by { assert order == [order[0]] + order[1..]; }
      if IsExpired(c, order[0], now) {
        DropKeeps(c, order[0]);
        CleanupReportsExact(Drop(c, order[0]), order[1..], now, k, v);
      } else {
        CleanupReportsExact(c, order[1..], now, k, v);
      }
    }
  }

  predicate KeysOnce(rs: seq<Call>) {
    forall i, j :: 0 <= i < j < |rs| ==> rs[i].0 != rs[j].0
  }

  lemma FirstReport(r: Call, rest: seq<Call>)
    requires KeysOnce(rest) && forall v :: (r.0, v) !in rest
    ensures KeysOnce([r] + rest)
  {
    forall j | 0 <= j < |rest| ensures rest[j].0 != r.0 {
      assert (rest[j].0, rest[j].1) in rest;
    }
  }

  /** And no entry twice. */
  lemma {:induction false} CleanupReportsOnce(c: Lru, order: seq<Key>, now: int)
    requires Kept(c)
    ensures KeysOnce(CleanupReports(c, order, now))
    decreases |order|
  {
    if order != [] {
      var k, rest := order[0], order[1..];
      if IsExpired(c, k, now) {
        DropKeeps(c, k);
        CleanupReportsOnce(Drop(c, k), rest, now);
        forall v ensures (k, v) !in CleanupReports(Drop(c, k), rest, now) {
          CleanupReportsExact(Drop(c, k), rest, now, k, v);
        }
        FirstReport((k, c.items[k]), CleanupReports(Drop(c, k), rest, now));
      } else {
        CleanupReportsOnce(c, rest, now);
      }
    }
  }

  /** One turn of the eviction loop. */
  lemma EvictTurn(c: Lru, rs: seq<Call>)
    requires Kept(c) && c.limit > 0 && c.used > c.limit && c.list != []
    ensures Kept(DropLast(c)) && Evict(c) == Evict(DropLast(c))
    ensures rs + EvictReports(c) == (rs + [FromBack(c, 0)]) + EvictReports(DropLast(c))
  {
    DropLastKept(c);
  }

  /** One turn of the cleanup loop. */
  lemma CleanupTurn(c: Lru, order: seq<Key>, i: nat, now: int, rs: seq<Call>)
    requires i < |order|
    ensures var k, rest := order[i], order[i + 1..];
            if IsExpired(c, k, now) && k in c.items
            then && CleanupStep(c, order[i..], now) == CleanupStep(Drop(c, k), rest, now)
                 && rs + CleanupReports(c, order[i..], now) ==
                     (rs + [(k, c.items[k])]) + CleanupReports(Drop(c, k), rest, now)
            else && CleanupStep(c, order[i..], now) == CleanupStep(c, rest, now)
                 && CleanupReports(c, order[i..], now) == CleanupReports(c, rest, now)
  {
    assert order[i..][0] == order[i] && order[i..][1..] == order[i + 1..];
  }

  // ---------------------------------------------------------------------
  // Get between its locks
  // ---------------------------------------------------------------------

  // Get looks the key up, looks its expiry time up, and deletes or refreshes the entry, each under the lock
  // but with the lock let go in between.

  /** The entry of k is there and has not expired. */
  predicate Good(c: Lru, k: Key, now: int) {
    k in c.items && !IsExpired(c, k, now)
  }

  /** Entries that evict keeps keep their expiry times. */
  lemma {:induction false} EvictTimes(c: Lru, k: Key)
    requires Kept(c) && k in Evict(c).items
    ensures k in c.items && (k in Evict(c).expires <==> k in c.expires)
    ensures k in c.expires ==> Evict(c).expires[k] == c.expires[k]
    decreases |c.list|
  {
    if c.limit > 0 && c.used > c.limit && c.list != [] {
      DropLastKept(c);
      EvictTimes(DropLast(c), k);
    }
  }

  /** The operation writes k and leaves it there unexpired: with an expiration that ends later or never, or,
      as Set leaves an expiry time as it is, with no expiry time to leave. */
  predicate Renews(c: Lru, op: Op, k: Key, now: int)
    requires Kept(c)
  {
    && k in Step(c, op).items && Writes(op) && op.k == k
    && if op.Set? then k !in c.expires else op.expiration <= 0 || now <= op.now + op.expiration
  }

  /** The operation leaves an unexpired entry of k there unexpired. */
  predicate Spares(c: Lru, op: Op, k: Key, now: int)
    requires Kept(c)
  {
    && k in Step(c, op).items
    && !(op.SetWithExpiration? && op.k == k && op.expiration > 0 && now > op.now + op.expiration)
  }

  /** What is written of k before evict. */
  lemma WriteTimes(c: Lru, op: Op, k: Key)
    requires Kept(c) && Writes(op)
    ensures k in Write(c, op).items <==> k == op.k || k in c.items
    ensures k != op.k || op.Set? ==> (k in Write(c, op).expires <==> k in c.expires)
    ensures k != op.k || op.Set? ==> k in c.expires ==> Write(c, op).expires[k] == c.expires[k]
    ensures k == op.k && op.SetWithExpiration? ==> (k in Write(c, op).expires <==> op.expiration > 0)
    ensures k == op.k && op.SetWithExpiration? && op.expiration > 0 ==>
        Write(c, op).expires[k] == op.now + op.expiration
  {
  }

  lemma WriteGood(c: Lru, op: Op, k: Key, now: int)
    requires Kept(c) && Writes(op)
    ensures Good(Step(c, op), k, now) <==> Renews(c, op, k, now) || (Good(c, k, now) && Spares(c, op, k, now))
  {
    WriteKeeps(c, op);
    if k in Step(c, op).items {
      EvictTimes(Write(c, op), k);
      WriteTimes(c, op, k);
    }
  }

  lemma StepGood(c: Lru, op: Op, k: Key, now: int)
    requires Kept(c)
    ensures Good(Step(c, op), k, now) <==> Renews(c, op, k, now) || (Good(c, k, now) && Spares(c, op, k, now))
  {
    if Writes(op) {
      WriteGood(c, op, k, now);
    } else if op.Cleanup? {
      CleanupExact(c, op.order, op.now, k);
    }
  }

  /** Some operation renewed k, and every later one spared it. */
  predicate Renewed(c: Lru, ops: seq<Op>, k: Key, now: int)
    requires Kept(c)
  {
    ops != [] &&
    var before, op := Later(c, ops[..|ops| - 1]), ops[|ops| - 1];
    Renews(before, op, k, now) || (Renewed(c, ops[..|ops| - 1], k, now) && Spares(before, op, k, now))
  }

  /** Get finds the entry of k expired, lets go of its lock, and deletes whatever entry of k it then finds.
      It deletes an unexpired one if and only if the operations in between renewed k and spared it. */
  lemma {:induction false} LateDeleteIff(c: Lru, ops: seq<Op>, k: Key, now: int)
    requires Kept(c) && IsExpired(c, k, now)
    ensures Good(Later(c, ops), k, now) <==> Renewed(c, ops, k, now)
    ensures k !in DeleteStep(Later(c, ops), k).items
  {
    if ops != [] {
      var n := |ops| - 1;
      LateDeleteIff(c, ops[..n], k, now);
      StepGood(Later(c, ops[..n]), ops[n], k, now);
    }
  }

  /** A write that comes in between is lost: in every cache without a limit, a Get that has found k expired
      deletes the value another caller writes before it deletes. */
  lemma LateDeleteDrops(c: Lru, k: Key, v: Bytes, expiration: int, now: int)
    requires Kept(c) && c.limit <= 0 && IsExpired(c, k, now) && expiration > 0
    ensures var d := Step(c, SetWithExpiration(k, v, expiration, now));
            Good(d, k, now) && d.items[k] == v && k !in DeleteStep(d, k).items
  {
    StoreKept(c, k, v);
  }

  // ---------------------------------------------------------------------
  // The drift law
  // ---------------------------------------------------------------------

  /** The bytes an operation evicts for capacity: the entries evict pushes off the end. */
  ghost function PushedOff(c: Lru, op: Op): int
    requires Kept(c)
  {
    WriteKeeps(c, op);
    if !Writes(op) then 0
    else SizeOf(Write(c, op).list, Write(c, op).items) - SizeOf(Step(c, op).list, Step(c, op).items)
  }

  /** The bytes evicted for capacity since the last Clear. */
  ghost function PushedSinceClear(limit: int, ops: seq<Op>): int {
    if ops == [] || ops[|ops| - 1].Clear? then 0
    else
      var before := ops[..|ops| - 1];
      PushedSinceClear(limit, before) + PushedOff(Run(limit, before), ops[|ops| - 1])
  }

  lemma StepDrifts(c: Lru, op: Op)
    requires Kept(c)
    ensures Drift(Step(c, op)) == if op.Clear? then 0 else Drift(c) + PushedOff(c, op)
    ensures PushedOff(c, op) >= 0
  {
    StepKeeps(c, op);
    WriteKeeps(c, op);
    if Writes(op) { EvictExact(Write(c, op)); }
  }

  /** The drift law: after every run the list holds each entry once, and the counter is the live bytes
      less the bytes evicted for capacity since the last Clear, because each of those was subtracted
      twice. */
  lemma {:induction false} DriftLaw(limit: int, ops: seq<Op>)
    ensures var c, pushed := Run(limit, ops), PushedSinceClear(limit, ops);
            && Kept(c) && pushed >= 0
            && c.used == SizeOf(c.list, c.items) - pushed
  {
    if ops != [] {
      DriftLaw(limit, ops[..|ops| - 1]);
      StepDrifts(Run(limit, ops[..|ops| - 1]), ops[|ops| - 1]);
    }
  }

  // ---------------------------------------------------------------------
  // When the counter is the live bytes
  // ---------------------------------------------------------------------

  /** The guard of the eviction loop holds on its first test. */
  predicate Trips(c: Lru, op: Op) {
    Writes(op) && c.limit > 0 && Write(c, op).used > c.limit
  }

  /** An eviction from an exact counter leaves it below the live bytes. */
  lemma EvictExactIff(c: Lru)
    requires Kept(c) && Drift(c) == 0
    ensures Kept(Evict(c)) && (Drift(Evict(c)) == 0 <==> c.limit <= 0 || c.used <= c.limit)
  {
    EvictExact(c);
  }

  /** A write whose counter was the live bytes keeps it so if and only if there is no limit or the counter
      with the new entry is within it. */
  lemma SetExactIff(c: Lru, k: Key, v: Bytes)
    requires Kept(c) && c.used == SizeOf(c.list, c.items)
    ensures var d := SetStep(c, k, v);
            Kept(d) && (d.used == SizeOf(d.list, d.items) <==> c.limit <= 0 || Store(c, k, v).used <= c.limit)
  {
    WriteKeeps(c, Set(k, v));
    EvictExactIff(Store(c, k, v));
  }

  lemma SetTimedExactIff(c: Lru, k: Key, v: Bytes, expiration: int, now: int)
    requires Kept(c) && c.used == SizeOf(c.list, c.items)
    ensures var d := SetTimedStep(c, k, v, expiration, now);
            Kept(d) && (d.used == SizeOf(d.list, d.items) <==> c.limit <= 0 || Store(c, k, v).used <= c.limit)
  {
    WriteKeeps(c, SetWithExpiration(k, v, expiration, now));
    EvictExactIff(Timed(Store(c, k, v), k, expiration, now));
  }

  /** No write since the last Clear found the counter over the limit. */
  predicate Untripped(limit: int, ops: seq<Op>) {
    ops == [] || ops[|ops| - 1].Clear?
    || (Untripped(limit, ops[..|ops| - 1]) && !Trips(Run(limit, ops[..|ops| - 1]), ops[|ops| - 1]))
  }

  lemma StepExactIff(c: Lru, op: Op)
    requires Kept(c) && !op.Clear? && Drift(c) == 0
    ensures Drift(Step(c, op)) == 0 <==> !Trips(c, op)
  {
    if Writes(op) {
      WriteKeeps(c, op);
      EvictExactIff(Write(c, op));
    } else {
      StepDrifts(c, op);
    }
  }

  /** After every run the counter is the live bytes if and only if no write since the last Clear found
      it over the limit. */
  lemma {:induction false} CounterExactIff(limit: int, ops: seq<Op>)
    ensures var c := Run(limit, ops); c.used == SizeOf(c.list, c.items) <==> Untripped(limit, ops)
  {
    if ops != [] {
      var before, op := ops[..|ops| - 1], ops[|ops| - 1];
      CounterExactIff(limit, before);
      DriftLaw(limit, before);
      StepDrifts(Run(limit, before), op);
      if !op.Clear? && Drift(Run(limit, before)) == 0 { StepExactIff(Run(limit, before), op); }
    }
  }

  // ---------------------------------------------------------------------
  // When the live bytes are within the limit
  // ---------------------------------------------------------------------

  /** The live bytes are within the limit. */
  ghost predicate Within(c: Lru)
    requires Kept(c)
  {
    SizeOf(c.list, c.items) <= c.limit
  }

  /** The bytes of the first m listed entries. */
  function Prefix(c: Lru, m: nat): nat
    requires Kept(c) && m <= |c.list|
  {
    assert forall k :: k in c.list[..m] ==> k in c.list;
    SizeOf(c.list[..m], c.items)
  }

  /** If the eviction loop may stop with m entries left, every other one subtracted twice, those are within
      the limit. */
  ghost predicate FitsAt(c: Lru, m: nat)
    requires Kept(c) && m <= |c.list|
  {
    c.used - 2 * (SizeOf(c.list, c.items) - Prefix(c, m)) <= c.limit ==> Prefix(c, m) <= c.limit
  }

  /** Wherever the loop may stop, the entries left are within the limit. */
  ghost predicate Fits(c: Lru)
    requires Kept(c)
  {
    forall m :: 0 <= m <= |c.list| ==> FitsAt(c, m)
  }

  lemma {:induction false} PrefixAll(c: Lru)
    requires Kept(c)
    ensures Prefix(c, |c.list|) == SizeOf(c.list, c.items)
  {
    assert c.list[..|c.list|] == c.list;
  }

  lemma {:induction false} PrefixGrows(c: Lru, m: nat)
    requires Kept(c) && m <= |c.list|
    ensures Prefix(c, m) <= SizeOf(c.list, c.items)
    decreases |c.list| - m
  {
    if m == |c.list| {
      PrefixAll(c);
    } else {
      assert c.list[..m + 1][..m] == c.list[..m];
      PrefixGrows(c, m + 1);
    }
  }

  /** Dropping the last entry leaves the prefixes. */
  lemma PrefixStays(c: Lru, m: nat)
    requires Kept(c) && m < |c.list|
    ensures Kept(DropLast(c)) && Prefix(DropLast(c), m) == Prefix(c, m)
  {
    DropLastKept(c);
    assert c.list[..|c.list| - 1][..m] == c.list[..m];
    SizeSame(c.list[..m], c.items, DropLast(c).items);
  }

  lemma FitsAtStays(c: Lru, m: nat)
    requires Kept(c) && c.list != [] && m < |c.list|
    ensures Kept(DropLast(c)) && (FitsAt(DropLast(c), m) <==> FitsAt(c, m))
  {
    DropLastDrifts(c);
    PrefixStays(c, m);
  }

  lemma FitsStays(c: Lru)
    requires Kept(c) && c.limit > 0 && c.used > c.limit && c.list != []
    ensures Kept(DropLast(c)) && (Fits(DropLast(c)) <==> Fits(c))
  {
    var d, n := DropLast(c), |c.list|;
    DropLastKept(c);
    PrefixAll(c);
    assert FitsAt(c, n);
    forall m | 0 <= m < n ensures FitsAt(d, m) <==> FitsAt(c, m) { FitsAtStays(c, m); }
  }

  /** Eviction ends within the limit if and only if wherever its loop may stop the entries left fit. */
  lemma {:induction false} EvictWithinIff(c: Lru)
    requires Kept(c) && c.limit > 0
    ensures Kept(Evict(c)) && Evict(c).limit == c.limit && (Within(Evict(c)) <==> Fits(c))
    decreases |c.list|
  {
    EvictExact(c);
    if c.used > c.limit && c.list != [] {
      FitsStays(c);
      EvictWithinIff(DropLast(c));
    } else {
      PrefixAll(c);
      assert Fits(c) ==> FitsAt(c, |c.list|);
      forall m | 0 <= m <= |c.list| ensures Prefix(c, m) <= SizeOf(c.list, c.items) { PrefixGrows(c, m); }
    }
  }

  /** A write leaves the live bytes within the limit if and only if, with the new entry in front, wherever
      the eviction loop may stop the entries left fit. */
  lemma WriteWithinIff(c: Lru, op: Op)
    requires Kept(c) && c.limit > 0 && Writes(op)
    ensures Kept(Write(c, op)) && (Within(Step(c, op)) <==> Fits(Write(c, op)))
  {
    WriteKeeps(c, op);
    EvictWithinIff(Write(c, op));
  }

  /** At every moment of the run the live bytes are within the limit. */
  ghost predicate AlwaysWithin(limit: int, ops: seq<Op>) {
    Within(Run(limit, ops)) && (ops != [] ==> AlwaysWithin(limit, ops[..|ops| - 1]))
  }

  /** Every write of the run fits. */
  ghost predicate AllFit(limit: int, ops: seq<Op>) {
    ops != [] ==>
      var before, op := ops[..|ops| - 1], ops[|ops| - 1];
      && AllFit(limit, before)
      && (Writes(op) ==> Kept(Write(Run(limit, before), op)) && Fits(Write(Run(limit, before), op)))
  }

  lemma StepShrinks(c: Lru, op: Op)
    requires Kept(c) && !Writes(op) && !op.Clear?
    ensures SizeOf(Step(c, op).list, Step(c, op).items) <= SizeOf(c.list, c.items)
  {
    StepDrifts(c, op);
    if op.Cleanup? { CleanupKeeps(c, op.order, op.now); }
  }

  /** The limit is a limit on the live bytes, throughout a run, if and only if every write of it fits. */
  lemma {:induction false} AlwaysWithinIff(limit: int, ops: seq<Op>)
    requires limit > 0
    ensures AlwaysWithin(limit, ops) <==> AllFit(limit, ops)
  {
    if ops != [] {
      var before, op := ops[..|ops| - 1], ops[|ops| - 1];
      AlwaysWithinIff(limit, before);
      if Writes(op) {
        WriteWithinIff(Run(limit, before), op);
      } else if !op.Clear? {
        StepShrinks(Run(limit, before), op);
      }
    }
  }

  /** In particular while no write has found the counter over the limit. */
  lemma {:induction false} WithinLimit(limit: int, ops: seq<Op>)
    requires limit > 0 && Untripped(limit, ops)
    ensures Within(Run(limit, ops))
  {
    CounterExactIff(limit, ops);
    if ops != [] && !ops[|ops| - 1].Clear? {
      var before, op := ops[..|ops| - 1], ops[|ops| - 1];
      WithinLimit(limit, before);
      if Writes(op) { WriteKeeps(Run(limit, before), op); } else { StepShrinks(Run(limit, before), op); }
    }
  }

  /** An entry larger than the limit is evicted as soon as it is written, and the counter of the empty
      cache is left at minus its size. */
  lemma OversizedWrite(limit: int, k: Key, v: Bytes)
    requires limit > 0 && |k| + |v| > limit
    ensures SetStep(EmptyLru(limit), k, v) == Lru(limit, [], map[], map[], 0 - (|k| + |v|))
  {
    var c := Store(EmptyLru(limit), k, v);
    StoreKeeps(EmptyLru(limit), k, v);
    DropLastKept(c);
    assert c.list == [k] && c.items == map[k := v];
    assert [k][..0] == [] && map[k := v] - {k} == map[] && c.expires - {k} == map[];
    assert DropLast(c) == Lru(limit, [], map[], map[], 0 - EntrySize(k, v));
    assert Evict(c) == Evict(DropLast(c)) == DropLast(c);
  }

  /** From then on the limit does not hold, by any margin: one write larger than the limit, and an entry
      that exceeds the limit by as much as that write is kept. */
  lemma OverLimitRun(limit: int, k: Key, v: Bytes, k': Key, v': Bytes)
    requires limit > 0 && |k| + |v| > limit && |k'| + |v'| == limit + |k| + |v|
    ensures var c := Run(limit, [Set(k, v), Set(k', v')]);
            c.list == [k'] && c.items == map[k' := v'] && SizeOf(c.list, c.items) == limit + |k| + |v|
  {
    var c := Lru(limit, [], map[], map[], 0 - EntrySize(k, v));
    OversizedWrite(limit, k, v);
    RunTwo(limit, Set(k, v), Set(k', v'));
    StoreKeeps(c, k', v');
    assert Store(c, k', v').list == [k'];
    SizeFront(k', [], Store(c, k', v').items);
  }

  lemma RunTwo(limit: int, op: Op, op': Op)
    ensures Run(limit, [op, op']) == Step(Step(EmptyLru(limit), op), op')
  {
    assert [op, op'][..1] == [op] && [op][..0] == [];
    assert Later(EmptyLru(limit), [op]) == Step(Later(EmptyLru(limit), []), op);
  }
}
