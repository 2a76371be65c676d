/** The bucketed two-level store over mutable array caches, proved to take the steps of StoreModel. */
module Lru2Store {
  import opened Base
  import opened Words
  import opened Recency
  import ArrayCache
  import TwoLevel
  import Sweep
  import opened StoreModel
  import opened Guarantees
  import opened Reports

  /** The two levels of one bucket. */
  datatype Levels = Levels(l1: ArrayCache.Cache, l2: ArrayCache.Cache)

  ghost function Objects(c: Levels): set<object> {
    c.l1.Repr() + c.l2.Repr()
  }

  /** The buckets share no object. */
  ghost predicate Apart(caches: seq<Levels>) {
    && (forall i :: 0 <= i < |caches| ==> caches[i].l1.Repr() !! caches[i].l2.Repr())
    && (forall i, j :: 0 <= i < j < |caches| ==> Objects(caches[i]) !! Objects(caches[j]))
  }

  /** The bucket two levels show. */
  ghost function Shown(c: Levels): TwoLevel.Bucket
    reads c.l1, c.l2
  {
    TwoLevel.Bucket(c.l1.contents, c.l1.m.Length, c.l2.contents, c.l2.m.Length)
  }

  ghost predicate Usable(c: Levels)
    reads Objects(c)
  {
    c.l1.Repr() !! c.l2.Repr() && c.l1.Valid() && c.l2.Valid()
  }

  /** del on both levels. */
  method DelBoth(c: Levels, key: Key) returns (n1: Option<Node>, n2: Option<Node>, deleted: bool)
    requires Usable(c)
    modifies Objects(c)
    ensures Usable(c) && Shown(c) == TwoLevel.Delete(old(Shown(c)), key)
    ensures n1 == if HasLive(old(c.l1.contents), key) then Some(At(old(c.l1.contents), key).(expireAt := 0)) else None
    ensures n2 == if HasLive(old(c.l2.contents), key) then Some(At(old(c.l2.contents), key).(expireAt := 0)) else None
    ensures deleted == (n1.Some? || n2.Some?)
  {
    var s1, s2, e1, e2;
    n1, s1, e1 := c.l1.Del(key);
    assert c.l2.Valid() && c.l2.contents == old(c.l2.contents);
    n2, s2, e2 := c.l2.Del(key);
    assert c.l1.Valid() && c.l1.contents == Del(old(c.l1.contents), key);
    deleted := s1 > 0 || s2 > 0;
  }

  /** delete: tombstone the key in both levels, and report once what was live. */
  method DeleteLevels(c: Levels, key: Key) returns (deleted: bool, rs: seq<Report>)
    requires Usable(c)
    modifies Objects(c)
    ensures Usable(c) && Shown(c) == TwoLevel.Delete(old(Shown(c)), key)
    ensures deleted == (HasLive(old(c.l1.contents), key) || HasLive(old(c.l2.contents), key))
    ensures rs == TwoLevel.DeleteReports(old(Shown(c)), key)
  {
    var n1, n2;
    n1, n2, deleted := DelBoth(c, key);
    rs := [];
    if deleted {
      if n1.Some? && n1.value.v != Nil {
        rs := [Report(key, n1.value.v)];
      } else if n2.Some? && n2.value.v != Nil {
        rs := [Report(key, n2.value.v)];
      }
    }
  }

  /** _get on level 2: refresh the key, and show its node unless it is deleted or expired. */
  method Lookup(c: Levels, key: Key, later: int64) returns (node: Option<Node>)
    requires Usable(c)
    modifies Objects(c)
    ensures Usable(c) && Shown(c) == old(Shown(c)).(l2 := Touch(old(c.l2.contents), key))
    ensures node == if HasLive(old(c.l2.contents), key) && later < At(old(c.l2.contents), key).expireAt
                    then Some(At(old(c.l2.contents), key)) else None
  {
    var n := c.l2.Get(key);
    if n.Some? && !(n.value.expireAt <= 0 || later >= n.value.expireAt) {
      return n;
    }
    return None;
  }

  /** Get once level 1 had the key: an expired entry is deleted everywhere, any other moves to level 2. */
  method GetFirst(c: Levels, key: Key, now: int64, v: Value, expireAt: int64)
    returns (value: Value, ok: bool, rs: seq<Report>)
    requires Usable(c) && expireAt > 0
    modifies Objects(c)
    ensures Usable(c)
    ensures var b := old(Shown(c));
            if now >= expireAt
            then Shown(c) == TwoLevel.Delete(b, key) && rs == TwoLevel.DeleteReports(b, key) && value == Nil && !ok
            else && Shown(c) == b.(l2 := Put(b.l2, b.c2, Node(key, v, expireAt)))
                 && rs == PutReports(b.l2, b.c2, key) && value == v && ok
  {
    if expireAt > 0 && now >= expireAt {
      var _, r := DeleteLevels(c, key);
      return Nil, false, r;
    }
    var _, r := c.l2.Put(key, v, expireAt, true);
    return v, true, r;
  }

  /** Get once level 1 did not have the key. */
  method GetSecond(c: Levels, key: Key, now: int64, later: int64) returns (value: Value, ok: bool, rs: seq<Report>)
    requires Usable(c) && !HasLive(c.l1.contents, key)
    modifies Objects(c)
    ensures Usable(c)
    ensures var o := TwoLevel.Get(old(Shown(c)), key, now, later);
            Shown(c) == o.b && rs == o.reports && o.hit == if ok then Some(value) else None
  {
    var n2 := Lookup(c, key, later);
    if n2.Some? {
      if n2.value.expireAt > 0 && now >= n2.value.expireAt {
        var _, r := DeleteLevels(c, key);
        return Nil, false, r;
      }
      return n2.value.v, true, [];
    }
    return Nil, false, [];
  }

  /** Get on one bucket: a level-1 hit moves the entry to level 2; expiry deletes it everywhere. */
  method GetLevels(c: Levels, key: Key, now: int64, later: int64) returns (value: Value, ok: bool, rs: seq<Report>)
    requires Usable(c)
    modifies Objects(c)
    ensures Usable(c)
    ensures var o := TwoLevel.Get(old(Shown(c)), key, now, later);
            Shown(c) == o.b && rs == o.reports && o.hit == if ok then Some(value) else None
  {
    var n1, status1, expireAt := c.l1.Del(key);
    if status1 > 0 {
      value, ok, rs := GetFirst(c, key, now, n1.value.v, expireAt);
    } else {
      value, ok, rs := GetSecond(c, key, now, later);
    }
  }

  /** The live tail that a new key is about to overwrite in a full level 1, if any. */
  method SaveTail(c: Levels, key: Key) returns (evicted: Option<Node>)
    requires Usable(c)
    ensures evicted == TwoLevel.Displaced(Shown(c), key)
  {
    c.l1.KnowsKey(key);
    evicted := None;
    if key !in c.l1.hmap && c.l1.last == c.l1.m.Length {
      var tail := c.l1.Tail();
      if tail.expireAt > 0 {
        evicted := Some(tail);
      }
    }
  }

  /** SetWithExpiration on one bucket: the saved tail goes to level 2. */
  method SetLevels(c: Levels, key: Key, value: Value, expireAt: int64) returns (rs: seq<Report>)
    requires Usable(c)
    modifies Objects(c)
    ensures Usable(c)
    ensures var o := TwoLevel.Set(old(Shown(c)), Node(key, value, expireAt));
            Shown(c) == o.b && rs == o.reports
  {
    var evicted := SaveTail(c, key);
    rs := [];
    var _, _ := c.l1.Put(key, value, expireAt, false);
    if evicted.Some? {
      var _, r := c.l2.Put(evicted.value.k, evicted.value.v, evicted.value.expireAt, true);
      rs := r;
    }
  }

  /** Append the keys of the expired nodes to a list, each key once. */
  method Collect(keys: seq<Key>, nodes: Level, t: int64) returns (r: seq<Key>)
    ensures r == Sweep.AddMissing(keys, Sweep.KeysOf(Sweep.Expired(nodes, t)))
  {
    r := keys;
    ghost var all := Sweep.AddMissing(keys, Sweep.KeysOf(Sweep.Expired(nodes, t)));
    assert nodes[0..] == nodes;
    for i := 0 to |nodes|
      invariant all == Sweep.AddMissing(r, Sweep.KeysOf(Sweep.Expired(nodes[i..], t)))
    {
      var n := nodes[i];
      ghost var rest := Sweep.KeysOf(Sweep.Expired(nodes[i + 1..], t));
      Sweep.ExpiredFrom(nodes, i, t);
      assert [] + rest == rest && ([n.k] + rest)[1..] == rest;
      if n.expireAt > 0 && t >= n.expireAt {
        if n.k !in r {
          r := r + [n.k];
        }
      }
    }
  }

  /** Append the keys of the nodes to a list. */
  method AppendKeys(keys: seq<Key>, nodes: Level) returns (r: seq<Key>)
    ensures r == keys + Sweep.KeysOf(nodes)
  {
    r := keys;
    for i := 0 to |nodes|
      invariant r == keys + Sweep.KeysOf(nodes)[..i]
    {
      r := r + [nodes[i].k];
    }
  }

  /** Append the keys of the nodes to a list, each key once. */
  method AppendNewKeys(keys: seq<Key>, nodes: Level) returns (r: seq<Key>)
    ensures r == Sweep.AddMissing(keys, Sweep.KeysOf(nodes))
  {
    r := keys;
    ghost var ks := Sweep.KeysOf(nodes);
    assert ks[0..] == ks;
    for i := 0 to |nodes|
      invariant Sweep.AddMissing(keys, ks) == Sweep.AddMissing(r, ks[i..])
    {
      assert ks[i..][0] == nodes[i].k && ks[i..][1..] == ks[i + 1..];
      if nodes[i].k !in r {
        r := r + [nodes[i].k];
      }
    }
  }

  /** Append the live keys of both levels; level-2 keys that are listed already are skipped. */
  method LiveKeys(keys: seq<Key>, c: Levels) returns (r: seq<Key>)
    requires Usable(c)
    ensures r == Sweep.AddMissing(keys + Sweep.KeysOf(LiveNodes(c.l1.contents)), Sweep.KeysOf(LiveNodes(c.l2.contents)))
  {
    var everything := (n: Node) => true;
    var first := c.l1.Walk(everything);
    var second := c.l2.Walk(everything);
    WalkedAll(c.l1.contents, everything);
    WalkedAll(c.l2.contents, everything);
    r := AppendKeys(keys, first);
    r := AppendNewKeys(r, second);
  }

  /** One deletion of a list, as the loop over it sees it. */
  lemma DeletionStep(bs: Store, keys: seq<Key>, i: nat, rs: seq<Report>)
    requires |bs| > 0 && i < |keys|
    ensures DeleteAllIn(bs, keys[i..]) == DeleteAllIn(StoreModel.DeleteIn(bs, keys[i]), keys[i + 1..])
    ensures rs + DeletionReports(bs, keys[i..]) ==
              (rs + TwoLevel.DeleteReports(BucketOf(bs, keys[i]), keys[i]))
              + DeletionReports(StoreModel.DeleteIn(bs, keys[i]), keys[i + 1..])
  {
    Sweep.SuffixStep(keys, i);
    DeletionReportsStep(bs, keys[i..]);
    DeleteAllInStep(bs, keys[i..]);
  }

  lemma DeletionReportsStep(bs: Store, keys: seq<Key>)
    requires |bs| > 0 && keys != []
    ensures DeletionReports(bs, keys) ==
              TwoLevel.DeleteReports(BucketOf(bs, keys[0]), keys[0])
              + DeletionReports(StoreModel.DeleteIn(bs, keys[0]), keys[1..])
  {
  }

  lemma DeleteAllInStep(bs: Store, keys: seq<Key>)
    requires |bs| > 0 && keys != []
    ensures DeleteAllIn(bs, keys) == DeleteAllIn(StoreModel.DeleteIn(bs, keys[0]), keys[1..])
  {
  }

  /** One cleanup tick on one bucket: collect first, delete afterwards. */
  method SweepLevels(c: Levels, t: int64) returns (rs: seq<Report>)
    requires Usable(c)
    modifies Objects(c)
    ensures Usable(c) && Shown(c) == Sweep.SweepBucket(old(Shown(c)), t)
    ensures rs == Sweep.DeleteAllReports(old(Shown(c)), Sweep.ExpiredKeys(old(Shown(c)), t))
  {
    ghost var b := Shown(c);
    var everything := (n: Node) => true;
    var first := c.l1.Walk(everything);
    var second := c.l2.Walk(everything);
    var keys := ExpiredIn(first, t);
    keys := Collect(keys, second, t);
    assert keys == Sweep.ExpiredKeys(b, t) by {
      WalkedAll(b.l1, everything);
      WalkedAll(b.l2, everything);
      Sweep.ExpiredAmongLive(b.l1, t);
      Sweep.ExpiredAmongLive(b.l2, t);
    }
    rs := DeleteListed(c, keys);
  }

  /** Delete the listed keys one after the other. */
  method DeleteListed(c: Levels, keys: seq<Key>) returns (rs: seq<Report>)
    requires Usable(c)
    modifies Objects(c)
    ensures Usable(c) && Shown(c) == Sweep.DeleteAll(old(Shown(c)), keys)
    ensures rs == Sweep.DeleteAllReports(old(Shown(c)), keys)
  {
    ghost var b := Shown(c);
    rs := [];
    assert keys[0..] == keys;
    for i := 0 to |keys|
      invariant Usable(c)
      invariant Sweep.DeleteAll(b, keys) == Sweep.DeleteAll(Shown(c), keys[i..])
      invariant Sweep.DeleteAllReports(b, keys) == rs + Sweep.DeleteAllReports(Shown(c), keys[i..])
    {
      Sweep.DeleteAllStep(Shown(c), keys, i, rs);
      var _, r := DeleteLevels(c, keys[i]);
      rs := rs + r;
    }
  }

  /** The keys of the expired nodes, in order. */
  method ExpiredIn(nodes: Level, t: int64) returns (r: seq<Key>)
    ensures r == Sweep.KeysOf(Sweep.Expired(nodes, t))
  {
    r := [];
    ghost var all := Sweep.KeysOf(Sweep.Expired(nodes, t));
    assert nodes[0..] == nodes;
    for i := 0 to |nodes|
      invariant all == r + Sweep.KeysOf(Sweep.Expired(nodes[i..], t))
    {
      var n := nodes[i];
      Sweep.ExpiredFrom(nodes, i, t);
      ghost var rest := Sweep.KeysOf(Sweep.Expired(nodes[i + 1..], t));
      assert r + ([n.k] + rest) == (r + [n.k]) + rest && [] + rest == rest;
      if n.expireAt > 0 && t >= n.expireAt {
        r := r + [n.k];
      }
    }
  }

  class Lru2Store {
    const caches: seq<Levels>
    const mask: nat
    /** The calls of onEvicted so far, in order. */
    var reports: seq<Report>
    /** The abstract value. */
    ghost var view: Store
    /** Everything the buckets are made of. */
    ghost const Repr: set<object>

    /** The levels of bucket i are valid and show b. */
    ghost predicate Shows(i: nat, b: TwoLevel.Bucket)
      requires i < |caches|
      reads Objects(caches[i])
    {
      Usable(caches[i]) && Shown(caches[i]) == b
    }

    /** The parts fixed at construction. */
    ghost predicate Built() {
      && 0 < |caches| && mask == |caches| - 1 && mask < 0x1_0000
      && (exists k :: k <= 16 && |caches| == Pow2(k))
      && Apart(caches)
      && this !in Repr
      && (forall i :: 0 <= i < |caches| ==> Objects(caches[i]) <= Repr)
    }

    ghost predicate Valid()
      reads this, Repr
    {
      && Built()
      && |view| == |caches|
      && (forall i {:trigger Shows(i, view[i])} :: 0 <= i < |caches| ==> Shows(i, view[i]))
    }

    /** The index of a key's bucket: the wrapped hash masked. */
    method Index(key: Key) returns (idx: nat)
      requires Built()
      ensures idx == Home(key, |caches|) && idx == Poly(key) % |caches| && idx < |caches|
    {
      var hash := HashBKRD(key);
      ghost var k :| k <= 16 && |caches| == Pow2(k);
      MaskedResidue(Poly(key), k);
      idx := And32(hash, mask);
    }

    /** Work on the objects of one bucket leaves the store valid, with that bucket's new view. */
    twostate lemma Settled(idx: nat)
      requires old(Valid()) && idx < |caches|
      requires Usable(caches[idx]) && view == old(view)[idx := Shown(caches[idx])]
      requires unchanged(Repr - Objects(caches[idx]))
      ensures Valid()
    {
      forall i | 0 <= i < |caches| ensures Shows(i, view[i]) {
        if i != idx {
          assert old(Shows(i, view[i]));
          assert Objects(caches[i]) !! Objects(caches[idx]);
        }
      }
    }

    /** Get. */
    method Get(key: Key, now: int64, later: int64) returns (value: Value, ok: bool)
      requires Valid()
      modifies this, Repr
      ensures Valid()
      ensures view == Step(old(view), Op.Get(key, now, later))
      ensures TwoLevel.Get(BucketOf(old(view), key), key, now, later).hit == (if ok then Some(value) else None)
      ensures reports == old(reports) + StepReports(old(view), Op.Get(key, now, later))
    {
      var idx := Index(key);
      assert Shows(idx, view[idx]);
      var rs;
      value, ok, rs := GetLevels(caches[idx], key, now, later);
      reports := reports + rs;
      view := view[idx := Shown(caches[idx])];
      Settled(idx);
    }

    /** SetWithExpiration. */
    method SetWithExpiration(key: Key, value: Value, expiration: int64, now: int64)
      requires Valid()
      modifies this, Repr
      ensures Valid()
      ensures view == Step(old(view), Op.Set(key, value, expiration, now))
      ensures reports == old(reports) + StepReports(old(view), Op.Set(key, value, expiration, now))
    {
      var expireAt: int64 := 0;
      if expiration > 0 {
        expireAt := Wrap64(now + expiration);
      }
      var idx := Index(key);
      SetAt(idx, key, value, expireAt);
    }

    /** The write, in the bucket of the key. */
    method SetAt(idx: nat, key: Key, value: Value, expireAt: int64)
      requires Valid() && idx < |caches|
      modifies this, Repr
      ensures Valid()
      ensures view == old(view)[idx := TwoLevel.Set(old(view)[idx], Node(key, value, expireAt)).b]
      ensures reports == old(reports) + TwoLevel.Set(old(view)[idx], Node(key, value, expireAt)).reports
    {
      assert Shows(idx, view[idx]);
      var rs := SetLevels(caches[idx], key, value, expireAt);
      reports := reports + rs;
      view := view[idx := Shown(caches[idx])];
      Settled(idx);
    }

    /** Set: a lifetime of 9999999999999999 nanoseconds stands in for no expiry. */
    method Set(key: Key, value: Value, now: int64)
      requires Valid()
      modifies this, Repr
      ensures Valid()
      ensures view == Step(old(view), Op.Set(key, value, 9999999999999999, now))
      ensures reports == old(reports) + StepReports(old(view), Op.Set(key, value, 9999999999999999, now))
    {
      SetWithExpiration(key, value, 9999999999999999, now);
    }

    /** Delete. */
    method Delete(key: Key) returns (deleted: bool)
      requires Valid()
      modifies this, Repr
      ensures Valid()
      ensures view == Step(old(view), Op.Delete(key))
      ensures deleted == Seen(old(view), key).Some?
      ensures reports == old(reports) + StepReports(old(view), Op.Delete(key))
    {
      var idx := Index(key);
      assert Shows(idx, view[idx]);
      var rs;
      deleted, rs := DeleteLevels(caches[idx], key);
      reports := reports + rs;
      view := view[idx := Shown(caches[idx])];
      Settled(idx);
    }

    /** The cleanup of one bucket. */
    method TickBucket(i: nat, now: int64)
      requires Valid() && i < |caches|
      modifies this, Repr
      ensures Valid()
      ensures view == old(view)[i := Sweep.SweepBucket(old(view)[i], now)]
      ensures reports == old(reports) + Sweep.DeleteAllReports(old(view)[i], Sweep.ExpiredKeys(old(view)[i], now))
    {
      assert Shows(i, view[i]);
      var rs := SweepLevels(caches[i], now);
      reports := reports + rs;
      view := view[i := Shown(caches[i])];
      Settled(i);
    }

    /** The loop of one tick: every bucket is swept at the same reading of the clock. */
    method TickBuckets(now: int64)
      requires Valid()
      modifies this, Repr
      ensures Valid()
      ensures view == Ticked(old(view), |old(view)|, now)
      ensures reports == old(reports) + TickReports(old(view), |old(view)|, now)
    {
      ghost var v, r := view, reports;
      for i := 0 to |caches|
        invariant Valid()
        invariant view == Ticked(v, i, now)
        invariant reports == r + TickReports(v, i, now)
      {
        TickNext(i, now, v, r);
      }
    }

    /** The next bucket of a tick that started with v and r. */
    method TickNext(i: nat, now: int64, ghost v: Store, ghost r: seq<Report>)
      requires Valid() && i < |caches| && |v| == |caches|
      requires view == Ticked(v, i, now) && reports == r + TickReports(v, i, now)
      modifies this, Repr
      ensures Valid() && view == Ticked(v, i + 1, now) && reports == r + TickReports(v, i + 1, now)
    {
      TickStep(v, r, i, now);
      TickBucket(i, now);
    }

    static lemma TickStep(v: Store, r: seq<Report>, i: nat, now: int64)
      requires i < |v|
      ensures Ticked(v, i, now)[i] == v[i]
      ensures Ticked(v, i + 1, now) == Ticked(v, i, now)[i := Sweep.SweepBucket(v[i], now)]
      ensures r + TickReports(v, i + 1, now) ==
                (r + TickReports(v, i, now)) + Sweep.DeleteAllReports(v[i], Sweep.ExpiredKeys(v[i], now))
    {
      TickedAt(v, i, now, i);
    }

    /** One tick of the cleanup loop. */
    method Tick(now: int64)
      requires Valid()
      modifies this, Repr
      ensures Valid()
      ensures view == Step(old(view), Op.Tick(now))
      ensures reports == old(reports) + StepReports(old(view), Op.Tick(now))
    {
      TickBuckets(now);
    }

    /** The keys Clear works on: every key with a live node, level by level, each once. */
    method CollectKeys() returns (keys: seq<Key>)
      requires Valid()
      ensures keys == Collected(view, |view|)
    {
      keys := [];
      for i := 0 to |caches|
        invariant keys == Collected(view, i)
      {
        assert Shows(i, view[i]);
        keys := LiveKeys(keys, caches[i]);
      }
    }

    /** Delete the keys one after the other. */
    method DeleteKeys(keys: seq<Key>)
      requires Valid()
      modifies this, Repr
      ensures Valid()
      ensures view == DeleteAllIn(old(view), keys)
      ensures reports == old(reports) + DeletionReports(old(view), keys)
    {
      ghost var v, r := view, reports;
      assert keys[0..] == keys;
      for i := 0 to |keys|
        invariant Valid()
        invariant DeleteAllIn(v, keys) == DeleteAllIn(view, keys[i..])
        invariant r + DeletionReports(v, keys) == reports + DeletionReports(view, keys[i..])
      {
        DeletionStep(view, keys, i, reports);
        var _ := Delete(keys[i]);
      }
    }

    /** Clear: collect every live key first, then delete them one by one. */
    method Clear()
      requires Valid()
      modifies this, Repr
      ensures Valid()
      ensures view == Step(old(view), Op.Clear)
      ensures reports == old(reports) + StepReports(old(view), Op.Clear)
    {
      var keys := CollectKeys();
      DeleteKeys(keys);
    }

    /** Len: the live nodes of every level, walked. */
    method Len() returns (count: nat)
      requires Valid()
      ensures count == Count(view, |view|)
    {
      count := 0;
      var everything := (n: Node) => true;
      for i := 0 to |caches|
        invariant count == Count(view, i)
      {
        assert Shows(i, view[i]);
        var first := caches[i].l1.Walk(everything);
        var second := caches[i].l2.Walk(everything);
        WalkedAll(caches[i].l1.contents, everything);
        WalkedAll(caches[i].l2.contents, everything);
        count := count + |first| + |second|;
      }
    }

    /** newLRU2Cache: zero options take their defaults, and the buckets are the least power of two
        that reaches BucketCount. */
    constructor (bucketCount: uint16, capPerBucket: uint16, level2Cap: uint16)
      requires bucketCount <= 32768 && capPerBucket < 0xFFFF && level2Cap < 0xFFFF
      ensures Valid() && fresh(Repr) && Empty(view) && reports == []
      ensures |view| == MaskOfNextPowOf2(if bucketCount == 0 then 16 else bucketCount) + 1
      ensures forall i :: 0 <= i < |view| ==>
        && view[i].c1 == (if capPerBucket == 0 then 1024 else capPerBucket)
        && view[i].c2 == (if level2Cap == 0 then 1024 else level2Cap)
    {
      var bc: uint16 := if bucketCount == 0 then 16 else bucketCount;
      var c1: uint16 := if capPerBucket == 0 then 1024 else capPerBucket;
      var c2: uint16 := if level2Cap == 0 then 1024 else level2Cap;
      var m := MaskOfNextPowOf2(bc);
      PowerOfTwo(bc);
      var cs, objs := FreshLevels(m + 1, c1, c2);
      mask := m;
      caches := cs;
      Repr := objs;
      reports := [];
      view := seq(m + 1, i => TwoLevel.Bucket([], c1, [], c2));
    }
  }

  lemma PowerOfTwo(bucketCount: uint16)
    requires bucketCount > 0
    ensures MaskOfNextPowOf2(bucketCount) < 0x1_0000
    ensures exists k :: k <= 16 && MaskOfNextPowOf2(bucketCount) + 1 == Pow2(k)
  {
    var k := MaskIsLeastPower(bucketCount);
    Pow2Sixteen();
    Pow2Mono(k, 16);
  }

  lemma ApartGrows(cs: seq<Levels>, c: Levels, objs: set<object>)
    requires Apart(cs) && c.l1.Repr() !! c.l2.Repr() && Objects(c) !! objs
    requires forall i :: 0 <= i < |cs| ==> Objects(cs[i]) <= objs
    ensures Apart(cs + [c])
  {
  }

  /** Two fresh empty levels for each bucket. */
  method FreshLevels(count: nat, c1: uint16, c2: uint16) returns (cs: seq<Levels>, ghost objs: set<object>)
    requires 1 <= c1 < 0xFFFF && 1 <= c2 < 0xFFFF
    ensures |cs| == count && Apart(cs) && fresh(objs)
    ensures forall i :: 0 <= i < |cs| ==> Objects(cs[i]) <= objs
    ensures forall i :: 0 <= i < |cs| ==> Usable(cs[i]) && Shown(cs[i]) == TwoLevel.Bucket([], c1, [], c2)
  {
    cs, objs := [], {};
    for n := 0 to count
      invariant |cs| == n && Apart(cs) && fresh(objs)
      invariant forall i :: 0 <= i < |cs| ==> Objects(cs[i]) <= objs
      invariant forall i :: 0 <= i < |cs| ==> Usable(cs[i]) && Shown(cs[i]) == TwoLevel.Bucket([], c1, [], c2)
    {
      var l1 := new ArrayCache.Cache(c1);
      var l2 := new ArrayCache.Cache(c2);
      var c := Levels(l1, l2);
      assert Objects(c) !! objs;
      ApartGrows(cs, c, objs);
      cs := cs + [c];
      objs := objs + Objects(c);
    }
  }
}
