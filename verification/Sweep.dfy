/** Bulk deletion in a bucket: the cleanup sweep, and the tombstones it leaves. */
module Sweep {
  import opened Base
  import opened Recency
  import opened TwoLevel

  function KeysOf(s: Level): (r: seq<Key>)
    ensures |r| == |s| && forall i :: 0 <= i < |s| ==> r[i] == s[i].k
  {
    seq(|s|, i requires 0 <= i < |s| => s[i].k)
  }

  /** Append the keys that are not in the list yet, in order. */
  function AddMissing(keys: seq<Key>, more: seq<Key>): seq<Key>
    decreases |more|
  {
    if more == [] then keys
    else AddMissing(if more[0] in keys then keys else keys + [more[0]], more[1..])
  }

  predicate IsExpired(n: Node, t: int) {
    n.Live() && t >= n.expireAt
  }

  /** The expired live nodes, head to tail. */
  function Expired(s: Level, t: int): Level {
    if s == [] then []
    else (if IsExpired(s[0], t) then [s[0]] else []) + Expired(s[1..], t)
  }

  function ExpiredKeys(b: Bucket, t: int): seq<Key> {
    AddMissing(KeysOf(Expired(b.l1, t)), KeysOf(Expired(b.l2, t)))
  }

  function DeleteAll(b: Bucket, keys: seq<Key>): Bucket
    decreases |keys|
  {
    if keys == [] then b else DeleteAll(Delete(b, keys[0]), keys[1..])
  }

  function DeleteAllReports(b: Bucket, keys: seq<Key>): seq<Report>
    decreases |keys|
  {
    if keys == [] then []
    else DeleteReports(b, keys[0]) + DeleteAllReports(Delete(b, keys[0]), keys[1..])
  }

  lemma SuffixStep<T>(xs: seq<T>, i: nat)
    requires i < |xs|
    ensures xs[i..] != [] && xs[i..][0] == xs[i] && xs[i..][1..] == xs[i + 1..]
  {
  }

  lemma DeleteAllStep(b: Bucket, keys: seq<Key>, i: nat, rs: seq<Report>)
    requires i < |keys|
    ensures DeleteAll(b, keys[i..]) == DeleteAll(Delete(b, keys[i]), keys[i + 1..])
    ensures rs + DeleteAllReports(b, keys[i..]) ==
              (rs + DeleteReports(b, keys[i])) + DeleteAllReports(Delete(b, keys[i]), keys[i + 1..])
  {
    SuffixStep(keys, i);
  }

  /** One cleanup tick on one bucket. */
  function SweepBucket(b: Bucket, t: int): Bucket {
    DeleteAll(b, ExpiredKeys(b, t))
  }

  /** The sweep's victims: keys with an expired live copy in either level. */
  ghost predicate Condemned(b: Bucket, t: int, k: Key) {
    || (HasLive(b.l1, k) && t >= At(b.l1, k).expireAt)
    || (HasLive(b.l2, k) && t >= At(b.l2, k).expireAt)
  }

  /** The expired keys from position i on. */
  lemma ExpiredFrom(nodes: Level, i: nat, t: int)
    requires i < |nodes|
    ensures KeysOf(Expired(nodes[i..], t)) ==
              (if IsExpired(nodes[i], t) then [nodes[i].k] else []) + KeysOf(Expired(nodes[i + 1..], t))
  {
    assert nodes[i..][0] == nodes[i] && nodes[i..][1..] == nodes[i + 1..];
  }

  /** Looking for expired nodes among the live ones finds the same. */
  lemma {:induction false} ExpiredAmongLive(s: Level, t: int)
    ensures Expired(LiveNodes(s), t) == Expired(s, t)
  {
    if s != [] {
      ExpiredAmongLive(s[1..], t);
      if s[0].Live() {
        assert LiveNodes(s)[1..] == LiveNodes(s[1..]);
      } else {
        assert LiveNodes(s) == LiveNodes(s[1..]);
      }
    }
  }

  // ---------------------------------------------------------------------
  // Which keys are collected
  // ---------------------------------------------------------------------

  lemma {:induction false} AddMissingExact(keys: seq<Key>, more: seq<Key>)
    requires Once(keys)
    ensures Once(AddMissing(keys, more))
    ensures forall k :: k in AddMissing(keys, more) <==> k in keys || k in more
    decreases |more|
  {
    if more != [] {
      var keys' := if more[0] in keys then keys else keys + [more[0]];
      AddMissingExact(keys', more[1..]);
      assert more == [more[0]] + more[1..];
    }
  }

  /** The keys are appended in the order in which they come, without those that are listed already. */
  lemma {:induction false} AddMissingIs(keys: seq<Key>, more: seq<Key>)
    requires Once(more)
    ensures AddMissing(keys, more) == keys + NotIn(more, keys)
    decreases |more|
  {
    if more != [] {
      var x, rest := more[0], more[1..];
      OnceTail(more);
      if x in keys {
        AddMissingIs(keys, rest);
      } else {
        AddMissingIs(keys + [x], rest);
        NotInSame(rest, keys + [x], keys);
        assert keys + [x] + NotIn(rest, keys) == keys + ([x] + NotIn(rest, keys));
      }
    }
  }

  lemma OnceTail(s: seq<Key>)
    requires Once(s) && s != []
    ensures Once(s[1..]) && s[0] !in s[1..]
  {
    forall i | 0 <= i < |s[1..]| ensures s[1..][i] != s[0] { assert s[i + 1] != s[0]; }
  }

  function NotIn(more: seq<Key>, keys: seq<Key>): seq<Key> {
    if more == [] then [] else (if more[0] in keys then [] else [more[0]]) + NotIn(more[1..], keys)
  }

  lemma {:induction false} NotInSame(more: seq<Key>, keys': seq<Key>, keys: seq<Key>)
    requires forall k :: k in more ==> (k in keys' <==> k in keys)
    ensures NotIn(more, keys') == NotIn(more, keys)
  {
    if more != [] {
      assert more[0] in more && forall k :: k in more[1..] ==> k in more;
      NotInSame(more[1..], keys', keys);
    }
  }

  lemma {:induction false} ExpiredExact(s: Level, t: int)
    requires Distinct(s)
    ensures Distinct(Expired(s, t))
    ensures forall n :: n in Expired(s, t) <==> n in s && IsExpired(n, t)
  {
    if s != [] {
      ExpiredExact(s[1..], t);
      assert s == [s[0]] + s[1..];
      var r := Expired(s[1..], t);
      if IsExpired(s[0], t) {
        forall j | 0 <= j < |r| ensures r[j].k != s[0].k {
          assert r[j] in s[1..];
        }
      }
    }
  }

  lemma {:induction false} ExpiredAppend(s: Level, s': Level, t: int)
    ensures Expired(s + s', t) == Expired(s, t) + Expired(s', t)
  {
    if s == [] {
      assert s + s' == s';
    } else {
      var first := if IsExpired(s[0], t) then [s[0]] else [];
      assert (s + s')[1..] == s[1..] + s' && (s + s')[0] == s[0];
      ExpiredAppend(s[1..], s', t);
      assert first + (Expired(s[1..], t) + Expired(s', t)) == (first + Expired(s[1..], t)) + Expired(s', t);
    }
  }

  /** The sweep's order: level 1 from head to tail, then what level 2 adds, from head to tail. */
  lemma SweepOrder(b: Bucket, t: int, s: Level, s': Level)
    requires WellFormed(b)
    ensures var first, second := KeysOf(Expired(b.l1, t)), KeysOf(Expired(b.l2, t));
            ExpiredKeys(b, t) == first + NotIn(second, first)
    ensures Expired(s + s', t) == Expired(s, t) + Expired(s', t)
  {
    ExpiredExact(b.l2, t);
    AddMissingIs(KeysOf(Expired(b.l1, t)), KeysOf(Expired(b.l2, t)));
    ExpiredAppend(s, s', t);
  }

  lemma ExpiredKey(s: Level, t: int, k: Key)
    requires Distinct(s)
    ensures k in KeysOf(Expired(s, t)) <==> HasLive(s, k) && t >= At(s, k).expireAt
  {
    var r := Expired(s, t);
    ExpiredExact(s, t);
    if k in KeysOf(r) {
      var i :| 0 <= i < |r| && r[i].k == k;
      assert r[i] in r;
      InLevel(s, r[i]);
    }
    if HasLive(s, k) && t >= At(s, k).expireAt {
      InLevel(s, At(s, k));
      assert At(s, k) in r;
      var i :| 0 <= i < |r| && r[i] == At(s, k);
      assert KeysOf(r)[i] == k;
    }
  }

  /** The sweep collects each victim once, and nothing else. */
  lemma ExpiredKeysExact(b: Bucket, t: int)
    requires WellFormed(b)
    ensures Once(ExpiredKeys(b, t))
    ensures forall k :: k in ExpiredKeys(b, t) <==> Condemned(b, t, k)
  {
    ExpiredExact(b.l1, t);
    AddMissingExact(KeysOf(Expired(b.l1, t)), KeysOf(Expired(b.l2, t)));
    forall k ensures k in ExpiredKeys(b, t) <==> Condemned(b, t, k) {
      ExpiredKey(b.l1, t, k);
      ExpiredKey(b.l2, t, k);
    }
  }

  // ---------------------------------------------------------------------
  // What bulk deletion does
  // ---------------------------------------------------------------------

  /** The two levels hold the same node for k. */
  ghost predicate SameCopies(b: Bucket, b': Bucket, k: Key) {
    && (Has(b'.l1, k) <==> Has(b.l1, k)) && (Has(b.l1, k) ==> At(b'.l1, k) == At(b.l1, k))
    && (Has(b'.l2, k) <==> Has(b.l2, k)) && (Has(b.l2, k) ==> At(b'.l2, k) == At(b.l2, k))
  }

  /** Bulk deletion kills every copy of the keys listed and touches no copy of any other key. */
  lemma {:induction false} DeleteAllAt(b: Bucket, keys: seq<Key>, k: Key)
    requires WellFormed(b)
    ensures var b' := DeleteAll(b, keys);
            && WellFormed(b') && b'.c1 == b.c1 && b'.c2 == b.c2
            && |b'.l1| == |b.l1| && |b'.l2| == |b.l2|
            && (k in keys ==> !HasLive(b'.l1, k) && !HasLive(b'.l2, k))
            && (k !in keys ==> SameCopies(b, b', k) && Budget(b', k) >= Budget(b, k))
            && (!HasLive(b.l1, k) ==> !HasLive(b'.l1, k))
            && (!HasLive(b.l2, k) ==> !HasLive(b'.l2, k))
    decreases |keys|
  {
    if keys != [] {
      DelAt(b.l1, keys[0], k);
      DelAt(b.l2, keys[0], k);
      DeleteAt(b, keys[0], k);
      DeleteAllAt(Delete(b, keys[0]), keys[1..], k);
      assert k in keys <==> k == keys[0] || k in keys[1..] by { assert keys == [keys[0]] + keys[1..]; }
    }
  }

  /** The reports of deleting each listed key from the bucket as it was. */
  function ReportsFor(b: Bucket, keys: seq<Key>): seq<Report> {
    if keys == [] then [] else DeleteReports(b, keys[0]) + ReportsFor(b, keys[1..])
  }

  lemma SameReports(b: Bucket, b': Bucket, k: Key)
    requires SameCopies(b, b', k)
    ensures DeleteReports(b', k) == DeleteReports(b, k)
  {
  }

  /** Deleting one key does not change what deleting another one reports. */
  lemma {:induction false} ReportsStay(b: Bucket, b': Bucket, keys: seq<Key>)
    requires forall k :: k in keys ==> SameCopies(b, b', k)
    ensures ReportsFor(b', keys) == ReportsFor(b, keys)
  {
    if keys != [] {
      assert keys[0] in keys;
      assert forall k :: k in keys[1..] ==> k in keys;
      SameReports(b, b', keys[0]);
      ReportsStay(b, b', keys[1..]);
    }
  }

  lemma {:induction false} DeleteAllReportsAre(b: Bucket, keys: seq<Key>)
    requires WellFormed(b) && Once(keys)
    ensures DeleteAllReports(b, keys) == ReportsFor(b, keys)
    decreases |keys|
  {
    if keys != [] {
      var b', rest := Delete(b, keys[0]), keys[1..];
      forall k | k in rest ensures SameCopies(b, b', k) {
        DelAt(b.l1, keys[0], k);
        DelAt(b.l2, keys[0], k);
      }
      DeleteAt(b, keys[0], keys[0]);
      DeleteAllReportsAre(b', rest);
      ReportsStay(b, b', rest);
    }
  }

  /** No key is reported twice. */
  ghost predicate KeysOnce(rs: seq<Report>) {
    forall i, j :: 0 <= i < j < |rs| ==> rs[i].key != rs[j].key
  }

  /** Each listed key whose deletion reports something, once. */
  lemma {:induction false} ReportsForExact(b: Bucket, keys: seq<Key>)
    requires Once(keys)
    ensures forall r :: r in ReportsFor(b, keys) <==> r.key in keys && ReportedAs(b, r.key, r.value)
    ensures KeysOnce(ReportsFor(b, keys))
  {
    forall r ensures r in ReportsFor(b, keys) <==> r.key in keys && ReportedAs(b, r.key, r.value) {
      ReportsForIff(b, keys, r);
    }
    if keys != [] {
      var rest := ReportsFor(b, keys[1..]);
      OnceTail(keys);
      ReportsForExact(b, keys[1..]);
      forall j | 0 <= j < |rest| ensures rest[j].key != keys[0] { assert rest[j] in rest; }
    }
  }

  lemma {:induction false} ReportsForIff(b: Bucket, keys: seq<Key>, r: Report)
    ensures r in ReportsFor(b, keys) <==> r.key in keys && ReportedAs(b, r.key, r.value)
  {
    if keys != [] {
      assert keys == [keys[0]] + keys[1..];
      DeleteReportsIff(b, keys[0], r);
      ReportsForIff(b, keys[1..], r);
    }
  }

  // ---------------------------------------------------------------------
  // What bulk deletion leaves in place
  // ---------------------------------------------------------------------

  /** The nodes whose key is not listed, in their order. */
  function Others(s: Level, keys: seq<Key>): Level {
    if s == [] then []
    else (if s[0].k in keys then [] else [s[0]]) + Others(s[1..], keys)
  }

  lemma {:induction false} OthersAppend(s: Level, t: Level, keys: seq<Key>)
    ensures Others(s + t, keys) == Others(s, keys) + Others(t, keys)
  {
    if s == [] {
      assert s + t == t;
    } else {
      var first := if s[0].k in keys then [] else [s[0]];
      assert (s + t)[1..] == s[1..] + t && (s + t)[0] == s[0];
      OthersAppend(s[1..], t, keys);
      assert first + (Others(s[1..], keys) + Others(t, keys)) == (first + Others(s[1..], keys)) + Others(t, keys);
    }
  }

  /** Replacing a listed node by another listed node elsewhere. */
  lemma OthersMoved(before: Level, x: Node, after: Level, y: Node, keys: seq<Key>)
    requires x.k in keys && y.k in keys
    ensures Others(before + ([x] + after), keys) == Others(before + (after + [y]), keys)
  {
    OthersAppend(before, [x] + after, keys);
    OthersAppend([x], after, keys);
    OthersAppend(before, after + [y], keys);
    OthersAppend(after, [y], keys);
    assert Others([x], keys) == [] && Others([y], keys) == [];
  }

  lemma OthersDel(s: Level, d: Key, keys: seq<Key>)
    requires d in keys
    ensures Others(Del(s, d), keys) == Others(s, keys)
  {
    if HasLive(s, d) {
      var p, grave := IndexOf(s, d), At(s, d).(expireAt := 0);
      OthersMoved(s[..p], s[p], s[p + 1..], grave, keys);
      SplitAround(s, p, grave);
    }
  }

  lemma SplitAround(s: Level, p: nat, y: Node)
    requires p < |s|
    ensures s[..p] + ([s[p]] + s[p + 1..]) == s
    ensures s[..p] + (s[p + 1..] + [y]) == ToBack(s, p, y)
  {
  }

  lemma {:induction false} DeleteAllOthers(b: Bucket, keys: seq<Key>, all: seq<Key>)
    requires forall k :: k in keys ==> k in all
    ensures Others(DeleteAll(b, keys).l1, all) == Others(b.l1, all)
    ensures Others(DeleteAll(b, keys).l2, all) == Others(b.l2, all)
    decreases |keys|
  {
    if keys != [] {
      assert keys[0] in keys && forall k :: k in keys[1..] ==> k in keys;
      OthersDel(b.l1, keys[0], all);
      OthersDel(b.l2, keys[0], all);
      DeleteAllOthers(Delete(b, keys[0]), keys[1..], all);
    }
  }

  /** Exact sweep: a tick at time t kills exactly the keys with an expired live copy in either
      level, reports each of them once with the value of its visible copy (if that is nil, of the one
      it hides; if both are, not at all), keeps every other node and the order among them, and leaves
      no live node with expiry at or before t. */
  lemma SweepExact(b: Bucket, t: int)
    requires WellFormed(b)
    ensures var b', keys := SweepBucket(b, t), ExpiredKeys(b, t);
            && WellFormed(b') && Once(keys)
            && (forall k :: k in keys <==> Condemned(b, t, k))
            && (forall k :: if Condemned(b, t, k) then !HasLive(b'.l1, k) && !HasLive(b'.l2, k)
                else SameCopies(b, b', k))
            && Others(b'.l1, keys) == Others(b.l1, keys) && Others(b'.l2, keys) == Others(b.l2, keys)
            && (forall n :: (n in b'.l1 || n in b'.l2) && n.Live() ==> n.expireAt > t)
            && (forall r :: r in DeleteAllReports(b, keys) <==> Condemned(b, t, r.key) && ReportedAs(b, r.key, r.value))
            && KeysOnce(DeleteAllReports(b, keys))
  {
    var b', keys := SweepBucket(b, t), ExpiredKeys(b, t);
    ExpiredKeysExact(b, t);
    DeleteAllAt(b, keys, []);
    forall k ensures if Condemned(b, t, k) then !HasLive(b'.l1, k) && !HasLive(b'.l2, k) else SameCopies(b, b', k) {
      DeleteAllAt(b, keys, k);
    }
    forall n | (n in b'.l1 || n in b'.l2) && n.Live() ensures n.expireAt > t {
      InLevel(b'.l1, n);
      InLevel(b'.l2, n);
      assert !Condemned(b, t, n.k);
    }
    DeleteAllOthers(b, keys, keys);
    DeleteAllReportsAre(b, keys);
    ReportsForExact(b, keys);
  }

  lemma SweepLeaves(b: Bucket, b': Bucket, t: int, n: Node)
    requires WellFormed(b) && b' == SweepBucket(b, t) && n.Live() && (n in b'.l1 || n in b'.l2)
    ensures n.expireAt > t
  {
    SweepExact(b, t);
  }

  /** Any two keys that a tick does not condemn stay in their order, in both levels. */
  lemma SweepKeepsOrder(b: Bucket, t: int, a: Key, c: Key)
    requires WellFormed(b) && !Condemned(b, t, a) && !Condemned(b, t, c)
    ensures SameOrder(b.l1, SweepBucket(b, t).l1, a, c) && SameOrder(b.l2, SweepBucket(b, t).l2, a, c)
  {
    ExpiredKeysExact(b, t);
    DeleteAllOrder(b, ExpiredKeys(b, t), a, c);
  }

  lemma {:induction false} DeleteAllOrder(b: Bucket, keys: seq<Key>, a: Key, c: Key)
    requires WellFormed(b) && a !in keys && c !in keys
    ensures SameOrder(b.l1, DeleteAll(b, keys).l1, a, c) && SameOrder(b.l2, DeleteAll(b, keys).l2, a, c)
    decreases |keys|
  {
    if keys != [] {
      var d, b' := keys[0], Delete(b, keys[0]);
      DeleteAt(b, d, d);
      DeleteAllOrder(b', keys[1..], a, c);
      LevelOrder(b.l1, d, a, c);
      LevelOrder(b.l2, d, a, c);
    }
  }

  lemma LevelOrder(s: Level, d: Key, a: Key, c: Key)
    requires Distinct(s) && a != d && c != d
    ensures SameOrder(s, Del(s, d), a, c)
    ensures (Has(Del(s, d), a) <==> Has(s, a)) && (Has(Del(s, d), c) <==> Has(s, c))
  {
    DelOrder(s, d, a, c);
    DelAt(s, d, a);
    DelAt(s, d, c);
  }

  /** As coded, a tick also drops a fresh level-1 copy: an unexpired visible copy is lost exactly
      when level 2 holds an expired stale copy behind it. */
  lemma SweepDropsFreshIff(b: Bucket, t: int, k: Key)
    requires WellFormed(b) && Visible(b, k).Some? && t < Visible(b, k).value.expireAt
    ensures Visible(SweepBucket(b, t), k) == None <==>
              HasLive(b.l1, k) && HasLive(b.l2, k) && t >= At(b.l2, k).expireAt
    ensures Visible(SweepBucket(b, t), k) != None ==> Visible(SweepBucket(b, t), k) == Visible(b, k)
  {
    ExpiredKeysExact(b, t);
    DeleteAllAt(b, ExpiredKeys(b, t), k);
  }

  // ---------------------------------------------------------------------
  // Tombstones in level 1
  // ---------------------------------------------------------------------

  /** Tombstones form a suffix of the recency order. */
  ghost predicate DeadSuffix(s: Level) {
    forall i, j :: 0 <= i < j < |s| && !s[i].Live() ==> !s[j].Live()
  }

  /** A write keeps the tombstones of level 1 at the back exactly when it is live, or level 1 is a single
      slot, or no node of another key is live before it. */
  lemma SetSuffixIff(b: Bucket, n: Node)
    requires WellFormed(b) && DeadSuffix(b.l1)
    ensures DeadSuffix(Set(b, n).b.l1) <==>
              n.Live() || b.c1 == 1 || forall m :: m in b.l1 && m.k != n.k ==> !m.Live()
  {
    if n.Live() {
      LiveFront(b.l1, b.c1, n);
    } else if b.c1 > 1 {
      DeadFront(b.l1, b.c1, n);
    }
  }

  lemma LiveFront(s: Level, cap: nat, n: Node)
    requires Distinct(s) && |s| <= cap && cap > 0 && DeadSuffix(s) && n.Live()
    ensures DeadSuffix(Put(s, cap, n))
  {
  }

  /** A tombstone put in front of a level with room for more. */
  lemma DeadFront(s: Level, cap: nat, n: Node)
    requires Distinct(s) && |s| <= cap && cap > 1 && DeadSuffix(s) && !n.Live()
    ensures DeadSuffix(Put(s, cap, n)) <==> forall m :: m in s && m.k != n.k ==> !m.Live()
  {
    var s' := Put(s, cap, n);
    PutAt(s, cap, n, n.k);
    if m :| m in s && m.k != n.k && m.Live() {
      LiveBehind(s, cap, n, m);
    } else {
      forall j | 0 < j < |s'| ensures !s'[j].Live() {
        assert s'[j].k != n.k;
        Behind(s, cap, n, j);
      }
    }
  }

  /** What is behind the front after a write was there before. */
  lemma Behind(s: Level, cap: nat, n: Node, j: nat)
    requires |s| <= cap && cap > 0 && 0 < j < |Put(s, cap, n)|
    ensures Put(s, cap, n)[j] in s
  {
  }

  /** A live node of another key leaves a live node behind the front. */
  lemma LiveBehind(s: Level, cap: nat, n: Node, m: Node)
    requires Distinct(s) && |s| <= cap && cap > 1 && DeadSuffix(s) && m in s && m.k != n.k && m.Live()
    ensures exists j :: 0 < j < |Put(s, cap, n)| && Put(s, cap, n)[j].Live()
  {
    var s' := Put(s, cap, n);
    var i :| 0 <= i < |s| && s[i] == m;
    var p := if Has(s, n.k) then IndexOf(s, n.k) else |s| - 1;
    if !Has(s, n.k) && |s| < cap {
      assert s'[i + 1] == m;
    } else if i < p {
      assert s'[i + 1] == m;
    } else if Has(s, n.k) {
      assert s'[i] == m;
    } else {
      assert s[0].Live() && s'[1] == s[0];
    }
  }

  lemma DelSuffix(s: Level, d: Key)
    requires DeadSuffix(s)
    ensures DeadSuffix(Del(s, d))
  {
  }

  /** Every other operation keeps the tombstones of level 1 at the back. */
  lemma {:induction false} DeleteAllSuffix(b: Bucket, keys: seq<Key>)
    requires DeadSuffix(b.l1)
    ensures DeadSuffix(DeleteAll(b, keys).l1)
    decreases |keys|
  {
    if keys != [] {
      DelSuffix(b.l1, keys[0]);
      DeleteAllSuffix(Delete(b, keys[0]), keys[1..]);
    }
  }

  lemma GetSuffix(b: Bucket, k: Key, now: int, later: int)
    requires DeadSuffix(b.l1)
    ensures DeadSuffix(Get(b, k, now, later).b.l1)
  {
    DelSuffix(b.l1, k);
    DelSuffix(Del(b.l1, k), k);
  }

  /** With the tombstones at the back, a live entry leaves level 1 only when all of it is live. */
  lemma DisplacedOnlyWhenAllLive(b: Bucket, k: Key)
    requires DeadSuffix(b.l1) && Displaced(b, k).Some?
    ensures |b.l1| == b.c1 && forall n :: n in b.l1 ==> n.Live()
  {
  }
}
