/** The whole store as a value: its buckets, the operations, runs of operations, and what runs guarantee. */
module StoreModel {
  import opened Base
  import opened Words
  import opened Recency
  import opened TwoLevel
  import opened Sweep

  type Store = seq<Bucket>

  /** The bucket of a key. */
  function Home(k: Key, buckets: nat): nat
    requires buckets > 0
  {
    Poly(k) % buckets
  }

  /** The expiry a write stores: 0 for a non-positive expiration, wrapped to 64 bits otherwise. */
  function ExpireAt(now: int64, expiration: int64): int64 {
    if expiration > 0 then Wrap64(now + expiration) else 0
  }

  datatype Op =
    | Get(k: Key, now: int64, later: int64)
    | Set(k: Key, v: Value, expiration: int64, now: int64)
    | Delete(k: Key)
    | Clear
    | Tick(now: int64)

  /** The node an operation writes. */
  function Written(op: Op): Node
    requires op.Set?
  {
    Node(op.k, op.v, ExpireAt(op.now, op.expiration))
  }

  /** Every node is in the bucket of its key, and every bucket is well formed. */
  ghost predicate Sound(bs: Store) {
    && |bs| > 0
    && forall i :: 0 <= i < |bs| ==> WellFormed(bs[i]) && Placed(bs[i], i, |bs|)
  }

  ghost predicate Placed(b: Bucket, i: nat, buckets: nat)
    requires buckets > 0
  {
    forall k :: Has(b.l1, k) || Has(b.l2, k) ==> Home(k, buckets) == i
  }

  function BucketOf(bs: Store, k: Key): Bucket
    requires |bs| > 0
  {
    bs[Home(k, |bs|)]
  }

  function DeleteIn(bs: Store, k: Key): Store
    requires |bs| > 0
  {
    bs[Home(k, |bs|) := TwoLevel.Delete(BucketOf(bs, k), k)]
  }

  function DeleteAllIn(bs: Store, keys: seq<Key>): (r: Store)
    requires |bs| > 0
    ensures |r| == |bs|
    decreases |keys|
  {
    if keys == [] then bs else DeleteAllIn(DeleteIn(bs, keys[0]), keys[1..])
  }

  /** The keys Clear collects from the first n buckets. */
  function Collected(bs: Store, n: nat): seq<Key>
    requires n <= |bs|
  {
    if n == 0 then []
    else AddMissing(Collected(bs, n - 1) + KeysOf(LiveNodes(bs[n - 1].l1)), KeysOf(LiveNodes(bs[n - 1].l2)))
  }

  /** A tick that has swept the first n buckets. */
  function Ticked(bs: Store, n: nat, t: int): (r: Store)
    requires n <= |bs|
    ensures |r| == |bs|
  {
    if n == 0 then bs else Ticked(bs, n - 1, t)[n - 1 := SweepBucket(bs[n - 1], t)]
  }

  lemma {:induction false} TickedAt(bs: Store, n: nat, t: int, i: nat)
    requires n <= |bs| && i < |bs|
    ensures Ticked(bs, n, t)[i] == if i < n then SweepBucket(bs[i], t) else bs[i]
  {
    if n > 0 {
      TickedAt(bs, n - 1, t, i);
      assert Ticked(bs, n, t) == Ticked(bs, n - 1, t)[n - 1 := SweepBucket(bs[n - 1], t)];
    }
  }

  /** The reports of one tick over the first n buckets. */
  function TickReports(bs: Store, n: nat, t: int): seq<Report>
    requires n <= |bs|
  {
    if n == 0 then [] else TickReports(bs, n - 1, t) + DeleteAllReports(bs[n - 1], ExpiredKeys(bs[n - 1], t))
  }

  function Step(bs: Store, op: Op): (r: Store)
    requires |bs| > 0
    ensures |r| == |bs|
  {
    match op
    case Get(k, now, later) => bs[Home(k, |bs|) := TwoLevel.Get(BucketOf(bs, k), k, now, later).b]
    case Set(k, v, _, _) => bs[Home(k, |bs|) := TwoLevel.Set(BucketOf(bs, k), Written(op)).b]
    case Delete(k) => DeleteIn(bs, k)
    case Clear => DeleteAllIn(bs, Collected(bs, |bs|))
    case Tick(t) => Ticked(bs, |bs|, t)
  }

  /** The state after a run. */
  function Run(bs: Store, ops: seq<Op>): (r: Store)
    requires |bs| > 0
    ensures |r| == |bs|
  {
    if ops == [] then bs else Step(Run(bs, ops[..|ops| - 1]), ops[|ops| - 1])
  }

  function Seen(bs: Store, k: Key): Option<Node>
    requires |bs| > 0
  {
    Visible(BucketOf(bs, k), k)
  }

  // ---------------------------------------------------------------------
  // Soundness and what one step does to one key
  // ---------------------------------------------------------------------

  lemma KeysStay(b: Bucket, d: Key, k: Key)
    requires WellFormed(b)
    ensures Has(TwoLevel.Delete(b, d).l1, k) <==> Has(b.l1, k)
    ensures Has(TwoLevel.Delete(b, d).l2, k) <==> Has(b.l2, k)
  {
    DelAt(b.l1, d, k);
    DelAt(b.l2, d, k);
  }

  /** An operation brings no key into a bucket except its own. */
  lemma NoNewKeys(b: Bucket, b': Bucket, op: Op, k: Key)
    requires WellFormed(b)
    requires match op
             case Get(g, now, later) => b' == TwoLevel.Get(b, g, now, later).b && k != g
             case Set(g, _, _, _) => b' == TwoLevel.Set(b, Written(op)).b && k != g
             case Delete(g) => b' == TwoLevel.Delete(b, g)
             case Clear => false
             case Tick(t) => b' == SweepBucket(b, t)
    ensures Has(b'.l1, k) || Has(b'.l2, k) ==> Has(b.l1, k) || Has(b.l2, k)
  {
    match op
    case Get(g, now, later) =>
      DelAt(b.l1, g, k);
      var b1 := b.(l1 := Del(b.l1, g));
      KeysStay(b1, g, k);
      if HasLive(b.l1, g) {
        PutAt(b.l2, b.c2, At(b.l1, g), k);
      } else {
        TouchAt(b.l2, g, k);
        KeysStay(b.(l2 := Touch(b.l2, g)), g, k);
      }
    case Set(g, _, _, _) =>
      PutAt(b.l1, b.c1, Written(op), k);
      match Displaced(b, g) {
        case None =>
        case Some(d) =>
          FoundAt(b.l1, d.k, b.c1 - 1);
          PutAt(b.l2, b.c2, d, k);
      }
    case Delete(g) => KeysStay(b, g, k);
    case Tick(t) =>
      ExpiredKeysExact(b, t);
      DeleteAllKeys(b, ExpiredKeys(b, t), k);
  }

  lemma {:induction false} DeleteAllKeys(b: Bucket, keys: seq<Key>, k: Key)
    requires WellFormed(b)
    ensures Has(DeleteAll(b, keys).l1, k) <==> Has(b.l1, k)
    ensures Has(DeleteAll(b, keys).l2, k) <==> Has(b.l2, k)
    decreases |keys|
  {
    if keys != [] {
      KeysStay(b, keys[0], k);
      DeleteAt(b, keys[0], k);
      DeleteAllKeys(TwoLevel.Delete(b, keys[0]), keys[1..], k);
    }
  }

  lemma PlacedStays(bs: Store, op: Op, i: nat)
    requires Sound(bs) && i < |bs| && !op.Clear? && (op.Tick? || i == Home(op.k, |bs|))
    requires WellFormed(Step(bs, op)[i])
    ensures Placed(Step(bs, op)[i], i, |bs|)
  {
    var b, b' := bs[i], Step(bs, op)[i];
    if op.Tick? { TickedAt(bs, |bs|, op.now, i); }
    forall k | Has(b'.l1, k) || Has(b'.l2, k) ensures Home(k, |bs|) == i {
      if op.Tick? || op.Delete? || k != op.k {
        NoNewKeys(b, b', op, k);
      }
    }
  }

  /** Every operation but Clear, on one bucket and one key. */
  lemma BucketStep(b: Bucket, b': Bucket, op: Op, k: Key)
    requires WellFormed(b)
    requires match op
             case Get(g, now, later) => b' == TwoLevel.Get(b, g, now, later).b
             case Set(g, _, _, _) => b' == TwoLevel.Set(b, Written(op)).b
             case Delete(g) => b' == TwoLevel.Delete(b, g)
             case Clear => false
             case Tick(t) => b' == SweepBucket(b, t)
    ensures WellFormed(b') && b'.c1 == b.c1 && b'.c2 == b.c2
    ensures op.Set? && op.k == k && Written(op).Live() ==>
              Visible(b', k) == Some(Written(op)) && Budget(b', k) == b.c1 - 1 + b.c2
    ensures op.Delete? && op.k == k ==> Visible(b', k) == None
    ensures !(op.Set? && op.k == k) ==> Visible(b', k) == Visible(b, k) || Visible(b', k) == None
    ensures (op.Get? || op.Set? || op.Delete?) && op.k != k ==> Carries(b, b', k)
    ensures op.Tick? && !Condemned(b, op.now, k) ==> SameCopies(b, b', k) && Budget(b', k) >= Budget(b, k)
  {
    match op
    case Get(g, now, later) => GetAt(b, g, now, later, k);
    case Set(g, _, _, _) =>
      if g == k { SetOwn(b, Written(op)); } else { SetOther(b, Written(op), k); }
    case Delete(g) => DeleteAt(b, g, k);
    case Tick(t) =>
      ExpiredKeysExact(b, t);
      DeleteAllAt(b, ExpiredKeys(b, t), k);
  }

  // ---------------------------------------------------------------------
  // Clear
  // ---------------------------------------------------------------------

  lemma DeleteInSound(bs: Store, d: Key, k: Key)
    requires Sound(bs)
    ensures Sound(DeleteIn(bs, d)) && Seen(DeleteIn(bs, d), d) == None
    ensures k != d ==> SameCopies(BucketOf(bs, k), BucketOf(DeleteIn(bs, d), k), k)
  {
    var h := Home(d, |bs|);
    DeleteAt(bs[h], d, d);
    PlacedStays(bs, Op.Delete(d), h);
    DelAt(bs[h].l1, d, k);
    DelAt(bs[h].l2, d, k);
  }

  lemma {:induction false} DeleteAllInSound(bs: Store, keys: seq<Key>)
    requires Sound(bs)
    ensures Sound(DeleteAllIn(bs, keys))
    decreases |keys|
  {
    if keys != [] {
      DeleteInSound(bs, keys[0], keys[0]);
      DeleteAllInSound(DeleteIn(bs, keys[0]), keys[1..]);
    }
  }

  lemma MemberOf(keys: seq<Key>, k: Key)
    requires keys != []
    ensures k in keys <==> k == keys[0] || k in keys[1..]
  {
    assert keys == [keys[0]] + keys[1..];
  }

  /** Deleting a list of keys hides each of them and keeps every copy of the others. */
  lemma {:induction false} DeleteAllInAt(bs: Store, keys: seq<Key>, k: Key)
    requires Sound(bs)
    ensures k in keys || Seen(bs, k) == None ==> Seen(DeleteAllIn(bs, keys), k) == None
    ensures k !in keys ==> SameCopies(BucketOf(bs, k), BucketOf(DeleteAllIn(bs, keys), k), k)
    decreases |keys|
  {
    if keys != [] {
      DeleteInSound(bs, keys[0], k);
      DeleteAllInAt(DeleteIn(bs, keys[0]), keys[1..], k);
      MemberOf(keys, k);
    }
  }

  lemma LiveKey(s: Level, k: Key)
    requires Distinct(s)
    ensures k in KeysOf(LiveNodes(s)) <==> HasLive(s, k)
  {
    var r := LiveNodes(s);
    LiveNodesExact(s);
    if k in KeysOf(r) {
      var i :| 0 <= i < |r| && r[i].k == k;
      assert r[i] in r;
      InLevel(s, r[i]);
    }
    if HasLive(s, k) {
      InLevel(s, At(s, k));
      assert At(s, k) in r;
      var i :| 0 <= i < |r| && r[i] == At(s, k);
      assert KeysOf(r)[i] == k;
    }
  }

  /** Clear collects each key with a live copy exactly once. */
  lemma {:induction false} CollectedExact(bs: Store, n: nat)
    requires Sound(bs) && n <= |bs|
    ensures Once(Collected(bs, n))
    ensures forall k :: k in Collected(bs, n) <==> Home(k, |bs|) < n && Seen(bs, k).Some?
  {
    if n > 0 {
      CollectedExact(bs, n - 1);
      var b := bs[n - 1];
      LiveKeysPlaced(bs, n - 1);
      OnceConcat(Collected(bs, n - 1), KeysOf(LiveNodes(b.l1)));
      AddMissingExact(Collected(bs, n - 1) + KeysOf(LiveNodes(b.l1)), KeysOf(LiveNodes(b.l2)));
    }
  }

  /** The keys collected in bucket i are those it shows, and no other bucket has them. */
  lemma LiveKeysPlaced(bs: Store, i: nat)
    requires Sound(bs) && i < |bs|
    ensures Once(KeysOf(LiveNodes(bs[i].l1)))
    ensures forall k :: k in KeysOf(LiveNodes(bs[i].l1)) || k in KeysOf(LiveNodes(bs[i].l2)) <==>
              Home(k, |bs|) == i && Seen(bs, k).Some?
  {
    var b := bs[i];
    assert WellFormed(b) && Placed(b, i, |bs|);
    LiveNodesExact(b.l1);
    forall k ensures k in KeysOf(LiveNodes(b.l1)) || k in KeysOf(LiveNodes(b.l2)) <==>
                       Home(k, |bs|) == i && Seen(bs, k).Some? {
      LiveKey(b.l1, k);
      LiveKey(b.l2, k);
      if Home(k, |bs|) == i { assert BucketOf(bs, k) == b; }
    }
  }

  lemma OnceConcat(xs: seq<Key>, ys: seq<Key>)
    requires Once(xs) && Once(ys) && forall y :: y in ys ==> y !in xs
    ensures Once(xs + ys)
  {
    var zs := xs + ys;
    forall i, j | 0 <= i < j < |zs| ensures zs[i] != zs[j] {
      if i < |xs| <= j {
        assert ys[j - |xs|] in ys;
        assert xs[i] in xs;
      }
    }
  }

  // ---------------------------------------------------------------------
  // Every step keeps soundness
  // ---------------------------------------------------------------------

  lemma StepSound(bs: Store, op: Op)
    requires Sound(bs)
    ensures Sound(Step(bs, op))
  {
    var bs' := Step(bs, op);
    if op.Clear? {
      DeleteAllInSound(bs, Collected(bs, |bs|));
    } else if op.Tick? {
      forall i | 0 <= i < |bs| ensures WellFormed(bs'[i]) && Placed(bs'[i], i, |bs|) {
        TickedAt(bs, |bs|, op.now, i);
        BucketStep(bs[i], bs'[i], op, []);
        PlacedStays(bs, op, i);
      }
    } else {
      var h := Home(op.k, |bs|);
      BucketStep(bs[h], bs'[h], op, op.k);
      PlacedStays(bs, op, h);
    }
  }

  /** A tick leaves no live node, in any bucket, that has expired. */
  lemma TickLeavesUnexpired(bs: Store, t: int64, i: nat, n: Node)
    requires Sound(bs) && i < |bs| && n.Live()
    requires n in Step(bs, Op.Tick(t))[i].l1 || n in Step(bs, Op.Tick(t))[i].l2
    ensures n.expireAt > t
  {
    TickedAt(bs, |bs|, t, i);
    SweepLeaves(bs[i], Step(bs, Op.Tick(t))[i], t, n);
  }

  lemma {:induction false} RunSound(bs: Store, ops: seq<Op>)
    requires Sound(bs)
    ensures Sound(Run(bs, ops))
  {
    if ops != [] {
      RunSound(bs, ops[..|ops| - 1]);
      StepSound(Run(bs, ops[..|ops| - 1]), ops[|ops| - 1]);
    }
  }

  // ---------------------------------------------------------------------
  // The store is a lossy last-write map
  // ---------------------------------------------------------------------

  /** The operation settles what a later Get of k may return. */
  predicate Settles(op: Op, k: Key) {
    op.Clear? || ((op.Set? || op.Delete?) && op.k == k)
  }

  /** The node last written under k and not since deleted or cleared. */
  function LastWrite(ops: seq<Op>, k: Key): Option<Node> {
    if ops == [] then None
    else
      var op := ops[|ops| - 1];
      if !Settles(op, k) then LastWrite(ops[..|ops| - 1], k)
      else if op.Set? then Some(Written(op))
      else None
  }

  /** LastWrite is what its name says: the write at some position that nothing after it settles. */
  lemma {:induction false} LastWriteIs(ops: seq<Op>, k: Key)
    ensures LastWrite(ops, k).Some? ==>
      exists i :: 0 <= i < |ops| && ops[i].Set? && ops[i].k == k && Written(ops[i]) == LastWrite(ops, k).value
                  && forall j :: i < j < |ops| ==> !Settles(ops[j], k)
    ensures LastWrite(ops, k) == None ==>
      (forall i :: 0 <= i < |ops| && ops[i].Set? && ops[i].k == k ==>
         exists j :: i < j < |ops| && Settles(ops[j], k))
  {
    if ops != [] {
      var n := |ops| - 1;
      var before := ops[..n];
      LastWriteIs(before, k);
      if !Settles(ops[n], k) {
        if LastWrite(ops, k).Some? {
          var i :| 0 <= i < n && before[i].Set? && before[i].k == k && Written(before[i]) == LastWrite(ops, k).value
                   && forall j :: i < j < n ==> !Settles(before[j], k);
          assert ops[i] == before[i];
          assert forall j :: i < j < n ==> ops[j] == before[j];
        } else {
          forall i | 0 <= i < |ops| && ops[i].Set? && ops[i].k == k
            ensures exists j :: i < j < |ops| && Settles(ops[j], k)
          {
            assert before[i] == ops[i];
            var j :| i < j < n && Settles(before[j], k);
            assert Settles(ops[j], k);
          }
        }
      }
    }
  }

  /** A write at this reading of the clock has a lifetime: a positive one, that ends before the clock overflows. */
  predicate Lasting(now: int64, expiration: int64) {
    expiration > 0 && 0 < now + expiration < 0x8000_0000_0000_0000
  }

  /** Every write of the run has a lifetime. */
  predicate LiveWrites(ops: seq<Op>) {
    forall i :: 0 <= i < |ops| && ops[i].Set? ==> Lasting(ops[i].now, ops[i].expiration)
  }

  /** A write is live exactly when it has a lifetime, and then until the clock reads the sum. */
  lemma LiveWriteIff(op: Op)
    requires op.Set?
    ensures Written(op).k == op.k && Written(op).v == op.v
    ensures Written(op).Live() <==> Lasting(op.now, op.expiration)
    ensures Written(op).Live() ==> Written(op).expireAt == op.now + op.expiration
  {
  }

  lemma StepSeen(bs: Store, op: Op, k: Key)
    requires Sound(bs)
    requires op.Set? ==> Written(op).Live()
    ensures var s, s' := Seen(bs, k), Seen(Step(bs, op), k);
            if !Settles(op, k) then s' == s || s' == None
            else s' == if op.Set? then Some(Written(op)) else None
  {
    if op.Clear? {
      CollectedExact(bs, |bs|);
      DeleteAllInAt(bs, Collected(bs, |bs|), k);
    } else {
      if op.Tick? { TickedAt(bs, |bs|, op.now, Home(k, |bs|)); }
      var at := if op.Tick? then k else op.k;
      BucketStep(BucketOf(bs, at), BucketOf(Step(bs, op), at), op, k);
    }
  }

  ghost predicate Empty(bs: Store) {
    Sound(bs) && forall i :: 0 <= i < |bs| ==> bs[i].l1 == [] && bs[i].l2 == []
  }

  lemma {:induction false} RunSeen(bs: Store, ops: seq<Op>, k: Key)
    requires Empty(bs) && LiveWrites(ops)
    ensures Sound(Run(bs, ops))
    ensures Seen(Run(bs, ops), k) == None || Seen(Run(bs, ops), k) == LastWrite(ops, k)
  {
    if ops != [] {
      var before := ops[..|ops| - 1];
      assert forall i :: 0 <= i < |before| ==> before[i] == ops[i];
      RunSeen(bs, before, k);
      RunSound(bs, before);
      StepSound(Run(bs, before), ops[|ops| - 1]);
      if ops[|ops| - 1].Set? { LiveWriteIff(ops[|ops| - 1]); }
      StepSeen(Run(bs, before), ops[|ops| - 1], k);
    }
  }

  /** After any run of operations from an empty store, a Get that hits returns the value last written under
      its key and not since deleted or cleared, before the end of the lifetime that write asked for. */
  lemma GetReturnsLastWrite(bs: Store, ops: seq<Op>, k: Key, now: int64, later: int64)
    requires Empty(bs) && LiveWrites(ops)
    ensures var hit := TwoLevel.Get(BucketOf(Run(bs, ops), k), k, now, later).hit;
            hit.Some? ==> exists i ::
              && 0 <= i < |ops| && ops[i].Set? && ops[i].k == k
              && hit.value == ops[i].v
              && now < ops[i].now + ops[i].expiration
              && forall j :: i < j < |ops| ==> !Settles(ops[j], k)
  {
    RunSeen(bs, ops, k);
    GetAt(BucketOf(Run(bs, ops), k), k, now, later, k);
    LastWriteIs(ops, k);
    forall i | 0 <= i < |ops| && ops[i].Set? ensures Written(ops[i]).expireAt == ops[i].now + ops[i].expiration {
      LiveWriteIff(ops[i]);
    }
  }
}
