/** What the store tells the eviction callback: which copies go, which of them go silently, and how many Len counts. */
module Reports {
  import opened Base
  import opened Recency
  import opened TwoLevel
  import opened Sweep
  import opened StoreModel
  import opened Guarantees

  // ---------------------------------------------------------------------
  // One operation on one bucket
  // ---------------------------------------------------------------------

  /** The report is of a live level-2 copy that the operation takes away. */
  ghost predicate LeavesLevel2(b: Bucket, b': Bucket, r: Report) {
    HasLive(b.l2, r.key) && !HasLive(b'.l2, r.key) && r.value == At(b.l2, r.key).v
  }

  /** A write reports exactly the live level-2 copy that its displaced entry pushes out, if there is one. */
  lemma SetReportsIff(b: Bucket, n: Node, r: Report)
    requires WellFormed(b)
    ensures |TwoLevel.Set(b, n).reports| <= 1
    ensures r in TwoLevel.Set(b, n).reports <==> LeavesLevel2(b, TwoLevel.Set(b, n).b, r)
  {
    match Displaced(b, n.k)
    case None =>
    case Some(d) => PushedOut(b.l2, b.c2, d, r);
  }

  lemma PushedOut(s: Level, cap: nat, n: Node, r: Report)
    requires Distinct(s) && |s| <= cap && cap > 0 && n.Live()
    ensures |PutReports(s, cap, n.k)| <= 1
    ensures r in PutReports(s, cap, n.k) <==>
              HasLive(s, r.key) && !HasLive(Put(s, cap, n), r.key) && r.value == At(s, r.key).v
  {
    PutReportsIff(s, cap, n, r);
    PutAt(s, cap, n, r.key);
  }

  /** A read reports exactly the live level-2 copy it takes away: the one its own entry pushes out on the way to
      level 2, or an expired one of its own key, unless that has no value. */
  lemma GetReportsIff(b: Bucket, g: Key, now: int, later: int, r: Report)
    requires WellFormed(b)
    ensures var o := TwoLevel.Get(b, g, now, later);
            && |o.reports| <= 1
            && (r in o.reports <==> LeavesLevel2(b, o.b, r) && (r.key == g ==> r.value != Nil))
  {
    if HasLive(b.l1, g) {
      FirstReports(b, g, now, r);
    } else {
      SecondReports(b, g, now, later, r);
    }
  }

  lemma FirstReports(b: Bucket, g: Key, now: int, r: Report)
    requires WellFormed(b) && HasLive(b.l1, g)
    ensures var o := TwoLevel.Get(b, g, now, now);
            && |o.reports| <= 1
            && (r in o.reports <==> LeavesLevel2(b, o.b, r) && (r.key == g ==> r.value != Nil))
  {
    var b1 := b.(l1 := Del(b.l1, g));
    DelAt(b.l1, g, g);
    if now < At(b.l1, g).expireAt {
      PushedOut(b.l2, b.c2, At(b.l1, g), r);
      PutAt(b.l2, b.c2, At(b.l1, g), r.key);
    } else {
      DeleteReportsIff(b1, g, r);
      DelAt(b.l2, g, r.key);
    }
  }

  lemma SecondReports(b: Bucket, g: Key, now: int, later: int, r: Report)
    requires WellFormed(b) && !HasLive(b.l1, g)
    ensures var o := TwoLevel.Get(b, g, now, later);
            && |o.reports| <= 1
            && (r in o.reports <==> LeavesLevel2(b, o.b, r) && (r.key == g ==> r.value != Nil))
  {
    var b1 := b.(l2 := Touch(b.l2, g));
    TouchAt(b.l2, g, r.key);
    TouchAt(b.l2, g, g);
    DeleteReportsIff(b1, g, r);
    DelAt(b1.l2, g, r.key);
  }

  /** So an expired entry that a read finds in level 1 goes without a report, or with one of the older value that
      level 2 still has. */
  lemma ExpiredGoesSilently(b: Bucket, g: Key, now: int, later: int)
    requires WellFormed(b) && HasLive(b.l1, g) && now >= At(b.l1, g).expireAt
    ensures var o := TwoLevel.Get(b, g, now, later);
            && Visible(o.b, g) == None
            && o.reports == if HasLive(b.l2, g) && At(b.l2, g).v != Nil then [Report(g, At(b.l2, g).v)] else []
  {
    GetFromLevel1(b, g, now, g);
    DelAt(b.l1, g, g);
  }

  // ---------------------------------------------------------------------
  // One operation on the store
  // ---------------------------------------------------------------------

  /** The reports of an operation. */
  function StepReports(bs: Store, op: Op): seq<Report>
    requires |bs| > 0
  {
    match op
    case Get(k, now, later) => TwoLevel.Get(BucketOf(bs, k), k, now, later).reports
    case Set(k, _, _, _) => TwoLevel.Set(BucketOf(bs, k), Written(op)).reports
    case Delete(k) => DeleteReports(BucketOf(bs, k), k)
    case Clear => DeletionReports(bs, Collected(bs, |bs|))
    case Tick(t) => TickReports(bs, |bs|, t)
  }

  /** Sweeping the bucket of its key at time t gives this report. */
  ghost predicate SweptAway(bs: Store, t: int, r: Report)
    requires |bs| > 0
  {
    Condemned(BucketOf(bs, r.key), t, r.key) && ReportedAs(BucketOf(bs, r.key), r.key, r.value)
  }

  /** The reports of one bucket. */
  function BucketReports(b: Bucket, t: int): seq<Report> {
    DeleteAllReports(b, ExpiredKeys(b, t))
  }

  lemma BucketReportsIff(bs: Store, i: nat, t: int, r: Report)
    requires Sound(bs) && i < |bs|
    ensures r in BucketReports(bs[i], t) <==> Home(r.key, |bs|) == i && SweptAway(bs, t, r)
  {
    assert WellFormed(bs[i]) && Placed(bs[i], i, |bs|);
    SweepExact(bs[i], t);
  }

  /** In every store without a live level-2 copy of the key: write, and read after the expiry. The entry is gone, and
      nothing has been reported. */
  lemma SilentRun(bs: Store, w: Op, late: int64)
    requires Sound(bs) && w.Set? && Lasting(w.now, w.expiration) && w.now + w.expiration <= late
    requires !HasLive(BucketOf(bs, w.k).l2, w.k)
    ensures var bs1, get := Step(bs, w), Op.Get(w.k, late, late);
            && Seen(bs1, w.k) == Some(Node(w.k, w.v, w.now + w.expiration))
            && Seen(Step(bs1, get), w.k) == None && StepReports(bs1, get) == []
  {
    var b, n := BucketOf(bs, w.k), Written(w);
    LiveWriteIff(w);
    SetOwn(b, n);
    PutAt(b.l1, b.c1, n, w.k);
    ExpiredGoesSilently(TwoLevel.Set(b, n).b, w.k, late, late);
  }

  /** A tick reports exactly the keys with an expired copy in either level, with the value of the visible copy (if
      that is nil, of the one it hides). */
  lemma TickReportsIff(bs: Store, t: int, r: Report)
    requires Sound(bs)
    ensures r in TickReports(bs, |bs|, t) <==> SweptAway(bs, t, r)
  {
    forall i | 0 <= i < |bs|
      ensures r in BucketReports(bs[i], t) <==> Home(r.key, |bs|) == i && SweptAway(bs, t, r)
    {
      BucketReportsIff(bs, i, t, r);
    }
    Gathered(bs, |bs|, t, r, Home(r.key, |bs|), SweptAway(bs, t, r));
  }

  /** A report that only bucket h gives, if any, is among those of the first n buckets if h is one of them. */
  lemma {:induction false} Gathered(bs: Store, n: nat, t: int, r: Report, h: nat, given: bool)
    requires n <= |bs| && forall i :: 0 <= i < |bs| ==> (r in BucketReports(bs[i], t) <==> h == i && given)
    ensures r in TickReports(bs, n, t) <==> h < n && given
  {
    if n > 0 {
      Gathered(bs, n - 1, t, r, h, given);
      assert r in BucketReports(bs[n - 1], t) <==> h == n - 1 && given;
    }
  }

  /** And no key twice. */
  lemma TickReportsOnce(bs: Store, t: int)
    requires Sound(bs)
    ensures KeysOnce(TickReports(bs, |bs|, t))
  {
    forall i | 0 <= i < |bs| ensures OfBucket(BucketReports(bs[i], t), i, |bs|) { BucketReportsOnce(bs, i, t); }
    GatheredOnce(bs, |bs|, t);
  }

  /** Reports of keys of bucket i, each key once. */
  ghost predicate OfBucket(rs: seq<Report>, i: nat, buckets: nat)
    requires buckets > 0
  {
    KeysOnce(rs) && forall j :: 0 <= j < |rs| ==> Home(rs[j].key, buckets) == i
  }

  lemma BucketReportsOnce(bs: Store, i: nat, t: int)
    requires Sound(bs) && i < |bs|
    ensures OfBucket(BucketReports(bs[i], t), i, |bs|)
  {
    var rs := BucketReports(bs[i], t);
    SweepExact(bs[i], t);
    forall j | 0 <= j < |rs| ensures Home(rs[j].key, |bs|) == i { BucketReportsIff(bs, i, t, rs[j]); }
  }

  lemma {:induction false} GatheredOnce(bs: Store, n: nat, t: int)
    requires n <= |bs| && |bs| > 0
    requires forall i :: 0 <= i < |bs| ==> OfBucket(BucketReports(bs[i], t), i, |bs|)
    ensures KeysOnce(TickReports(bs, n, t))
    ensures forall j :: 0 <= j < |TickReports(bs, n, t)| ==> Home(TickReports(bs, n, t)[j].key, |bs|) < n
  {
    if n > 0 {
      GatheredOnce(bs, n - 1, t);
      KeysApart(TickReports(bs, n - 1, t), BucketReports(bs[n - 1], t), n - 1, |bs|);
    }
  }

  lemma KeysApart(xs: seq<Report>, ys: seq<Report>, i: nat, buckets: nat)
    requires buckets > 0 && KeysOnce(xs) && OfBucket(ys, i, buckets)
    requires forall j :: 0 <= j < |xs| ==> Home(xs[j].key, buckets) < i
    ensures KeysOnce(xs + ys) && forall j :: 0 <= j < |xs + ys| ==> Home((xs + ys)[j].key, buckets) < i + 1
  {
  }

  /** The operation is a read that finds its own entry in level 1, expired. */
  ghost predicate FindsExpired(bs: Store, op: Op, k: Key)
    requires |bs| > 0
  {
    op.Get? && op.k == k && HasLive(BucketOf(bs, k).l1, k) && op.now >= At(BucketOf(bs, k).l1, k).expireAt
  }

  /** The report says that k is gone, with the value it had. */
  function Obituary(bs: Store, k: Key): Report
    requires |bs| > 0 && Seen(bs, k).Some?
  {
    Report(k, Seen(bs, k).value.v)
  }

  /** Nothing goes silently but what a read finds expired in level 1: whenever an operation other than a write of
      the key makes a visible value invisible, it reports key and value if and only if it is not such a read, or
      level 2 has a copy of the same value. */
  lemma LostIsReportedIff(bs: Store, op: Op, k: Key)
    requires Sound(bs) && Seen(bs, k).Some? && Seen(bs, k).value.v != Nil
    requires Seen(Step(bs, op), k) == None && !(op.Set? && op.k == k)
    ensures Obituary(bs, k) in StepReports(bs, op) <==>
              || !FindsExpired(bs, op, k)
              || (HasLive(BucketOf(bs, k).l2, k) && At(BucketOf(bs, k).l2, k).v == Seen(bs, k).value.v)
  {
    match op
    case Get(g, now, later) => LostToGet(bs, op, k);
    case Set(g, _, _, _) => LostToSet(bs, op, k);
    case Delete(g) => LostToDelete(bs, g, k);
    case Clear => ClearReportsOnce(bs);
    case Tick(t) => LostToTick(bs, t, k);
  }

  lemma LostToGet(bs: Store, op: Op, k: Key)
    requires Sound(bs) && Seen(bs, k).Some? && Seen(bs, k).value.v != Nil && op.Get?
    requires Seen(Step(bs, op), k) == None
    ensures Obituary(bs, k) in StepReports(bs, op) <==>
              || !FindsExpired(bs, op, k)
              || (HasLive(BucketOf(bs, k).l2, k) && At(BucketOf(bs, k).l2, k).v == Seen(bs, k).value.v)
  {
    var b := BucketOf(bs, op.k);
    assert Home(k, |bs|) == Home(op.k, |bs|);
    GetReportsIff(b, op.k, op.now, op.later, Obituary(bs, k));
    if k != op.k { KeptInLevel1(b, op.k, op.now, op.later, k); }
  }

  /** A read of another key leaves a level-1 copy where it is. */
  lemma KeptInLevel1(b: Bucket, g: Key, now: int, later: int, k: Key)
    requires WellFormed(b) && k != g
    ensures HasLive(TwoLevel.Get(b, g, now, later).b.l1, k) <==> HasLive(b.l1, k)
  {
    DelAt(b.l1, g, k);
    DelAt(Del(b.l1, g), g, k);
  }

  lemma LostToSet(bs: Store, op: Op, k: Key)
    requires Sound(bs) && Seen(bs, k).Some? && op.Set? && op.k != k && Seen(Step(bs, op), k) == None
    ensures Obituary(bs, k) in StepReports(bs, op)
  {
    assert Home(k, |bs|) == Home(op.k, |bs|);
    LostToWrite(BucketOf(bs, k), Written(op), k);
  }

  lemma LostToWrite(b: Bucket, n: Node, k: Key)
    requires WellFormed(b) && k != n.k && Visible(b, k).Some? && Visible(TwoLevel.Set(b, n).b, k) == None
    ensures Report(k, Visible(b, k).value.v) in TwoLevel.Set(b, n).reports
  {
    SetReportsIff(b, n, Report(k, Visible(b, k).value.v));
    if HasLive(b.l1, k) { NotFromLevel1(b, n, k); }
  }

  /** A write of another key never hides a level-1 copy: it stays, or goes to level 2. */
  lemma NotFromLevel1(b: Bucket, n: Node, k: Key)
    requires WellFormed(b) && k != n.k && HasLive(b.l1, k)
    ensures Visible(TwoLevel.Set(b, n).b, k) != None
  {
    PutAt(b.l1, b.c1, n, k);
    match Displaced(b, n.k)
    case None => if !Has(b.l1, n.k) && |b.l1| == b.c1 { FoundAt(b.l1, b.l1[b.c1 - 1].k, b.c1 - 1); }
    case Some(d) =>
      FoundAt(b.l1, d.k, b.c1 - 1);
      PutAt(b.l2, b.c2, d, k);
  }

  lemma LostToDelete(bs: Store, g: Key, k: Key)
    requires Sound(bs) && Seen(bs, k).Some? && Seen(bs, k).value.v != Nil && Seen(DeleteIn(bs, g), k) == None
    ensures Obituary(bs, k) in DeleteReports(BucketOf(bs, g), g)
  {
    if k != g { DeleteInSound(bs, g, k); }
    DeleteReportsIff(BucketOf(bs, k), k, Obituary(bs, k));
  }

  lemma LostToTick(bs: Store, t: int64, k: Key)
    requires Sound(bs) && Seen(bs, k).Some? && Seen(bs, k).value.v != Nil && Seen(Step(bs, Op.Tick(t)), k) == None
    ensures Obituary(bs, k) in TickReports(bs, |bs|, t)
  {
    TickReportsIff(bs, t, Obituary(bs, k));
    TickedAt(bs, |bs|, t, Home(k, |bs|));
    BucketStep(BucketOf(bs, k), BucketOf(Step(bs, Op.Tick(t)), k), Op.Tick(t), k);
  }
  /** The report is of a copy that was live and had that value. */
  ghost predicate OfCopy(b: Bucket, r: Report) {
    (HasLive(b.l1, r.key) && At(b.l1, r.key).v == r.value) || (HasLive(b.l2, r.key) && At(b.l2, r.key).v == r.value)
  }

  /** And every report is of a copy that was live and had that value, and is gone: after a deletion, Clear or a tick
      the key is not visible any more, and in any case level 2 has no live copy of it any more. */
  lemma ReportIsLoss(bs: Store, op: Op, r: Report)
    requires Sound(bs) && r in StepReports(bs, op)
    ensures OfCopy(BucketOf(bs, r.key), r)
    ensures !HasLive(BucketOf(Step(bs, op), r.key).l2, r.key)
    ensures op.Delete? || op.Clear? || op.Tick? ==> Seen(Step(bs, op), r.key) == None
  {
    match op
    case Get(g, now, later) => GetLoss(bs, op, r);
    case Set(g, _, _, _) => SetLoss(bs, op, r);
    case Delete(g) => DeleteLoss(bs, g, r);
    case Clear => ClearLoss(bs, r);
    case Tick(t) => SweptLoss(bs, t, r);
  }

  lemma GetLoss(bs: Store, op: Op, r: Report)
    requires Sound(bs) && op.Get? && r in StepReports(bs, op)
    ensures OfCopy(BucketOf(bs, r.key), r) && !HasLive(BucketOf(Step(bs, op), r.key).l2, r.key)
  {
    GetReportsIff(BucketOf(bs, op.k), op.k, op.now, op.later, r);
    InPlace(bs, op.k, r.key);
  }

  lemma SetLoss(bs: Store, op: Op, r: Report)
    requires Sound(bs) && op.Set? && r in StepReports(bs, op)
    ensures OfCopy(BucketOf(bs, r.key), r) && !HasLive(BucketOf(Step(bs, op), r.key).l2, r.key)
  {
    SetReportsIff(BucketOf(bs, op.k), Written(op), r);
    InPlace(bs, op.k, r.key);
  }

  lemma DeleteLoss(bs: Store, g: Key, r: Report)
    requires Sound(bs) && r in DeleteReports(BucketOf(bs, g), g)
    ensures OfCopy(BucketOf(bs, r.key), r) && Seen(DeleteIn(bs, g), r.key) == None
  {
    DeleteReportsIff(BucketOf(bs, g), g, r);
    DeleteInSound(bs, g, g);
  }

  lemma ClearLoss(bs: Store, r: Report)
    requires Sound(bs) && r in DeletionReports(bs, Collected(bs, |bs|))
    ensures OfCopy(BucketOf(bs, r.key), r) && Seen(Step(bs, Op.Clear), r.key) == None
  {
    ClearReportsOnce(bs);
    ClearEmpties(bs);
  }

  lemma InPlace(bs: Store, g: Key, k: Key)
    requires Sound(bs) && HasLive(BucketOf(bs, g).l2, k)
    ensures Home(k, |bs|) == Home(g, |bs|)
  {
    assert Placed(BucketOf(bs, g), Home(g, |bs|), |bs|);
  }

  lemma SweptLoss(bs: Store, t: int64, r: Report)
    requires Sound(bs) && r in TickReports(bs, |bs|, t)
    ensures OfCopy(BucketOf(bs, r.key), r) && Seen(Step(bs, Op.Tick(t)), r.key) == None
  {
    TickReportsIff(bs, t, r);
    SweptBucket(BucketOf(bs, r.key), t, r);
    TickedBucket(bs, t, r.key);
  }

  lemma TickedBucket(bs: Store, t: int64, k: Key)
    requires |bs| > 0
    ensures BucketOf(Step(bs, Op.Tick(t)), k) == SweepBucket(BucketOf(bs, k), t)
  {
    TickedAt(bs, |bs|, t, Home(k, |bs|));
  }

  lemma SweptBucket(b: Bucket, t: int, r: Report)
    requires WellFormed(b) && Condemned(b, t, r.key) && ReportedAs(b, r.key, r.value)
    ensures OfCopy(b, r) && Visible(SweepBucket(b, t), r.key) == None
  {
    ExpiredKeysExact(b, t);
    DeleteAllAt(b, ExpiredKeys(b, t), r.key);
  }

  /** The order of Clear: bucket by bucket, level 1 from head to tail, then what level 2 adds. */
  lemma CollectedInOrder(bs: Store, i: nat)
    requires Sound(bs) && i < |bs|
    ensures var first, second := KeysOf(LiveNodes(bs[i].l1)), KeysOf(LiveNodes(bs[i].l2));
            Collected(bs, i + 1) == Collected(bs, i) + first + NotIn(second, first)
  {
    var before, first, second := Collected(bs, i), KeysOf(LiveNodes(bs[i].l1)), KeysOf(LiveNodes(bs[i].l2));
    assert WellFormed(bs[i]);
    LiveNodesExact(bs[i].l2);
    AddMissingIs(before + first, second);
    CollectedExact(bs, i);
    LiveKeysPlaced(bs, i);
    NotInSame(second, before + first, first);
  }

  // ---------------------------------------------------------------------
  // Len
  // ---------------------------------------------------------------------

  /** The keys of the live nodes of a level. */
  ghost function LiveKeySet(s: Level): set<Key> {
    set k | k in KeysOf(LiveNodes(s))
  }

  lemma LiveKeySetSize(s: Level)
    requires Distinct(s)
    ensures |LiveKeySet(s)| == |LiveNodes(s)|
    ensures forall k :: k in LiveKeySet(s) <==> HasLive(s, k)
  {
    LiveNodesExact(s);
    OnceSetSize(KeysOf(LiveNodes(s)));
    forall k ensures k in LiveKeySet(s) <==> HasLive(s, k) { LiveKey(s, k); }
  }

  lemma {:induction false} OnceSetSize(keys: seq<Key>)
    requires Once(keys)
    ensures |set k | k in keys| == |keys|
  {
    var all := set k | k in keys;
    if keys != [] {
      OnceTail(keys);
      OnceSetSize(keys[1..]);
      assert keys == [keys[0]] + keys[1..];
      assert all == {keys[0]} + set k | k in keys[1..];
    }
  }

  /** Len counts the visible keys, and those again that are live in both levels. */
  lemma LenIs(bs: Store, seen: set<Key>, both: set<Key>)
    requires Sound(bs) && forall k :: k in seen <==> Seen(bs, k).Some?
    requires forall k :: k in both <==> HasLive(BucketOf(bs, k).l1, k) && HasLive(BucketOf(bs, k).l2, k)
    ensures Count(bs, |bs|) == |seen| + |both|
  {
    CountedBelow(bs, |bs|, seen, both);
  }

  lemma {:induction false} CountedBelow(bs: Store, n: nat, seen: set<Key>, both: set<Key>)
    requires Sound(bs) && n <= |bs| && forall k :: k in seen <==> Home(k, |bs|) < n && Seen(bs, k).Some?
    requires forall k :: k in both <==>
        Home(k, |bs|) < n && HasLive(BucketOf(bs, k).l1, k) && HasLive(BucketOf(bs, k).l2, k)
    ensures Count(bs, n) == |seen| + |both|
  {
    if n == 0 {
      assert seen == {} && both == {};
    } else {
      var a, b := LiveKeySet(bs[n - 1].l1), LiveKeySet(bs[n - 1].l2);
      assert WellFormed(bs[n - 1]);
      LiveKeySetSize(bs[n - 1].l1);
      LiveKeySetSize(bs[n - 1].l2);
      BucketKeys(bs, n - 1, seen, both, a, b);
      SplitSizes(seen, both, a, b);
      CountedBelow(bs, n - 1, seen - (a + b), both - a * b);
    }
  }

  /** The keys of bucket i among them. */
  lemma BucketKeys(bs: Store, i: nat, seen: set<Key>, both: set<Key>, a: set<Key>, b: set<Key>)
    requires Sound(bs) && i < |bs| && forall k :: k in seen <==> Home(k, |bs|) <= i && Seen(bs, k).Some?
    requires forall k :: k in both <==>
        Home(k, |bs|) <= i && HasLive(BucketOf(bs, k).l1, k) && HasLive(BucketOf(bs, k).l2, k)
    requires (forall k :: k in a <==> HasLive(bs[i].l1, k)) && (forall k :: k in b <==> HasLive(bs[i].l2, k))
    ensures a + b <= seen && a * b <= both
    ensures forall k :: k in seen - (a + b) <==> Home(k, |bs|) < i && Seen(bs, k).Some?
    ensures forall k :: k in both - a * b <==>
        Home(k, |bs|) < i && HasLive(BucketOf(bs, k).l1, k) && HasLive(BucketOf(bs, k).l2, k)
  {
    assert Placed(bs[i], i, |bs|);
    forall k ensures k in a + b <==> Home(k, |bs|) == i && Seen(bs, k).Some? {}
    forall k ensures k in a * b <==>
        Home(k, |bs|) == i && HasLive(BucketOf(bs, k).l1, k) && HasLive(BucketOf(bs, k).l2, k) {}
  }

  lemma SplitSizes(seen: set<Key>, both: set<Key>, a: set<Key>, b: set<Key>)
    requires a + b <= seen && a * b <= both
    ensures |seen| + |both| == |seen - (a + b)| + |both - a * b| + |a| + |b|
  {
    assert seen == (seen - (a + b)) + (a + b) && both == (both - a * b) + a * b;
    assert |a + b| + |a * b| == |a| + |b|;
  }
}
