/** What runs of the store guarantee: how long an entry survives, what a write with no lifetime
    uncovers, and that Clear empties the store. */
module Guarantees {
  import opened Base
  import opened Recency
  import opened TwoLevel
  import opened Sweep
  import opened StoreModel

  // ---------------------------------------------------------------------
  // Survival
  // ---------------------------------------------------------------------

  /** The operation leaves key k alone: it is on another key, or a cleanup tick. */
  predicate Leaves(op: Op, k: Key) {
    op.Tick? || (!op.Clear? && op.k != k)
  }

  /** The operation is on a key of the same bucket. */
  predicate Shares(op: Op, k: Key, buckets: nat)
    requires buckets > 0
  {
    (op.Get? || op.Set? || op.Delete?) && Home(op.k, buckets) == Home(k, buckets)
  }

  /** Only operations on keys of the same bucket use up the budget; ticks are free. */
  function Cost(ops: seq<Op>, k: Key, buckets: nat): nat
    requires buckets > 0
  {
    if ops == [] then 0
    else
      var op := ops[|ops| - 1];
      Cost(ops[..|ops| - 1], k, buckets)
      + if Shares(op, k, buckets) then 1 else 0
  }

  /** The cost is how many operations are. */
  lemma {:induction false} CostIs(ops: seq<Op>, k: Key, buckets: nat, sharing: set<int>)
    requires buckets > 0 && forall i :: i in sharing <==> 0 <= i < |ops| && Shares(ops[i], k, buckets)
    ensures Cost(ops, k, buckets) == |sharing|
  {
    if ops == [] {
      forall i ensures i !in sharing {}
      assert sharing == {};
    } else {
      var n := |ops| - 1;
      CostIs(ops[..n], k, buckets, sharing - {n});
      if n in sharing { assert sharing == (sharing - {n}) + {n}; }
    }
  }

  /** No live copy of k, in either level, expires before h. */
  ghost predicate SafeUntil(b: Bucket, k: Key, h: int) {
    && (HasLive(b.l1, k) ==> h <= At(b.l1, k).expireAt)
    && (HasLive(b.l2, k) ==> h <= At(b.l2, k).expireAt)
  }

  /** Every live copy of k was there before. */
  ghost predicate CopiesFrom(b: Bucket, b': Bucket, k: Key) {
    && (HasLive(b'.l1, k) ==> HasLive(b.l1, k) && At(b'.l1, k) == At(b.l1, k))
    && (HasLive(b'.l2, k) ==>
          || (HasLive(b.l2, k) && At(b'.l2, k) == At(b.l2, k))
          || (HasLive(b.l1, k) && At(b'.l2, k) == At(b.l1, k)))
  }

  lemma GetCopies(b: Bucket, g: Key, now: int, later: int, k: Key)
    requires WellFormed(b) && g != k
    ensures CopiesFrom(b, TwoLevel.Get(b, g, now, later).b, k)
  {
    if HasLive(b.l1, g) {
      DelAt(b.l1, g, k);
      DeleteCopies(b.(l1 := Del(b.l1, g)), g, k);
      PutAt(b.l2, b.c2, At(b.l1, g), k);
    } else {
      GetCopiesLevel2(b, g, now, later, k);
    }
  }

  lemma GetCopiesLevel2(b: Bucket, g: Key, now: int, later: int, k: Key)
    requires WellFormed(b) && g != k && !HasLive(b.l1, g)
    ensures CopiesFrom(b, TwoLevel.Get(b, g, now, later).b, k)
  {
    TouchAt(b.l2, g, k);
    DeleteCopies(b.(l2 := Touch(b.l2, g)), g, k);
  }

  lemma DeleteCopies(b: Bucket, d: Key, k: Key)
    requires WellFormed(b) && d != k
    ensures SameCopies(b, TwoLevel.Delete(b, d), k)
  {
    DelAt(b.l1, d, k);
    DelAt(b.l2, d, k);
  }

  lemma SetCopies(b: Bucket, n: Node, k: Key)
    requires WellFormed(b) && n.k != k
    ensures CopiesFrom(b, TwoLevel.Set(b, n).b, k)
  {
    PutAt(b.l1, b.c1, n, k);
    match Displaced(b, n.k)
    case None =>
    case Some(d) =>
      FoundAt(b.l1, d.k, b.c1 - 1);
      PutAt(b.l2, b.c2, d, k);
  }

  lemma TickCopies(bs: Store, t: int64, k: Key)
    requires Sound(bs)
    ensures CopiesFrom(BucketOf(bs, k), BucketOf(Step(bs, Op.Tick(t)), k), k)
  {
    SweepCopies(BucketOf(bs, k), t, k);
    TickedAt(bs, |bs|, t, Home(k, |bs|));
  }

  lemma SweepCopies(b: Bucket, t: int, k: Key)
    requires WellFormed(b)
    ensures CopiesFrom(b, SweepBucket(b, t), k)
  {
    DeleteAllAt(b, ExpiredKeys(b, t), k);
  }

  lemma StepCopies(bs: Store, op: Op, k: Key)
    requires Sound(bs) && Leaves(op, k)
    ensures CopiesFrom(BucketOf(bs, k), BucketOf(Step(bs, op), k), k)
  {
    var b := BucketOf(bs, k);
    match op
    case Get(g, now, later) => GetCopies(b, g, now, later, k);
    case Set(g, _, _, _) => SetCopies(b, Written(op), k);
    case Delete(g) => DeleteCopies(b, g, k);
    case Tick(t) => TickCopies(bs, t, k);
  }

  lemma {:induction false} Outlives(bs: Store, ops: seq<Op>, k: Key, n: Node, h: int)
    requires Sound(bs) && Seen(bs, k) == Some(n)
    requires Cost(ops, k, |bs|) <= Budget(BucketOf(bs, k), k)
    requires SafeUntil(BucketOf(bs, k), k, h)
    requires forall i :: 0 <= i < |ops| ==> Leaves(ops[i], k) && (ops[i].Tick? ==> ops[i].now < h)
    ensures var b := BucketOf(Run(bs, ops), k);
            && Sound(Run(bs, ops)) && Visible(b, k) == Some(n)
            && Budget(b, k) >= Budget(BucketOf(bs, k), k) - Cost(ops, k, |bs|)
            && SafeUntil(b, k, h)
  {
    if ops != [] {
      var op, before := ops[|ops| - 1], ops[..|ops| - 1];
      assert forall i :: 0 <= i < |before| ==> before[i] == ops[i];
      Outlives(bs, before, k, n, h);
      var mid := Run(bs, before);
      StepSound(mid, op);
      StepCopies(mid, op, k);
      StepOutlives(mid, op, k, n, h);
    }
  }

  /** One operation that leaves k alone costs at most one of k's budget, and nothing if it is elsewhere. */
  lemma StepOutlives(bs: Store, op: Op, k: Key, n: Node, h: int)
    requires Sound(bs) && Seen(bs, k) == Some(n) && Leaves(op, k)
    requires SafeUntil(BucketOf(bs, k), k, h) && (op.Tick? ==> op.now < h)
    requires op.Tick? || Home(op.k, |bs|) != Home(k, |bs|) || Budget(BucketOf(bs, k), k) > 0
    ensures var b, b' := BucketOf(bs, k), BucketOf(Step(bs, op), k);
            && Visible(b', k) == Some(n)
            && Budget(b', k) >= Budget(b, k) - (if !op.Tick? && Home(op.k, |bs|) == Home(k, |bs|) then 1 else 0)
  {
    if op.Tick? { TickedAt(bs, |bs|, op.now, Home(k, |bs|)); }
    if op.Tick? || Home(op.k, |bs|) == Home(k, |bs|) {
      BucketStep(BucketOf(bs, k), BucketOf(Step(bs, op), k), op, k);
    }
  }

  /** Survival: with level capacities c1 and c2, a write stays readable to the end of its lifetime through
      any c1 + c2 - 1 operations on other keys of its bucket and any number elsewhere, provided no
      tick comes at or after the expiry of a live copy of the key (the new one, or a stale one that
      level 2 still holds). */
  lemma Survival(bs: Store, w: Op, ops: seq<Op>, h: int, now: int64, later: int64)
    requires Sound(bs) && w.Set? && Lasting(w.now, w.expiration)
    requires Cost(ops, w.k, |bs|) < BucketOf(bs, w.k).c1 + BucketOf(bs, w.k).c2
    requires SafeUntil(BucketOf(Step(bs, w), w.k), w.k, h)
    requires forall i :: 0 <= i < |ops| ==> Leaves(ops[i], w.k) && (ops[i].Tick? ==> ops[i].now < h)
    requires now < w.now + w.expiration && later < w.now + w.expiration
    ensures TwoLevel.Get(BucketOf(Run(Step(bs, w), ops), w.k), w.k, now, later).hit == Some(w.v)
  {
    var k := w.k;
    LiveWriteIff(w);
    StepSound(bs, w);
    BucketStep(BucketOf(bs, k), BucketOf(Step(bs, w), k), w, k);
    Outlives(Step(bs, w), ops, k, Written(w), h);
    GetAt(BucketOf(Run(Step(bs, w), ops), k), k, now, later, k);
  }

  // ---------------------------------------------------------------------
  // Survival of an entry that is read
  // ---------------------------------------------------------------------

  /** A hit leaves the entry at the front of level 2, whatever it had left before. */
  lemma ReadOwn(b: Bucket, k: Key, now: int, later: int, h: int)
    requires WellFormed(b) && Visible(b, k).Some?
    requires now < Visible(b, k).value.expireAt && later < Visible(b, k).value.expireAt
    ensures var b' := TwoLevel.Get(b, k, now, later).b;
            && WellFormed(b') && Visible(b', k) == Visible(b, k) && Budget(b', k) == b.c2 - 1
            && b'.c2 == b.c2 && (SafeUntil(b, k, h) ==> SafeUntil(b', k, h))
  {
    if HasLive(b.l1, k) {
      DelAt(b.l1, k, k);
      PutAt(b.l2, b.c2, At(b.l1, k), k);
    } else {
      TouchAt(b.l2, k, k);
      FoundAt(Touch(b.l2, k), k, 0);
    }
  }

  /** The operation leaves the entry of k alone, or reads it before it expires. */
  predicate LeavesOrReads(op: Op, k: Key, expireAt: int) {
    Leaves(op, k) || (op.Get? && op.k == k && op.now < expireAt && op.later < expireAt)
  }

  /** Every operation does, and ticks come before h. */
  predicate AllLeaveOrRead(ops: seq<Op>, k: Key, expireAt: int, h: int) {
    forall i :: 0 <= i < |ops| ==> LeavesOrReads(ops[i], k, expireAt) && (ops[i].Tick? ==> ops[i].now < h)
  }

  /** How many more operations of its bucket k is sure to outlive: one less for each on another key, and
      c2 - 1 after each read of k. */
  function Left(ops: seq<Op>, k: Key, buckets: nat, start: int, c2: nat): int
    requires buckets > 0
  {
    if ops == [] then start
    else
      var op, left := ops[|ops| - 1], Left(ops[..|ops| - 1], k, buckets, start, c2);
      if op.Get? && op.k == k then c2 - 1
      else if Shares(op, k, buckets) then left - 1
      else left
  }

  /** That is: what there was at the start or, if operation i - 1 was the last read of k, c2 - 1, less the
      operations on keys of the bucket since then. */
  lemma {:induction false} LeftIs(ops: seq<Op>, k: Key, buckets: nat, start: int, c2: nat, i: nat)
    requires buckets > 0 && i <= |ops| && (i > 0 ==> ops[i - 1].Get? && ops[i - 1].k == k)
    requires forall j :: i <= j < |ops| ==> !(ops[j].Get? && ops[j].k == k)
    ensures Left(ops, k, buckets, start, c2) == (if i == 0 then start else c2 - 1) - Cost(ops[i..], k, buckets)
  {
    var n := |ops| - 1;
    if i <= n {
      LeftIs(ops[..n], k, buckets, start, c2, i);
      assert ops[i..][..|ops[i..]| - 1] == ops[..n][i..];
    } else {
      assert ops[i..] == [];
    }
  }

  /** At no moment was nothing left. */
  predicate NeverShort(ops: seq<Op>, k: Key, buckets: nat, start: int, c2: nat)
    requires buckets > 0
  {
    forall i :: 0 <= i <= |ops| ==> Left(ops[..i], k, buckets, start, c2) >= 0
  }

  lemma ReadStep(bs: Store, op: Op, k: Key, n: Node, h: int)
    requires Sound(bs) && Seen(bs, k) == Some(n) && op.Get? && op.k == k && LeavesOrReads(op, k, n.expireAt)
    requires SafeUntil(BucketOf(bs, k), k, h)
    ensures var b, b' := BucketOf(bs, k), BucketOf(Step(bs, op), k);
            Visible(b', k) == Some(n) && Budget(b', k) == b.c2 - 1 && b'.c2 == b.c2 && SafeUntil(b', k, h)
  {
    ReadOwn(BucketOf(bs, k), k, op.now, op.later, h);
  }

  lemma OtherStep(bs: Store, op: Op, k: Key, n: Node, h: int)
    requires Sound(bs) && Seen(bs, k) == Some(n) && Leaves(op, k)
    requires SafeUntil(BucketOf(bs, k), k, h) && (op.Tick? ==> op.now < h)
    requires op.Tick? || Home(op.k, |bs|) != Home(k, |bs|) || Budget(BucketOf(bs, k), k) > 0
    ensures var b, b' := BucketOf(bs, k), BucketOf(Step(bs, op), k);
            && Visible(b', k) == Some(n) && b'.c2 == b.c2 && SafeUntil(b', k, h)
            && Budget(b', k) >= Budget(b, k) - (if !op.Tick? && Home(op.k, |bs|) == Home(k, |bs|) then 1 else 0)
  {
    StepCopies(bs, op, k);
    StepOutlives(bs, op, k, n, h);
    if op.Tick? { TickedAt(bs, |bs|, op.now, Home(k, |bs|)); }
    if op.Tick? || Home(op.k, |bs|) == Home(k, |bs|) {
      BucketStep(BucketOf(bs, k), BucketOf(Step(bs, op), k), op, k);
    }
  }

  lemma {:induction false} OutlivesReads(bs: Store, ops: seq<Op>, k: Key, n: Node, h: int, start: int)
    requires Sound(bs) && Seen(bs, k) == Some(n) && SafeUntil(BucketOf(bs, k), k, h)
    requires start <= Budget(BucketOf(bs, k), k)
    requires NeverShort(ops, k, |bs|, start, BucketOf(bs, k).c2)
    requires AllLeaveOrRead(ops, k, n.expireAt, h)
    ensures var b := BucketOf(Run(bs, ops), k);
            && Sound(Run(bs, ops)) && Visible(b, k) == Some(n) && SafeUntil(b, k, h) && b.c2 == BucketOf(bs, k).c2
            && Budget(b, k) >= Left(ops, k, |bs|, start, b.c2)
  {
    if ops != [] {
      var op, before := ops[|ops| - 1], ops[..|ops| - 1];
      assert forall i :: 0 <= i < |before| ==> before[i] == ops[i];
      assert forall i :: 0 <= i <= |before| ==> before[..i] == ops[..i];
      assert ops[..|ops|] == ops;
      OutlivesReads(bs, before, k, n, h, start);
      var mid := Run(bs, before);
      StepSound(mid, op);
      if op.Get? && op.k == k { ReadStep(mid, op, k, n, h); } else { OtherStep(mid, op, k, n, h); }
    }
  }

  lemma JustWritten(bs: Store, w: Op)
    requires Sound(bs) && w.Set? && Lasting(w.now, w.expiration)
    ensures Written(w).expireAt == w.now + w.expiration && Written(w).v == w.v
    ensures var b, b' := BucketOf(bs, w.k), BucketOf(Step(bs, w), w.k);
            && Sound(Step(bs, w)) && Seen(Step(bs, w), w.k) == Some(Written(w)) && |Step(bs, w)| == |bs|
            && Budget(b', w.k) == b.c1 + b.c2 - 1 && b'.c2 == b.c2
  {
    LiveWriteIff(w);
    StepSound(bs, w);
    BucketStep(BucketOf(bs, w.k), BucketOf(Step(bs, w), w.k), w, w.k);
  }

  lemma StillAnswered(bs: Store, ops: seq<Op>, k: Key, n: Node, h: int, start: int, buckets: nat, c2: nat,
      now: int64, later: int64)
    requires Sound(bs) && Seen(bs, k) == Some(n) && SafeUntil(BucketOf(bs, k), k, h)
    requires |bs| == buckets && BucketOf(bs, k).c2 == c2
    requires start <= Budget(BucketOf(bs, k), k) && NeverShort(ops, k, buckets, start, c2)
    requires AllLeaveOrRead(ops, k, n.expireAt, h)
    requires now < n.expireAt && later < n.expireAt
    ensures TwoLevel.Get(BucketOf(Run(bs, ops), k), k, now, later).hit == Some(n.v)
  {
    OutlivesReads(bs, ops, k, n, h, start);
    GetAt(BucketOf(Run(bs, ops), k), k, now, later, k);
  }

  /** Survival with reads: a write, and the reads of it, are answered to the end of its lifetime as long as no more
      than c1 + c2 - 1 operations on other keys of the bucket come before the first read, and no more than
      c2 - 1 after each read, with ticks as in Survival. */
  lemma SurvivalWithReads(bs: Store, w: Op, ops: seq<Op>, h: int, now: int64, later: int64)
    requires Sound(bs) && w.Set? && Lasting(w.now, w.expiration)
    requires NeverShort(ops, w.k, |bs|, BucketOf(bs, w.k).c1 + BucketOf(bs, w.k).c2 - 1, BucketOf(bs, w.k).c2)
    requires SafeUntil(BucketOf(Step(bs, w), w.k), w.k, h)
    requires AllLeaveOrRead(ops, w.k, w.now + w.expiration, h)
    requires now < w.now + w.expiration && later < w.now + w.expiration
    ensures TwoLevel.Get(BucketOf(Run(Step(bs, w), ops), w.k), w.k, now, later).hit == Some(w.v)
  {
    var b := BucketOf(bs, w.k);
    JustWritten(bs, w);
    StillAnswered(Step(bs, w), ops, w.k, Written(w), h, b.c1 + b.c2 - 1, |bs|, b.c2, now, later);
  }

  // ---------------------------------------------------------------------
  // Tombstones
  // ---------------------------------------------------------------------

  /** In every bucket the tombstones of level 1 are a suffix of its recency order. */
  ghost predicate TombstonesLast(bs: Store) {
    forall i :: 0 <= i < |bs| ==> DeadSuffix(bs[i].l1)
  }

  lemma {:induction false} DeleteAllTombstones(bs: Store, keys: seq<Key>)
    requires |bs| > 0 && TombstonesLast(bs)
    ensures TombstonesLast(DeleteAllIn(bs, keys))
    decreases |keys|
  {
    if keys != [] {
      DelSuffix(BucketOf(bs, keys[0]).l1, keys[0]);
      DeleteAllTombstones(DeleteIn(bs, keys[0]), keys[1..]);
    }
  }

  lemma StepTombstones(bs: Store, op: Op)
    requires Sound(bs) && TombstonesLast(bs)
    requires op.Set? ==> Lasting(op.now, op.expiration)
    ensures TombstonesLast(Step(bs, op))
  {
    match op
    case Get(k, now, later) => GetSuffix(BucketOf(bs, k), k, now, later);
    case Set(k, _, _, _) =>
      LiveWriteIff(op);
      SetSuffixIff(BucketOf(bs, k), Written(op));
    case Delete(k) => DelSuffix(BucketOf(bs, k).l1, k);
    case Clear => DeleteAllTombstones(bs, Collected(bs, |bs|));
    case Tick(t) =>
      forall i | 0 <= i < |bs| ensures DeadSuffix(Step(bs, op)[i].l1) {
        TickedAt(bs, |bs|, t, i);
        DeleteAllSuffix(bs[i], ExpiredKeys(bs[i], t));
      }
  }

  /** After any run of live writes and other operations the tombstones of level 1 are at its back, so a
      write displaces a live entry to level 2 only when all of its level 1 is live. */
  lemma {:induction false} RunTombstones(bs: Store, ops: seq<Op>, k: Key)
    requires Empty(bs) && LiveWrites(ops)
    ensures TombstonesLast(Run(bs, ops))
    ensures var b := BucketOf(Run(bs, ops), k);
            Displaced(b, k).Some? ==> |b.l1| == b.c1 && forall n :: n in b.l1 ==> n.Live()
  {
    if ops != [] {
      var before := ops[..|ops| - 1];
      assert forall i :: 0 <= i < |before| ==> before[i] == ops[i];
      RunTombstones(bs, before, k);
      RunSound(bs, before);
      StepTombstones(Run(bs, before), ops[|ops| - 1]);
    }
    if Displaced(BucketOf(Run(bs, ops), k), k).Some? {
      DisplacedOnlyWhenAllLive(BucketOf(Run(bs, ops), k), k);
    }
  }

  // ---------------------------------------------------------------------
  // Writes with no lifetime
  // ---------------------------------------------------------------------

  /** Readers of b see, for every key, the latest write or nothing. */
  ghost predicate Lossy(b: Bucket, latest: map<Key, Node>) {
    forall k :: Visible(b, k).Some? ==> k in latest && latest[k] == Visible(b, k).value
  }

  /** The latest writes after one more; a write with no lifetime leaves its key without a value. */
  function Overwrite(latest: map<Key, Node>, n: Node): map<Key, Node> {
    if n.Live() then latest[n.k := n] else latest - {n.k}
  }

  /** Writing k displaces a live level-1 node whose key is new to a full level 2 with k at its tail, so
      that the write also drops the level-2 node of k. */
  predicate DropsOwn(b: Bucket, k: Key) {
    && Displaced(b, k).Some? && !Has(b.l2, Displaced(b, k).value.k)
    && b.c2 > 0 && |b.l2| == b.c2 && b.l2[b.c2 - 1].k == k
  }

  /** Whether level 2 still shows the key after its write, read off the bucket before it. */
  lemma UncoveredIff(b: Bucket, n: Node)
    requires WellFormed(b)
    ensures HasLive(TwoLevel.Set(b, n).b.l2, n.k) <==> HasLive(b.l2, n.k) && !DropsOwn(b, n.k)
  {
    match Displaced(b, n.k)
    case None =>
    case Some(d) =>
      FoundAt(b.l1, d.k, b.c1 - 1);
      PutAt(b.l2, b.c2, d, n.k);
  }

  /** In one bucket: the write keeps the bucket a lossy last-write map if and only if it is live, or
      finds no live copy of its key in level 2, or drops that copy by what it displaces. */
  lemma SetKeepsLossyIff(b: Bucket, latest: map<Key, Node>, n: Node)
    requires WellFormed(b) && Lossy(b, latest)
    ensures Lossy(TwoLevel.Set(b, n).b, Overwrite(latest, n)) <==> n.Live() || !HasLive(b.l2, n.k) || DropsOwn(b, n.k)
  {
    var b', latest' := TwoLevel.Set(b, n).b, Overwrite(latest, n);
    SetOwn(b, n);
    UncoveredIff(b, n);
    if n.Live() || !HasLive(b'.l2, n.k) {
      forall k | Visible(b', k).Some? ensures k in latest' && latest'[k] == Visible(b', k).value {
        if k != n.k { SetOther(b, n, k); }
      }
    } else {
      assert Visible(b', n.k).Some? && n.k !in latest';
    }
  }

  /** Over all buckets: a write keeps every bucket a lossy last-write map if and only if the expiry it
      stores is positive. */
  lemma LiveWritesAreSafeIff(n: Node)
    ensures (forall b, latest :: WellFormed(b) && Lossy(b, latest) ==>
        Lossy(TwoLevel.Set(b, n).b, Overwrite(latest, n)))
            <==> n.Live()
  {
    if n.Live() {
      forall b, latest | WellFormed(b) && Lossy(b, latest) ensures Lossy(TwoLevel.Set(b, n).b, Overwrite(latest, n)) {
        SetKeepsLossyIff(b, latest, n);
      }
    } else {
      var old_ := n.(expireAt := 1);
      var b, latest := Bucket([], 1, [old_], 1), map[n.k := old_];
      forall k | Visible(b, k).Some? ensures k in latest && latest[k] == Visible(b, k).value {
        assert IndexOf(b.l2, k) == 0;
      }
      SetKeepsLossyIff(b, latest, n);
      assert IndexOf(b.l2, n.k) == 0;
    }
  }

  /** A live write and a read move the entry to level 2 and leave its key known to level 1. */
  lemma WriteThenRead(b: Bucket, n: Node, now: int)
    requires WellFormed(b) && n.Live() && now < n.expireAt
    ensures var b' := TwoLevel.Get(TwoLevel.Set(b, n).b, n.k, now, now).b;
            && WellFormed(b') && Visible(b', n.k) == Some(n)
            && Has(b'.l1, n.k) && !HasLive(b'.l1, n.k) && HasLive(b'.l2, n.k) && At(b'.l2, n.k) == n
  {
    var b1 := TwoLevel.Set(b, n).b;
    PutAt(b.l1, b.c1, n, n.k);
    SetOwn(b, n);
    GetFromLevel1(b1, n.k, now, n.k);
    DelAt(b1.l1, n.k, n.k);
    PutAt(b1.l2, b1.c2, n, n.k);
  }

  /** The level-2 copy is still there after the next write. */
  lemma WrittenOver(b: Bucket, n: Node, d: Node, now: int)
    requires WellFormed(b) && n.k == d.k && n.Live() && now < n.expireAt
    ensures var b' := TwoLevel.Set(TwoLevel.Get(TwoLevel.Set(b, n).b, n.k, now, now).b, d).b;
            && WellFormed(b') && HasLive(b'.l2, n.k) && At(b'.l2, n.k) == n
            && Visible(b', n.k) == Some(if d.Live() then d else n)
            && (d.Live() ==> HasLive(b'.l1, n.k))
  {
    var b2 := TwoLevel.Get(TwoLevel.Set(b, n).b, n.k, now, now).b;
    WriteThenRead(b, n, now);
    SetOwn(b2, d);
    PutAt(b2.l1, b2.c1, d, d.k);
    assert Displaced(b2, d.k) == None;
  }

  /** Three operations on one key all take place in its bucket. */
  lemma OneBucket(bs: Store, w: Op, now: int64, op: Op)
    requires |bs| > 0 && w.Set? && (op.Set? || op.Get?) && op.k == w.k
    ensures var b2 := TwoLevel.Get(TwoLevel.Set(BucketOf(bs, w.k), Written(w)).b, w.k, now, now).b;
            BucketOf(Step(Step(Step(bs, w), Op.Get(w.k, now, now)), op), w.k) ==
              if op.Set? then TwoLevel.Set(b2, Written(op)).b else TwoLevel.Get(b2, w.k, op.now, op.later).b
  {
  }

  /** What a caller sees: in any store, write v under k, read it, write v' with a non-positive
      expiration, and the next read returns v again. */
  lemma DeadWriteUncovers(bs: Store, k: Key, v: Value, v': Value, life: int64, death: int64, now: int64)
    requires Sound(bs) && Lasting(now, life) && death <= 0
    ensures var bs1 := Step(bs, Op.Set(k, v, life, now));
            var bs2 := Step(bs1, Op.Get(k, now, now));
            var bs3 := Step(bs2, Op.Set(k, v', death, now));
            TwoLevel.Get(BucketOf(bs3, k), k, now, now).hit == Some(v)
  {
    var w, d := Op.Set(k, v, life, now), Op.Set(k, v', death, now);
    LiveWriteIff(w);
    LiveWriteIff(d);
    WrittenOver(BucketOf(bs, k), Written(w), Written(d), now);
    OneBucket(bs, w, now, d);
    GetAt(BucketOf(Step(Step(Step(bs, w), Op.Get(k, now, now)), d), k), k, now, now, k);
  }

  // ---------------------------------------------------------------------
  // Expired copies in level 2
  // ---------------------------------------------------------------------

  /** Any store after a live write of k and a read of it. */
  lemma Prepared(bs: Store, w: Op, now: int64)
    requires Sound(bs) && w.Set? && Lasting(w.now, w.expiration) && now < w.now + w.expiration
    ensures var bs2 := Step(Step(bs, w), Op.Get(w.k, now, now));
            && |bs2| > 0 && WellFormed(BucketOf(bs2, w.k)) && Has(BucketOf(bs2, w.k).l1, w.k)
            && !HasLive(BucketOf(bs2, w.k).l1, w.k) && Seen(bs2, w.k) == Some(Node(w.k, w.v, w.now + w.expiration))
  {
    LiveWriteIff(w);
    WriteThenRead(BucketOf(bs, w.k), Node(w.k, w.v, w.now + w.expiration), now);
  }

  lemma LateGet(bs: Store, k: Key, late: int64)
    requires |bs| > 0 && WellFormed(BucketOf(bs, k)) && !HasLive(BucketOf(bs, k).l1, k)
    requires Seen(bs, k).Some? && Seen(bs, k).value.expireAt <= late
    ensures TwoLevel.Get(BucketOf(bs, k), k, late, late).hit == None
    ensures Seen(Step(bs, Op.Get(k, late, late)), k) == Seen(bs, k)
  {
    LateGetIff(BucketOf(bs, k), k, late, late);
  }

  /** In any store: write, read, and read again after the expiry. The last read misses, and the expired
      entry is still there. */
  lemma ExpiredStays(bs: Store, w: Op, now: int64, late: int64)
    requires Sound(bs) && w.Set? && Lasting(w.now, w.expiration) && now < w.now + w.expiration <= late
    ensures var bs2 := Step(Step(bs, w), Op.Get(w.k, now, now));
            && TwoLevel.Get(BucketOf(bs2, w.k), w.k, late, late).hit == None
            && Seen(Step(bs2, Op.Get(w.k, late, late)), w.k) == Some(Node(w.k, w.v, w.now + w.expiration))
  {
    Prepared(bs, w, now);
    LateGet(Step(Step(bs, w), Op.Get(w.k, now, now)), w.k, late);
  }

  lemma TickOverFresh(bs: Store, op: Op, t: int64)
    requires |bs| > 0 && op.Set? && WellFormed(BucketOf(bs, op.k)) && Has(BucketOf(bs, op.k).l1, op.k)
    requires !HasLive(BucketOf(bs, op.k).l1, op.k)
    requires Lasting(op.now, op.expiration) && Seen(bs, op.k).Some?
    requires Seen(bs, op.k).value.expireAt <= t < op.now + op.expiration
    ensures Seen(Step(bs, op), op.k) == Some(Node(op.k, op.v, op.now + op.expiration))
    ensures Seen(Step(Step(bs, op), Op.Tick(t)), op.k) == None
  {
    var b := BucketOf(bs, op.k);
    LiveWriteIff(op);
    SetOwn(b, Written(op));
    PutAt(b.l1, b.c1, Written(op), op.k);
    SweptFresh(Step(bs, op), op.k, t);
  }

  lemma SweptFresh(bs: Store, k: Key, t: int64)
    requires |bs| > 0
    requires var b := BucketOf(bs, k);
             && WellFormed(b) && HasLive(b.l1, k) && HasLive(b.l2, k)
             && t < At(b.l1, k).expireAt && t >= At(b.l2, k).expireAt
    ensures Seen(Step(bs, Op.Tick(t)), k) == None
  {
    SweepDropsFreshIff(BucketOf(bs, k), t, k);
    TickedAt(bs, |bs|, t, Home(k, |bs|));
  }

  /** In any store: write, read, write the key again with a later expiry, and let a tick come between
      the two expiries. The second write is what a reader sees before the tick, and the tick drops it. */
  lemma TickDropsFresh(bs: Store, w: Op, w': Op, now: int64, t: int64)
    requires Sound(bs) && w.Set? && w'.Set? && w'.k == w.k
    requires Lasting(w.now, w.expiration) && Lasting(w'.now, w'.expiration)
    requires now < w.now + w.expiration <= t < w'.now + w'.expiration
    ensures var bs3 := Step(Step(Step(bs, w), Op.Get(w.k, now, now)), w');
            && Seen(bs3, w.k) == Some(Node(w.k, w'.v, w'.now + w'.expiration))
            && Seen(Step(bs3, Op.Tick(t)), w.k) == None
  {
    Prepared(bs, w, now);
    TickOverFresh(Step(Step(bs, w), Op.Get(w.k, now, now)), w', t);
  }

  // ---------------------------------------------------------------------
  // Clear
  // ---------------------------------------------------------------------

  /** What Len counts in the first n buckets: every live node, so a key live in both levels counts twice. */
  function Count(bs: Store, n: nat): nat
    requires n <= |bs|
  {
    if n == 0 then 0 else Count(bs, n - 1) + |LiveNodes(bs[n - 1].l1)| + |LiveNodes(bs[n - 1].l2)|
  }

  /** The reports of deleting a list of keys one after the other. */
  function DeletionReports(bs: Store, keys: seq<Key>): seq<Report>
    requires |bs| > 0
    decreases |keys|
  {
    if keys == [] then []
    else DeleteReports(BucketOf(bs, keys[0]), keys[0]) + DeletionReports(DeleteIn(bs, keys[0]), keys[1..])
  }

  /** The reports each listed key gives in the store as it is. */
  function ReportsOf(bs: Store, keys: seq<Key>): seq<Report>
    requires |bs| > 0
  {
    if keys == [] then [] else DeleteReports(BucketOf(bs, keys[0]), keys[0]) + ReportsOf(bs, keys[1..])
  }

  lemma {:induction false} ReportsOfStay(bs: Store, bs': Store, keys: seq<Key>)
    requires |bs| > 0 && |bs'| == |bs|
    requires forall k :: k in keys ==> SameCopies(BucketOf(bs, k), BucketOf(bs', k), k)
    ensures ReportsOf(bs', keys) == ReportsOf(bs, keys)
  {
    if keys != [] {
      assert keys[0] in keys;
      assert forall k :: k in keys[1..] ==> k in keys;
      SameReports(BucketOf(bs, keys[0]), BucketOf(bs', keys[0]), keys[0]);
      ReportsOfStay(bs, bs', keys[1..]);
    }
  }

  lemma {:induction false} DeletionReportsAre(bs: Store, keys: seq<Key>)
    requires Sound(bs) && Once(keys)
    ensures DeletionReports(bs, keys) == ReportsOf(bs, keys)
    decreases |keys|
  {
    if keys != [] {
      var bs', rest := DeleteIn(bs, keys[0]), keys[1..];
      DeleteInSound(bs, keys[0], keys[0]);
      forall k | k in rest ensures SameCopies(BucketOf(bs, k), BucketOf(bs', k), k) {
        DeleteInSound(bs, keys[0], k);
      }
      DeletionReportsAre(bs', rest);
      ReportsOfStay(bs, bs', rest);
    }
  }

  /** One report per listed key that has a live copy with a value, in the order of the list. */
  lemma {:induction false} ReportedOnce(bs: Store, keys: seq<Key>)
    requires |bs| > 0 && Once(keys)
    ensures forall r :: r in ReportsOf(bs, keys) <==>
              r.key in keys && ReportedAs(BucketOf(bs, r.key), r.key, r.value)
    ensures forall i, j :: 0 <= i < j < |ReportsOf(bs, keys)| ==>
        ReportsOf(bs, keys)[i].key != ReportsOf(bs, keys)[j].key
  {
    if keys != [] {
      ReportedOnce(bs, keys[1..]);
      var rest := ReportsOf(bs, keys[1..]);
      assert keys == [keys[0]] + keys[1..];
      forall r ensures r in ReportsOf(bs, keys) <==> r.key in keys && ReportedAs(BucketOf(bs, r.key), r.key, r.value) {
        DeleteReportsIff(BucketOf(bs, keys[0]), keys[0], r);
      }
      forall j | 0 <= j < |rest| ensures rest[j].key != keys[0] {
        assert rest[j] in rest;
      }
    }
  }

  lemma {:induction false} CountZero(bs: Store, n: nat)
    requires Sound(bs) && n <= |bs|
    requires forall k :: Seen(bs, k) == None
    ensures Count(bs, n) == 0
  {
    if n > 0 {
      CountZero(bs, n - 1);
      var b := bs[n - 1];
      NothingLive(bs, n - 1, b.l1);
      NothingLive(bs, n - 1, b.l2);
    }
  }

  /** A live node makes its key visible. */
  lemma LiveIsSeen(bs: Store, i: nat, s: Level, n: Node)
    requires Sound(bs) && i < |bs| && (s == bs[i].l1 || s == bs[i].l2)
    requires n in s && n.Live()
    ensures Seen(bs, n.k).Some?
  {
    assert WellFormed(bs[i]) && Placed(bs[i], i, |bs|);
    InLevel(s, n);
  }

  lemma NothingLive(bs: Store, i: nat, s: Level)
    requires Sound(bs) && i < |bs| && (s == bs[i].l1 || s == bs[i].l2)
    requires forall k :: Seen(bs, k) == None
    ensures LiveNodes(s) == []
  {
    var r := LiveNodes(s);
    assert WellFormed(bs[i]);
    LiveNodesExact(s);
    if r != [] {
      assert r[0] in r;
      LiveIsSeen(bs, i, s, r[0]);
    }
  }

  /** Clear leaves no live node anywhere: afterwards nothing is visible and Len is 0. */
  lemma ClearEmpties(bs: Store)
    requires Sound(bs)
    ensures var bs' := Step(bs, Op.Clear);
            Sound(bs') && (forall k :: Seen(bs', k) == None) && Count(bs', |bs'|) == 0
  {
    var bs', keys := Step(bs, Op.Clear), Collected(bs, |bs|);
    StepSound(bs, Op.Clear);
    CollectedExact(bs, |bs|);
    forall k ensures Seen(bs', k) == None {
      DeleteAllInAt(bs, keys, k);
    }
    CountZero(bs', |bs'|);
  }

  /** Clear lets go of its locks between the buckets it collects and the keys it deletes. Whatever other
      callers do after the bucket of k was collected, k is gone unless one of them writes it. */
  lemma {:induction false} ClearUnderTraffic(bs: Store, ops: seq<Op>, k: Key)
    requires Sound(bs)
    requires k in AddMissing(KeysOf(LiveNodes(BucketOf(bs, k).l1)), KeysOf(LiveNodes(BucketOf(bs, k).l2))) ==>
        Op.Delete(k) in ops
    requires forall i :: 0 <= i < |ops| && ops[i].Set? ==> ops[i].k != k
    ensures Seen(Run(bs, ops), k) == None
  {
    var b := BucketOf(bs, k);
    LiveNodesExact(b.l1);
    AddMissingExact(KeysOf(LiveNodes(b.l1)), KeysOf(LiveNodes(b.l2)));
    LiveKey(b.l1, k);
    LiveKey(b.l2, k);
    UnwrittenStaysHidden(bs, ops, k);
  }

  lemma {:induction false} UnwrittenStaysHidden(bs: Store, ops: seq<Op>, k: Key)
    requires Sound(bs) && forall i :: 0 <= i < |ops| && ops[i].Set? ==> ops[i].k != k
    ensures Sound(Run(bs, ops))
    ensures Seen(bs, k) == None || Op.Delete(k) in ops ==> Seen(Run(bs, ops), k) == None
  {
    if ops != [] {
      var before, op := ops[..|ops| - 1], ops[|ops| - 1];
      assert ops == before + [op];
      UnwrittenStaysHidden(bs, before, k);
      StepSound(Run(bs, before), op);
      UnwrittenStep(Run(bs, before), op, k);
    }
  }

  lemma UnwrittenStep(bs: Store, op: Op, k: Key)
    requires Sound(bs) && !(op.Set? && op.k == k)
    ensures Seen(Step(bs, op), k) == Seen(bs, k) || Seen(Step(bs, op), k) == None
    ensures op == Op.Delete(k) ==> Seen(Step(bs, op), k) == None
  {
    if op.Clear? {
      ClearEmpties(bs);
    } else {
      var j := if op.Tick? then k else op.k;
      if op.Tick? { TickedAt(bs, |bs|, op.now, Home(k, |bs|)); }
      BucketStep(BucketOf(bs, j), BucketOf(Step(bs, op), j), op, k);
    }
  }

  /** Clear deletes each visible key once, and reports each of them once, both levels counted together: with
      the value of its visible copy or, if that is nil, of the copy it hides, and not at all if both are. */
  lemma ClearReportsOnce(bs: Store)
    requires Sound(bs)
    ensures var keys := Collected(bs, |bs|);
            var rs := DeletionReports(bs, keys);
            && Once(keys) && (forall k :: k in keys <==> Seen(bs, k).Some?)
            && (forall r :: r in rs <==> ReportedAs(BucketOf(bs, r.key), r.key, r.value))
            && (forall k :: Seen(bs, k).Some? && Seen(bs, k).value.v != Nil ==> Report(k, Seen(bs, k).value.v) in rs)
            && KeysOnce(rs)
  {
    var keys := Collected(bs, |bs|);
    CollectedExact(bs, |bs|);
    DeletionReportsAre(bs, keys);
    ReportedOnce(bs, keys);
    forall r: Report | ReportedAs(BucketOf(bs, r.key), r.key, r.value) ensures r.key in keys {
      assert Seen(bs, r.key).Some?;
    }
  }
}
