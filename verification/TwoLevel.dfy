/** One bucket of the two-level store as a value, and what every operation does to every key. */
module TwoLevel {
  import opened Base
  import opened Recency

  /** Fresh writes go to level 1; displaced and read entries live in level 2. */
  datatype Bucket = Bucket(l1: Level, c1: nat, l2: Level, c2: nat)

  /** The result of an operation: the bucket after it, the value it hit, and the eviction reports. */
  datatype Outcome = Outcome(b: Bucket, hit: Option<Value>, reports: seq<Report>)

  ghost predicate WellFormed(b: Bucket) {
    && Distinct(b.l1) && |b.l1| <= b.c1 && 0 < b.c1
    && Distinct(b.l2) && |b.l2| <= b.c2 && 0 < b.c2
  }

  function Delete(b: Bucket, k: Key): Bucket {
    b.(l1 := Del(b.l1, k), l2 := Del(b.l2, k))
  }

  /** A deletion is reported once, with the level-1 value when level 1 had a live non-nil one. */
  function DeleteReports(b: Bucket, k: Key): seq<Report> {
    if HasLive(b.l1, k) && At(b.l1, k).v != Nil then [Report(k, At(b.l1, k).v)]
    else if HasLive(b.l2, k) && At(b.l2, k).v != Nil then [Report(k, At(b.l2, k).v)]
    else []
  }

  /** Get reads the clock twice: `now` on entry and `later` inside the level-2 lookup. */
  function Get(b: Bucket, k: Key, now: int, later: int): Outcome {
    if HasLive(b.l1, k) then
      var n, b1 := At(b.l1, k), b.(l1 := Del(b.l1, k));
      if now >= n.expireAt then Outcome(Delete(b1, k), None, DeleteReports(b1, k))
      else Outcome(b1.(l2 := Put(b.l2, b.c2, n)), Some(n.v), PutReports(b.l2, b.c2, k))
    else
      var b1 := b.(l2 := Touch(b.l2, k));
      if HasLive(b.l2, k) && later < At(b.l2, k).expireAt then
        if now >= At(b.l2, k).expireAt then Outcome(Delete(b1, k), None, DeleteReports(b1, k))
        else Outcome(b1, Some(At(b.l2, k).v), [])
      else Outcome(b1, None, [])
  }

  /** The live level-1 node that writing k overwrites, if any. */
  function Displaced(b: Bucket, k: Key): Option<Node> {
    if !Has(b.l1, k) && |b.l1| == b.c1 && b.c1 > 0 && b.l1[b.c1 - 1].Live() then Some(b.l1[b.c1 - 1]) else None
  }

  function Set(b: Bucket, n: Node): Outcome {
    var b1 := b.(l1 := Put(b.l1, b.c1, n));
    match Displaced(b, n.k)
    case None => Outcome(b1, None, [])
    case Some(d) => Outcome(b1.(l2 := Put(b.l2, b.c2, d)), None, PutReports(b.l2, b.c2, d.k))
  }

  // ---------------------------------------------------------------------
  // The visible copy of a key
  // ---------------------------------------------------------------------

  /** The copy a reader would see, were it not expired: level 1 hides level 2. */
  function Visible(b: Bucket, k: Key): Option<Node> {
    if HasLive(b.l1, k) then Some(At(b.l1, k))
    else if HasLive(b.l2, k) then Some(At(b.l2, k))
    else None
  }

  /** Deleting k reports value v: that of the visible copy or, if that is nil, that of a live copy it hides. */
  ghost predicate ReportedAs(b: Bucket, k: Key, v: Value) {
    && v != Nil && Visible(b, k).Some?
    && (Visible(b, k).value.v == v || (Visible(b, k).value.v == Nil && HasLive(b.l2, k) && At(b.l2, k).v == v))
  }

  lemma DeleteReportsIff(b: Bucket, k: Key, r: Report)
    ensures |DeleteReports(b, k)| <= 1
    ensures r in DeleteReports(b, k) <==> r.key == k && ReportedAs(b, k, r.value)
  {
  }

  /** How many more operations on other keys are sure to leave k visible. */
  function Budget(b: Bucket, k: Key): int {
    if HasLive(b.l1, k) then b.c1 - 1 - IndexOf(b.l1, k) + b.c2
    else if HasLive(b.l2, k) then b.c2 - 1 - IndexOf(b.l2, k)
    else -1
  }

  /** Key k keeps its visible copy or loses it; no other copy can surface. A copy with budget
      to spare stays, and the budget drops by at most one. */
  ghost predicate Carries(b: Bucket, b': Bucket, k: Key) {
    && (Visible(b', k) == Visible(b, k) || Visible(b', k) == None)
    && (Budget(b, k) > 0 ==> Visible(b', k) == Visible(b, k) && Budget(b', k) >= Budget(b, k) - 1)
  }

  lemma DeleteAt(b: Bucket, d: Key, k: Key)
    requires WellFormed(b)
    ensures var b' := Delete(b, d);
            && WellFormed(b')
            && Visible(b', d) == None
            && (k != d ==> Visible(b', k) == Visible(b, k) && Budget(b', k) >= Budget(b, k))
  {
    DelAt(b.l1, d, k);
    DelAt(b.l2, d, k);
  }

  /** Writing a live node into level 2: other keys carry over; its own key shows it unless level 1 hides it. */
  lemma MigrateAt(b: Bucket, n: Node, k: Key)
    requires WellFormed(b) && n.Live()
    ensures var b' := b.(l2 := Put(b.l2, b.c2, n));
            && WellFormed(b')
            && (k != n.k ==> Carries(b, b', k))
            && (!HasLive(b.l1, n.k) ==> Visible(b', n.k) == Some(n) && Budget(b', n.k) == b.c2 - 1)
  {
    PutAt(b.l2, b.c2, n, k);
  }

  lemma GetFromLevel1(b: Bucket, g: Key, now: int, k: Key)
    requires WellFormed(b) && HasLive(b.l1, g)
    ensures var o := Get(b, g, now, now);
            && WellFormed(o.b)
            && (if now < At(b.l1, g).expireAt then Visible(o.b, g) == Some(At(b.l1, g)) else Visible(o.b, g) == None)
            && (k != g ==> Carries(b, o.b, k))
  {
    var n, b1 := At(b.l1, g), b.(l1 := Del(b.l1, g));
    DelAt(b.l1, g, k);
    assert WellFormed(b1) && !HasLive(b1.l1, g);
    if now < n.expireAt {
      MigrateAt(b1, n, k);
    } else {
      DeleteAt(b1, g, k);
    }
  }

  lemma GetFromLevel2(b: Bucket, g: Key, k: Key)
    requires WellFormed(b) && !HasLive(b.l1, g)
    ensures var b' := b.(l2 := Touch(b.l2, g));
            && WellFormed(b')
            && Visible(b', g) == Visible(b, g)
            && (k != g ==> Carries(b, b', k))
            && Visible(Delete(b', g), g) == None
            && WellFormed(Delete(b', g))
            && (k != g ==> Carries(b, Delete(b', g), k))
  {
    TouchAt(b.l2, g, k);
    TouchAt(b.l2, g, g);
    DeleteAt(b.(l2 := Touch(b.l2, g)), g, k);
  }

  /** Get, key by key: it hits exactly an unexpired visible copy and keeps that copy visible. */
  lemma GetAt(b: Bucket, g: Key, now: int, later: int, k: Key)
    requires WellFormed(b)
    ensures var o := Get(b, g, now, later);
            && WellFormed(o.b)
            && (o.hit.Some? ==>
                  && Visible(b, g).Some? && o.hit.value == Visible(b, g).value.v
                  && now < Visible(b, g).value.expireAt)
            && (Visible(b, g).Some? && now < Visible(b, g).value.expireAt && later < Visible(b, g).value.expireAt ==>
                  o.hit.Some?)
            && (o.hit.Some? ==> Visible(o.b, g) == Visible(b, g))
            && (Visible(o.b, g) == Visible(b, g) || Visible(o.b, g) == None)
            && (k != g ==> Carries(b, o.b, k))
  {
    if HasLive(b.l1, g) {
      GetFromLevel1(b, g, now, k);
    } else {
      GetFromLevel2(b, g, k);
    }
  }

  /** Get hits exactly a visible copy that has not expired: by the first reading of the clock if level 1 holds
      it, by both if level 2 does. */
  lemma HitIff(b: Bucket, g: Key, now: int, later: int)
    requires WellFormed(b)
    ensures var seen := Visible(b, g);
            Get(b, g, now, later).hit ==
              if seen.Some? && now < seen.value.expireAt && (HasLive(b.l1, g) || later < seen.value.expireAt)
              then Some(seen.value.v) else None
  {
  }

  /** Where Get leaves its key: a level-1 copy that has not expired is at the front of level 2 instead; an
      expired one is gone from both levels; without a level-1 copy, whatever node level 2 has for the key
      moves to the front, deleted or expired as it may be, unless it expired between the two readings. */
  lemma GetMoves(b: Bucket, g: Key, now: int, later: int)
    requires WellFormed(b)
    ensures var b' := Get(b, g, now, later).b;
            if HasLive(b.l1, g) then
              && !HasLive(b'.l1, g)
              && (if now < At(b.l1, g).expireAt then b'.l2 != [] && b'.l2[0] == At(b.l1, g) else !HasLive(b'.l2, g))
            else if HasLive(b.l2, g) && later < At(b.l2, g).expireAt <= now then
              !HasLive(b'.l1, g) && !HasLive(b'.l2, g)
            else
              b'.l1 == b.l1 && (Has(b.l2, g) ==> b'.l2 != [] && b'.l2[0] == At(b.l2, g))
  {
    DelAt(b.l1, g, g);
    TouchAt(b.l2, g, g);
    if HasLive(b.l1, g) {
      PutAt(b.l2, b.c2, At(b.l1, g), g);
      DeleteAt(b.(l1 := Del(b.l1, g)), g, g);
    } else {
      DeleteAt(b.(l2 := Touch(b.l2, g)), g, g);
    }
  }

  /** A Get that finds its copy expired misses, and deletes the copy exactly when it is in level 1 or the
      second clock reading is before the expiry: as a rule an expired level-2 copy stays. */
  lemma LateGetIff(b: Bucket, g: Key, now: int, later: int)
    requires WellFormed(b) && Visible(b, g).Some? && now >= Visible(b, g).value.expireAt
    ensures var o := Get(b, g, now, later);
            && o.hit == None
            && (Visible(o.b, g) == None <==> HasLive(b.l1, g) || later < Visible(b, g).value.expireAt)
            && (Visible(o.b, g) != None ==> Visible(o.b, g) == Visible(b, g))
  {
    if HasLive(b.l1, g) {
      GetFromLevel1(b, g, now, g);
    } else {
      GetFromLevel2(b, g, g);
    }
  }

  /** Where a write leaves its node, and what it moves: the node is at the front of level 1, and if level 1 was full
      without its key, a live node at its back is at the front of level 2; in any other case level 2 stays as it is. */
  lemma SetMoves(b: Bucket, n: Node)
    requires WellFormed(b)
    ensures var b' := Set(b, n).b;
            && b'.l1 != [] && b'.l1[0] == n
            && if (forall m :: m in b.l1 ==> m.k != n.k) && |b.l1| == b.c1 && b.l1[b.c1 - 1].Live()
               then b'.l2 != [] && b'.l2[0] == b.l1[b.c1 - 1]
               else b'.l2 == b.l2
  {
    PutAt(b.l1, b.c1, n, n.k);
    if forall m :: m in b.l1 ==> m.k != n.k {
      NotFound(b.l1, n.k);
    }
    match Displaced(b, n.k)
    case None =>
    case Some(d) =>
      PutAt(b.l2, b.c2, d, d.k);
      Elsewhere(b.l1, n.k);
  }

  lemma Elsewhere(s: Level, k: Key)
    requires !Has(s, k)
    ensures forall m :: m in s ==> m.k != k
  {
  }

  /** Set, for the key written: a live write is what becomes visible and gets the whole budget; a
      dead write uncovers whatever level 2 still holds. */
  lemma SetOwn(b: Bucket, n: Node)
    requires WellFormed(b)
    ensures var b' := Set(b, n).b;
            && WellFormed(b')
            && (n.Live() ==> Visible(b', n.k) == Some(n) && Budget(b', n.k) == b.c1 - 1 + b.c2)
            && (!n.Live() ==> Visible(b', n.k) == if HasLive(b'.l2, n.k) then Some(At(b'.l2, n.k)) else None)
            && (HasLive(b'.l2, n.k) ==> HasLive(b.l2, n.k) && At(b'.l2, n.k) == At(b.l2, n.k))
  {
    PutAt(b.l1, b.c1, n, n.k);
    match Displaced(b, n.k)
    case None =>
    case Some(d) =>
      FoundAt(b.l1, d.k, b.c1 - 1);
      PutAt(b.l2, b.c2, d, n.k);
  }

  /** Set, for any other key. */
  lemma SetOther(b: Bucket, n: Node, k: Key)
    requires WellFormed(b) && k != n.k
    ensures WellFormed(Set(b, n).b)
    ensures Carries(b, Set(b, n).b, k)
  {
    match Displaced(b, n.k)
    case None => SetPlain(b, n, k);
    case Some(d) => SetDisplacing(b, n, d, k);
  }

  lemma SetPlain(b: Bucket, n: Node, k: Key)
    requires WellFormed(b) && k != n.k && Displaced(b, n.k) == None
    ensures var b' := b.(l1 := Put(b.l1, b.c1, n)); WellFormed(b') && Carries(b, b', k)
  {
    PutAt(b.l1, b.c1, n, k);
    if !Has(b.l1, n.k) && |b.l1| == b.c1 {
      FoundAt(b.l1, b.l1[b.c1 - 1].k, b.c1 - 1);
    }
    CarriesLevel1(b, Put(b.l1, b.c1, n), k);
  }

  /** A level 1 that keeps the live copy of k, at most one place further back, and makes none. */
  lemma CarriesLevel1(b: Bucket, s: Level, k: Key)
    requires WellFormed(b) && Distinct(s) && |s| <= b.c1 && (HasLive(s, k) ==> HasLive(b.l1, k))
    requires HasLive(b.l1, k) ==> HasLive(s, k) && At(s, k) == At(b.l1, k) && IndexOf(s, k) <= IndexOf(b.l1, k) + 1
    ensures WellFormed(b.(l1 := s)) && Carries(b, b.(l1 := s), k)
  {
  }

  lemma SetDisplacing(b: Bucket, n: Node, d: Node, k: Key)
    requires WellFormed(b) && k != n.k && Displaced(b, n.k) == Some(d)
    ensures var b' := b.(l1 := Put(b.l1, b.c1, n), l2 := Put(b.l2, b.c2, d)); WellFormed(b') && Carries(b, b', k)
  {
    PutAt(b.l1, b.c1, n, k);
    FoundAt(b.l1, d.k, b.c1 - 1);
    MigrateAt(b.(l1 := Put(b.l1, b.c1, n)), d, k);
  }
}
