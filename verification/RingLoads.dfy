/** What the leader measures: the average load, which nodes are out of balance, when a pass resizes any, and that a
    balanced ring is left alone. */
module RingLoads {
  import opened Base
  import opened RingModel
  import opened RingBalance

  // ---------------------------------------------------------------------
  // The average
  // ---------------------------------------------------------------------

  lemma TruncDivIs(a: int, b: int)
    requires b > 0
    ensures var q := TruncDiv(a, b);
            && (a >= 0 ==> q * b <= a < (q + 1) * b)
            && (a <= 0 ==> (q - 1) * b < a <= q * b)
  {
    if a >= 0 { DivisionIs(a, b); } else { DivisionIs(-a, b); }
  }

  lemma DivisionIs(a: nat, b: nat)
    requires b > 0
    ensures a / b * b <= a < (a / b + 1) * b
  {
    assert a == a / b * b + a % b;
  }

  /** While the loads add up within 64 bits, their average is the sum divided by the number of nodes, rounded toward
      zero. */
  lemma AverageIs(counts: map<Addr, int64>)
    requires counts != map[]
    requires -0x8000_0000_0000_0000 <= LoadSum(counts, counts.Keys) < 0x8000_0000_0000_0000
    ensures var avg, sum, n := Average(counts), LoadSum(counts, counts.Keys), |counts|;
            && (sum >= 0 ==> avg * n <= sum < (avg + 1) * n)
            && (sum <= 0 ==> (avg - 1) * n < sum <= avg * n)
  {
    var sum := LoadSum(counts, counts.Keys);
    WrapInRange(sum);
    TruncDivIs(sum, |counts|);
  }

  lemma WrapInRange(x: int)
    requires -0x8000_0000_0000_0000 <= x < 0x8000_0000_0000_0000
    ensures Wrap64(x) == x
  {
  }

  /** Every member's load counts once. */
  lemma {:induction false} SumOfEqual(counts: map<Addr, int64>, s: set<Addr>, c: int)
    requires s <= counts.Keys && forall a :: a in s ==> counts[a] == c
    ensures LoadSum(counts, s) == c * |s|
    decreases |s|
  {
    if s != {} {
      var a := Pick(s);
      SumOfEqual(counts, s - {a}, c);
      assert |s| == |s - {a}| + 1;
      assert c * |s| == c * |s - {a}| + c;
    }
  }

  // ---------------------------------------------------------------------
  // Who is out of balance
  // ---------------------------------------------------------------------

  lemma RatioAbove(x: real, y: real, t: real)
    requires y > 0.0
    ensures x / y > t <==> x > t * y
    ensures x / y < t <==> x < t * y
  {
    var q := x / y;
    assert q * y == x;
    if q > t {
      assert (q - t) * y > 0.0;
    } else if q < t {
      assert (t - q) * y > 0.0;
    }
  }

  /** A node is overloaded when its count is above tooBusy times the average, and underloaded when it is not, and is
      below tooIdle times the average. */
  lemma LoadIs(cfg: Config, count: int64, avg: int)
    requires avg > 0
    ensures LoadOf(cfg, count, avg) == Busy <==> count as real > cfg.tooBusy * avg as real
    ensures LoadOf(cfg, count, avg) == Idle <==>
              !(count as real > cfg.tooBusy * avg as real) && count as real < cfg.tooIdle * avg as real
  {
    RatioAbove(count as real, avg as real, cfg.tooBusy);
    RatioAbove(count as real, avg as real, cfg.tooIdle);
  }

  /** The node has a load count, and it is above the one threshold or below the other. */
  predicate OutOfBalance(cfg: Config, counts: map<Addr, int64>, avg: int, a: Addr) {
    a in counts && Outside(cfg, counts[a] as real, avg as real)
  }

  predicate Outside(cfg: Config, count: real, avg: real) {
    count > cfg.tooBusy * avg || count < cfg.tooIdle * avg
  }

  lemma ActsIff(cfg: Config, r: Ring, avg: int, a: Addr)
    requires avg > 0
    ensures Acts(cfg, r, avg, a) <==> OutOfBalance(cfg, r.counts, avg, a)
  {
    if a in r.counts { LoadIs(cfg, r.counts[a], avg); }
  }

  // ---------------------------------------------------------------------
  // When a pass resizes anybody
  // ---------------------------------------------------------------------

  /** A pass resizes some node if and only if it visits one that was out of balance before it; otherwise it leaves
      the ring as it was. */
  lemma {:induction false} ResizesIff(hash: HashFunc, cfg: Config, r: Ring, avg: int, visits: seq<Addr>)
    requires avg > 0
    ensures PassActs(hash, cfg, r, avg, visits) <==>
              exists i :: 0 <= i < |visits| && OutOfBalance(cfg, r.counts, avg, visits[i])
    ensures !PassActs(hash, cfg, r, avg, visits) ==> Pass(hash, cfg, r, avg, visits) == r
    decreases |visits|
  {
    if visits != [] {
      var a, rest := visits[0], visits[1..];
      ActsIff(cfg, r, avg, a);
      if !Acts(cfg, r, avg, a) {
        ResizesIff(hash, cfg, r, avg, rest);
        if i :| 0 <= i < |visits| && OutOfBalance(cfg, r.counts, avg, visits[i]) {
          assert rest[i - 1] == visits[i];
        }
        if i :| 0 <= i < |rest| && OutOfBalance(cfg, r.counts, avg, rest[i]) {
          assert visits[i + 1] == rest[i];
        }
      }
    }
  }

  /** Equal loads are balanced: when every node has the same positive count, within 64 bits in all, that is the
      average, and with thresholds on either side of one no pass resizes anybody. */
  lemma BalancedStays(hash: HashFunc, cfg: Config, r: Ring, c: int, visits: seq<Addr>)
    requires r.counts != map[] && 0 < c && c * |r.counts| < 0x8000_0000_0000_0000
    requires forall a :: a in r.counts ==> r.counts[a] == c
    requires cfg.tooIdle <= 1.0 <= cfg.tooBusy
    ensures Average(r.counts) == c
    ensures !PassActs(hash, cfg, r, c, visits) && Pass(hash, cfg, r, c, visits) == r
  {
    EqualAverage(r.counts, c);
    NobodyOut(cfg, r.counts, c);
    ResizesIff(hash, cfg, r, c, visits);
  }

  lemma NobodyOut(cfg: Config, counts: map<Addr, int64>, c: int)
    requires 0 < c && (forall a :: a in counts ==> counts[a] == c) && cfg.tooIdle <= 1.0 <= cfg.tooBusy
    ensures forall a :: !OutOfBalance(cfg, counts, c, a)
  {
    forall a ensures !OutOfBalance(cfg, counts, c, a) {
      Between(cfg, c as real);
      if a in counts { assert counts[a] as real == c as real; }
    }
  }

  lemma Between(cfg: Config, c: real)
    requires c > 0.0 && cfg.tooIdle <= 1.0 <= cfg.tooBusy
    ensures !Outside(cfg, c, c)
  {
    assert (cfg.tooBusy - 1.0) * c >= 0.0 && (1.0 - cfg.tooIdle) * c >= 0.0;
  }

  lemma EqualAverage(counts: map<Addr, int64>, c: int)
    requires counts != map[] && 0 < c && c * |counts| < 0x8000_0000_0000_0000
    requires forall a :: a in counts ==> counts[a] == c
    ensures Average(counts) == c
  {
    var n, avg := |counts|, Average(counts);
    assert |counts.Keys| == n;
    SumOfEqual(counts, counts.Keys, c);
    ProductPositive(c, n);
    AverageIs(counts);
    OneQuotient(avg, c, n);
  }

  lemma ProductPositive(c: int, n: nat)
    requires c > 0
    ensures c * n >= 0
  {
  }

  lemma OneQuotient(q: int, c: int, n: nat)
    requires n > 0 && q * n <= c * n < (q + 1) * n
    ensures q == c
  {
    if q < c {
      ScaleMono(q + 1, c, n);
    } else if q > c {
      ScaleMono(c + 1, q, n);
    }
  }

  lemma ScaleMono(a: int, b: int, n: nat)
    requires a <= b
    ensures a * n <= b * n && (a - 1) * n == a * n - n
  {
    assert (b - a) * n >= 0;
  }
}
