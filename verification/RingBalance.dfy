/** The leader's rebalancing pass over the load counts. */
module RingBalance {
  import opened Base
  import opened RingModel
  import opened RingOwners

  datatype Config = Config(default: int, min: int, max: int, tooBusy: real, tooIdle: real)

  datatype Load = Busy | Idle | Fair

  /** How a node's count compares to the average. */
  function LoadOf(cfg: Config, count: int64, avg: int): Load
    requires avg != 0
  {
    if count as real / avg as real > cfg.tooBusy then Busy
    else if count as real / avg as real < cfg.tooIdle then Idle
    else Fair
  }

  /** The replica count the pass asks for: ten fewer or ten more, cut off at the bounds. */
  function Target(cfg: Config, n: int, load: Load): int {
    var m := match load case Busy => n - 10 case Idle => n + 10 case Fair => n;
    var m := if m > cfg.max then cfg.max else m;
    if m < cfg.min then cfg.min else m
  }

  /** The load counts of a set of addresses added up. */
  ghost function LoadSum(counts: map<Addr, int64>, s: set<Addr>): int
    requires s <= counts.Keys
  {
    if s == {} then 0
    else
      var a := Pick(s);
      counts[a] + LoadSum(counts, s - {a})
  }

  /** The sum does not depend on the order. */
  lemma {:induction false} LoadSumSplit(counts: map<Addr, int64>, s: set<Addr>, a: Addr)
    requires s <= counts.Keys && a in s
    ensures LoadSum(counts, s) == counts[a] + LoadSum(counts, s - {a})
    decreases |s|
  {
    var b := Pick(s);
    if a != b {
      LoadSumSplit(counts, s - {b}, a);
      LoadSumSplit(counts, s - {a}, b);
      assert s - {a} - {b} == s - {b} - {a};
    }
  }

  /** The average load: a 64-bit sum, wrapped, and a division that truncates. */
  ghost function Average(counts: map<Addr, int64>): int
    requires counts != map[]
  {
    TruncDiv(Wrap64(LoadSum(counts, counts.Keys)), |counts|)
  }

  /** The visit resizes the node. */
  predicate Acts(cfg: Config, r: Ring, avg: int, addr: Addr)
    requires avg != 0
  {
    addr in r.counts && LoadOf(cfg, r.counts[addr], avg) != Fair
  }

  /** One entry of the iteration: an entry that is gone is not produced, and a fair node is left alone. */
  function Visit(hash: HashFunc, cfg: Config, r: Ring, avg: int, addr: Addr): Ring
    requires avg != 0
  {
    if Acts(cfg, r, avg, addr)
    then Rebalance(hash, r, addr, Target(cfg, ReplicasOf(r, addr), LoadOf(cfg, r.counts[addr], avg)))
    else r
  }

  /** The iteration visits entries in the order the runtime picks. The loop body deletes and
      re-inserts entries, and a re-inserted entry may be produced again, so an address may repeat. */
  function Pass(hash: HashFunc, cfg: Config, r: Ring, avg: int, visits: seq<Addr>): Ring
    requires avg != 0
    decreases |visits|
  {
    if visits == [] then r else Pass(hash, cfg, Visit(hash, cfg, r, avg, visits[0]), avg, visits[1..])
  }

  /** Some visit of the pass resizes a node. */
  predicate PassActs(hash: HashFunc, cfg: Config, r: Ring, avg: int, visits: seq<Addr>)
    requires avg != 0
    decreases |visits|
  {
    visits != []
    && (Acts(cfg, r, avg, visits[0]) || PassActs(hash, cfg, Visit(hash, cfg, r, avg, visits[0]), avg, visits[1..]))
  }

  /** Every member's replica count is within the configured bounds. */
  ghost predicate Bounded(cfg: Config, r: Ring) {
    forall a :: a in r.replicas ==> cfg.min <= r.replicas[a] <= cfg.max
  }

  // ---------------------------------------------------------------------
  // What any pass keeps
  // ---------------------------------------------------------------------

  lemma VisitKeeps(hash: HashFunc, cfg: Config, r: Ring, avg: int, addr: Addr)
    requires avg != 0 && cfg.min <= cfg.max
    requires Conserved(hash, r) && Bounded(cfg, r) && r.counts.Keys <= r.replicas.Keys
    ensures var r' := Visit(hash, cfg, r, avg, addr);
            && Conserved(hash, r') && Bounded(cfg, r')
            && r'.replicas.Keys == r.replicas.Keys
            && r'.counts.Keys <= r.counts.Keys
            && (cfg.min > 0 ==> r'.counts.Keys == r.counts.Keys)
            && (forall b :: b != addr && b in r.replicas ==> r'.replicas[b] == r.replicas[b])
            && (forall b :: b != addr && b in r.counts ==> b in r'.counts && r'.counts[b] == r.counts[b])
  {
    if Acts(cfg, r, avg, addr) {
      var n := Target(cfg, ReplicasOf(r, addr), LoadOf(cfg, r.counts[addr], avg));
      assert cfg.min <= n <= cfg.max;
      RemoveConserves(hash, r, addr);
      AddConserves(hash, RemoveNode(hash, r, addr), addr, n);
      ResizedTables(hash, r, addr, n);
    }
  }

  /** What resizing a member does to the tables. */
  lemma ResizedTables(hash: HashFunc, r: Ring, addr: Addr, n: int)
    requires addr in r.replicas && addr in r.counts
    ensures var r' := Rebalance(hash, r, addr, n);
            && r'.replicas == r.replicas[addr := n]
            && r'.counts == if n > 0 then r.counts[addr := 0] else r.counts - {addr}
  {
  }

  /** For every schedule of visits, with repeats: the pass keeps the member set, the replica bounds
      and the agreement of keys and replica counts; with a positive lower bound it also keeps a load
      count for every member. */
  lemma {:induction false} PassKeeps(hash: HashFunc, cfg: Config, r: Ring, avg: int, visits: seq<Addr>)
    requires avg != 0 && cfg.min <= cfg.max
    requires Conserved(hash, r) && Bounded(cfg, r) && r.counts.Keys <= r.replicas.Keys
    ensures var r' := Pass(hash, cfg, r, avg, visits);
            && Conserved(hash, r') && Bounded(cfg, r')
            && r'.replicas.Keys == r.replicas.Keys
            && r'.counts.Keys <= r.counts.Keys
            && (cfg.min > 0 ==> r'.counts.Keys == r.counts.Keys)
    decreases |visits|
  {
    if visits != [] {
      VisitKeeps(hash, cfg, r, avg, visits[0]);
      PassKeeps(hash, cfg, Visit(hash, cfg, r, avg, visits[0]), avg, visits[1..]);
    }
  }

  /** And on a collision-free universe of the members at their upper bound, the owner map stays exact. */
  lemma {:induction false} PassExact(hash: HashFunc, cfg: Config, universe: map<Addr, int>, r: Ring, avg: int,
      visits: seq<Addr>)
    requires avg != 0 && cfg.min <= cfg.max
    requires Conserved(hash, r) && Bounded(cfg, r) && r.counts.Keys <= r.replicas.Keys && Exact(hash, r)
    requires CollisionFree(hash, universe)
    requires forall a :: a in r.replicas ==> a in universe && universe[a] == cfg.max
    ensures Exact(hash, Pass(hash, cfg, r, avg, visits))
    decreases |visits|
  {
    if visits != [] {
      var a, r' := visits[0], Visit(hash, cfg, r, avg, visits[0]);
      VisitKeeps(hash, cfg, r, avg, a);
      if r' != r {
        forall b, i: nat | InRing(r.replicas, b, i) ensures InRing(universe, b, i) {}
        var n := Target(cfg, ReplicasOf(r, a), LoadOf(cfg, r.counts[a], avg));
        StepExact(hash, cfg.default, universe, r, RebalanceOp(a, n));
      }
      PassExact(hash, cfg, universe, r', avg, visits[1..]);
    }
  }

  // ---------------------------------------------------------------------
  // One visit per node
  // ---------------------------------------------------------------------

  lemma VisitMoves(hash: HashFunc, cfg: Config, r: Ring, avg: int, addr: Addr)
    requires avg != 0 && addr in r.counts && addr in r.replicas && cfg.min <= r.replicas[addr] <= cfg.max
    ensures var n, load := r.replicas[addr], LoadOf(cfg, r.counts[addr], avg);
            && addr in Visit(hash, cfg, r, avg, addr).replicas
            && Visit(hash, cfg, r, avg, addr).replicas[addr] == Target(cfg, n, load)
            && n - 10 <= Target(cfg, n, load) <= n + 10
            && (load == Busy ==> Target(cfg, n, load) == (if n - 10 >= cfg.min then n - 10 else cfg.min))
            && (load == Idle ==> Target(cfg, n, load) == (if n + 10 <= cfg.max then n + 10 else cfg.max))
            && (load == Fair ==> Target(cfg, n, load) == n)
  {
  }

  /** One visit per node: each member ends at the target its own load asks for, at most ten away, not
      above where it was if overloaded and not below if underloaded; a fair or unvisited one is
      unchanged. */
  lemma {:induction false} OneVisitEach(hash: HashFunc, cfg: Config, r: Ring, avg: int, visits: seq<Addr>, a: Addr)
    requires avg != 0 && cfg.min <= cfg.max && Once(visits)
    requires Conserved(hash, r) && Bounded(cfg, r) && r.counts.Keys <= r.replicas.Keys && a in r.replicas
    ensures var r', n := Pass(hash, cfg, r, avg, visits), r.replicas[a];
            && a in r'.replicas
            && -10 <= r'.replicas[a] - n <= 10
            && (if a in visits && a in r.counts
                then && r'.replicas[a] == Target(cfg, n, LoadOf(cfg, r.counts[a], avg))
                     && (LoadOf(cfg, r.counts[a], avg) == Busy ==> r'.replicas[a] <= n)
                     && (LoadOf(cfg, r.counts[a], avg) == Idle ==> r'.replicas[a] >= n)
                else r'.replicas[a] == n)
    decreases |visits|
  {
    if visits != [] {
      var b, rest := visits[0], visits[1..];
      assert visits == [b] + rest;
      VisitKeeps(hash, cfg, r, avg, b);
      if a == b && a in r.counts {
        VisitMoves(hash, cfg, r, avg, a);
        Unvisited(hash, cfg, Visit(hash, cfg, r, avg, b), avg, rest, a);
      } else {
        OneVisitEach(hash, cfg, Visit(hash, cfg, r, avg, b), avg, rest, a);
      }
    }
  }

  lemma {:induction false} Unvisited(hash: HashFunc, cfg: Config, r: Ring, avg: int, visits: seq<Addr>, a: Addr)
    requires avg != 0 && cfg.min <= cfg.max && a !in visits
    requires Conserved(hash, r) && Bounded(cfg, r) && r.counts.Keys <= r.replicas.Keys && a in r.replicas
    ensures a in Pass(hash, cfg, r, avg, visits).replicas
        && Pass(hash, cfg, r, avg, visits).replicas[a] == r.replicas[a]
    decreases |visits|
  {
    if visits != [] {
      VisitKeeps(hash, cfg, r, avg, visits[0]);
      Unvisited(hash, cfg, Visit(hash, cfg, r, avg, visits[0]), avg, visits[1..], a);
    }
  }

  /** A second visit in the same pass reads the count the first one reset to zero, takes the node for
      idle and undoes the decrease. */
  lemma SecondVisitUndoes(hash: HashFunc, cfg: Config, r: Ring, avg: int, a: Addr)
    requires avg > 0 && cfg.tooIdle > 0.0 && cfg.tooBusy >= 0.0 && 0 < cfg.min
    requires a in r.counts && a in r.replicas && cfg.min + 10 <= r.replicas[a] <= cfg.max
    requires LoadOf(cfg, r.counts[a], avg) == Busy
    ensures Pass(hash, cfg, r, avg, [a]).replicas == r.replicas[a := r.replicas[a] - 10]
    ensures Pass(hash, cfg, r, avg, [a, a]).replicas == r.replicas
  {
    BusyThenIdle(hash, cfg, r, avg, a);
    PassTwo(hash, cfg, r, avg, a, a);
  }

  lemma BusyThenIdle(hash: HashFunc, cfg: Config, r: Ring, avg: int, a: Addr)
    requires avg > 0 && cfg.tooIdle > 0.0 && cfg.tooBusy >= 0.0 && 0 < cfg.min
    requires a in r.counts && a in r.replicas && cfg.min + 10 <= r.replicas[a] <= cfg.max
    requires LoadOf(cfg, r.counts[a], avg) == Busy
    ensures var r1 := Visit(hash, cfg, r, avg, a);
            && r1.replicas == r.replicas[a := r.replicas[a] - 10]
            && Visit(hash, cfg, r1, avg, a).replicas == r.replicas
  {
    var r1, n := Visit(hash, cfg, r, avg, a), r.replicas[a];
    VisitTables(hash, cfg, r, avg, a);
    ZeroIsIdle(cfg, avg);
    VisitTables(hash, cfg, r1, avg, a);
    RestoreCount(r.replicas, a, n - 10);
  }

  lemma RestoreCount(replicas: map<Addr, int>, a: Addr, m: int)
    requires a in replicas
    ensures replicas[a := m][a := replicas[a]] == replicas
  {
  }

  lemma ZeroIsIdle(cfg: Config, avg: int)
    requires avg > 0 && cfg.tooIdle > 0.0 && cfg.tooBusy >= 0.0
    ensures LoadOf(cfg, 0, avg) == Idle
  {
    var x := avg as real;
    assert x > 0.0 && 0.0 / x == 0.0;
  }

  lemma VisitTables(hash: HashFunc, cfg: Config, r: Ring, avg: int, a: Addr)
    requires avg != 0 && a in r.counts && a in r.replicas && LoadOf(cfg, r.counts[a], avg) != Fair
    ensures var r', m := Visit(hash, cfg, r, avg, a), Target(cfg, r.replicas[a], LoadOf(cfg, r.counts[a], avg));
            r'.replicas == r.replicas[a := m] && (m > 0 ==> a in r'.counts && r'.counts[a] == 0)
  {
  }

  // ---------------------------------------------------------------------
  // Any number of visits
  // ---------------------------------------------------------------------

  /** n replicas after j visits that each add ten, up to the bound. */
  function Climb(cfg: Config, n: int, j: nat): int {
    if n + 10 * j <= cfg.max then n + 10 * j else cfg.max
  }

  /** Where a node with n replicas ends after j visits: only the first visit sees its load, any later one
      takes it for idle. */
  function EndCount(cfg: Config, n: int, load: Load, j: nat): int {
    if j == 0 || load == Fair then n
    else if load == Idle then Climb(cfg, n, j)
    else Climb(cfg, if n - 10 >= cfg.min then n - 10 else cfg.min, j - 1)
  }

  function Visits(visits: seq<Addr>, a: Addr): nat {
    if visits == [] then 0 else (if visits[0] == a then 1 else 0) + Visits(visits[1..], a)
  }

  /** What every pass needs: a positive average, thresholds that take an unused node for idle, positive
      bounds, and tables that agree. */
  ghost predicate Ready(hash: HashFunc, cfg: Config, r: Ring, avg: int) {
    && avg > 0 && cfg.tooIdle > 0.0 && cfg.tooBusy >= 0.0 && 0 < cfg.min <= cfg.max
    && Conserved(hash, r) && Bounded(cfg, r) && r.counts.Keys <= r.replicas.Keys
  }

  /** A node whose count was reset climbs by ten at each visit. */
  lemma {:induction false} ZeroClimbs(hash: HashFunc, cfg: Config, r: Ring, avg: int, visits: seq<Addr>, a: Addr)
    requires Ready(hash, cfg, r, avg) && a in r.counts && r.counts[a] == 0
    ensures a in Pass(hash, cfg, r, avg, visits).replicas
    ensures Pass(hash, cfg, r, avg, visits).replicas[a] == Climb(cfg, r.replicas[a], Visits(visits, a))
    decreases |visits|
  {
    if visits != [] {
      VisitKeeps(hash, cfg, r, avg, visits[0]);
      ZeroIsIdle(cfg, avg);
      if visits[0] == a { VisitTables(hash, cfg, r, avg, a); }
      ZeroClimbs(hash, cfg, Visit(hash, cfg, r, avg, visits[0]), avg, visits[1..], a);
    }
  }

  /** Every schedule of visits, with repeats: where each member ends. */
  lemma {:induction false} RepeatedVisits(hash: HashFunc, cfg: Config, r: Ring, avg: int, visits: seq<Addr>, a: Addr)
    requires Ready(hash, cfg, r, avg) && a in r.counts
    ensures a in Pass(hash, cfg, r, avg, visits).replicas
    ensures Pass(hash, cfg, r, avg, visits).replicas[a]
              == EndCount(cfg, r.replicas[a], LoadOf(cfg, r.counts[a], avg), Visits(visits, a))
    decreases |visits|
  {
    if visits != [] {
      var r', load := Visit(hash, cfg, r, avg, visits[0]), LoadOf(cfg, r.counts[a], avg);
      VisitKeeps(hash, cfg, r, avg, visits[0]);
      if visits[0] == a && load != Fair {
        VisitTables(hash, cfg, r, avg, a);
        ZeroClimbs(hash, cfg, r', avg, visits[1..], a);
      } else {
        RepeatedVisits(hash, cfg, r', avg, visits[1..], a);
      }
    }
  }

  /** A pass leaves an overloaded node with no more replicas than it had if and only if it visits it at
      most once, or the node was at the upper bound, or it visits it twice and the first visit took the
      full ten. */
  lemma BusyNotUpIff(hash: HashFunc, cfg: Config, r: Ring, avg: int, visits: seq<Addr>, a: Addr)
    requires Ready(hash, cfg, r, avg) && a in r.counts && LoadOf(cfg, r.counts[a], avg) == Busy
    ensures var n, j, r' := r.replicas[a], Visits(visits, a), Pass(hash, cfg, r, avg, visits);
            a in r'.replicas && (r'.replicas[a] <= n <==> j <= 1 || n == cfg.max || (j == 2 && n - 10 >= cfg.min))
  {
    RepeatedVisits(hash, cfg, r, avg, visits, a);
  }

  /** A pass never takes replicas from an underloaded node, and gives it at most ten if and only if it
      visits it at most once or the upper bound is within ten. */
  lemma IdleByTenIff(hash: HashFunc, cfg: Config, r: Ring, avg: int, visits: seq<Addr>, a: Addr)
    requires Ready(hash, cfg, r, avg) && a in r.counts && LoadOf(cfg, r.counts[a], avg) == Idle
    ensures var n, j, r' := r.replicas[a], Visits(visits, a), Pass(hash, cfg, r, avg, visits);
            a in r'.replicas && n <= r'.replicas[a] && (r'.replicas[a] <= n + 10 <==> j <= 1 || cfg.max <= n + 10)
  {
    RepeatedVisits(hash, cfg, r, avg, visits, a);
  }

  lemma PassStep(hash: HashFunc, cfg: Config, r: Ring, avg: int, a: Addr, rest: seq<Addr>)
    requires avg != 0
    ensures Pass(hash, cfg, r, avg, [a] + rest) == Pass(hash, cfg, Visit(hash, cfg, r, avg, a), avg, rest)
  {
    assert ([a] + rest)[1..] == rest && ([a] + rest)[0] == a;
  }

  lemma PassTwo(hash: HashFunc, cfg: Config, r: Ring, avg: int, a: Addr, b: Addr)
    requires avg != 0
    ensures Pass(hash, cfg, r, avg, [a]) == Visit(hash, cfg, r, avg, a)
    ensures Pass(hash, cfg, r, avg, [a, b]) == Visit(hash, cfg, Visit(hash, cfg, r, avg, a), avg, b)
  {
    assert [a] == [a] + [] && [b] == [b] + [] && [a, b] == [a] + [b];
    PassStep(hash, cfg, r, avg, a, []);
    PassStep(hash, cfg, r, avg, a, [b]);
    PassStep(hash, cfg, Visit(hash, cfg, r, avg, a), avg, b, []);
  }
}
