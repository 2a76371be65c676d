/** The consistent-hash ring as a value: sorted virtual-node positions, their owners, and replica counts. */
module RingModel {
  import opened Base

  type Addr = Key
  type HashFunc = Key -> uint32

  const RING := 0x1_0000_0000

  // ---------------------------------------------------------------------
  // Names and positions of virtual nodes
  // ---------------------------------------------------------------------

  /** The decimal digits of n in ASCII, as %d prints them. */
  function Decimal(n: nat): (s: Key)
    ensures |s| > 0 && forall i :: 0 <= i < |s| ==> 48 <= s[i] < 58
  {
    if n < 10 then [48 + n] else Decimal(n / 10) + [48 + n % 10]
  }

  /** "addr-i". */
  function VirtualName(addr: Addr, i: nat): Key {
    addr + [45] + Decimal(i)
  }

  function Position(hash: HashFunc, addr: Addr, i: nat): uint32 {
    hash(VirtualName(addr, i))
  }

  /** The positions of the first n virtual nodes of addr, in order. */
  function Positions(hash: HashFunc, addr: Addr, n: int): (r: seq<int>)
    ensures |r| == if n > 0 then n else 0
    ensures forall i :: 0 <= i < |r| ==> r[i] == Position(hash, addr, i)
  {
    if n <= 0 then [] else Positions(hash, addr, n - 1) + [Position(hash, addr, n - 1)]
  }

  lemma {:induction false} DecimalInjective(m: nat, n: nat)
    requires Decimal(m) == Decimal(n)
    ensures m == n
    decreases m
  {
    var s := Decimal(m);
    if m >= 10 && n >= 10 {
      assert s[..|s| - 1] == Decimal(m / 10) && s[..|s| - 1] == Decimal(n / 10);
      DecimalInjective(m / 10, n / 10);
      assert s[|s| - 1] == 48 + m % 10 == 48 + n % 10;
    } else {
      assert m < 10 ==> |s| == 1;
      assert n < 10 ==> |s| == 1;
      assert s[0] == 48 + m && s[0] == 48 + n;
    }
  }

  /** Where the longer address ends in a dash, the shorter one's name already shows a digit. */
  lemma LongerName(a: Addr, i: nat, b: Addr, j: nat)
    requires |a| < |b|
    ensures VirtualName(a, i) != VirtualName(b, j)
  {
    var s, t := VirtualName(a, i), VirtualName(b, j);
    assert t[|b|] == 45;
    if |s| > |b| {
      assert s[|b|] == Decimal(i)[|b| - |a| - 1];
    }
  }

  /** The last dash separates the address from the number, so names are injective. */
  lemma NamesInjective(a: Addr, i: nat, b: Addr, j: nat)
    requires VirtualName(a, i) == VirtualName(b, j)
    ensures a == b && i == j
  {
    var s := VirtualName(a, i);
    if |a| < |b| {
      LongerName(a, i, b, j);
    } else if |b| < |a| {
      LongerName(b, j, a, i);
    } else {
      assert a == s[..|a|] && b == s[..|a|];
      assert Decimal(i) == s[|a| + 1..] && Decimal(j) == s[|a| + 1..];
      DecimalInjective(i, j);
    }
  }

  // ---------------------------------------------------------------------
  // Sorted slices
  // ---------------------------------------------------------------------

  ghost predicate Sorted(s: seq<int>) {
    forall i, j :: 0 <= i < j < |s| ==> s[i] <= s[j]
  }

  function Insert(s: seq<int>, x: int): seq<int> {
    var i := FirstAtLeast(s, x);
    s[..i] + ([x] + s[i..])
  }

  lemma InsertSorted(s: seq<int>, x: int)
    requires Sorted(s)
    ensures Sorted(Insert(s, x))
  {
    var i, r := FirstAtLeast(s, x), Insert(s, x);
    forall a, b | 0 <= a < b < |r| ensures r[a] <= r[b] {
      assert r[a] == if a < i then s[a] else if a == i then x else s[a - 1];
      assert r[b] == if b < i then s[b] else if b == i then x else s[b - 1];
      if a == i { assert s[i] <= s[b - 1]; }
    }
  }

  lemma InsertBag(s: seq<int>, x: int)
    ensures multiset(Insert(s, x)) == multiset(s) + multiset{x}
  {
    var i := FirstAtLeast(s, x);
    assert s == s[..i] + s[i..];
  }

  /** What sort.Ints leaves: the same values in ascending order. */
  function Sort(s: seq<int>): (r: seq<int>)
    ensures Sorted(r) && multiset(r) == multiset(s)
  {
    if s == [] then []
    else
      var init, last := s[..|s| - 1], s[|s| - 1];
      InsertSorted(Sort(init), last);
      InsertBag(Sort(init), last);
      LastBag(s);
      Insert(Sort(init), last)
  }

  lemma LastBag(s: seq<int>)
    requires s != []
    ensures multiset(s) == multiset(s[..|s| - 1]) + multiset{s[|s| - 1]}
  {
    assert s == s[..|s| - 1] + [s[|s| - 1]];
  }

  /** The position of the first value not below x, or |s|. */
  function FirstAtLeast(s: seq<int>, x: int): (i: nat)
    ensures i <= |s|
    ensures forall j :: 0 <= j < i ==> s[j] < x
    ensures i < |s| ==> s[i] >= x
  {
    if s == [] || s[0] >= x then 0 else 1 + FirstAtLeast(s[1..], x)
  }

  /** slice_remove on a sorted slice. */
  function SliceRemove(s: seq<int>, x: int): seq<int> {
    var i := FirstAtLeast(s, x);
    if i < |s| && s[i] == x then Without(s, i) else s
  }

  /** s with the value at position i cut out. */
  function Without(s: seq<int>, i: nat): seq<int>
    requires i < |s|
  {
    s[..i] + s[i + 1..]
  }

  /** How often x occurs. */
  ghost function Times(s: seq<int>, x: int): nat {
    if s == [] then 0 else Times(s[1..], x) + if s[0] == x then 1 else 0
  }

  /** Times is the multiplicity in the bag of the values. */
  lemma {:induction false} TimesIs(s: seq<int>, x: int)
    ensures Times(s, x) == multiset(s)[x]
  {
    if s != [] {
      TimesIs(s[1..], x);
      assert s == [s[0]] + s[1..];
      assert multiset(s) == multiset{s[0]} + multiset(s[1..]);
    }
  }

  lemma TimesIn(s: seq<int>, x: int)
    ensures Times(s, x) > 0 <==> x in s
  {
    TimesIs(s, x);
  }

  lemma {:induction false} TimesConcat(s: seq<int>, t: seq<int>, x: int)
    ensures Times(s + t, x) == Times(s, x) + Times(t, x)
  {
    if s == [] {
      assert s + t == t;
    } else {
      TimesConcat(s[1..], t, x);
      assert (s + t)[1..] == s[1..] + t;
    }
  }

  /** A binary-search removal deletes exactly one occurrence of its value, if there is one. */
  lemma SliceRemoveExact(s: seq<int>, x: int, y: int)
    requires Sorted(s)
    ensures Sorted(SliceRemove(s, x))
    ensures Times(SliceRemove(s, x), y) == Times(s, y) - (if y == x && Times(s, x) > 0 then 1 else 0)
  {
    SliceRemoveSorted(s, x);
    SliceRemoveTimes(s, x, y);
  }

  lemma SliceRemoveSorted(s: seq<int>, x: int)
    requires Sorted(s)
    ensures Sorted(SliceRemove(s, x))
  {
    var i := FirstAtLeast(s, x);
    if i < |s| && s[i] == x { RemovedSorted(s, i); }
  }

  lemma SliceRemoveTimes(s: seq<int>, x: int, y: int)
    requires Sorted(s)
    ensures Times(SliceRemove(s, x), y) == Times(s, y) - (if y == x && Times(s, x) > 0 then 1 else 0)
  {
    var i := FirstAtLeast(s, x);
    if i < |s| && s[i] == x {
      assert SliceRemove(s, x) == Without(s, i);
      RemovedTimes(s, i, y);
    } else {
      NotInSorted(s, x);
    }
  }

  lemma RemovedTimes(s: seq<int>, i: nat, y: int)
    requires i < |s|
    ensures Times(Without(s, i), y) == Times(s, y) - (if y == s[i] then 1 else 0)
    ensures Times(s, s[i]) > 0
  {
    var before, after, one := s[..i], s[i + 1..], [s[i]];
    assert s == before + (one + after);
    TimesConcat(before, one + after, y);
    TimesConcat(one, after, y);
    TimesConcat(before, after, y);
    TimesIn(s, s[i]);
  }

  lemma NotInSorted(s: seq<int>, x: int)
    requires Sorted(s)
    requires var i := FirstAtLeast(s, x); i == |s| || s[i] != x
    ensures Times(s, x) == 0
  {
    var i := FirstAtLeast(s, x);
    forall j | 0 <= j < |s| ensures s[j] != x {
      if j >= i { assert s[i] <= s[j]; }
    }
    TimesIn(s, x);
  }

  lemma RemovedSorted(s: seq<int>, i: nat)
    requires Sorted(s) && i < |s|
    ensures Sorted(s[..i] + s[i + 1..])
  {
  }

  /** Two ascending sequences with the same values are the same sequence. */
  lemma {:induction false} SortedUnique(s: seq<int>, t: seq<int>)
    requires Sorted(s) && Sorted(t) && multiset(s) == multiset(t)
    ensures s == t
  {
    SameBagSameSize(s, t);
    if s != [] {
      HeadsAgree(s, t);
      TailsAgree(s, t);
      SortedUnique(s[1..], t[1..]);
      assert s == [s[0]] + s[1..] && t == [t[0]] + t[1..];
    }
  }

  lemma SameBagSameSize(s: seq<int>, t: seq<int>)
    requires multiset(s) == multiset(t)
    ensures |s| == |t|
  {
    assert |multiset(s)| == |s| && |multiset(t)| == |t|;
  }

  lemma HeadsAgree(s: seq<int>, t: seq<int>)
    requires |s| > 0 && |t| > 0 && Sorted(s) && Sorted(t) && multiset(s) == multiset(t)
    ensures s[0] == t[0]
  {
    assert s[0] in multiset(t) && t[0] in multiset(s);
    var i :| 0 <= i < |t| && t[i] == s[0];
    var j :| 0 <= j < |s| && s[j] == t[0];
    assert t[0] <= t[i] && s[0] <= s[j];
  }

  lemma TailsAgree(s: seq<int>, t: seq<int>)
    requires |s| > 0 && |t| > 0 && s[0] == t[0] && multiset(s) == multiset(t)
    ensures multiset(s[1..]) == multiset(t[1..])
  {
    forall x ensures multiset(s[1..])[x] == multiset(t[1..])[x] {
      TimesIs(s, x);
      TimesIs(t, x);
      TimesIs(s[1..], x);
      TimesIs(t[1..], x);
    }
  }

  // ---------------------------------------------------------------------
  // The ring
  // ---------------------------------------------------------------------

  datatype Ring = Ring(keys: seq<int>, owners: map<int, Addr>, replicas: map<Addr, int>, counts: map<Addr, int64>)

  const EMPTY_RING := Ring([], map[], map[], map[])

  /** Go reads a missing entry as the empty address. */
  function OwnerAt(owners: map<int, Addr>, p: int): Addr {
    if p in owners then owners[p] else []
  }

  /** Where Get routes a key with hash h: the first position at or after h, wrapping to the start. */
  function Route(r: Ring, h: int): Addr {
    if r.keys == [] then []
    else
      var i := FirstAtLeast(r.keys, h);
      OwnerAt(r.owners, r.keys[if i == |r.keys| then 0 else i])
  }

  function Claim(hash: HashFunc, owners: map<int, Addr>, addr: Addr, n: int): map<int, Addr> {
    if n <= 0 then owners else Claim(hash, owners, addr, n - 1)[Position(hash, addr, n - 1) := addr]
  }

  function Release(hash: HashFunc, owners: map<int, Addr>, addr: Addr, n: int): map<int, Addr> {
    if n <= 0 then owners else Release(hash, owners, addr, n - 1) - {Position(hash, addr, n - 1) as int}
  }

  function RemoveEach(hash: HashFunc, keys: seq<int>, addr: Addr, n: int): seq<int> {
    if n <= 0 then keys else SliceRemove(RemoveEach(hash, keys, addr, n - 1), Position(hash, addr, n - 1))
  }

  /** addNode. */
  function AddNode(hash: HashFunc, r: Ring, addr: Addr, n: int): Ring {
    Ring(Sort(r.keys + Positions(hash, addr, n)), Claim(hash, r.owners, addr, n), r.replicas[addr := n],
         if n > 0 then r.counts[addr := 0] else r.counts)
  }

  function ReplicasOf(r: Ring, addr: Addr): int {
    if addr in r.replicas then r.replicas[addr] else 0
  }

  /** removeNoLock. */
  function RemoveNode(hash: HashFunc, r: Ring, addr: Addr): Ring {
    var n := ReplicasOf(r, addr);
    Ring(RemoveEach(hash, r.keys, addr, n), Release(hash, r.owners, addr, n), r.replicas - {addr}, r.counts - {addr})
  }

  function Add(hash: HashFunc, r: Ring, addr: Addr, default: int): Ring {
    if addr in r.replicas then r else AddNode(hash, r, addr, default)
  }

  function Remove(hash: HashFunc, r: Ring, addr: Addr): Ring {
    if addr in r.replicas then RemoveNode(hash, r, addr) else r
  }

  function Rebalance(hash: HashFunc, r: Ring, addr: Addr, n: int): Ring {
    AddNode(hash, RemoveNode(hash, r, addr), addr, n)
  }

  // ---------------------------------------------------------------------
  // Conservation of positions
  // ---------------------------------------------------------------------

  /** The positions all members contribute together, member by member. */
  ghost function AllPositions(hash: HashFunc, replicas: map<Addr, int>): seq<int> {
    if replicas == map[] then []
    else
      var a := Pick(replicas.Keys);
      Positions(hash, a, replicas[a]) + AllPositions(hash, replicas - {a})
  }

  /** The members' replica counts added up. */
  ghost function Total(replicas: map<Addr, int>): (t: nat) {
    if replicas == map[] then 0
    else
      var a := Pick(replicas.Keys);
      (if replicas[a] > 0 then replicas[a] else 0) + Total(replicas - {a})
  }

  /** How many virtual nodes sit at position p. */
  ghost function CountAt(hash: HashFunc, replicas: map<Addr, int>, p: int): nat {
    Times(AllPositions(hash, replicas), p)
  }

  /** Any member can be taken out first. */
  lemma {:induction false} CountSplit(hash: HashFunc, replicas: map<Addr, int>, a: Addr, p: int)
    requires a in replicas
    ensures CountAt(hash, replicas, p) == Times(Positions(hash, a, replicas[a]), p) + CountAt(hash, replicas - {a}, p)
    decreases |replicas|
  {
    var b := Pick(replicas.Keys);
    CountUnfold(hash, replicas, p);
    if a != b {
      var r1, r2 := replicas - {b}, replicas - {a};
      assert r1[a] == replicas[a] && r2[b] == replicas[b];
      CountSplit(hash, r1, a, p);
      CountSplit(hash, r2, b, p);
      WithoutBoth(replicas, a, b);
    }
  }

  lemma CountUnfold(hash: HashFunc, replicas: map<Addr, int>, p: int)
    requires replicas != map[]
    ensures var b := Pick(replicas.Keys);
            CountAt(hash, replicas, p) == Times(Positions(hash, b, replicas[b]), p) + CountAt(hash, replicas - {b}, p)
  {
    var b := Pick(replicas.Keys);
    TimesConcat(Positions(hash, b, replicas[b]), AllPositions(hash, replicas - {b}), p);
  }

  lemma WithoutBoth(replicas: map<Addr, int>, a: Addr, b: Addr)
    ensures replicas - {b} - {a} == replicas - {a} - {b}
  {
  }

  lemma {:induction false} AllPositionsSize(hash: HashFunc, replicas: map<Addr, int>)
    ensures |AllPositions(hash, replicas)| == Total(replicas)
    decreases |replicas|
  {
    if replicas != map[] {
      AllPositionsSize(hash, replicas - {Pick(replicas.Keys)});
    }
  }

  /** The keys are the members' positions, with multiplicity, in ascending order. */
  ghost predicate Conserved(hash: HashFunc, r: Ring) {
    && Sorted(r.keys)
    && forall p :: Times(r.keys, p) == CountAt(hash, r.replicas, p)
  }

  lemma ConservedBag(hash: HashFunc, r: Ring)
    requires Conserved(hash, r)
    ensures multiset(r.keys) == multiset(AllPositions(hash, r.replicas))
    ensures |r.keys| == Total(r.replicas)
  {
    var all := AllPositions(hash, r.replicas);
    forall p ensures multiset(r.keys)[p] == multiset(all)[p] {
      assert Times(r.keys, p) == CountAt(hash, r.replicas, p);
      TimesIs(r.keys, p);
      TimesIs(all, p);
    }
    SameBagSameSize(r.keys, all);
    AllPositionsSize(hash, r.replicas);
  }

  lemma {:induction false} RemoveEachSorted(hash: HashFunc, keys: seq<int>, addr: Addr, n: int)
    requires Sorted(keys)
    ensures Sorted(RemoveEach(hash, keys, addr, n))
  {
    if n > 0 {
      RemoveEachSorted(hash, keys, addr, n - 1);
      SliceRemoveExact(RemoveEach(hash, keys, addr, n - 1), Position(hash, addr, n - 1), 0);
    }
  }

  lemma PositionsTimes(hash: HashFunc, addr: Addr, n: int, p: int)
    requires n > 0
    ensures Times(Positions(hash, addr, n), p) ==
              Times(Positions(hash, addr, n - 1), p) + if Position(hash, addr, n - 1) == p then 1 else 0
  {
    TimesConcat(Positions(hash, addr, n - 1), [Position(hash, addr, n - 1)], p);
  }

  lemma OneRemoved(hash: HashFunc, keys: seq<int>, addr: Addr, n: int, p: int)
    requires Sorted(keys) && n > 0
    ensures var before := Times(RemoveEach(hash, keys, addr, n - 1), p);
            Times(RemoveEach(hash, keys, addr, n), p) ==
              before - if Position(hash, addr, n - 1) == p && before > 0 then 1 else 0
  {
    RemoveEachSorted(hash, keys, addr, n - 1);
    SliceRemoveExact(RemoveEach(hash, keys, addr, n - 1), Position(hash, addr, n - 1), p);
  }

  /** Removing a member's positions one by one removes each of them once. */
  lemma {:induction false} RemoveEachExact(hash: HashFunc, keys: seq<int>, addr: Addr, n: int, p: int)
    requires Sorted(keys)
    requires Times(Positions(hash, addr, n), p) <= Times(keys, p)
    ensures Times(RemoveEach(hash, keys, addr, n), p) == Times(keys, p) - Times(Positions(hash, addr, n), p)
  {
    if n > 0 {
      PositionsTimes(hash, addr, n, p);
      RemoveEachExact(hash, keys, addr, n - 1, p);
      OneRemoved(hash, keys, addr, n, p);
    }
  }

  lemma AddConserves(hash: HashFunc, r: Ring, addr: Addr, n: int)
    requires Conserved(hash, r) && addr !in r.replicas
    ensures Conserved(hash, AddNode(hash, r, addr, n))
  {
    forall p ensures Times(AddNode(hash, r, addr, n).keys, p) == CountAt(hash, r.replicas[addr := n], p) {
      AddCount(hash, r, addr, n, p);
    }
  }

  lemma SortTimes(s: seq<int>, p: int)
    ensures Times(Sort(s), p) == Times(s, p)
  {
    TimesIs(Sort(s), p);
    TimesIs(s, p);
  }

  lemma AddCount(hash: HashFunc, r: Ring, addr: Addr, n: int, p: int)
    requires addr !in r.replicas && Times(r.keys, p) == CountAt(hash, r.replicas, p)
    ensures Times(AddNode(hash, r, addr, n).keys, p) == CountAt(hash, r.replicas[addr := n], p)
  {
    AddTimes(r.keys, Positions(hash, addr, n), p);
    AddCountAt(hash, r.replicas, addr, n, p);
  }

  lemma AddTimes(keys: seq<int>, ps: seq<int>, p: int)
    ensures Times(Sort(keys + ps), p) == Times(keys, p) + Times(ps, p)
  {
    SortTimes(keys + ps, p);
    TimesConcat(keys, ps, p);
  }

  lemma AddCountAt(hash: HashFunc, replicas: map<Addr, int>, addr: Addr, n: int, p: int)
    requires addr !in replicas
    ensures CountAt(hash, replicas[addr := n], p) == Times(Positions(hash, addr, n), p) + CountAt(hash, replicas, p)
  {
    CountSplit(hash, replicas[addr := n], addr, p);
    InsertDelete(replicas, addr, n);
  }

  lemma InsertDelete(replicas: map<Addr, int>, addr: Addr, n: int)
    requires addr !in replicas
    ensures replicas[addr := n] - {addr} == replicas
  {
  }

  lemma RemoveCount(hash: HashFunc, r: Ring, addr: Addr, p: int)
    requires Sorted(r.keys) && addr in r.replicas && Times(r.keys, p) == CountAt(hash, r.replicas, p)
    ensures Times(RemoveEach(hash, r.keys, addr, r.replicas[addr]), p) == CountAt(hash, r.replicas - {addr}, p)
  {
    CountSplit(hash, r.replicas, addr, p);
    RemoveEachExact(hash, r.keys, addr, r.replicas[addr], p);
  }

  lemma RemoveConserves(hash: HashFunc, r: Ring, addr: Addr)
    requires Conserved(hash, r)
    ensures Conserved(hash, RemoveNode(hash, r, addr))
  {
    if addr !in r.replicas {
      assert r.replicas - {addr} == r.replicas;
    } else {
      RemoveEachSorted(hash, r.keys, addr, r.replicas[addr]);
      forall p ensures Times(RemoveNode(hash, r, addr).keys, p) == CountAt(hash, r.replicas - {addr}, p) {
        RemoveCount(hash, r, addr, p);
      }
    }
  }

  datatype RingOp = AddOp(addr: Addr) | RemoveOp(addr: Addr) | RebalanceOp(addr: Addr, n: int)

  function RingStep(hash: HashFunc, default: int, r: Ring, op: RingOp): Ring {
    match op
    case AddOp(a) => Add(hash, r, a, default)
    case RemoveOp(a) => Remove(hash, r, a)
    case RebalanceOp(a, n) => Rebalance(hash, r, a, n)
  }

  function RingRun(hash: HashFunc, default: int, ops: seq<RingOp>): Ring {
    if ops == [] then EMPTY_RING
    else RingStep(hash, default, RingRun(hash, default, ops[..|ops| - 1]), ops[|ops| - 1])
  }

  /** Ring conservation, for every hash function: after any run of additions, removals and
      rebalancings the keys are sorted, are exactly the members' positions with multiplicity, and
      number as many as the replicas. */
  lemma {:induction false} RunConserves(hash: HashFunc, default: int, ops: seq<RingOp>)
    ensures var r := RingRun(hash, default, ops);
            && Conserved(hash, r)
            && multiset(r.keys) == multiset(AllPositions(hash, r.replicas)) && |r.keys| == Total(r.replicas)
  {
    if ops != [] {
      var before := RingRun(hash, default, ops[..|ops| - 1]);
      RunConserves(hash, default, ops[..|ops| - 1]);
      match ops[|ops| - 1]
      case AddOp(a) => if a !in before.replicas { AddConserves(hash, before, a, default); }
      case RemoveOp(a) => RemoveConserves(hash, before, a);
      case RebalanceOp(a, n) =>
        RemoveConserves(hash, before, a);
        AddConserves(hash, RemoveNode(hash, before, a), a, n);
    }
    ConservedBag(hash, RingRun(hash, default, ops));
  }
}
