/** The names of virtual nodes, read back: address, last dash, decimal numeral. The keys of a ring and where it
    routes, in terms of those names, and who its members are after a run. */
module RingNames {
  import opened Base
  import opened RingModel
  import opened RingOwners

  // ---------------------------------------------------------------------
  // Reading a name
  // ---------------------------------------------------------------------

  const DASH: Byte := 45

  /** A decimal numeral: digits, the first of them not 0 unless it is the only one. */
  predicate IsNumeral(s: Key) {
    s != [] && (forall i :: 0 <= i < |s| ==> 48 <= s[i] <= 57) && (|s| > 1 ==> s[0] != 48)
  }

  /** The number that a string of digits stands for. */
  function NumberOf(s: Key): int {
    if s == [] then 0 else 10 * NumberOf(s[..|s| - 1]) + (s[|s| - 1] as int - 48)
  }

  /** The string before the last dash is the address, and the one behind it the numeral of i. */
  ghost predicate Names(name: Key, addr: Addr, i: int) {
    exists j :: 0 <= j < |name| && SplitAt(name, j, addr, i)
  }

  predicate SplitAt(name: Key, j: nat, addr: Addr, i: int)
    requires j < |name|
  {
    && name[j] == DASH && DASH !in name[j + 1..]
    && name[..j] == addr && IsNumeral(name[j + 1..]) && NumberOf(name[j + 1..]) == i
  }

  lemma {:induction false} DecimalReads(n: nat)
    ensures IsNumeral(Decimal(n)) && NumberOf(Decimal(n)) == n
    ensures n > 0 ==> Decimal(n)[0] != 48
  {
    var s := Decimal(n);
    if n >= 10 {
      DecimalReads(n / 10);
      assert s[..|s| - 1] == Decimal(n / 10);
    } else {
      assert s[..0] == [];
    }
  }

  lemma {:induction false} NumeralPositive(s: Key)
    requires IsNumeral(s)
    ensures NumberOf(s) >= 0 && (s[0] != 48 ==> NumberOf(s) > 0)
  {
    var t := s[..|s| - 1];
    if |s| > 1 { NumeralPositive(t); }
  }

  /** Every numeral is the one printed for its number. */
  lemma {:induction false} NumeralPrints(s: Key)
    requires IsNumeral(s)
    ensures NumberOf(s) >= 0 && Decimal(NumberOf(s)) == s
  {
    var t, d := s[..|s| - 1], s[|s| - 1] - 48;
    NumeralPositive(s);
    if |s| > 1 {
      NumeralPrints(t);
      NumeralPositive(t);
      assert NumberOf(s) / 10 == NumberOf(t) && NumberOf(s) % 10 == d;
      assert s == t + [48 + d];
    } else {
      assert t == [] && s == [48 + d];
    }
  }

  /** The name of virtual node i of addr is the one string that reads as addr and i. */
  lemma NameReads(name: Key, addr: Addr, i: nat)
    ensures name == VirtualName(addr, i) <==> Names(name, addr, i)
  {
    PrintedReads(addr, i);
    if Names(name, addr, i) {
      var j :| 0 <= j < |name| && SplitAt(name, j, addr, i);
      ReadPrints(name, j, addr, i);
    }
  }

  lemma PrintedReads(addr: Addr, i: nat)
    ensures Names(VirtualName(addr, i), addr, i)
  {
    var name, j := VirtualName(addr, i), |addr|;
    DecimalReads(i);
    assert name[j + 1..] == Decimal(i) && name[..j] == addr;
    assert SplitAt(name, j, addr, i);
  }

  lemma ReadPrints(name: Key, j: nat, addr: Addr, i: nat)
    requires j < |name| && SplitAt(name, j, addr, i)
    ensures name == VirtualName(addr, i)
  {
    NumeralPrints(name[j + 1..]);
    assert name == name[..j] + [name[j]] + name[j + 1..];
  }

  // ---------------------------------------------------------------------
  // The ring in terms of names
  // ---------------------------------------------------------------------

  /** The name is that of a virtual node on the ring. */
  ghost predicate OnRingAs(replicas: map<Addr, int>, name: Key, addr: Addr, i: int) {
    Names(name, addr, i) && addr in replicas && 0 <= i < replicas[addr]
  }

  /** A member with n replicas has the virtual nodes addr-0 to addr-(n-1), and the keys of a ring are the hashes of
      the names of its members' virtual nodes. */
  lemma KeysAreNames(hash: HashFunc, default: int, ops: seq<RingOp>, p: int)
    ensures var r := RingRun(hash, default, ops);
            p in r.keys <==> exists name, addr, i :: OnRingAs(r.replicas, name, addr, i) && hash(name) == p
  {
    var r := RingRun(hash, default, ops);
    RunConserves(hash, default, ops);
    KeyIff(hash, r, p);
    if p in r.keys {
      var a, i: nat :| InRing(r.replicas, a, i) && Position(hash, a, i) == p;
      NameReads(VirtualName(a, i), a, i);
      assert OnRingAs(r.replicas, VirtualName(a, i), a, i);
    }
    if name, addr, i :| OnRingAs(r.replicas, name, addr, i) && hash(name) == p {
      NameReads(name, addr, i);
      assert InRing(r.replicas, addr, i) && Position(hash, addr, i) == p;
    }
  }

  /** The name's hash is at least as near, clockwise from h, as that of every virtual node on the ring. */
  ghost predicate NearestName(hash: HashFunc, replicas: map<Addr, int>, h: int, name: Key) {
    forall other, b, j :: OnRingAs(replicas, other, b, j) ==> Clockwise(h, hash(name)) <= Clockwise(h, hash(other))
  }

  /** On an exact ring a key is routed to addr if and only if the hash of some name that reads as addr and one of
      its replicas is the nearest clockwise. */
  lemma RouteByNames(hash: HashFunc, r: Ring, h: uint32, addr: Addr)
    requires Conserved(hash, r) && Exact(hash, r) && r.keys != []
    ensures Route(r, h) == addr <==>
              exists name, i :: OnRingAs(r.replicas, name, addr, i) && NearestName(hash, r.replicas, h, name)
  {
    RouteIsOwner(hash, r, h, addr);
    if Owns(hash, r.replicas, h, addr) {
      var i: nat :| InRing(r.replicas, addr, i) && Nearest(hash, r.replicas, h, Position(hash, addr, i));
      NearestIff(hash, r.replicas, h, addr, i);
      NameReads(VirtualName(addr, i), addr, i);
      assert OnRingAs(r.replicas, VirtualName(addr, i), addr, i);
    }
    if name, i :| OnRingAs(r.replicas, name, addr, i) && NearestName(hash, r.replicas, h, name) {
      NameReads(name, addr, i);
      NearestIff(hash, r.replicas, h, addr, i);
      assert InRing(r.replicas, addr, i);
    }
  }

  lemma NearestIff(hash: HashFunc, replicas: map<Addr, int>, h: int, addr: Addr, i: nat)
    ensures Nearest(hash, replicas, h, Position(hash, addr, i)) <==>
              NearestName(hash, replicas, h, VirtualName(addr, i))
  {
    var p := Position(hash, addr, i);
    if Nearest(hash, replicas, h, p) {
      forall other, b, j | OnRingAs(replicas, other, b, j) ensures Clockwise(h, p) <= Clockwise(h, hash(other)) {
        NameReads(other, b, j);
        assert InRing(replicas, b, j) && Position(hash, b, j) == hash(other);
      }
    }
    if NearestName(hash, replicas, h, VirtualName(addr, i)) {
      forall b, j: nat | InRing(replicas, b, j) ensures Clockwise(h, p) <= Clockwise(h, Position(hash, b, j)) {
        NameReads(VirtualName(b, j), b, j);
        assert OnRingAs(replicas, VirtualName(b, j), b, j);
      }
    }
  }

  // ---------------------------------------------------------------------
  // Who the members are
  // ---------------------------------------------------------------------

  /** The operation puts the address on the ring, if it is not there. */
  predicate Joins(op: RingOp, a: Addr) {
    op.addr == a && !op.RemoveOp?
  }

  /** The last operation of a run, for one address. */
  lemma LastStep(hash: HashFunc, default: int, ops: seq<RingOp>, a: Addr)
    requires ops != []
    ensures var m, m' := MembersAfter(hash, default, ops[..|ops| - 1]), MembersAfter(hash, default, ops);
            var op := ops[|ops| - 1];
            && (a in m' <==> Joins(op, a) || (a in m && op != RemoveOp(a)))
            && (a in m' ==> m'[a] == CountAfter(default, m, op, a))
  {
    StepMember(hash, default, RingRun(hash, default, ops[..|ops| - 1]), ops[|ops| - 1], a);
  }

  /** The replicas of a member after the operation. */
  function CountAfter(default: int, m: map<Addr, int>, op: RingOp, a: Addr): int {
    if op.RebalanceOp? && op.addr == a then op.n else if a in m then m[a] else default
  }

  lemma StepMember(hash: HashFunc, default: int, r: Ring, op: RingOp, a: Addr)
    ensures var m' := RingStep(hash, default, r, op).replicas;
            && (a in m' <==> Joins(op, a) || (a in r.replicas && op != RemoveOp(a)))
            && (a in m' ==> m'[a] == CountAfter(default, r.replicas, op, a))
  {
  }

  /** The members after a run, with their replica counts. */
  function MembersAfter(hash: HashFunc, default: int, ops: seq<RingOp>): map<Addr, int> {
    RingRun(hash, default, ops).replicas
  }

  /** Operation i puts the address on the ring, and it is not removed after that. */
  ghost predicate JoinedAt(ops: seq<RingOp>, i: int, a: Addr) {
    0 <= i < |ops| && Joins(ops[i], a) && forall j :: i < j < |ops| ==> ops[j] != RemoveOp(a)
  }

  lemma JoinedBefore(ops: seq<RingOp>, i: int, a: Addr)
    requires ops != [] && i < |ops| - 1
    ensures JoinedAt(ops, i, a) <==> JoinedAt(ops[..|ops| - 1], i, a) && ops[|ops| - 1] != RemoveOp(a)
  {
  }

  /** The members after a run are the addresses added or rebalanced and not removed since. */
  lemma {:induction false} MembersAre(hash: HashFunc, default: int, ops: seq<RingOp>, a: Addr)
    ensures a in MembersAfter(hash, default, ops) <==> exists i :: JoinedAt(ops, i, a)
  {
    if ops == [] {
      assert a !in MembersAfter(hash, default, ops);
    } else {
      var n := |ops| - 1;
      MembersAre(hash, default, ops[..n], a);
      LastStep(hash, default, ops, a);
      JoinedStep(ops, a);
    }
  }

  lemma JoinedStep(ops: seq<RingOp>, a: Addr)
    requires ops != []
    ensures var before, op := ops[..|ops| - 1], ops[|ops| - 1];
            (exists i :: JoinedAt(ops, i, a)) <==>
              Joins(op, a) || ((exists i :: JoinedAt(before, i, a)) && op != RemoveOp(a))
  {
    var n := |ops| - 1;
    if Joins(ops[n], a) { assert JoinedAt(ops, n, a); }
    if i :| JoinedAt(ops[..n], i, a) && ops[n] != RemoveOp(a) { JoinedBefore(ops, i, a); }
    if i :| JoinedAt(ops, i, a) {
      if i < n { JoinedBefore(ops, i, a); }
    }
  }

  /** Nothing but a removal or a rebalancing of a member changes its number of replicas. */
  lemma {:induction false} CountStays(hash: HashFunc, default: int, ops: seq<RingOp>, i: nat, a: Addr)
    requires i <= |ops| && a in MembersAfter(hash, default, ops[..i])
    requires forall j :: i <= j < |ops| && ops[j].addr == a ==> ops[j].AddOp?
    ensures a in MembersAfter(hash, default, ops)
    ensures MembersAfter(hash, default, ops)[a] == MembersAfter(hash, default, ops[..i])[a]
  {
    var n := |ops| - 1;
    if i == |ops| {
      assert ops[..i] == ops;
    } else {
      assert ops[..n][..i] == ops[..i];
      CountStays(hash, default, ops[..n], i, a);
      LastStep(hash, default, ops, a);
    }
  }

  /** A member has as many replicas as its last rebalancing since it joined says or, if there was none, the
      default number. */
  lemma ReplicasAre(hash: HashFunc, default: int, ops: seq<RingOp>, i: nat, a: Addr)
    requires i < |ops| && ops[i].addr == a
    requires ops[i].RebalanceOp? || (ops[i].AddOp? && a !in MembersAfter(hash, default, ops[..i]))
    requires forall j :: i < j < |ops| && ops[j].addr == a ==> ops[j].AddOp?
    ensures a in MembersAfter(hash, default, ops)
    ensures MembersAfter(hash, default, ops)[a] == if ops[i].RebalanceOp? then ops[i].n else default
  {
    assert ops[..i + 1][..i] == ops[..i];
    LastStep(hash, default, ops[..i + 1], a);
    CountStays(hash, default, ops, i + 1, a);
  }

  // ---------------------------------------------------------------------
  // Shared positions
  // ---------------------------------------------------------------------

  /** A position that several members share belongs to the one added last. */
  lemma LastAddedOwns(hash: HashFunc, r: Ring, addr: Addr, n: int, i: nat)
    requires Conserved(hash, r) && addr !in r.replicas && i < n
    ensures var r' := AddNode(hash, r, addr, n); Route(r', Position(hash, addr, i)) == addr
  {
    var r', p := AddNode(hash, r, addr, n), Position(hash, addr, i);
    AddConserves(hash, r, addr, n);
    assert InRing(r'.replicas, addr, i);
    KeyIff(hash, r', p);
    FirstFinds(r'.keys, p);
    PositionIn(hash, addr, n, p);
    ClaimIs(hash, r.owners, addr, n, p);
  }
}
