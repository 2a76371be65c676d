/** The mutable ring, proved to take the steps of the ring model. */
module ConsistentHash {
  import opened Base
  import opened RingModel
  import opened RingBalance

  /** sort.Search: the position of the first value not below x, by bisection. */
  method Search(keys: seq<int>, x: int) returns (index: nat)
    requires Sorted(keys)
    ensures index == FirstAtLeast(keys, x)
  {
    var i, j := 0, |keys|;
    while i < j
      invariant 0 <= i <= j <= |keys|
      invariant forall k :: 0 <= k < i ==> keys[k] < x
      invariant forall k :: j <= k < |keys| ==> keys[k] >= x
    {
      var h := (i + j) / 2;
      if keys[h] >= x {
        j := h;
      } else {
        i := h + 1;
      }
    }
    index := i;
    FirstUnique(keys, x, i);
  }

  lemma FirstUnique(keys: seq<int>, x: int, i: nat)
    requires i <= |keys|
    requires forall k :: 0 <= k < i ==> keys[k] < x
    requires forall k :: i <= k < |keys| ==> keys[k] >= x
    ensures FirstAtLeast(keys, x) == i
  {
    var f := FirstAtLeast(keys, x);
    if i < |keys| { assert keys[i] >= x; }
    if f < |keys| { assert keys[f] >= x; }
  }

  /** A loop to n that starts at 0 ends at n, or at 0 when n is negative: the same tables either way. */
  lemma AddLoopEnd(hash: HashFunc, r: Ring, addr: Addr, n: int, i: nat)
    requires i == if n > 0 then n else 0
    ensures r.keys + Positions(hash, addr, n) == r.keys + Positions(hash, addr, i)
    ensures Claim(hash, r.owners, addr, n) == Claim(hash, r.owners, addr, i)
  {
  }

  lemma RemoveLoopEnd(hash: HashFunc, r: Ring, addr: Addr, n: int, i: nat)
    requires i == if n > 0 then n else 0
    ensures Release(hash, r.owners, addr, n) == Release(hash, r.owners, addr, i)
    ensures RemoveEach(hash, r.keys, addr, n) == RemoveEach(hash, r.keys, addr, i)
  {
  }

  lemma StepReleases(hash: HashFunc, owners: map<int, Addr>, addr: Addr, i: nat)
    ensures Release(hash, owners, addr, i + 1) == Release(hash, owners, addr, i) - {Position(hash, addr, i) as int}
  {
  }

  lemma StepAdds(hash: HashFunc, keys: seq<int>, addr: Addr, i: nat)
    ensures keys + Positions(hash, addr, i + 1) == keys + Positions(hash, addr, i) + [Position(hash, addr, i) as int]
  {
  }

  lemma StepRemoves(hash: HashFunc, keys: seq<int>, addr: Addr, i: nat)
    requires Sorted(keys)
    ensures RemoveEach(hash, keys, addr, i + 1) == SliceRemove(RemoveEach(hash, keys, addr, i), Position(hash, addr, i))
    ensures Sorted(RemoveEach(hash, keys, addr, i + 1))
  {
    RemoveEachSorted(hash, keys, addr, i + 1);
  }

  /** slice_remove. */
  method RemoveFromSlice(slice: seq<int>, value: int) returns (r: seq<int>)
    requires Sorted(slice)
    ensures r == SliceRemove(slice, value)
  {
    var index := Search(slice, value);
    if index < |slice| && slice[index] == value {
      return slice[..index] + slice[index + 1..];
    }
    return slice;
  }

  class Map {
    const config: Config
    const hash: HashFunc
    const selfAddr: Addr
    var keys: seq<int>
    var hashMap: map<int, Addr>
    var nodeReplicas: map<Addr, int>
    var nodeCounts: map<Addr, int64>
    var selfLoad: int64

    /** The abstract value. */
    ghost function View(): Ring
      reads `keys, `hashMap, `nodeReplicas, `nodeCounts
    {
      Ring(keys, hashMap, nodeReplicas, nodeCounts)
    }

    /** All the ring operations need: the keys are sorted. */
    ghost predicate Valid()
      reads `keys
    {
      Sorted(keys)
    }

    constructor (config: Config, hash: HashFunc, selfAddr: Addr)
      ensures Valid() && View() == EMPTY_RING && selfLoad == 0
      ensures this.config == config && this.hash == hash && this.selfAddr == selfAddr
    {
      this.config, this.hash, this.selfAddr := config, hash, selfAddr;
      keys, hashMap, nodeReplicas, nodeCounts := [], map[], map[], map[];
      selfLoad := 0;
    }

    /** The loop of addNode: append the positions and record their owner. */
    method ClaimPositions(addr: Addr, replicas: int)
      modifies `keys, `hashMap, `nodeCounts
      ensures keys == old(keys) + Positions(hash, addr, replicas)
      ensures hashMap == Claim(hash, old(hashMap), addr, replicas)
      ensures nodeCounts == if replicas > 0 then old(nodeCounts)[addr := 0] else old(nodeCounts)
    {
      ghost var before := View();
      var i := 0;
      while i < replicas
        invariant 0 <= i && (i <= replicas || i == 0)
        invariant keys == before.keys + Positions(hash, addr, i)
        invariant hashMap == Claim(hash, before.owners, addr, i)
        invariant nodeCounts == if i > 0 then before.counts[addr := 0] else before.counts
      {
        var h := Position(hash, addr, i);
        StepAdds(hash, before.keys, addr, i);
        keys := keys + [h as int];
        hashMap := hashMap[h as int := addr];
        nodeCounts := nodeCounts[addr := 0];
        i := i + 1;
      }
      AddLoopEnd(hash, before, addr, replicas, i);
    }

    /** addNode: append the positions, record their owner, and sort once at the end. */
    method AddNode(addr: Addr, replicas: int)
      requires Valid()
      modifies `keys, `hashMap, `nodeReplicas, `nodeCounts
      ensures Valid() && View() == RingModel.AddNode(hash, old(View()), addr, replicas)
    {
      ClaimPositions(addr, replicas);
      nodeReplicas := nodeReplicas[addr := replicas];
      keys := Sort(keys);
    }

    /** The loop of removeNoLock: delete the owner entry and one key for each position. */
    method ReleasePositions(addr: Addr, replicas: int)
      requires Valid()
      modifies `keys, `hashMap
      ensures Valid() && keys == RemoveEach(hash, old(keys), addr, replicas)
      ensures hashMap == Release(hash, old(hashMap), addr, replicas)
    {
      ghost var before := View();
      var i := 0;
      while i < replicas
        invariant 0 <= i && (i <= replicas || i == 0)
        invariant Valid() && keys == RemoveEach(hash, before.keys, addr, i)
        invariant hashMap == Release(hash, before.owners, addr, i)
      {
        var h := Position(hash, addr, i);
        StepRemoves(hash, before.keys, addr, i);
        StepReleases(hash, before.owners, addr, i);
        hashMap := hashMap - {h as int};
        keys := RemoveFromSlice(keys, h);
        i := i + 1;
      }
      RemoveLoopEnd(hash, before, addr, replicas, i);
    }

    /** removeNoLock: give back the member's positions, then forget it. */
    method RemoveNoLock(addr: Addr)
      requires Valid()
      modifies `keys, `hashMap, `nodeReplicas, `nodeCounts
      ensures Valid() && View() == RemoveNode(hash, old(View()), addr)
    {
      var replicas := if addr in nodeReplicas then nodeReplicas[addr] else 0;
      ReleasePositions(addr, replicas);
      nodeReplicas := nodeReplicas - {addr};
      nodeCounts := nodeCounts - {addr};
    }

    /** Add: a member already on the ring is left alone. */
    method Add(addr: Addr)
      requires Valid()
      modifies `keys, `hashMap, `nodeReplicas, `nodeCounts
      ensures Valid() && View() == RingStep(hash, config.default, old(View()), AddOp(addr))
    {
      if addr in nodeReplicas {
        return;
      }
      AddNode(addr, config.default);
    }

    /** Remove: an address not on the ring is ignored. */
    method Remove(addr: Addr)
      requires Valid()
      modifies `keys, `hashMap, `nodeReplicas, `nodeCounts
      ensures Valid() && View() == RingStep(hash, config.default, old(View()), RemoveOp(addr))
    {
      if addr !in nodeReplicas {
        return;
      }
      RemoveNoLock(addr);
    }

    /** rebalanceReplicas: remove everything, then add the new count. */
    method RebalanceReplicas(addr: Addr, newReplicas: int)
      requires Valid()
      modifies `keys, `hashMap, `nodeReplicas, `nodeCounts
      ensures Valid() && View() == RingStep(hash, config.default, old(View()), RebalanceOp(addr, newReplicas))
    {
      RemoveNoLock(addr);
      AddNode(addr, newReplicas);
    }

    /** Get: route the key, and count the hit when it lands on this node. */
    method Get(key: Key) returns (addr: Addr)
      requires Valid()
      modifies `selfLoad
      ensures addr == Route(View(), hash(key))
      ensures selfLoad == if keys != [] && addr == selfAddr then Wrap64(old(selfLoad) + 1) else old(selfLoad)
    {
      if |keys| == 0 {
        return [];
      }
      var h := hash(key);
      var index := Search(keys, h);
      if index == |keys| {
        index := 0;
      }
      addr := OwnerAt(hashMap, keys[index]);
      if addr == selfAddr {
        selfLoad := Wrap64(selfLoad + 1);
      }
    }

    /** The loads added up as 64-bit integers, in whatever order the runtime iterates. */
    method TotalLoad() returns (total: int64)
      ensures total == Wrap64(LoadSum(nodeCounts, nodeCounts.Keys))
    {
      total := 0;
      var rest := nodeCounts.Keys;
      while rest != {}
        invariant rest <= nodeCounts.Keys
        invariant total == Wrap64(LoadSum(nodeCounts, nodeCounts.Keys) - LoadSum(nodeCounts, rest))
        decreases |rest|
      {
        var addr :| addr in rest;
        LoadSumSplit(nodeCounts, rest, addr);
        WrapSum(LoadSum(nodeCounts, nodeCounts.Keys) - LoadSum(nodeCounts, rest), nodeCounts[addr]);
        total := Wrap64(total + nodeCounts[addr]);
        rest := rest - {addr};
      }
    }

    static lemma WrapSum(x: int, y: int)
      ensures Wrap64(Wrap64(x) + y) == Wrap64(x + y)
    {
    }

    /** checkAndRebalance. The runtime picks the order of the iteration: visits is that order. */
    method CheckAndRebalance(visits: seq<Addr>) returns (rebalanced: bool)
      requires Valid() && nodeCounts != map[]
      modifies `keys, `hashMap, `nodeReplicas, `nodeCounts
      ensures Valid()
      ensures var avg := Average(old(nodeCounts));
              if avg == 0 then !rebalanced && View() == old(View())
              else && rebalanced == PassActs(hash, config, old(View()), avg, visits)
                   && View() == Pass(hash, config, old(View()), avg, visits)
    {
      rebalanced := false;
      var total := TotalLoad();
      var avg := TruncDiv(total, |nodeCounts|);
      if avg == 0 {
        return;
      }
      ghost var before := View();
      assert visits[0..] == visits;
      for i := 0 to |visits|
        invariant Valid()
        invariant Pass(hash, config, before, avg, visits) == Pass(hash, config, View(), avg, visits[i..])
        invariant PassActs(hash, config, before, avg, visits) <==>
            rebalanced || PassActs(hash, config, View(), avg, visits[i..])
      {
        assert visits[i..][0] == visits[i] && visits[i..][1..] == visits[i + 1..];
        var flag := VisitNode(visits[i], avg);
        rebalanced := rebalanced || flag;
      }
    }

    /** The body of the rebalancing loop, for an entry that is still there. */
    method VisitNode(addr: Addr, avg: int) returns (flag: bool)
      requires Valid() && avg != 0
      modifies `keys, `hashMap, `nodeReplicas, `nodeCounts
      ensures Valid() && View() == Visit(hash, config, old(View()), avg, addr)
      ensures flag == Acts(config, old(View()), avg, addr)
    {
      flag := false;
      if addr in nodeCounts {
        var replicas := if addr in nodeReplicas then nodeReplicas[addr] else 0;
        var newReplicas;
        flag, newReplicas := Resize(nodeCounts[addr], avg, replicas);
        if flag {
          RebalanceReplicas(addr, newReplicas);
        }
      }
    }

    /** Ten fewer or ten more replicas for a node out of balance, cut off at the bounds. */
    method Resize(val: int64, avg: int, replicas: int) returns (flag: bool, newReplicas: int)
      requires avg != 0
      ensures flag <==> LoadOf(config, val, avg) != Fair
      ensures newReplicas == Target(config, replicas, LoadOf(config, val, avg))
    {
      newReplicas, flag := replicas, false;
      if val as real / avg as real > config.tooBusy {
        newReplicas, flag := replicas - 10, true;
      } else if val as real / avg as real < config.tooIdle {
        newReplicas, flag := replicas + 10, true;
      }
      if newReplicas > config.max {
        newReplicas := config.max;
      }
      if newReplicas < config.min {
        newReplicas := config.min;
      }
    }
  }
}
