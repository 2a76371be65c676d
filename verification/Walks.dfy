/** Where a request goes when the nodes pick on their own: with rings that need not agree, it is answered if
    and only if the walk of picks comes to a node that picks itself or nobody. */
module Walks {
  import opened Base
  import opened RingModel
  import opened Network
  import Node = Server

  /** What each node picks for one key. */
  type Picks = map<Addr, Addr>

  /** The node keeps the request, or has nowhere to send it. */
  predicate Ends(picks: Picks, a: Addr)
    requires a in picks
  {
    picks[a] == [] || picks[a] == a
  }

  /** Every pick is one of the nodes. */
  ghost predicate Closed(picks: Picks) {
    forall a :: a in picks && !Ends(picks, a) ==> picks[a] in picks
  }

  /** Where a request at node a is after n forwards; where it ends it stays. */
  ghost function Walk(picks: Picks, a: Addr, n: nat): (b: Addr)
    requires Closed(picks) && a in picks
    ensures b in picks
    decreases n
  {
    if n == 0 || Ends(picks, a) then a else Walk(picks, picks[a], n - 1)
  }

  // ---------------------------------------------------------------------
  // A walk ends within as many forwards as there are nodes, or never
  // ---------------------------------------------------------------------

  lemma {:induction false} WalkOn(picks: Picks, a: Addr, n: nat, m: nat)
    requires Closed(picks) && a in picks
    ensures Walk(picks, a, n + m) == Walk(picks, Walk(picks, a, n), m)
    decreases n
  {
    if n > 0 && !Ends(picks, a) { WalkOn(picks, picks[a], n - 1, m); }
  }

  /** A walk that comes back to a node it has been at comes back again and again. */
  lemma {:induction false} Circles(picks: Picks, a: Addr, i: nat, j: nat, n: nat)
    requires Closed(picks) && a in picks && i < j && Walk(picks, a, i) == Walk(picks, a, j)
    requires !Ends(picks, Walk(picks, a, j))
    ensures !Ends(picks, Walk(picks, a, n))
  {
    if n <= j {
      WalkOn(picks, a, n, j - n);
    } else {
      Circles(picks, a, i, j, n - (j - i));
      WalkOn(picks, a, j, n - j);
      WalkOn(picks, a, i, n - j);
    }
  }

  lemma {:induction false} OnceSize(s: seq<Addr>, all: set<Addr>)
    requires Once(s) && forall x :: x in s ==> x in all
    ensures |s| <= |all|
  {
    if s != [] {
      var n := |s| - 1;
      var rest := all - {s[n]};
      assert s[n] in s && |rest| == |all| - 1;
      forall x | x in s[..n] ensures x in rest {
        var i :| 0 <= i < n && s[i] == x;
      }
      OnceSize(s[..n], rest);
    }
  }

  /** Some node is visited twice in as many forwards as there are nodes. */
  lemma Returns(picks: Picks, a: Addr) returns (i: nat, j: nat)
    requires Closed(picks) && a in picks
    ensures i < j <= |picks| && Walk(picks, a, i) == Walk(picks, a, j)
  {
    var s := seq(|picks| + 1, k requires 0 <= k => Walk(picks, a, k));
    assert |picks.Keys| == |picks|;
    if Once(s) { OnceSize(s, picks.Keys); }
    i, j :| 0 <= i < j < |s| && s[i] == s[j];
  }

  /** A walk that ends at all has ended after as many forwards as there are nodes. */
  lemma EndsSoon(picks: Picks, a: Addr, n: nat)
    requires Closed(picks) && a in picks && Ends(picks, Walk(picks, a, n))
    ensures Ends(picks, Walk(picks, a, |picks|))
  {
    var i, j := Returns(picks, a);
    if Ends(picks, Walk(picks, a, j)) {
      WalkOn(picks, a, j, |picks| - j);
    } else {
      Circles(picks, a, i, j, n);
    }
  }

  // ---------------------------------------------------------------------
  // Requests
  // ---------------------------------------------------------------------

  /** Nodes that serve and are connected pairwise, and whose picks for the key are nodes, if anybody. The
      rings need not agree. */
  ghost predicate Connected(net: Net, key: Key)
    reads *
  {
    && (forall a {:trigger Serving(net, a)} :: a in net.nodes ==> Serving(net, a))
    && (forall a, b {:trigger Apart(net.nodes[a], net.nodes[b])} ::
          a in net.nodes && b in net.nodes && a != b ==> Apart(net.nodes[a], net.nodes[b]))
    && (forall a :: a in net.nodes ==> net.nodes[a].Pick(key) == [] || net.nodes[a].Pick(key) in net.nodes)
  }

  ghost function PicksOf(net: Net, key: Key): Picks
    reads *
  {
    map a | a in net.nodes :: net.nodes[a].Pick(key)
  }

  /** What forwarding needs of that: each node's pick is as listed, and is a peer or where the walk ends. */
  ghost predicate Passable(net: Net, key: Key, picks: Picks)
    reads *
  {
    && picks.Keys == net.nodes.Keys && Closed(picks)
    && (forall a {:trigger Sends(net, key, picks, a)} :: a in net.nodes ==> Sends(net, key, picks, a))
    && (forall a, b {:trigger Beside(net, a, b)} :: a in net.nodes && b in net.nodes ==> Beside(net, a, b))
  }

  ghost predicate Sends(net: Net, key: Key, picks: Picks, a: Addr)
    requires a in net.nodes && a in picks
    reads *
  {
    var n := net.nodes[a];
    && n.selfAddr == a && n.ring.Valid() && n.Pick(key) == picks[a]
    && (!Ends(picks, a) ==> picks[a] in net.nodes && picks[a] in n.peers && n.peers[picks[a]] == net.nodes[picks[a]])
  }

  ghost predicate Beside(net: Net, a: Addr, b: Addr)
    requires a in net.nodes && b in net.nodes
    reads *
  {
    net.nodes[a].ring !in net.nodes[b].cache.Repr && net.nodes[a].ring !in net.nodes[b].flight.Repr
  }

  lemma ConnectedPassable(net: Net, key: Key)
    requires Connected(net, key)
    ensures Passable(net, key, PicksOf(net, key))
  {
    var picks := PicksOf(net, key);
    forall a | a in net.nodes ensures Sends(net, key, picks, a) {
      assert Serving(net, a);
      if !Ends(picks, a) { assert Apart(net.nodes[a], net.nodes[picks[a]]) && Serving(net, picks[a]); }
    }
    forall a, b | a in net.nodes && b in net.nodes ensures Beside(net, a, b) {
      assert Serving(net, b) && (a != b ==> Apart(net.nodes[a], net.nodes[b]));
    }
  }

  /** A walk that ends is the way of a request. */
  lemma {:induction false} Reach(net: Net, key: Key, picks: Picks, a: Addr, n: nat)
      returns (path: seq<Node.Server>, owner: Node.Server)
    requires Passable(net, key, picks) && a in net.nodes && Ends(picks, Walk(picks, a, n))
    ensures owner == net.nodes[Walk(picks, a, n)] && net.nodes[a].Reaches(key, path, owner)
    decreases n
  {
    assert Sends(net, key, picks, a) && Beside(net, a, Walk(picks, a, n));
    if n == 0 || Ends(picks, a) {
      path, owner := [net.nodes[a]], net.nodes[a];
    } else {
      var rest;
      rest, owner := Reach(net, key, picks, picks[a], n - 1);
      path := [net.nodes[a]] + rest;
      assert path[1..] == rest;
    }
  }

  /** The way of a request is a walk that ends. */
  lemma {:induction false} ReachedWalk(net: Net, key: Key, picks: Picks, a: Addr, path: seq<Node.Server>,
      owner: Node.Server)
    requires Passable(net, key, picks) && a in net.nodes && net.nodes[a].Reaches(key, path, owner)
    ensures |path| > 0 && Ends(picks, Walk(picks, a, |path| - 1))
    decreases |path|
  {
    assert Sends(net, key, picks, a);
    if |path| > 1 {
      assert !Ends(picks, a);
      ReachedWalk(net, key, picks, picks[a], path[1..], owner);
    }
  }

  /** A request that is answered is answered after at most as many forwards as there are nodes. */
  lemma ReachedSoon(net: Net, key: Key, picks: Picks, a: Addr, path: seq<Node.Server>, owner: Node.Server)
    requires Passable(net, key, picks) && a in net.nodes && net.nodes[a].Reaches(key, path, owner)
    ensures Ends(picks, Walk(picks, a, |net.nodes|))
  {
    SameSize(net, picks);
    ReachedWalk(net, key, picks, a, path, owner);
    EndsSoon(picks, a, |path| - 1);
  }

  lemma SameSize(net: Net, picks: Picks)
    requires picks.Keys == net.nodes.Keys
    ensures |picks| == |net.nodes|
  {
    assert |picks.Keys| == |picks| && |net.nodes.Keys| == |net.nodes|;
  }

  /** A request at node a has a way to a node that answers it if and only if the walk of picks has ended after
      as many forwards as there are nodes; otherwise it goes round in a circle for ever. The way returned is
      one if there is any: p and o stand for any other. */
  lemma AnsweredIff(net: Net, key: Key, a: Addr, p: seq<Node.Server>, o: Node.Server)
    returns (path: seq<Node.Server>, owner: Node.Server)
    requires Connected(net, key) && a in net.nodes
    ensures var picks := PicksOf(net, key);
            && Passable(net, key, picks)
            && (net.nodes[a].Reaches(key, path, owner) <==> Ends(picks, Walk(picks, a, |net.nodes|)))
            && (net.nodes[a].Reaches(key, p, o) ==> Ends(picks, Walk(picks, a, |net.nodes|)))
  {
    var picks := PicksOf(net, key);
    ConnectedPassable(net, key);
    if net.nodes[a].Reaches(key, p, o) { ReachedSoon(net, key, picks, a, p, o); }
    if Ends(picks, Walk(picks, a, |net.nodes|)) {
      path, owner := Reach(net, key, picks, a, |net.nodes|);
    } else {
      path, owner := [], o;
    }
  }
}
