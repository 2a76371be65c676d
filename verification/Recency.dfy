/** One cache level as a value: its nodes in recency order, most recent first. */
module Recency {
  import opened Base

  datatype Node = Node(k: Key, v: Value, expireAt: int64) {
    /** A node whose expiry is not positive is a tombstone. */
    predicate Live() { expireAt > 0 }
  }

  type Level = seq<Node>

  ghost predicate Distinct(s: Level) {
    forall i, j :: 0 <= i < j < |s| ==> s[i].k != s[j].k
  }

  /** The position of key k, or |s|. */
  function IndexOf(s: Level, k: Key): (i: nat)
    ensures i <= |s|
    ensures i < |s| ==> s[i].k == k
    ensures forall j :: 0 <= j < i ==> s[j].k != k
  {
    if s == [] then 0
    else if s[0].k == k then 0
    else 1 + IndexOf(s[1..], k)
  }

  predicate Has(s: Level, k: Key) {
    IndexOf(s, k) < |s|
  }

  function At(s: Level, k: Key): Node
    requires Has(s, k)
  {
    s[IndexOf(s, k)]
  }

  predicate HasLive(s: Level, k: Key) {
    Has(s, k) && At(s, k).Live()
  }

  /** Item x takes the front; the item at position pos is gone and the ones before it shift by one. */
  function ToFront<T>(s: seq<T>, pos: nat, x: T): (r: seq<T>)
    requires pos < |s|
    ensures |r| == |s|
    ensures forall i :: 0 <= i < |s| ==> r[i] == (if i == 0 then x else if i <= pos then s[i - 1] else s[i])
  {
    seq(|s|, i requires 0 <= i < |s| => if i == 0 then x else if i <= pos then s[i - 1] else s[i])
  }

  /** Item x takes the back; the item at position pos is gone and the ones after it shift by one. */
  function ToBack<T>(s: seq<T>, pos: nat, x: T): (r: seq<T>)
    requires pos < |s|
    ensures |r| == |s|
    ensures forall i :: 0 <= i < |s| ==> r[i] == (if i < pos then s[i] else if i < |s| - 1 then s[i + 1] else x)
  {
    seq(|s|, i requires 0 <= i < |s| => if i < pos then s[i] else if i < |s| - 1 then s[i + 1] else x)
  }

  /** put: move or insert to the front; in a full level the last node is overwritten. */
  function Put(s: Level, cap: nat, n: Node): Level {
    if Has(s, n.k) then ToFront(s, IndexOf(s, n.k), n)
    else if |s| == cap && cap > 0 then ToFront(s, |s| - 1, n)
    else [n] + s
  }

  /** The eviction callback of put fires for a live node that is overwritten. */
  function PutReports(s: Level, cap: nat, k: Key): seq<Report> {
    if !Has(s, k) && |s| == cap && cap > 0 && s[|s| - 1].Live()
    then [Report(s[|s| - 1].k, s[|s| - 1].v)] else []
  }

  /** get: move to the front, tombstone or not. */
  function Touch(s: Level, k: Key): Level {
    if Has(s, k) then ToFront(s, IndexOf(s, k), At(s, k)) else s
  }

  /** del: tombstone a live node and move it to the back. */
  function Del(s: Level, k: Key): Level {
    if HasLive(s, k) then ToBack(s, IndexOf(s, k), At(s, k).(expireAt := 0)) else s
  }

  /** The nodes walk visits: the live ones, head to tail. */
  function LiveNodes(s: Level): (r: Level)
    ensures |r| <= |s|
  {
    if s == [] then []
    else (if s[0].Live() then [s[0]] else []) + LiveNodes(s[1..])
  }

  /** What walk shows a walker that may stop early: the live nodes up to and including the first refusal. */
  function Walked(s: Level, walker: Node -> bool): Level {
    if s == [] then []
    else if !s[0].Live() then Walked(s[1..], walker)
    else if walker(s[0]) then [s[0]] + Walked(s[1..], walker)
    else [s[0]]
  }

  // ---------------------------------------------------------------------
  // What each operation does to every key
  // ---------------------------------------------------------------------

  lemma IndexUnique(s: Level, i: nat)
    requires Distinct(s) && i < |s|
    ensures IndexOf(s, s[i].k) == i
  {
  }

  /** Two keys in one level are found at different nodes; the node found carries its key. */
  lemma FoundAt(s: Level, k: Key, i: nat)
    requires Distinct(s) && i < |s| && s[i].k == k
    ensures Has(s, k) && At(s, k) == s[i] && IndexOf(s, k) == i
  {
    IndexUnique(s, i);
  }

  lemma NotFound(s: Level, k: Key)
    requires forall i :: 0 <= i < |s| ==> s[i].k != k
    ensures !Has(s, k)
  {
  }

  /** Moving to the front. The node at position p leaves, n arrives. */
  lemma FrontAt(s: Level, n: Node, p: nat, k: Key)
    requires Distinct(s) && p < |s|
    requires s[p].k == n.k || !Has(s, n.k)
    ensures var s' := ToFront(s, p, n);
            && Distinct(s')
            && IndexOf(s', n.k) == 0
            && (k != n.k && k == s[p].k ==> !Has(s', k))
            && (k != n.k && k != s[p].k ==>
                  && (Has(s', k) <==> Has(s, k))
                  && (Has(s, k) ==>
                        && At(s', k) == At(s, k)
                        && IndexOf(s', k) == IndexOf(s, k) + (if IndexOf(s, k) < p then 1 else 0)))
  {
    var s', i := ToFront(s, p, n), IndexOf(s, k);
    FrontDistinct(s, n, p);
    if k == n.k {
    } else if i < |s| && i != p {
      FoundAt(s', k, if i < p then i + 1 else i);
    } else {
      if i == p { Only(s, p); }
      NotFound(s', k);
    }
  }

  lemma Only(s: Level, p: nat)
    requires Distinct(s) && p < |s|
    ensures forall j :: 0 <= j < |s| && j != p ==> s[j].k != s[p].k
  {
  }

  lemma FrontDistinct(s: Level, n: Node, p: nat)
    requires Distinct(s) && p < |s|
    requires s[p].k == n.k || !Has(s, n.k)
    ensures Distinct(ToFront(s, p, n))
  {
    assert forall j :: 0 <= j < |s| && j != p ==> s[j].k != n.k;
  }

  /** Inserting at the front of a level that is not full. */
  lemma Inserted(s: Level, n: Node, k: Key)
    requires Distinct(s) && !Has(s, n.k)
    ensures var s' := [n] + s;
            && Distinct(s')
            && IndexOf(s', n.k) == 0
            && (k != n.k ==>
                  && (Has(s', k) <==> Has(s, k))
                  && (Has(s, k) ==> At(s', k) == At(s, k) && IndexOf(s', k) == IndexOf(s, k) + 1))
  {
    var s' := [n] + s;
    if k != n.k && Has(s, k) {
      FoundAt(s', k, IndexOf(s, k) + 1);
    } else if k != n.k {
      NotFound(s', k);
    }
  }

  /** put, key by key: the key written is at the front, only a full level's last key is lost,
      nothing else changes, and a key moves back by at most one place. */
  lemma PutAt(s: Level, cap: nat, n: Node, k: Key)
    requires Distinct(s) && |s| <= cap && cap > 0
    ensures var s' := Put(s, cap, n);
            && Distinct(s') && |s'| <= cap && |s| <= |s'|
            && s'[0] == n && IndexOf(s', n.k) == 0 && Has(s', n.k) && At(s', n.k) == n
            && (k != n.k ==>
                  if !Has(s, n.k) && |s| == cap && s[|s| - 1].k == k
                  then !Has(s', k)
                  else
                    && (Has(s', k) <==> Has(s, k))
                    && (Has(s', k) ==> At(s', k) == At(s, k) && IndexOf(s', k) <= IndexOf(s, k) + 1))
  {
    if Has(s, n.k) {
      FrontAt(s, n, IndexOf(s, n.k), k);
    } else if |s| == cap {
      FrontAt(s, n, |s| - 1, k);
    } else {
      Inserted(s, n, k);
    }
  }

  /** get, key by key: every key keeps its node, and moves back by at most one place. */
  lemma TouchAt(s: Level, t: Key, k: Key)
    requires Distinct(s)
    ensures var s' := Touch(s, t);
            && Distinct(s') && |s'| == |s|
            && (Has(s', k) <==> Has(s, k))
            && (Has(s, k) ==> At(s', k) == At(s, k) && (k != t ==> IndexOf(s', k) <= IndexOf(s, k) + 1))
            && (Has(s, t) ==> s'[0] == At(s, t))
  {
    if Has(s, t) {
      FrontAt(s, At(s, t), IndexOf(s, t), k);
    }
  }

  /** Moving to the back, with a new value and expiry. */
  lemma BackAt(s: Level, n: Node, p: nat, k: Key)
    requires Distinct(s) && p < |s| && s[p].k == n.k
    ensures var s' := ToBack(s, p, n);
            && Distinct(s')
            && IndexOf(s', n.k) == |s| - 1
            && (k != n.k ==>
                  && (Has(s', k) <==> Has(s, k))
                  && (Has(s, k) ==>
                        && At(s', k) == At(s, k)
                        && IndexOf(s', k) == IndexOf(s, k) - (if IndexOf(s, k) > p then 1 else 0)))
  {
    var s', i := ToBack(s, p, n), IndexOf(s, k);
    BackDistinct(s, n, p);
    FoundAt(s', n.k, |s| - 1);
    if k == n.k {
    } else if i < |s| {
      FoundAt(s', k, if i < p then i else i - 1);
    } else {
      NotFound(s', k);
    }
  }

  lemma BackDistinct(s: Level, n: Node, p: nat)
    requires Distinct(s) && p < |s| && s[p].k == n.k
    ensures Distinct(ToBack(s, p, n))
  {
    Only(s, p);
  }

  /** del, key by key: the key deleted keeps a tombstone at the back, other keys keep their node
      and never move back. */
  lemma DelAt(s: Level, d: Key, k: Key)
    requires Distinct(s)
    ensures var s' := Del(s, d);
            && |s'| == |s| && Distinct(s')
            && (Has(s', k) <==> Has(s, k))
            && (Has(s, k) && k != d ==> At(s', k) == At(s, k) && IndexOf(s', k) <= IndexOf(s, k))
            && !HasLive(s', d)
            && (Has(s', d) <==> Has(s, d))
            && (Has(s, d) ==> At(s', d).k == d && At(s', d).v == At(s, d).v)
            && (HasLive(s, d) ==> s'[|s| - 1] == At(s, d).(expireAt := 0))
  {
    if HasLive(s, d) {
      BackAt(s, At(s, d).(expireAt := 0), IndexOf(s, d), k);
    }
  }

  /** Two keys that both levels hold are in the same order in both. */
  ghost predicate SameOrder(s: Level, s': Level, a: Key, b: Key) {
    Has(s, a) && Has(s, b) && Has(s', a) && Has(s', b) ==>
      (IndexOf(s', a) < IndexOf(s', b) <==> IndexOf(s, a) < IndexOf(s, b))
  }

  /** put, get and del move one key: any two others stay in their order. */
  lemma OrderKept(s: Level, cap: nat, n: Node, a: Key, b: Key)
    requires Distinct(s) && |s| <= cap && cap > 0 && a != n.k && b != n.k
    ensures SameOrder(s, Put(s, cap, n), a, b)
    ensures SameOrder(s, Touch(s, n.k), a, b)
    ensures SameOrder(s, Del(s, n.k), a, b)
  {
    PutOrder(s, cap, n, a, b);
    TouchOrder(s, n.k, a, b);
    DelOrder(s, n.k, a, b);
  }

  lemma TouchOrder(s: Level, t: Key, a: Key, b: Key)
    requires Distinct(s) && a != t && b != t
    ensures SameOrder(s, Touch(s, t), a, b)
  {
    if Has(s, t) {
      FrontAt(s, At(s, t), IndexOf(s, t), a);
      FrontAt(s, At(s, t), IndexOf(s, t), b);
    }
  }

  lemma DelOrder(s: Level, d: Key, a: Key, b: Key)
    requires Distinct(s) && a != d && b != d
    ensures SameOrder(s, Del(s, d), a, b)
  {
    if HasLive(s, d) {
      BackAt(s, At(s, d).(expireAt := 0), IndexOf(s, d), a);
      BackAt(s, At(s, d).(expireAt := 0), IndexOf(s, d), b);
    }
  }

  lemma PutOrder(s: Level, cap: nat, n: Node, a: Key, b: Key)
    requires Distinct(s) && |s| <= cap && cap > 0 && a != n.k && b != n.k
    ensures SameOrder(s, Put(s, cap, n), a, b)
  {
    if Has(s, n.k) || |s| == cap {
      var p := if Has(s, n.k) then IndexOf(s, n.k) else |s| - 1;
      FrontAt(s, n, p, a);
      FrontAt(s, n, p, b);
    } else {
      Inserted(s, n, a);
      Inserted(s, n, b);
    }
  }

  /** put reports the live node it overwrites, if any: the one whose key it drops. */
  lemma PutReportsIff(s: Level, cap: nat, n: Node, r: Report)
    requires Distinct(s) && |s| <= cap && cap > 0
    ensures |PutReports(s, cap, n.k)| <= 1
    ensures r in PutReports(s, cap, n.k) <==>
              HasLive(s, r.key) && !Has(Put(s, cap, n), r.key) && r.value == At(s, r.key).v
  {
    PutAt(s, cap, n, r.key);
    if !Has(s, n.k) && |s| == cap { FoundAt(s, s[|s| - 1].k, |s| - 1); }
  }

  // ---------------------------------------------------------------------
  // walk
  // ---------------------------------------------------------------------

  /** walk shows exactly the live nodes: each of them, once. */
  lemma {:induction false} LiveNodesExact(s: Level)
    requires Distinct(s)
    ensures Distinct(LiveNodes(s))
    ensures forall n :: n in LiveNodes(s) <==> n in s && n.Live()
  {
    if s != [] {
      LiveNodesExact(s[1..]);
      assert s == [s[0]] + s[1..];
      forall i, j | 0 <= i < j < |LiveNodes(s)| ensures LiveNodes(s)[i].k != LiveNodes(s)[j].k {
        var r := LiveNodes(s[1..]);
        if s[0].Live() {
          assert r[j - 1] in s[1..];
        }
      }
    }
  }

  /** And from head to tail. */
  lemma {:induction false} LiveNodesInOrder(s: Level, i: nat, j: nat)
    requires Distinct(s) && i < j < |LiveNodes(s)|
    ensures IndexOf(s, LiveNodes(s)[i].k) < IndexOf(s, LiveNodes(s)[j].k) < |s|
  {
    LiveNodesExact(s[1..]);
    if !s[0].Live() {
      LiveInTail(s, i, i);
      LiveInTail(s, j, j);
      LiveNodesInOrder(s[1..], i, j);
    } else {
      LiveInTail(s, j, j - 1);
      if i > 0 {
        LiveInTail(s, i, i - 1);
        LiveNodesInOrder(s[1..], i - 1, j - 1);
      }
    }
  }

  /** A live node behind the head. */
  lemma LiveInTail(s: Level, i: nat, m: nat)
    requires Distinct(s) && i < |LiveNodes(s)| && i == if s[0].Live() then m + 1 else m
    ensures m < |LiveNodes(s[1..])| && LiveNodes(s)[i] == LiveNodes(s[1..])[m]
    ensures IndexOf(s, LiveNodes(s)[i].k) == IndexOf(s[1..], LiveNodes(s)[i].k) + 1
    ensures IndexOf(s, LiveNodes(s)[i].k) < |s|
  {
    LiveNodesExact(s[1..]);
    assert LiveNodes(s[1..])[m] in s[1..];
    FoundBehind(s, LiveNodes(s[1..])[m]);
  }

  lemma FoundBehind(s: Level, n: Node)
    requires Distinct(s) && s != [] && n in s[1..]
    ensures IndexOf(s, n.k) == IndexOf(s[1..], n.k) + 1 && IndexOf(s, n.k) < |s|
  {
    InLevel(s[1..], n);
  }

  /** walk shows the live nodes in that order, up to and including the first one the walker refuses. */
  lemma {:induction false} WalkedIs(s: Level, walker: Node -> bool)
    ensures Walked(s, walker) <= LiveNodes(s)
    ensures forall i :: 0 <= i < |Walked(s, walker)| - 1 ==> walker(Walked(s, walker)[i])
    ensures var w := Walked(s, walker); w == LiveNodes(s) || (w != [] && !walker(w[|w| - 1]))
  {
    if s != [] { WalkedIs(s[1..], walker); }
  }

  /** A walker that never refuses sees every live node. */
  lemma {:induction false} WalkedAll(s: Level, walker: Node -> bool)
    requires forall n :: walker(n)
    ensures Walked(s, walker) == LiveNodes(s)
  {
    if s != [] { WalkedAll(s[1..], walker); }
  }

  lemma InLevel(s: Level, n: Node)
    requires Distinct(s)
    ensures n in s <==> Has(s, n.k) && At(s, n.k) == n
  {
    if n in s {
      var i :| 0 <= i < |s| && s[i] == n;
      FoundAt(s, n.k, i);
    }
  }
}
