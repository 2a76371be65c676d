/** The array implementation of one level: nodes in slots, a doubly linked list threaded through
    an array of indices with slot 0 as its sentinel, and an index from keys to slots. */
module ArrayCache {
  import opened Base
  import opened Recency

  /** Column of `dlnk` holding the predecessor. */
  const P := 0
  /** Column of `dlnk` holding the successor. */
  const N := 1

  /** The list seen as a circle through the sentinel: positions -1 and |o| are slot 0. */
  function Slot(o: seq<uint16>, i: int): uint16 {
    if 0 <= i < |o| then o[i] else 0
  }

  function Rev<T>(o: seq<T>): (r: seq<T>)
    ensures |r| == |o|
    ensures forall i :: 0 <= i < |o| ==> r[i] == o[|o| - 1 - i]
  {
    seq(|o|, i requires 0 <= i < |o| => o[|o| - 1 - i])
  }

  /** The key stored in slot x. */
  ghost function KeyOf(ms: seq<Node>, x: int): Key
    requires 1 <= x <= |ms|
  {
    ms[x - 1].k
  }

  /** The index and the nodes in slots 1..last are inverse to each other. */
  ghost predicate Indexes(hmap: map<Key, uint16>, ms: seq<Node>, last: nat)
    requires last <= |ms|
  {
    && (forall k :: k in hmap ==> 1 <= hmap[k] <= last && KeyOf(ms, hmap[k]) == k)
    && (forall x {:trigger KeyOf(ms, x)} :: 1 <= x <= last ==> KeyOf(ms, x) in hmap && hmap[KeyOf(ms, x)] == x)
  }

  /** Rewriting a node under the same key keeps the index right. */
  lemma IndexesKept(hmap: map<Key, uint16>, ms: seq<Node>, last: nat, j: nat, n: Node)
    requires last <= |ms| && Indexes(hmap, ms, last) && j < last && ms[j].k == n.k
    ensures Indexes(hmap, ms[j := n], last)
  {
    var ms' := ms[j := n];
    forall x | 1 <= x <= last ensures KeyOf(ms', x) == KeyOf(ms, x) {
      assert ms'[x - 1].k == ms[x - 1].k;
    }
  }

  lemma KeysAfter(ms: seq<Node>, x: int, n: Node)
    requires 1 <= x <= |ms|
    ensures forall y {:trigger KeyOf(ms[x - 1 := n], y)} :: 1 <= y <= |ms| ==>
      KeyOf(ms[x - 1 := n], y) == (if y == x then n.k else KeyOf(ms, y))
  {
    var ms' := ms[x - 1 := n];
    forall y | 1 <= y <= |ms| ensures KeyOf(ms', y) == (if y == x then n.k else KeyOf(ms, y)) {
      assert ms'[y - 1] == if y == x then n else ms[y - 1];
    }
  }

  /** Giving a slot to another key. */
  lemma IndexesReplaced(hmap: map<Key, uint16>, ms: seq<Node>, last: nat, x: uint16, n: Node)
    requires last <= |ms| && Indexes(hmap, ms, last) && 1 <= x <= last && n.k !in hmap
    ensures Indexes((hmap - {ms[x - 1].k})[n.k := x], ms[x - 1 := n], last)
  {
    assert KeyOf(ms, x) in hmap;
    KeysAfter(ms, x, n);
  }

  /** Giving the next slot to a key. */
  lemma IndexesGrown(hmap: map<Key, uint16>, ms: seq<Node>, x: uint16, n: Node)
    requires 1 <= x <= |ms| && Indexes(hmap, ms, x - 1) && n.k !in hmap
    ensures Indexes(hmap[n.k := x], ms[x - 1 := n], x)
  {
    KeysAfter(ms, x, n);
  }

  /** Each node of the contents is the one in the slot listed at its position. */
  ghost predicate Agree(ms: seq<Node>, o: seq<uint16>, s: Level) {
    && |s| == |o|
    && forall i :: 0 <= i < |o| ==> 1 <= o[i] <= |ms| && s[i] == ms[o[i] - 1]
  }

  lemma AgreeFront(ms: seq<Node>, o: seq<uint16>, s: Level, pos: nat)
    requires Agree(ms, o, s) && pos < |o|
    ensures Agree(ms, ToFront(o, pos, o[pos]), ToFront(s, pos, s[pos]))
  {
  }

  lemma AgreeBack(ms: seq<Node>, o: seq<uint16>, s: Level, pos: nat)
    requires Agree(ms, o, s) && pos < |o|
    ensures Agree(ms, ToBack(o, pos, o[pos]), ToBack(s, pos, s[pos]))
  {
  }

  /** Rewriting the slot at position pos. */
  lemma AgreeUpdate(ms: seq<Node>, o: seq<uint16>, s: Level, pos: nat, n: Node)
    requires Agree(ms, o, s) && pos < |o|
    requires forall i, j :: 0 <= i < j < |o| ==> o[i] != o[j]
    ensures Agree(ms[o[pos] - 1 := n], o, s[pos := n])
    ensures ToFront(s[pos := n], pos, n) == ToFront(s, pos, n)
    ensures ToBack(s[pos := n], pos, n) == ToBack(s, pos, n)
  {
  }

  class Cache {
    const dlnk: array2<uint16>
    const m: array<Node>
    var hmap: map<Key, uint16>
    var last: uint16
    /** The slots in use, most recent first. */
    ghost var order: seq<uint16>
    /** The abstract value: the nodes in recency order. */
    ghost var contents: Level

    ghost function Repr(): set<object> {
      {this, dlnk, m}
    }

    /** One link of the circle: column t leads from position i to i+1, and column f back. */
    ghost predicate Link(o: seq<uint16>, i: int, f: nat, t: nat)
      requires f < 2 && t < 2 && dlnk.Length1 == 2
      reads dlnk
    {
      && Slot(o, i) < dlnk.Length0 && Slot(o, i + 1) < dlnk.Length0
      && dlnk[Slot(o, i), t] == Slot(o, i + 1)
      && dlnk[Slot(o, i + 1), f] == Slot(o, i)
    }

    /** Following column t from slot 0 runs through o and back to slot 0; column f is its inverse. */
    ghost predicate Chained(o: seq<uint16>, f: nat, t: nat)
      requires f < 2 && t < 2 && dlnk.Length1 == 2
      reads dlnk
    {
      forall i :: -1 <= i < |o| ==> Link(o, i, f, t)
    }

    /** A listing of the slots 1..count, each once. */
    static ghost predicate Lists(o: seq<uint16>, count: nat) {
      && |o| == count
      && (forall i :: 0 <= i < |o| ==> 1 <= o[i] <= count)
      && (forall x: uint16 :: 1 <= x <= count ==> x in o)
      && (forall i, j :: 0 <= i < j < |o| ==> o[i] != o[j])
    }

    ghost predicate Sized() {
      && 1 <= m.Length < 0xFFFF
      && dlnk.Length0 == m.Length + 1 && dlnk.Length1 == 2
    }

    /** The list threads the slots in use, in recency order. */
    ghost predicate Threaded()
      requires dlnk.Length1 == 2
      reads `order, `last, dlnk
    {
      Lists(order, last) && Chained(order, P, N)
    }

    ghost predicate Valid()
      reads this, dlnk, m
    {
      Sized() && last <= m.Length && Threaded() && Indexes(hmap, m[..], last) && Agree(m[..], order, contents)
    }

    /** Create: every slot free, all links zero. */
    constructor (cap: uint16)
      requires 1 <= cap < 0xFFFF
      ensures Valid() && contents == [] && m.Length == cap
      ensures fresh(this) && fresh(dlnk) && fresh(m)
    {
      dlnk := new uint16[cap + 1, 2]((i, j) => 0);
      m := new Node[cap](i => Node([], Nil, 0));
      hmap := map[];
      last := 0;
      order := [];
      contents := [];
    }

    /** The links of adjust: the neighbours of slot idx are joined, and idx goes between the sentinel and
        the slot first in column t. */
    method Splice(idx: uint16, f: nat, t: nat, ghost a: uint16, ghost b: uint16, ghost h: uint16)
      requires f < 2 && t < 2 && f != t && dlnk.Length1 == 2
      requires idx < dlnk.Length0 && a < dlnk.Length0 && b < dlnk.Length0 && h < dlnk.Length0
      requires a == dlnk[idx, f] && b == dlnk[idx, t] && h == dlnk[0, t]
      requires idx != 0 && a != 0 && h != 0 && idx != a && idx != b && idx != h && b != h
      modifies dlnk
      ensures forall x :: 0 <= x < dlnk.Length0 ==>
        dlnk[x, t] == if x == a then b else if x == idx then h else if x == 0 then idx else old(dlnk[x, t])
      ensures forall x :: 0 <= x < dlnk.Length0 ==>
        dlnk[x, f] == if x == b then a else if x == idx then 0 else if x == h then idx else old(dlnk[x, f])
    {
      dlnk[dlnk[idx, t], f] := dlnk[idx, f];
      dlnk[dlnk[idx, f], t] := dlnk[idx, t];
      dlnk[idx, f] := 0;
      dlnk[idx, t] := dlnk[0, t];
      dlnk[dlnk[0, t], f] := idx;
      dlnk[0, t] := idx;
    }

    /** adjust: unlink slot idx and relink it next to the sentinel, on the side column t leaves from.
        With (p, n) that is the front of the list, with (n, p) its back. */
    method Adjust(idx: uint16, f: nat, t: nat, ghost o: seq<uint16>, ghost pos: nat)
      requires f < 2 && t < 2 && f != t && dlnk.Length1 == 2
      requires pos < |o| && o[pos] == idx
      requires forall i :: 0 <= i < |o| ==> 1 <= o[i] < dlnk.Length0
      requires forall i, j :: 0 <= i < j < |o| ==> o[i] != o[j]
      requires Chained(o, f, t)
      modifies dlnk
      ensures Chained(ToFront(o, pos, idx), f, t)
    {
      assert Link(o, pos - 1, f, t) && Link(o, pos, f, t) && Link(o, -1, f, t);
      if dlnk[idx, f] != 0 {
        Splice(idx, f, t, Slot(o, pos - 1), Slot(o, pos + 1), o[0]);
        Spliced(o, pos, f, t);
      } else {
        assert pos == 0;
        assert ToFront(o, pos, idx) == o;
      }
    }

    /** Splicing the slot at position pos to the front leaves the list threaded. */
    twostate lemma Spliced(new o: seq<uint16>, new pos: nat, new f: nat, new t: nat)
      requires f < 2 && t < 2 && f != t && dlnk.Length1 == 2 && 0 < pos < |o|
      requires forall i :: 0 <= i < |o| ==> 1 <= o[i] < dlnk.Length0
      requires forall i, j :: 0 <= i < j < |o| ==> o[i] != o[j]
      requires old(Chained(o, f, t)) && 0 < dlnk.Length0
      requires forall x :: 0 <= x < dlnk.Length0 ==>
        dlnk[x, t] == if x == Slot(o, pos - 1) then Slot(o, pos + 1) else if x == o[pos] then o[0]
                      else if x == 0 then o[pos] else old(dlnk[x, t])
      requires forall x :: 0 <= x < dlnk.Length0 ==>
        dlnk[x, f] == if x == Slot(o, pos + 1) then Slot(o, pos - 1) else if x == o[pos] then 0
                      else if x == o[0] then o[pos] else old(dlnk[x, f])
      ensures Chained(ToFront(o, pos, o[pos]), f, t)
    {
      var o' := ToFront(o, pos, o[pos]);
      forall i | -1 <= i < |o'| ensures Link(o', i, f, t) {
        assert old(Link(o, if i <= 0 then 0 else if i < pos then i - 1 else i, f, t));
        assert i < pos ==> old(Link(o, i, f, t));
      }
    }

    lemma ContentsDistinct()
      requires Valid()
      ensures Distinct(contents)
    {
      var s := contents;
      forall i, j | 0 <= i < j < |s| ensures s[i].k != s[j].k {
        assert order[i] != order[j];
        assert s[i].k == KeyOf(m[..], order[i]) && s[j].k == KeyOf(m[..], order[j]);
      }
    }

    /** A key in the index is at the position of its slot. */
    lemma Position(key: Key) returns (pos: nat)
      requires Valid() && key in hmap
      ensures Has(contents, key)
      ensures pos < |order| && order[pos] == hmap[key]
      ensures IndexOf(contents, key) == pos && contents[pos] == m[hmap[key] - 1]
    {
      ContentsDistinct();
      var s := contents;
      pos := PositionOf(order, last, hmap[key]);
      FoundAt(s, key, pos);
    }

    /** A key that is not in the index is not in the contents. */
    lemma Absent(key: Key)
      requires Valid() && key !in hmap
      ensures !Has(contents, key)
    {
      var s := contents;
      forall i | 0 <= i < |s| ensures s[i].k != key {
        assert s[i].k == KeyOf(m[..], order[i]);
      }
      NotFound(s, key);
    }

    /** The index holds exactly the keys of the contents. */
    lemma KnowsKey(key: Key)
      requires Valid()
      ensures key in hmap <==> Has(contents, key)
    {
      if key in hmap {
        var _ := Position(key);
      } else {
        Absent(key);
      }
    }

    static lemma PositionOf(o: seq<uint16>, count: nat, x: uint16) returns (pos: nat)
      requires Lists(o, count) && 1 <= x <= count
      ensures pos < |o| && o[pos] == x
    {
      assert x in o;
      pos :| 0 <= pos < |o| && o[pos] == x;
    }

    static lemma MovedLists(o: seq<uint16>, count: nat, pos: nat)
      requires Lists(o, count) && pos < |o|
      ensures Lists(ToFront(o, pos, o[pos]), count)
      ensures Lists(ToBack(o, pos, o[pos]), count)
    {
      FrontLists(o, count, pos);
      BackLists(o, count, pos);
    }

    static lemma FrontLists(o: seq<uint16>, count: nat, pos: nat)
      requires Lists(o, count) && pos < |o|
      ensures Lists(ToFront(o, pos, o[pos]), count)
    {
      var front := ToFront(o, pos, o[pos]);
      forall x: uint16 | 1 <= x <= count ensures x in front {
        var i := PositionOf(o, count, x);
        assert front[if i < pos then i + 1 else if i == pos then 0 else i] == x;
      }
    }

    static lemma BackLists(o: seq<uint16>, count: nat, pos: nat)
      requires Lists(o, count) && pos < |o|
      ensures Lists(ToBack(o, pos, o[pos]), count)
    {
      var back := ToBack(o, pos, o[pos]);
      forall x: uint16 | 1 <= x <= count ensures x in back {
        var i := PositionOf(o, count, x);
        assert back[if i < pos then i else if i == pos then |o| - 1 else i - 1] == x;
      }
    }

    lemma Backwards(o: seq<uint16>, f: nat, t: nat)
      requires f < 2 && t < 2 && dlnk.Length1 == 2
      requires Chained(o, f, t)
      ensures Chained(Rev(o), t, f)
    {
      forall i | -1 <= i < |o| ensures Link(Rev(o), i, t, f) {
        assert Link(o, |o| - 2 - i, f, t);
      }
    }

    /** Move the slot at position pos to the front of the list. */
    method MoveToFront(idx: uint16, ghost pos: nat)
      requires Sized() && last <= m.Length && Threaded()
      requires pos < |order| && order[pos] == idx
      modifies dlnk, `order
      ensures Threaded() && order == ToFront(old(order), pos, idx)
    {
      MovedLists(order, last, pos);
      Adjust(idx, P, N, order, pos);
      order := ToFront(order, pos, idx);
    }

    /** Move the slot at position pos to the back of the list. */
    method MoveToBack(idx: uint16, ghost pos: nat)
      requires Sized() && last <= m.Length && Threaded()
      requires pos < |order| && order[pos] == idx
      modifies dlnk, `order
      ensures Threaded() && order == ToBack(old(order), pos, idx)
    {
      MovedLists(order, last, pos);
      AdjustBack(idx, order, pos);
      order := ToBack(order, pos, idx);
    }

    /** adjust with the columns exchanged, on the list read backwards. */
    method AdjustBack(idx: uint16, ghost o: seq<uint16>, ghost pos: nat)
      requires Lists(o, last) && last < dlnk.Length0 && dlnk.Length1 == 2 && Chained(o, P, N)
      requires pos < |o| && o[pos] == idx
      modifies dlnk
      ensures Chained(ToBack(o, pos, idx), P, N)
    {
      Backwards(o, P, N);
      RevIndices(o, last);
      Adjust(idx, N, P, Rev(o), |o| - 1 - pos);
      ChainedBack(o, pos);
    }

    /** At the front of the list read backwards is at the back of the list. */
    lemma ChainedBack(o: seq<uint16>, pos: nat)
      requires pos < |o| && dlnk.Length1 == 2
      requires Chained(ToFront(Rev(o), |o| - 1 - pos, o[pos]), N, P)
      ensures Chained(ToBack(o, pos, o[pos]), P, N)
    {
      Backwards(ToFront(Rev(o), |o| - 1 - pos, o[pos]), N, P);
      RevMoved(o, pos);
    }

    static lemma RevIndices(o: seq<uint16>, count: nat)
      requires Lists(o, count)
      ensures forall i :: 0 <= i < |o| ==> 1 <= Rev(o)[i] <= count
      ensures forall i, j :: 0 <= i < j < |o| ==> Rev(o)[i] != Rev(o)[j]
    {
    }

    static lemma RevMoved<T>(o: seq<T>, pos: nat)
      requires pos < |o|
      ensures Rev(ToFront(Rev(o), |o| - 1 - pos, o[pos])) == ToBack(o, pos, o[pos])
    {
    }

    /** put, first case: the key has slot idx already. */
    method PutKnown(idx: uint16, val: Value, expireAt: int64, ghost pos: nat)
      requires Valid() && pos < |order| && order[pos] == idx
      modifies this, dlnk, m
      ensures Valid()
      ensures contents == ToFront(old(contents), pos, Node(old(contents)[pos].k, val, expireAt))
    {
      ghost var ms, s, n := m[..], contents, Node(m[idx - 1].k, val, expireAt);
      AgreeUpdate(ms, order, s, pos, n);
      IndexesKept(hmap, ms, last, idx - 1, n);
      m[idx - 1] := m[idx - 1].(v := val, expireAt := expireAt);
      assert m[..] == ms[idx - 1 := n];
      AgreeFront(m[..], order, s[pos := n], pos);
      MoveToFront(idx, pos);
      contents := ToFront(s, pos, n);
    }

    /** put, second case: the level is full, and the tail slot is rewritten and becomes the head. */
    method PutOverTail(key: Key, val: Value, expireAt: int64)
      requires Valid() && key !in hmap && last == m.Length
      modifies this, dlnk, m
      ensures Valid()
      ensures contents == ToFront(old(contents), m.Length - 1, Node(key, val, expireAt))
    {
      ghost var ms, s, n, pos := m[..], contents, Node(key, val, expireAt), |order| - 1;
      assert Link(order, pos, P, N);
      var tail := dlnk[0, P];
      assert tail == order[pos] && pos == m.Length - 1;
      AgreeUpdate(ms, order, s, pos, n);
      IndexesReplaced(hmap, ms, last, tail, n);
      Rekey(tail, key, val, expireAt);
      AgreeFront(m[..], order, s[pos := n], pos);
      MoveToFront(tail, pos);
      contents := ToFront(s, pos, n);
    }

    /** The slot changes key. */
    method Rekey(x: uint16, key: Key, val: Value, expireAt: int64)
      requires 1 <= x <= m.Length
      modifies `hmap, m
      ensures hmap == (old(hmap) - {old(m[x - 1].k)})[key := x]
      ensures m[..] == old(m[..])[x - 1 := Node(key, val, expireAt)]
    {
      hmap := hmap - {m[x - 1].k};
      hmap := hmap[key := x];
      m[x - 1] := Node(key, val, expireAt);
    }

    /** put, third case: a fresh slot becomes the head. */
    method PutFresh(key: Key, val: Value, expireAt: int64)
      requires Valid() && key !in hmap && last < m.Length
      modifies this, dlnk, m
      ensures Valid()
      ensures contents == [Node(key, val, expireAt)] + old(contents)
    {
      ghost var ms, n := m[..], Node(key, val, expireAt);
      FreshSlot(order, ms, contents, last + 1, n);
      IndexesGrown(hmap, ms, last + 1, n);
      if last > 0 {
        assert KeyOf(ms, 1) in hmap;
      } else {
        assert hmap == map[];
      }
      LinkFresh();
      m[last - 1] := Node(key, val, expireAt);
      assert m[..] == ms[last - 1 := n];
      hmap := hmap[key := last];
      contents := [n] + contents;
    }

    /** The list part of taking a fresh slot. */
    method LinkFresh()
      requires Sized() && last < m.Length && Threaded() && (|hmap| == 0 <==> last == 0)
      modifies dlnk, `order, `last
      ensures last == old(last) + 1 && order == [last] + old(order)
      ensures Chained(order, P, N)
    {
      assert Link(order, -1, P, N) && Link(order, |order| - 1, P, N);
      last := last + 1;
      if |hmap| <= 0 {
        dlnk[0, P] := last;
      } else {
        dlnk[dlnk[0, N], P] := last;
      }
      dlnk[last, P] := 0;
      dlnk[last, N] := dlnk[0, N];
      dlnk[0, N] := last;
      order := [last] + order;
      forall i | -1 <= i < |order| ensures Link(order, i, P, N) {
        assert i > 0 ==> old(Link(order, i - 1, P, N));
      }
    }

    static lemma FreshSlot(o: seq<uint16>, ms: seq<Node>, s: Level, slot: uint16, n: Node)
      requires 1 <= slot <= |ms| && Lists(o, slot - 1) && Agree(ms, o, s)
      ensures Lists([slot] + o, slot)
      ensures Agree(ms[slot - 1 := n], [slot] + o, [n] + s)
    {
      forall x: uint16 | 1 <= x <= slot ensures x in [slot] + o {
        if x < slot { assert x in o; }
      }
    }

    /** put for a key that is not in the index. */
    method PutNew(key: Key, val: Value, expireAt: int64, notify: bool) returns (reports: seq<Report>)
      requires Valid() && key !in hmap && !Has(contents, key)
      modifies this, dlnk, m
      ensures Valid()
      ensures contents == Recency.Put(old(contents), m.Length, Node(key, val, expireAt))
      ensures reports == if notify then PutReports(old(contents), m.Length, key) else []
    {
      reports := [];
      if last == m.Length {
        var tail := Tail();
        if notify && tail.expireAt > 0 {
          reports := [Report(tail.k, tail.v)];
        }
        PutOverTail(key, val, expireAt);
      } else {
        PutFresh(key, val, expireAt);
      }
    }

    /** put. Returns the calls of onEvicted, which fires only when notify says the callback was passed. */
    method Put(key: Key, val: Value, expireAt: int64, notify: bool) returns (status: int, reports: seq<Report>)
      requires Valid()
      modifies this, dlnk, m
      ensures Valid()
      ensures contents == Recency.Put(old(contents), m.Length, Node(key, val, expireAt))
      ensures status == if Has(old(contents), key) then 0 else 1
      ensures reports == if notify then PutReports(old(contents), m.Length, key) else []
    {
      if key in hmap {
        ghost var pos := Position(key);
        PutKnown(hmap[key], val, expireAt, pos);
        return 0, [];
      }
      Absent(key);
      reports := PutNew(key, val, expireAt, notify);
      return 1, reports;
    }

    /** The node at the tail, which the sentinel's predecessor link names. */
    method Tail() returns (tail: Node)
      requires Valid() && last > 0
      ensures |contents| == last && tail == contents[last - 1]
    {
      assert Link(order, |order| - 1, P, N);
      tail := m[dlnk[0, P] - 1];
    }

    /** get: the node found, refreshed to the head whether or not it is live. */
    method Get(key: Key) returns (node: Option<Node>)
      requires Valid()
      modifies this, dlnk
      ensures Valid()
      ensures contents == Touch(old(contents), key)
      ensures node == if Has(old(contents), key) then Some(At(old(contents), key)) else None
    {
      if key in hmap {
        ghost var pos := Position(key);
        AgreeFront(m[..], order, contents, pos);
        MoveToFront(hmap[key], pos);
        contents := ToFront(contents, pos, contents[pos]);
        return Some(m[hmap[key] - 1]);
      }
      Absent(key);
      return None;
    }

    /** del: the tombstone left behind and the expiry it had, for a live node; nothing otherwise. */
    method Del(key: Key) returns (node: Option<Node>, status: int, expireAt: int64)
      requires Valid()
      modifies this, dlnk, m
      ensures Valid()
      ensures contents == Recency.Del(old(contents), key)
      ensures if HasLive(old(contents), key)
              then && node == Some(At(old(contents), key).(expireAt := 0)) && status == 1
                   && expireAt == At(old(contents), key).expireAt
              else node == None && status == 0 && expireAt == 0
    {
      if key !in hmap {
        Absent(key);
        return None, 0, 0;
      }
      ghost var pos := Position(key);
      var idx := hmap[key];
      if m[idx - 1].expireAt <= 0 {
        return None, 0, 0;
      }
      ghost var s, n := contents, m[idx - 1].(expireAt := 0);
      var e := m[idx - 1].expireAt;
      ghost var ms := m[..];
      AgreeUpdate(ms, order, s, pos, n);
      IndexesKept(hmap, ms, last, idx - 1, n);
      m[idx - 1] := m[idx - 1].(expireAt := 0);
      assert m[..] == ms[idx - 1 := n];
      AgreeBack(m[..], order, s[pos := n], pos);
      MoveToBack(idx, pos);
      contents := ToBack(s, pos, n);
      return Some(m[idx - 1]), 1, e;
    }

    /** walk: the nodes shown to the walker, head to tail, until it refuses one. */
    method Walk(walker: Node -> bool) returns (shown: Level)
      requires Valid()
      ensures shown == Walked(contents, walker)
    {
      shown := [];
      ghost var s := contents;
      ghost var i := 0;
      assert Link(order, -1, P, N);
      var idx := dlnk[0, N];
      while idx != 0
        invariant 0 <= i <= |order| && idx == Slot(order, i)
        invariant Walked(s, walker) == shown + Walked(s[i..], walker)
        decreases |order| - i
      {
        assert i < |order| && s[i..][0] == s[i] == m[idx - 1] && s[i..][1..] == s[i + 1..];
        if m[idx - 1].expireAt > 0 {
          shown := shown + [m[idx - 1]];
          if !walker(m[idx - 1]) {
            return;
          }
        }
        assert Link(order, i, P, N);
        idx := dlnk[idx, N];
        i := i + 1;
      }
    }
  }
}
