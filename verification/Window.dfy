/** Fresh writes only: the two levels are a sliding window over the write history. */
module Window {
  import opened Base
  import opened Recency
  import opened TwoLevel

  function Min(a: nat, b: nat): nat {
    if a < b then a else b
  }

  /** The newest c1 writes in level 1 and the c2 before them in level 2; newest first. */
  function Windowed(history: Level, c1: nat, c2: nat): Bucket {
    var i, j := Min(c1, |history|), Min(c1 + c2, |history|);
    Bucket(history[..i], c1, history[i..j], c2)
  }

  /** Write the nodes, the last of the sequence first. */
  function WriteAll(b: Bucket, ns: Level): Bucket {
    if ns == [] then b else Set(WriteAll(b, ns[1..]), ns[0]).b
  }

  lemma SliceDistinct(s: Level, i: nat, j: nat, k: Key)
    requires Distinct(s) && i <= j <= |s|
    requires forall m :: 0 <= m < |s| ==> s[m].k != k
    ensures Distinct(s[i..j]) && !Has(s[i..j], k)
  {
    NotFound(s[i..j], k);
  }

  lemma FrontOfSlice(s: Level, n: Node, c: nat)
    requires c > 0 && |s| == c
    ensures ToFront(s, c - 1, n) == [n] + s[..c - 1]
  {
  }

  /** A fresh write slides the window by one. */
  lemma FreshWrite(history: Level, n: Node, c1: nat, c2: nat)
    requires c1 > 0 && c2 > 0 && Distinct([n] + history)
    requires forall m :: m in history ==> m.Live()
    ensures Set(Windowed(history, c1, c2), n).b == Windowed([n] + history, c1, c2)
  {
    var h', b := [n] + history, Windowed(history, c1, c2);
    assert forall m :: 0 <= m < |history| ==> h'[m + 1] == history[m];
    assert Distinct(history);
    forall m | 0 <= m < |history| ensures history[m].k != n.k {
      assert h'[0].k != h'[m + 1].k;
    }
    assert history[0..Min(c1, |history|)] == history[..Min(c1, |history|)];
    SliceDistinct(history, 0, Min(c1, |history|), n.k);
    if |history| < c1 {
      assert b.l1 == history && b.l2 == [];
    } else {
      FreshDisplacing(history, n, c1, c2);
    }
  }

  /** The same once level 1 is full: the oldest of it moves to level 2. */
  lemma FreshDisplacing(history: Level, n: Node, c1: nat, c2: nat)
    requires 0 < c1 <= |history| && c2 > 0 && Distinct(history) && !Has(history[..c1], n.k)
    requires forall m :: m in history ==> m.Live()
    ensures Set(Windowed(history, c1, c2), n).b == Windowed([n] + history, c1, c2)
  {
    var b, d, j := Windowed(history, c1, c2), history[c1 - 1], Min(c1 + c2, |history|);
    assert d in history;
    Later(history, c1, j);
    FrontOfSlice(b.l1, n, c1);
    if |b.l2| == c2 {
      FrontOfSlice(b.l2, d, c2);
    }
    WindowStep(history, n, c1, c2);
  }

  /** The two slices after one more write. */
  lemma WindowStep(history: Level, n: Node, c1: nat, c2: nat)
    requires 0 < c1 <= |history| && c2 > 0
    ensures var b, w := Windowed(history, c1, c2), Windowed([n] + history, c1, c2);
            && w.l1 == [n] + b.l1[..c1 - 1]
            && w.l2 == [history[c1 - 1]] + (if |b.l2| == c2 then b.l2[..c2 - 1] else b.l2)
  {
  }

  lemma Later(history: Level, c1: nat, j: nat)
    requires Distinct(history) && 0 < c1 <= j <= |history|
    ensures !Has(history[c1..j], history[c1 - 1].k)
  {
    NotFound(history[c1..j], history[c1 - 1].k);
  }

  /** From an empty bucket, writing distinct keys leaves exactly the window over the history. */
  lemma {:induction false} SlidingWindow(history: Level, c1: nat, c2: nat)
    requires c1 > 0 && c2 > 0 && Distinct(history)
    requires forall m :: m in history ==> m.Live()
    ensures WriteAll(Bucket([], c1, [], c2), history) == Windowed(history, c1, c2)
  {
    if history != [] {
      var rest := history[1..];
      assert history == [history[0]] + rest;
      assert forall m :: m in rest ==> m in history;
      SlidingWindow(rest, c1, c2);
      FreshWrite(rest, history[0], c1, c2);
    }
  }

  /** The survival budget is tight: after c1 + c2 writes of other distinct keys, the first key is gone. */
  lemma BudgetIsTight(history: Level, c1: nat, c2: nat)
    requires c1 > 0 && c2 > 0 && Distinct(history) && |history| == c1 + c2 + 1
    requires forall m :: m in history ==> m.Live()
    ensures Visible(WriteAll(Bucket([], c1, [], c2), history), history[c1 + c2].k) == None
  {
    SlidingWindow(history, c1, c2);
    PastWindow(history, c1, c2);
  }

  /** A window over a history one longer than both levels does not show its last key. */
  lemma PastWindow(history: Level, c1: nat, c2: nat)
    requires Distinct(history) && |history| == c1 + c2 + 1
    ensures Visible(Windowed(history, c1, c2), history[c1 + c2].k) == None
  {
    var k := history[c1 + c2].k;
    NotFound(history[..c1], k);
    NotFound(history[c1..c1 + c2], k);
  }
}
