/** The byte-bounded LRU cache over mutable fields. The doubly linked list of entries is the sequence of
    their keys, front first: an entry is its list element, and a key has at most one. */
module LruCache {
  import opened Base
  import opened LruModel
  import opened LruReads

  class LruCache {
    const maxBytes: int
    var list: seq<Key>
    var items: map<Key, Bytes>
    var expires: map<Key, int>
    var usedBytes: int
    /** The calls of onEvicted so far, in order. */
    var reports: seq<(Key, Bytes)>

    ghost function View(): Lru
      reads this
    {
      Lru(maxBytes, list, items, expires, usedBytes)
    }

    ghost predicate Valid()
      reads this
    {
      Kept(View())
    }

    constructor (maxBytes: int)
      ensures Valid() && View() == EmptyLru(maxBytes) && reports == []
    {
      this.maxBytes := maxBytes;
      list, items, expires, usedBytes := [], map[], map[], 0;
      reports := [];
    }

    /** list.Remove of the element of a key. */
    method Unlink(key: Key)
      modifies `list
      ensures list == Without(old(list), key)
    {
      var rest := [];
      for i := 0 to |list|
        invariant list == old(list) && rest == Without(list[..i], key)
      {
        assert list[..i + 1][..i] == list[..i];
        if list[i] != key {
          rest := rest + [list[i]];
        }
      }
      assert list[..|list|] == list;
      list := rest;
    }

    /** removeElement. */
    method RemoveElement(key: Key)
      requires Valid() && key in items
      modifies this
      ensures Valid() && View() == Drop(old(View()), key)
      ensures reports == old(reports) + [(key, old(items)[key])]
    {
      DropKeeps(View(), key);
      var value := items[key];
      Unlink(key);
      items := items - {key};
      expires := expires - {key};
      usedBytes := usedBytes - (|key| + |value|);
      reports := reports + [(key, value)];
    }

    /** evict: subtract the size of the last entry, then remove it. */
    method EvictEntries()
      requires Valid()
      modifies this
      ensures Valid() && View() == Evict(old(View()))
      ensures reports == old(reports) + EvictReports(old(View()))
    {
      if maxBytes > 0 {
        while usedBytes > maxBytes && |list| > 0
          invariant Valid() && Evict(old(View())) == Evict(View())
          invariant old(reports) + EvictReports(old(View())) == reports + EvictReports(View())
          decreases |list|
        {
          EvictTurn(View(), reports);
          EvictLast();
        }
      }
    }

    /** The body of the eviction loop. */
    method EvictLast()
      requires Valid() && list != []
      modifies this
      ensures Valid() && list == old(list)[..|old(list)| - 1]
      ensures old(View()).list[|old(list)| - 1] in old(items) && View() == DropLast(old(View()))
      ensures reports == old(reports) + [FromBack(old(View()), 0)]
    {
      DropLastKept(View());
      LastWithout(list);
      var key := list[|list| - 1];
      usedBytes := usedBytes - (|key| + |items[key]|);
      RemoveElement(key);
    }

    static lemma LastWithout(list: seq<Key>)
      requires Once(list) && list != []
      ensures Without(list, list[|list| - 1]) == list[..|list| - 1]
    {
      var n := |list| - 1;
      forall i | 0 <= i < n ensures list[..n][i] != list[n] { assert list[i] != list[n]; }
      WithoutIs(list[..n], list[n]);
    }

    /** Write the entry and move it to the front. */
    method Write(key: Key, value: Bytes)
      requires Valid()
      modifies `list, `items, `usedBytes
      ensures Valid() && View() == Store(old(View()), key, value)
    {
      ghost var c := View();
      StoreKept(c, key, value);
      if key in items {
        usedBytes := usedBytes - (|key| + |items[key]|);
        usedBytes := usedBytes + (|key| + |value|);
        items := items[key := value];
        Unlink(key);
        list := [key] + list;
      } else {
        list := [key] + list;
        items := items[key := value];
        usedBytes := usedBytes + (|key| + |value|);
      }
      StoreIs(c, View(), key, value);
    }

    /** Set. */
    method Set(key: Key, value: Bytes)
      requires Valid()
      modifies this
      ensures Valid() && View() == SetStep(old(View()), key, value)
      ensures reports == old(reports) + StepReports(old(View()), Op.Set(key, value))
    {
      WriteKeeps(View(), Op.Set(key, value));
      Write(key, value);
      EvictEntries();
    }

    /** SetWithExpiration. */
    method SetWithExpiration(key: Key, value: Bytes, expiration: int, now: int)
      requires Valid()
      modifies this
      ensures Valid() && View() == SetTimedStep(old(View()), key, value, expiration, now)
      ensures reports == old(reports) + StepReports(old(View()), Op.SetWithExpiration(key, value, expiration, now))
    {
      WriteKeeps(View(), Op.SetWithExpiration(key, value, expiration, now));
      Write(key, value);
      TimedKeeps(View(), key, expiration, now);
      if expiration > 0 {
        expires := expires[key := now + expiration];
      } else {
        expires := expires - {key};
      }
      EvictEntries();
    }

    /** The first locked section of Get. */
    method Lookup(key: Key) returns (ok: bool)
      ensures ok == (key in items)
    {
      ok := key in items;
    }

    /** The second: whether the entry has expired. */
    method HasExpired(key: Key, now: int) returns (expired: bool)
      ensures expired == LruModel.IsExpired(View(), key, now)
    {
      expired := key in expires && now > expires[key];
    }

    /** The third, for an entry that has not: move it to the front, if it is still there. */
    method Refresh(key: Key)
      requires Valid()
      modifies `list
      ensures Valid() && View() == Touch(old(View()), key)
    {
      if key in items {
        TouchKeeps(View(), key);
        Unlink(key);
        list := [key] + list;
      }
    }

    /** Get: an expired entry is deleted and missed, any other moves to the front. */
    method Get(key: Key, now: int) returns (value: Option<Bytes>)
      requires Valid()
      modifies this
      ensures Valid() && View() == GetStep(old(View()), key, now)
      ensures value == if Good(old(View()), key, now) then Some(old(items)[key]) else None
      ensures reports == old(reports) + StepReports(old(View()), Op.Get(key, now))
    {
      var ok := Lookup(key);
      if !ok {
        return None;
      }
      var expired := HasExpired(key, now);
      if expired {
        var _ := Delete(key);
        return None;
      }
      Refresh(key);
      return Some(items[key]);
    }

    /** Delete. */
    method Delete(key: Key) returns (deleted: bool)
      requires Valid()
      modifies this
      ensures Valid() && View() == DeleteStep(old(View()), key) && deleted == (key in old(items))
      ensures reports == old(reports) + StepReports(old(View()), Op.Delete(key))
    {
      if key !in items {
        return false;
      }
      RemoveElement(key);
      return true;
    }

    /** cleanupExpired: the runtime picks the order in which the expiry times are visited. */
    method CleanupExpired(now: int, order: seq<Key>)
      requires Valid() && forall k :: k in expires <==> k in order
      modifies this
      ensures Valid() && View() == CleanupStep(old(View()), order, now)
      ensures reports == old(reports) + StepReports(old(View()), Op.Cleanup(order, now))
    {
      assert order[0..] == order;
      for i := 0 to |order|
        invariant Valid() && CleanupStep(old(View()), order, now) == CleanupStep(View(), order[i..], now)
        invariant old(reports) + CleanupReports(old(View()), order, now) ==
            reports + CleanupReports(View(), order[i..], now)
      {
        CleanupTurn(View(), order, i, now, reports);
        if order[i] in expires && now > expires[order[i]] && order[i] in items {
          RemoveElement(order[i]);
        }
      }
    }

    /** Clear forgets everything and reports nothing. */
    method Clear()
      modifies this
      ensures Valid() && View() == EmptyLru(maxBytes) && reports == old(reports)
    {
      list, items, expires, usedBytes := [], map[], map[], 0;
    }
  }
}
