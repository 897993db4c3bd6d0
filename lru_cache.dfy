/** `LRUCache`: a key-to-value map with a recency order. The Java class keeps the order
    in a doubly linked list between two sentinels; here the list is the sequence of its
    keys, most recently used first, least recently used (the node before `tail`) last. */
module LruCache {
  import opened Wrappers
  import opened Sets

  /** Positions `i` and `j` of `s` hold different keys. Stating `NoDup` through it keeps the
      verifier from comparing every pair of positions it meets. */
  ghost predicate Apart<K>(s: seq<K>, i: int, j: int) {
    0 <= i < |s| && 0 <= j < |s| && s[i] != s[j]
  }

  /** No key appears twice in the list. */
  ghost predicate NoDup<K>(s: seq<K>) {
    forall i, j | 0 <= i < j < |s| :: Apart(s, i, j)
  }

  /** The tail of a duplicate-free list is duplicate-free and does not hold its head. */
  lemma NoDupTail<K>(s: seq<K>)
    requires NoDup(s) && s != []
    ensures NoDup(s[1..]) && s[0] !in s[1..]
  {
    var t := s[1..];
    forall i, j | 0 <= i < j < |t| ensures Apart(t, i, j) {
      assert Apart(s, i + 1, j + 1);
    }
    forall a | 0 <= a < |t| ensures t[a] != s[0] {
      assert Apart(s, 0, a + 1);
    }
  }

  /** The keys on the list. */
  ghost function Elems<K>(s: seq<K>): set<K> {
    set k | k in s
  }

  /** Position of the first occurrence of `k`. */
  function IndexOf<K(==)>(s: seq<K>, k: K): (i: nat)
    requires k in s
    ensures i < |s| && s[i] == k && k !in s[..i]
  {
    if s[0] == k then 0
    else
      assert k in s[1..] by { assert s == [s[0]] + s[1..]; }
      var j := IndexOf(s[1..], k);
      assert s[..j + 1] == [s[0]] + s[1..][..j];
      1 + j
  }

  /** `removeNode`: unlink the node holding `k`; the other nodes keep their order. */
  function RemoveKey<K(==)>(s: seq<K>, k: K): (r: seq<K>)
    ensures k !in s ==> r == s
    ensures k in s ==> |r| == |s| - 1
  {
    if k in s then s[..IndexOf(s, k)] + s[IndexOf(s, k) + 1..] else s
  }

  /** The list with every key of `drop` unlinked, the others in their order. */
  function Filter<K(==)>(s: seq<K>, drop: set<K>): (r: seq<K>)
    ensures Elems(r) == Elems(s) - drop
  {
    if s == [] then []
    else
      assert Elems(s) == {s[0]} + Elems(s[1..]) by { assert s == [s[0]] + s[1..]; }
      var rest := Filter(s[1..], drop);
      if s[0] in drop then rest
      else
        assert Elems([s[0]] + rest) == {s[0]} + Elems(rest);
        [s[0]] + rest
  }

  /** Putting a key that is not on a duplicate-free list at its front keeps it duplicate-free. */
  lemma NoDupCons<K>(x: K, s: seq<K>)
    requires NoDup(s) && x !in s
    ensures NoDup([x] + s)
  {
    var r := [x] + s;
    forall i, j | 0 <= i < j < |r| ensures Apart(r, i, j) {
      assert r[j] == s[j - 1];
      if i > 0 { assert r[i] == s[i - 1] && Apart(s, i - 1, j - 1); }
    }
  }

  /** Unlinking a present key shifts the keys after it one place to the front. */
  lemma RemoveKeyShifts<K>(s: seq<K>, k: K, a: int)
    requires k in s && 0 <= a < |s| - 1
    ensures RemoveKey(s, k)[a] == (if a < IndexOf(s, k) then s[a] else s[a + 1])
  {
    var i := IndexOf(s, k);
    assert RemoveKey(s, k) == s[..i] + s[i + 1..];
  }

  /** The key at the tail of a duplicate-free list is not among the keys before it. */
  lemma LastNotInFront<K>(q: seq<K>)
    requires NoDup(q) && |q| > 0
    ensures q[|q| - 1] !in q[..|q| - 1]
  {
    var f := q[..|q| - 1];
    forall a | 0 <= a < |f| ensures f[a] != q[|q| - 1] {
      assert f[a] == q[a] && Apart(q, a, |q| - 1);
    }
  }

  /** A map and a duplicate-free list hold the same keys: every listed key is mapped and
      there are as many keys as list positions. This is `LRUCache`'s invariant between its
      hash map and its linked list. */
  ghost predicate Listed<K, V>(m: map<K, V>, s: seq<K>) {
    NoDup(s) && |m| == |s| && forall i | 0 <= i < |s| :: Mapped(m, s, i)
  }

  /** Position `i` of `s` holds a key of `m`; like `Apart`, it keeps `Listed` from being
      applied to every position the verifier meets. */
  ghost predicate Mapped<K, V>(m: map<K, V>, s: seq<K>, i: int) {
    0 <= i < |s| && s[i] in m
  }

  /** A listed map's keys are the list's keys. */
  lemma ListedKeys<K, V>(m: map<K, V>, s: seq<K>)
    requires Listed(m, s)
    ensures m.Keys == Elems(s)
  {
    NoDupCard(s);
    assert |m.Keys| == |m|;
    forall k | k in Elems(s) ensures k in m.Keys {
      var i :| 0 <= i < |s| && s[i] == k;
      assert Mapped(m, s, i);
    }
    assert m.Keys == Elems(s) + (m.Keys - Elems(s));
  }

  /** A key is mapped exactly when it is listed. */
  lemma ListedIn<K, V>(m: map<K, V>, s: seq<K>, k: K)
    requires Listed(m, s)
    ensures k in m <==> k in s
  {
    ListedKeys(m, s);
    assert k in Elems(s) <==> k in s;
  }

  /** Unlinking a key from a listing lists the map without that key. */
  lemma RemoveKeyListed<K, V>(m: map<K, V>, s: seq<K>, k: K)
    requires Listed(m, s)
    ensures Listed(m - {k}, RemoveKey(s, k))
  {
    ListedIn(m, s, k);
    if k in s {
      var i := IndexOf(s, k);
      var r := RemoveKey(s, k);
      forall a, b | 0 <= a < b < |r| ensures Apart(r, a, b) {
        RemoveKeyShifts(s, k, a);
        RemoveKeyShifts(s, k, b);
        var a' := if a < i then a else a + 1;
        var b' := if b < i then b else b + 1;
        assert Apart(s, a', b');
      }
      forall a | 0 <= a < |r| ensures Mapped(m - {k}, r, a) {
        RemoveKeyShifts(s, k, a);
        if a < i {
          assert Apart(s, a, i) && Mapped(m, s, a);
        } else {
          assert Apart(s, i, a + 1) && Mapped(m, s, a + 1);
        }
      }
      assert |m - {k}| == |m| - 1 == |r|;
      assert NoDup(r);
    } else {
      assert m - {k} == m;
      assert RemoveKey(s, k) == s;
    }
  }

  /** Linking an unmapped key at the front of a listing lists the map extended with it. */
  lemma ConsListed<K, V>(m: map<K, V>, s: seq<K>, k: K, v: V)
    requires Listed(m, s) && k !in m
    ensures Listed(m[k := v], [k] + s)
  {
    assert k !in s by {
      forall a | 0 <= a < |s| ensures s[a] != k { assert Mapped(m, s, a); }
    }
    NoDupCons(k, s);
    var r := [k] + s;
    var m' := m[k := v];
    forall a | 0 <= a < |r| ensures Mapped(m', r, a) {
      if a > 0 { assert r[a] == s[a - 1] && Mapped(m, s, a - 1); }
    }
    assert |m[k := v]| == |m| + 1;
  }

  /** A duplicate-free list has as many keys as its set of keys. */
  lemma {:induction false} NoDupCard<K>(s: seq<K>)
    requires NoDup(s)
    ensures |Elems(s)| == |s|
  {
    if s != [] {
      var t := s[1..];
      NoDupTail(s);
      NoDupCard(t);
      assert Elems(s) == {s[0]} + Elems(t) by { assert s == [s[0]] + t; }
    }
  }

  /** Filtering keeps a duplicate-free list duplicate-free. */
  lemma {:induction false} FilterNoDup<K>(s: seq<K>, drop: set<K>)
    requires NoDup(s)
    ensures NoDup(Filter(s, drop))
  {
    if s != [] {
      NoDupTail(s);
      FilterNoDup(s[1..], drop);
      if s[0] !in drop {
        assert s[0] !in Elems(Filter(s[1..], drop));
        NoDupCons(s[0], Filter(s[1..], drop));
      }
    }
  }

  /** Filtering out nothing keeps the list. */
  lemma {:induction false} FilterNothing<K>(s: seq<K>)
    ensures Filter(s, {}) == s
  {
    if s != [] {
      FilterNothing(s[1..]);
    }
  }

  /** Unlinking keys one at a time is the same as filtering them out together:
      removing `k` from the list filtered by `drop` is the list filtered by `drop + {k}`. */
  lemma {:induction false} RemoveKeyFilter<K>(s: seq<K>, drop: set<K>, k: K)
    requires NoDup(s)
    ensures RemoveKey(Filter(s, drop), k) == Filter(s, drop + {k})
  {
    if s != [] {
      var t := s[1..];
      NoDupTail(s);
      RemoveKeyFilter(t, drop, k);
      var f := Filter(t, drop);
      if s[0] in drop {
        assert Filter(s, drop) == f;
        assert Filter(s, drop + {k}) == Filter(t, drop + {k});
      } else if s[0] == k {
        assert Filter(s, drop) == [k] + f;
        assert IndexOf([k] + f, k) == 0;
        assert RemoveKey([k] + f, k) == f;
        assert Filter(s, drop + {k}) == Filter(t, drop + {k});
        FilterSame(t, drop, k);
      } else {
        assert Filter(s, drop) == [s[0]] + f;
        assert Filter(s, drop + {k}) == [s[0]] + Filter(t, drop + {k});
        RemoveKeyCons(s[0], f, k);
      }
    }
  }

  /** Unlinking a key other than the head leaves the head in place. */
  lemma {:induction false} RemoveKeyCons<K>(x: K, f: seq<K>, k: K)
    requires x != k
    ensures RemoveKey([x] + f, k) == [x] + RemoveKey(f, k)
  {
    var r := [x] + f;
    if k in f {
      assert r[1..] == f;
      var i := IndexOf(f, k);
      assert IndexOf(r, k) == 1 + i;
      calc {
        RemoveKey(r, k);
        r[..1 + i] + r[i + 2..];
        { assert r[..1 + i] == [x] + f[..i]; assert r[i + 2..] == f[i + 1..]; }
        ([x] + f[..i]) + f[i + 1..];
        [x] + (f[..i] + f[i + 1..]);
      }
    } else {
      assert k !in r;
    }
  }

  lemma {:induction false} FilterSame<K>(s: seq<K>, drop: set<K>, k: K)
    requires k !in s
    ensures Filter(s, drop + {k}) == Filter(s, drop)
  {
    if s != [] {
      assert k != s[0];
      assert k !in s[1..];
      FilterSame(s[1..], drop, k);
    }
  }

  class LRUCache<K(==), V> {
    /** Capacity, consulted only by `EvictOldest`. */
    const cap: int
    /** Key to value (the Java map's nodes carry the values). */
    var entries: map<K, V>
    /** The linked list's keys, most recently used first. */
    var order: seq<K>

    ghost predicate Valid()
      reads this
    {
      Listed(entries, order)
    }

    constructor (cap: int)
      ensures Valid()
      ensures this.cap == cap && entries == map[] && order == []
    {
      this.cap := cap;
      entries := map[];
      order := [];
    }

    /** `getSize`: the number of entries, which is also the length of the list. */
    function GetSize(): (n: nat)
      reads this
      requires Valid()
      ensures n == |order|
    {
      |entries|
    }

    /** `get`: a present key is moved to the head and its value returned; an absent key
        gives null and changes nothing. */
    method Get(key: K) returns (r: Option<V>)
      requires Valid()
      modifies this
      ensures Valid()
      ensures key in old(entries) ==> r == Some(old(entries)[key]) && order == [key] + RemoveKey(old(order), key)
      ensures key !in old(entries) ==> r == None && order == old(order)
      ensures entries == old(entries)
    {
      if key in entries {
        MoveToHead(key);
        r := Some(entries[key]);
      } else {
        r := None;
      }
    }

    /** `put`: an existing key gets the new value and moves to the head; a new key is added
        at the head. No other entry is touched. */
    method Put(key: K, value: V)
      requires Valid()
      modifies this
      ensures Valid()
      ensures entries == old(entries)[key := value]
      ensures order == [key] + RemoveKey(old(order), key)
    {
      if key in entries {
        ReplaceValue(key, value);
        MoveToHead(key);
      } else {
        ListedIn(entries, order, key);
        assert RemoveKey(order, key) == order;
        entries := entries[key := value];
        assert entries - {key} == old(entries);
        AddToHead(key);
      }
    }

    /** `evictOldest`: below capacity, null and no change; otherwise the least recently
        used entry is unlinked and its value returned. With a non-positive capacity and no
        entries the Java code dereferences the head sentinel's null `pre` link, hence the
        precondition. */
    method EvictOldest() returns (r: Option<V>)
      requires Valid()
      requires cap > 0 || |entries| > 0
      modifies this
      ensures Valid()
      ensures |old(entries)| < cap ==> r == None && entries == old(entries) && order == old(order)
      ensures |old(entries)| >= cap ==>
        var k := old(order)[|old(order)| - 1];
        old(order) != [] && Mapped(old(entries), old(order), |old(order)| - 1) && r == Some(old(entries)[k]) &&
        entries == old(entries) - {k} && order == old(order)[..|old(order)| - 1]
    {
      if GetSize() < cap {
        return None;
      }
      assert Mapped(entries, order, |order| - 1);
      var k := RemoveTail();
      r := Some(entries[k]);
      entries := entries - {k};
    }

    /** `remove`: deletes a present key, keeping the order of the others; no-op otherwise. */
    method Remove(key: K)
      requires Valid()
      modifies this
      ensures Valid()
      ensures entries == old(entries) - {key}
      ensures order == RemoveKey(old(order), key)
    {
      if key in entries {
        RemoveNode(key);
        entries := entries - {key};
      } else {
        ListedIn(entries, order, key);
      }
    }

    /** `getValueIterator`: a snapshot with one value per key. The Java list follows the
        hash map's iteration order, which is unspecified; here it follows the list. */
    method GetValueIterator() returns (vals: seq<V>)
      requires Valid()
      ensures |vals| == |order|
      ensures forall i | 0 <= i < |order| :: Mapped(entries, order, i) && vals[i] == entries[order[i]]
    {
      vals := [];
      for i := 0 to |order|
        invariant |vals| == i
        invariant forall j | 0 <= j < i :: Mapped(entries, order, j) && vals[j] == entries[order[j]]
      {
        assert Mapped(entries, order, i);
        vals := vals + [entries[order[i]]];
      }
    }

    /** A page object shared between the cache and its caller is mutated in place
        (`markDirty`, `setBeforeImage`): the entry's value changes and its recency does not. */
    method ReplaceValue(key: K, value: V)
      requires Valid() && key in entries
      modifies this
      ensures Valid()
      ensures entries == old(entries)[key := value] && order == old(order)
    {
      var e := entries[key := value];
      forall i | 0 <= i < |order| ensures Mapped(e, order, i) {
        assert Mapped(entries, order, i);
      }
      entries := e;
    }

    /** `addToHead` for a mapped key that is not yet on the list. */
    method AddToHead(key: K)
      requires key in entries && Listed(entries - {key}, order)
      modifies this
      ensures Valid() && entries == old(entries)
      ensures order == [key] + old(order)
    {
      ConsListed(entries - {key}, order, key, entries[key]);
      assert (entries - {key})[key := entries[key]] == entries;
      order := [key] + order;
    }

    /** `removeNode`: unlink a key, leaving the map to the caller. */
    method RemoveNode(key: K)
      requires Valid()
      modifies this
      ensures Listed(entries - {key}, order)
      ensures order == RemoveKey(old(order), key) && entries == old(entries)
    {
      RemoveKeyListed(entries, order, key);
      order := RemoveKey(order, key);
    }

    /** `moveToHead` = `removeNode` then `addToHead`. */
    method MoveToHead(key: K)
      requires Valid() && key in entries
      modifies this
      ensures Valid() && entries == old(entries)
      ensures order == [key] + RemoveKey(old(order), key)
    {
      RemoveNode(key);
      AddToHead(key);
    }

    /** `removeTail`: unlink the least recently used key and return it. */
    method RemoveTail() returns (k: K)
      requires Valid() && order != []
      modifies this
      ensures k == old(order)[|old(order)| - 1]
      ensures order == old(order)[..|old(order)| - 1] && entries == old(entries)
      ensures Listed(entries - {k}, order)
    {
      k := order[|order| - 1];
      LastNotInFront(order);
      assert IndexOf(order, k) == |order| - 1;
      RemoveNode(k);
    }
  }
}
