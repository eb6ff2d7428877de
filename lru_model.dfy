/**
 The value semantics of `LRUCache`, the OrderedDict-backed store of
 open_clip_vit_b32.py. The dictionary is split into its two halves: `order`
 lists the keys from least to most recently used (the OrderedDict's iteration
 order) and `store` maps each key to its value. `maxsize` is fixed when the
 cache is built.
 */
module LruModel {
  import opened Options

  datatype Lru<K, V> = Lru(order: seq<K>, store: map<K, V>, maxsize: int)

  /** No key occurs twice. */
  predicate Distinct<K(==)>(s: seq<K>) {
    forall i, j :: 0 <= i < j < |s| ==> s[i] != s[j]
  }

  /** The invariant every reachable cache keeps: keys are distinct, the order
      and the map hold the same keys, and the store never exceeds `maxsize`
      (so a cache whose `maxsize` is below 1 stays empty). */
  ghost predicate Valid<K, V>(c: Lru<K, V>) {
    && Distinct(c.order)
    && (forall k :: k in c.order ==> k in c.store)
    && (forall k :: k in c.store ==> k in c.order)
    && (c.order == [] || |c.order| <= c.maxsize)
  }

  /** The cache as freshly constructed. */
  function Empty<K(==), V>(maxsize: int): (c: Lru<K, V>)
    ensures Valid(c) && c.store == map[]
  {
    Lru([], map[], maxsize)
  }

  /** `s` with `k` taken out and every other key kept in place. */
  function Without<K(==)>(s: seq<K>, k: K): (r: seq<K>)
    ensures forall x :: x in r ==> x in s && x != k
    ensures forall x :: x in s && x != k ==> x in r
    ensures Distinct(s) ==> Distinct(r)
    ensures Distinct(s) && k in s ==> |r| == |s| - 1
    ensures k !in s ==> r == s
  {
    if s == [] then []
    else if s[0] == k then Without(s[1..], k)
    else
      var rest := Without(s[1..], k);
      assert s[0] !in s[1..] ==> s[0] !in rest;
      [s[0]] + rest
  }

  /** `cache_get`: a hit returns the stored value and moves the key to the
      most recently used end (pop, then re-insert); a miss returns None. */
  function Get<K(==), V>(c: Lru<K, V>, k: K): (r: (Lru<K, V>, Option<V>))
    ensures r.0.store == c.store && r.0.maxsize == c.maxsize
    ensures r.1.Some? <==> k in c.store
    ensures r.1.Some? ==> r.1.value == c.store[k]
    ensures k !in c.store ==> r.0 == c
    ensures Valid(c) ==> Valid(r.0) && |r.0.order| == |c.order|
  {
    if k in c.store then (c.(order := Without(c.order, k) + [k]), Some(c.store[k]))
    else (c, None)
  }

  /** `cache_set`: an existing key is popped and re-inserted with its new value;
      a new key first evicts the least recently used entry when the store is
      full. None stands for the KeyError that `popitem` raises when the store
      is full and empty at once, which only a `maxsize` below 1 allows. */
  function Set<K(==), V>(c: Lru<K, V>, k: K, v: V): (r: Option<Lru<K, V>>)
    ensures r.None? <==> k !in c.store && c.order == [] && c.maxsize <= 0
    ensures r.Some? ==> r.value.maxsize == c.maxsize && k in r.value.store && r.value.store[k] == v
  {
    if k in c.store then
      Some(Lru(Without(c.order, k) + [k], c.store[k := v], c.maxsize))
    else if |c.order| >= c.maxsize then
      if c.order == [] then None
      else Some(Lru(c.order[1..] + [k], (c.store - {c.order[0]})[k := v], c.maxsize))
    else
      Some(Lru(c.order + [k], c.store[k := v], c.maxsize))
  }

  /** `cache_set` applied to `ks[i] := vs[i]` for each i in turn; None once one
      of them raises. */
  function SetMany<K(==), V>(c: Lru<K, V>, ks: seq<K>, vs: seq<V>): (r: Option<Lru<K, V>>)
    requires |ks| == |vs|
    ensures c.maxsize >= 1 ==> r.Some?
    ensures r.Some? ==> r.value.maxsize == c.maxsize
    decreases |ks|
  {
    if ks == [] then Some(c)
    else match SetMany(c, ks[..|ks| - 1], vs[..|vs| - 1])
      case None => None
      case Some(c') => Set(c', ks[|ks| - 1], vs[|vs| - 1])
  }

  // ---------------------------------------------------------------------------
  // Order bookkeeping

  /** Taking out the key at position `p` keeps all the others in their order. */
  lemma WithoutAt<K>(s: seq<K>, p: nat)
    requires Distinct(s) && p < |s|
    ensures Without(s, s[p]) == s[..p] + s[p + 1..]
  {
    var before, after := s[..p], s[p + 1..];
    forall x | x in before ensures x != s[p] {
      var i :| 0 <= i < p && before[i] == x;
      assert s[i] == x;
    }
    forall x | x in after ensures x != s[p] {
      var i :| 0 <= i < |after| && after[i] == x;
      assert s[p + 1 + i] == x;
    }
    WithoutOnce(s, p);
  }

  /** Taking out a key that occurs once, at position `p`. */
  lemma {:induction false} WithoutOnce<K>(s: seq<K>, p: nat)
    requires p < |s| && s[p] !in s[..p] && s[p] !in s[p + 1..]
    ensures Without(s, s[p]) == s[..p] + s[p + 1..]
  {
    var k, t := s[p], s[1..];
    if p == 0 {
      assert s[..0] + t == t;
    } else {
      assert s[..p] == [s[0]] + t[..p - 1];
      assert t[p - 1] == k && t[p..] == s[p + 1..];
      WithoutOnce(t, p - 1);
    }
  }

  /** Taking the last key off a sequence that holds it only there. */
  lemma {:induction false} WithoutLast<K>(s: seq<K>, k: K)
    requires k !in s
    ensures Without(s + [k], k) == s
  {
    if s != [] {
      assert (s + [k])[1..] == s[1..] + [k];
      WithoutLast(s[1..], k);
    }
  }

  /** A distinct sequence has exactly as many elements as its set of elements. */
  lemma {:induction false} DistinctCard<K>(s: seq<K>)
    requires Distinct(s)
    ensures |set x | x in s| == |s|
  {
    if s != [] {
      assert Distinct(s[1..]);
      DistinctCard(s[1..]);
      assert (set x | x in s) == (set x | x in s[1..]) + {s[0]};
      assert s[0] !in (set x | x in s[1..]);
    }
  }

  // ---------------------------------------------------------------------------
  // cache_get

  /** A hit at position `p` returns the stored value, keeps every key and value,
      and moves that key behind all others, which keep their relative order. */
  lemma GetHit<K, V>(c: Lru<K, V>, p: nat)
    requires Valid(c) && p < |c.order|
    ensures var (c', r) := Get(c, c.order[p]);
            && r == Some(c.store[c.order[p]])
            && c'.store == c.store
            && c'.order == c.order[..p] + c.order[p + 1..] + [c.order[p]]
  {
    WithoutAt(c.order, p);
  }

  /** A miss changes neither the contents nor the recency order. */
  lemma GetMiss<K, V>(c: Lru<K, V>, k: K)
    requires Valid(c) && k !in c.order
    ensures Get(c, k) == (c, None)
  {
  }

  // ---------------------------------------------------------------------------
  // cache_set

  /** Overwriting an existing key at position `p`: the value is replaced, the key
      becomes the most recently used, nothing is evicted, the size is unchanged. */
  lemma SetExisting<K, V>(c: Lru<K, V>, p: nat, v: V)
    requires Valid(c) && p < |c.order|
    ensures var k := c.order[p];
            Set(c, k, v) == Some(Lru(c.order[..p] + c.order[p + 1..] + [k], c.store[k := v], c.maxsize))
    ensures var c' := Set(c, c.order[p], v).value;
            c'.store.Keys == c.store.Keys && |c'.order| == |c.order|
  {
    WithoutAt(c.order, p);
  }

  /** Inserting a new key into a full store evicts exactly the least recently
      used entry and appends the new key; every other entry is untouched. */
  lemma SetEvicts<K, V>(c: Lru<K, V>, k: K, v: V)
    requires Valid(c) && k !in c.store && c.order != [] && |c.order| >= c.maxsize
    ensures Set(c, k, v).Some?
    ensures var c' := Set(c, k, v).value;
            && c'.order == c.order[1..] + [k]
            && c.order[0] !in c'.store
            && c'.store[k] == v
            && (forall x :: x in c.store && x != c.order[0] ==> x in c'.store && c'.store[x] == c.store[x])
            && c'.store.Keys == c.store.Keys - {c.order[0]} + {k}
            && |c'.order| == |c.order|
  {
  }

  /** The existing-key branch of `cache_set` step by step: pop the key, then
      re-insert it last with its new value. */
  lemma SetPopsThenInserts<K, V>(c: Lru<K, V>, k: K, v: V)
    requires k in c.store
    ensures Set(c, k, v) == Some(Lru(Without(c.order, k) + [k], (c.store - {k})[k := v], c.maxsize))
  {
    assert (c.store - {k})[k := v] == c.store[k := v];
  }

  /** The eviction branch of `cache_set` step by step: drop the first entry,
      then insert the new key last. */
  lemma SetDropsThenInserts<K, V>(c: Lru<K, V>, k: K, v: V)
    requires k !in c.store && c.order != [] && |c.order| >= c.maxsize
    ensures Set(c, k, v) == Some(Lru(c.order[1..] + [k], (c.store - {c.order[0]})[k := v], c.maxsize))
  {
  }

  /** Inserting a new key below capacity evicts nothing. */
  lemma SetInserts<K, V>(c: Lru<K, V>, k: K, v: V)
    requires Valid(c) && k !in c.store && |c.order| < c.maxsize
    ensures Set(c, k, v) == Some(Lru(c.order + [k], c.store[k := v], c.maxsize))
    ensures c.store.Keys <= Set(c, k, v).value.store.Keys
  {
  }

  /** `cache_set` keeps the invariant (distinct keys, at most `maxsize` of them),
      and it raises exactly when `maxsize` is below 1. */
  lemma SetValid<K, V>(c: Lru<K, V>, k: K, v: V)
    requires Valid(c)
    ensures Set(c, k, v).None? <==> c.maxsize < 1
    ensures Set(c, k, v).Some? ==> Valid(Set(c, k, v).value) && Set(c, k, v).value.maxsize == c.maxsize
  {
    if k in c.store {
      var r := Without(c.order, k) + [k];
      assert Distinct(r) by {
        forall i, j | 0 <= i < j < |r| ensures r[i] != r[j] {
          if j == |r| - 1 { assert r[i] in Without(c.order, k); }
        }
      }
    } else if |c.order| >= c.maxsize && c.order != [] {
      var r := c.order[1..] + [k];
      assert c.order[0] !in c.order[1..];
      assert Distinct(r) by {
        forall i, j | 0 <= i < j < |r| ensures r[i] != r[j] {
          if j == |r| - 1 { assert r[i] in c.order; }
        }
      }
      forall x ensures x in r <==> x in (c.store - {c.order[0]})[k := v] {
        if x in c.order && x != c.order[0] {
          var i :| 0 <= i < |c.order| && c.order[i] == x;
          assert x == c.order[1..][i - 1];
        }
      }
    } else if |c.order| < c.maxsize {
      var r := c.order + [k];
      assert Distinct(r) by {
        forall i, j | 0 <= i < j < |r| ensures r[i] != r[j] {
          if j == |r| - 1 { assert r[i] in c.order; }
        }
      }
    }
  }

  /** After `cache_set(k, v)` the key holds `v` and is the most recently used;
      no other key is added and no other value changes. */
  lemma SetStores<K, V>(c: Lru<K, V>, k: K, v: V)
    requires Valid(c) && c.maxsize >= 1
    ensures Set(c, k, v).Some?
    ensures var c' := Set(c, k, v).value;
            && k in c'.store && c'.store[k] == v
            && c'.order != [] && c'.order[|c'.order| - 1] == k
    ensures var c' := Set(c, k, v).value;
            forall x :: x in c'.store && x != k ==> x in c.store && c'.store[x] == c.store[x]
  {
    SetValid(c, k, v);
  }

  /** Right after `cache_set(k, v)`, `cache_get(k)` returns `v` and changes
      nothing, since `k` is already the most recently used key. */
  lemma SetThenGet<K, V>(c: Lru<K, V>, k: K, v: V)
    requires Valid(c) && c.maxsize >= 1
    ensures Set(c, k, v).Some?
    ensures Get(Set(c, k, v).value, k) == (Set(c, k, v).value, Some(v))
  {
    SetValid(c, k, v);
    var pre := if k in c.store then Without(c.order, k)
               else if |c.order| >= c.maxsize then c.order[1..]
               else c.order;
    assert Set(c, k, v).value.order == pre + [k];
    assert k !in pre;
    WithoutLast(pre, k);
  }

  /** The number of entries equals the length of the recency order, so the
      store never holds more than `maxsize` entries. */
  lemma SizeBounded<K, V>(c: Lru<K, V>)
    requires Valid(c)
    ensures |c.store| == |c.order|
    ensures c.store == map[] || |c.store| <= c.maxsize
  {
    DistinctCard(c.order);
    assert c.store.Keys == set x | x in c.order;
  }

  // ---------------------------------------------------------------------------
  // Runs of cache_set

  /** With `maxsize` at least 1, a run of `cache_set` calls never raises and
      keeps the invariant. */
  lemma {:induction false} SetManyValid<K, V>(c: Lru<K, V>, ks: seq<K>, vs: seq<V>)
    requires Valid(c) && c.maxsize >= 1 && |ks| == |vs|
    ensures SetMany(c, ks, vs).Some?
    ensures Valid(SetMany(c, ks, vs).value) && SetMany(c, ks, vs).value.maxsize == c.maxsize
    decreases |ks|
  {
    if ks != [] {
      SetManyValid(c, ks[..|ks| - 1], vs[..|vs| - 1]);
      SetValid(SetMany(c, ks[..|ks| - 1], vs[..|vs| - 1]).value, ks[|ks| - 1], vs[|vs| - 1]);
    }
  }

  /** The last `m` keys of `all`, or all of them when there are fewer. */
  function Recent<K>(all: seq<K>, m: int): (r: seq<K>)
    requires m >= 1
    ensures |r| <= |all| && |r| <= m
    ensures r == all || |r| == m
    ensures r == all[|all| - |r|..]
  {
    if |all| > m then all[|all| - m..] else all
  }

  /** Inserting distinct new keys one after another: the cache ends up holding
      the most recent `maxsize` keys of the old order followed by the new keys,
      oldest first; everything before them has been evicted, in order. */
  lemma {:induction false} SetManyFresh<K, V>(c: Lru<K, V>, ks: seq<K>, vs: seq<V>)
    requires Valid(c) && c.maxsize >= 1 && |ks| == |vs|
    requires Distinct(ks) && forall i :: 0 <= i < |ks| ==> ks[i] !in c.store
    ensures SetMany(c, ks, vs).Some?
    ensures SetMany(c, ks, vs).value.order == Recent(c.order + ks, c.maxsize)
    decreases |ks|
  {
    SetManyValid(c, ks, vs);
    if ks == [] {
      assert c.order + ks == c.order;
    } else {
      var n := |ks| - 1;
      var ks', vs' := ks[..n], vs[..n];
      assert Distinct(ks');
      SetManyFresh(c, ks', vs');
      SetManyValid(c, ks', vs');
      var c' := SetMany(c, ks', vs').value;
      FreshLast(c.order, ks, c'.order, c.maxsize);
      assert SetMany(c, ks, vs) == Set(c', ks[n], vs[n]);
      FreshStep(c', c.order + ks', ks[n], vs[n]);
      ConcatLast(c.order, ks);
    }
  }

  /** One step of SetManyFresh: appending a new key to a cache that holds the
      most recent keys of `all`. */
  lemma FreshStep<K, V>(c: Lru<K, V>, all: seq<K>, k: K, v: V)
    requires Valid(c) && c.maxsize >= 1 && k !in c.store
    requires c.order == Recent(all, c.maxsize)
    ensures Set(c, k, v).Some?
    ensures Set(c, k, v).value.order == Recent(all + [k], c.maxsize)
  {
    SetFresh(c, k, v);
    AppendDropped(all, k, c.maxsize);
  }

  lemma ConcatLast<K>(a: seq<K>, b: seq<K>)
    requires b != []
    ensures a + b == (a + b[..|b| - 1]) + [b[|b| - 1]]
  {
    assert b == b[..|b| - 1] + [b[|b| - 1]];
  }

  /** A new key is appended, after evicting the oldest key when the store is full. */
  lemma SetFresh<K, V>(c: Lru<K, V>, k: K, v: V)
    requires Valid(c) && c.maxsize >= 1 && k !in c.store
    ensures Set(c, k, v).Some?
    ensures Set(c, k, v).value.order == if |c.order| >= c.maxsize then c.order[1..] + [k] else c.order + [k]
  {
  }

  /** The last of distinct new keys is not among the earlier ones. */
  lemma FreshLast<K>(old_order: seq<K>, ks: seq<K>, order: seq<K>, m: int)
    requires Distinct(ks) && ks != [] && ks[|ks| - 1] !in old_order && m >= 1
    requires order == Recent(old_order + ks[..|ks| - 1], m)
    ensures ks[|ks| - 1] !in order
  {
    var n := |ks| - 1;
    var all := old_order + ks[..n];
    var d := if |all| > m then |all| - m else 0;
    forall i | 0 <= i < |order| ensures order[i] != ks[n] {
      assert order[i] == all[d + i];
      if d + i >= |old_order| {
        assert all[d + i] == ks[d + i - |old_order|];
      }
    }
  }

  /** Appending one key to the most recent `m` of `all`, and dropping the
      oldest when that would exceed `m`, gives the most recent `m` of `all + [k]`. */
  lemma AppendDropped<K>(all: seq<K>, k: K, m: int)
    requires m >= 1
    ensures var kept := Recent(all, m);
            (if |kept| >= m then kept[1..] + [k] else kept + [k]) == Recent(all + [k], m)
  {
  }

  /** Filling a cache of capacity C with C distinct keys and inserting one more
      evicts the first key inserted. */
  lemma EvictsOldest<K, V>(maxsize: int, ks: seq<K>, vs: seq<V>)
    requires maxsize >= 1 && |ks| == |vs| == maxsize + 1 && Distinct(ks)
    ensures SetMany(Empty(maxsize), ks, vs).Some?
    ensures SetMany(Empty(maxsize), ks, vs).value.order == ks[1..]
    ensures ks[0] !in SetMany(Empty(maxsize), ks, vs).value.store
  {
    var e: Lru<K, V> := Empty(maxsize);
    SetManyFresh(e, ks, vs);
    SetManyValid(e, ks, vs);
    assert e.order + ks == ks;
    assert Recent(ks, maxsize) == ks[1..];
    assert ks[0] !in ks[1..];
  }

  /** In a full cache, reading the least recently used key and then inserting
      a new key evicts the second oldest key instead. */
  lemma ReadThenInsert<K, V>(c: Lru<K, V>, k: K, v: V)
    requires Valid(c) && c.maxsize >= 2 && |c.order| == c.maxsize && k !in c.store
    ensures Set(Get(c, c.order[0]).0, k, v).Some?
    ensures Set(Get(c, c.order[0]).0, k, v).value.order == c.order[2..] + [c.order[0], k]
  {
    var read := Get(c, c.order[0]).0;
    WithoutAt(c.order, 0);
    assert c.order[..0] + c.order[1..] == c.order[1..];
    SetFresh(read, k, v);
    RotateThenDrop(c.order, k);
  }

  lemma RotateThenDrop<K>(s: seq<K>, k: K)
    requires |s| >= 2
    ensures (s[1..] + [s[0]])[1..] + [k] == s[2..] + [s[0], k]
  {
    assert (s[1..] + [s[0]])[1..] == s[2..] + [s[0]];
  }

  /** Filling a cache of capacity C (at least 2) with C distinct keys, reading
      the first, then inserting a new key evicts the second key, not the first. */
  lemma ReadSparesOldest<K, V>(maxsize: int, ks: seq<K>, vs: seq<V>, v: V)
    requires maxsize >= 2 && |ks| == maxsize + 1 && |vs| == maxsize && Distinct(ks)
    ensures SetMany(Empty(maxsize), ks[..maxsize], vs).Some?
    ensures var filled := SetMany(Empty(maxsize), ks[..maxsize], vs).value;
            var read := Get(filled, ks[0]).0;
            && Set(read, ks[maxsize], v).Some?
            && Set(read, ks[maxsize], v).value.order == ks[2..maxsize] + [ks[0], ks[maxsize]]
            && ks[0] in Set(read, ks[maxsize], v).value.store
            && ks[1] !in Set(read, ks[maxsize], v).value.store
  {
    var first := ks[..maxsize];
    assert Distinct(first);
    FillEmpty(maxsize, first, vs);
    var filled := SetMany(Empty(maxsize), first, vs).value;
    assert ks[maxsize] !in filled.store by {
      forall i | 0 <= i < maxsize ensures first[i] != ks[maxsize] {
        assert first[i] == ks[i];
      }
    }
    ReadThenInsert(filled, ks[maxsize], v);
    var read := Get(filled, ks[0]).0;
    SetValid(read, ks[maxsize], v);
    var r := Set(read, ks[maxsize], v).value;
    assert first[2..] == ks[2..maxsize];
    SecondNotKept(ks, maxsize);
    assert ks[0] in r.order;
  }

  /** Filling an empty cache with exactly `maxsize` distinct keys evicts
      nothing: the recency order is the insertion order. */
  lemma FillEmpty<K, V>(maxsize: int, ks: seq<K>, vs: seq<V>)
    requires maxsize >= 1 && |ks| == |vs| == maxsize && Distinct(ks)
    ensures SetMany(Empty(maxsize), ks, vs).Some?
    ensures Valid(SetMany(Empty(maxsize), ks, vs).value)
    ensures SetMany(Empty(maxsize), ks, vs).value.maxsize == maxsize
    ensures SetMany(Empty(maxsize), ks, vs).value.order == ks
  {
    var e: Lru<K, V> := Empty(maxsize);
    SetManyFresh(e, ks, vs);
    SetManyValid(e, ks, vs);
    assert e.order + ks == ks;
  }

  lemma SecondNotKept<K>(ks: seq<K>, maxsize: int)
    requires 2 <= maxsize < |ks| && Distinct(ks)
    ensures ks[1] !in ks[2..maxsize] + [ks[0], ks[maxsize]]
  {
    var r := ks[2..maxsize] + [ks[0], ks[maxsize]];
    forall i | 0 <= i < |r| ensures r[i] != ks[1] {
      if i < maxsize - 2 { assert r[i] == ks[i + 2]; }
    }
  }
}
