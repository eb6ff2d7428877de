/**
 The split / compute-misses / reassemble logic shared by
 `batched_text_embedding` and `batched_image_embedding` of open_clip_vit_b32.py.

 The first pass asks the cache about every item in batch order, keeping hits
 and recording the misses with their positions (`uncached_indices`); the model
 is then called once on the missed items; the second pass writes each computed
 embedding into the cache and into its original slot. The specification
 functions below describe each pass as a value, and the lemmas state what the
 batch result and the cache look like afterwards.
 */
module BatchedEmbedding {
  import opened Options
  import opened LruModel
  import opened Cache

  // ---------------------------------------------------------------------------
  // Specification functions

  /** The cache key of each item, in batch order. */
  function KeysOf<Item, K>(items: seq<Item>, key: Item -> K): (ks: seq<K>)
    ensures |ks| == |items|
    ensures forall i :: 0 <= i < |items| ==> ks[i] == key(items[i])
  {
    seq(|items|, i requires 0 <= i < |items| => key(items[i]))
  }

  /** The elements of `xs` at the positions `idx`, in that order. */
  function Pick<T>(xs: seq<T>, idx: seq<nat>): (r: seq<T>)
    requires forall j :: 0 <= j < |idx| ==> idx[j] < |xs|
    ensures |r| == |idx|
    ensures forall j :: 0 <= j < |idx| ==> r[j] == xs[idx[j]]
  {
    seq(|idx|, j requires 0 <= j < |idx| => xs[idx[j]])
  }

  /** The cache after the first pass: `cache_get` on each key in turn. Only the
      recency order changes; the stored values never do. */
  function Refresh<K(==), V>(c: Lru<K, V>, ks: seq<K>): (r: Lru<K, V>)
    ensures r.store == c.store && r.maxsize == c.maxsize
    ensures Valid(c) ==> Valid(r)
    decreases |ks|
  {
    if ks == [] then c
    else Get(Refresh(c, ks[..|ks| - 1]), ks[|ks| - 1]).0
  }

  /** `uncached_indices`: the positions of the keys that miss in `store`, in
      increasing order, each exactly once. */
  function MissIndices<K(==), V>(store: map<K, V>, ks: seq<K>): (r: seq<nat>)
    ensures |r| <= |ks|
    ensures forall j :: 0 <= j < |r| ==> r[j] < |ks| && ks[r[j]] !in store
    ensures forall j, j' :: 0 <= j < j' < |r| ==> r[j] < r[j']
    decreases |ks|
  {
    if ks == [] then []
    else
      var n := |ks| - 1;
      var prev := MissIndices(store, ks[..n]);
      assert forall j :: 0 <= j < |prev| ==> ks[..n][prev[j]] == ks[prev[j]];
      prev + (if ks[n] in store then [] else [n])
  }

  /** Every position whose key misses is among `uncached_indices`. */
  lemma {:induction false} MissIndicesCover<K, V>(store: map<K, V>, ks: seq<K>, i: nat)
    requires i < |ks| && ks[i] !in store
    ensures i in MissIndices(store, ks)
    decreases |ks|
  {
    var n := |ks| - 1;
    if i < n {
      MissIndicesCover(store, ks[..n], i);
    }
  }

  /** The batch result as a single left-to-right pass, with no index
      bookkeeping: a hit takes the cached value, and the misses take the
      computed values one after another. */
  function Assemble<K(==), V>(store: map<K, V>, ks: seq<K>, computed: seq<V>): (r: seq<V>)
    requires |computed| == |MissIndices(store, ks)|
    ensures |r| == |ks|
    decreases |ks|
  {
    if ks == [] then []
    else
      var n := |ks| - 1;
      if ks[n] in store then Assemble(store, ks[..n], computed) + [store[ks[n]]]
      else Assemble(store, ks[..n], computed[..|computed| - 1]) + [computed[|computed| - 1]]
  }

  // ---------------------------------------------------------------------------
  // Lemmas about the passes

  /** Every slot whose key hits holds the value the cache had for it. */
  lemma {:induction false} AssembleHit<K, V>(store: map<K, V>, ks: seq<K>, computed: seq<V>, i: nat)
    requires |computed| == |MissIndices(store, ks)|
    requires i < |ks| && ks[i] in store
    ensures Assemble(store, ks, computed)[i] == store[ks[i]]
    decreases |ks|
  {
    var n := |ks| - 1;
    if i < n {
      if ks[n] in store {
        AssembleHit(store, ks[..n], computed, i);
      } else {
        AssembleHit(store, ks[..n], computed[..|computed| - 1], i);
      }
    }
  }

  /** The j-th miss, at position `MissIndices(store, ks)[j]`, holds the j-th
      computed value. */
  lemma {:induction false} AssembleMiss<K, V>(store: map<K, V>, ks: seq<K>, computed: seq<V>, j: nat)
    requires |computed| == |MissIndices(store, ks)|
    requires j < |computed|
    ensures Assemble(store, ks, computed)[MissIndices(store, ks)[j]] == computed[j]
    decreases |ks|
  {
    var n := |ks| - 1;
    var prev := MissIndices(store, ks[..n]);
    if ks[n] in store {
      AssembleMiss(store, ks[..n], computed, j);
    } else if j < |prev| {
      AssembleMiss(store, ks[..n], computed[..|computed| - 1], j);
    }
  }

  /** Every slot is filled, by a hit or by exactly one miss: the result is the
      cached value on a hit and the computed value paired with that position
      otherwise. */
  lemma AssembleSlots<K, V>(store: map<K, V>, ks: seq<K>, computed: seq<V>, r: seq<V>)
    requires |computed| == |MissIndices(store, ks)|
    requires |r| == |ks|
    requires forall i :: 0 <= i < |ks| && ks[i] in store ==> r[i] == store[ks[i]]
    requires forall j :: 0 <= j < |computed| ==> r[MissIndices(store, ks)[j]] == computed[j]
    ensures r == Assemble(store, ks, computed)
  {
    var misses := MissIndices(store, ks);
    forall i | 0 <= i < |ks| ensures r[i] == Assemble(store, ks, computed)[i] {
      if ks[i] in store {
        AssembleHit(store, ks, computed, i);
      } else {
        MissIndicesCover(store, ks, i);
        var j :| 0 <= j < |misses| && misses[j] == i;
        AssembleMiss(store, ks, computed, j);
      }
    }
  }

  // ---------------------------------------------------------------------------
  // The two passes

  /** The result slots after the first pass: the cached value on a hit, still
      None (`results = [None] * len(...)`) on a miss. */
  function HitSlots<K(==), V>(store: map<K, V>, ks: seq<K>): (slots: seq<Option<V>>)
    ensures |slots| == |ks|
    ensures forall i :: 0 <= i < |ks| ==> (slots[i].Some? <==> ks[i] in store)
  {
    seq(|ks|, i requires 0 <= i < |ks| => if ks[i] in store then Some(store[ks[i]]) else None)
  }

  /** Extending the first pass by one key. */
  lemma FirstPassStep<K, V>(c: Lru<K, V>, ks: seq<K>, idx: nat)
    requires idx < |ks|
    ensures Refresh(c, ks[..idx + 1]) == Get(Refresh(c, ks[..idx]), ks[idx]).0
    ensures MissIndices(c.store, ks[..idx + 1]) ==
            MissIndices(c.store, ks[..idx]) + (if ks[idx] in c.store then [] else [idx])
  {
    assert ks[..idx + 1][..idx] == ks[..idx];
  }

  /** One more key at the end of the first pass is one more `cache_get`. */
  lemma AppendGet<K, V>(c: Lru<K, V>, ks: seq<K>, k: K)
    ensures Refresh(c, ks + [k]) == Get(Refresh(c, ks), k).0
  {
    assert (ks + [k])[..|ks|] == ks;
  }

  /** One more key at the end of a batch that hits: no new miss, and the
      result gains the cached value. */
  lemma AppendHit<K, V>(store: map<K, V>, ks: seq<K>, k: K, computed: seq<V>)
    requires k in store && |computed| == |MissIndices(store, ks)|
    ensures MissIndices(store, ks + [k]) == MissIndices(store, ks)
    ensures Assemble(store, ks + [k], computed) == Assemble(store, ks, computed) + [store[k]]
  {
    assert (ks + [k])[..|ks|] == ks;
  }

  /** One more key at the end of a batch that misses: its position is the
      last miss, and the result gains the next computed value. */
  lemma AppendMiss<K, V>(store: map<K, V>, ks: seq<K>, k: K, computed: seq<V>, v: V)
    requires k !in store && |computed| == |MissIndices(store, ks)|
    ensures MissIndices(store, ks + [k]) == MissIndices(store, ks) + [|ks|]
    ensures Assemble(store, ks + [k], computed + [v]) == Assemble(store, ks, computed) + [v]
  {
    assert (ks + [k])[..|ks|] == ks;
    assert (computed + [v])[..|computed|] == computed;
  }

  lemma PickAppend<T>(xs: seq<T>, idx: seq<nat>, i: nat)
    requires forall j :: 0 <= j < |idx| ==> idx[j] < |xs|
    requires i < |xs|
    ensures Pick(xs, idx + [i]) == Pick(xs, idx) + [xs[i]]
  {
  }

  /** What the first pass has built after looking at `items[..idx]`: the hit
      slots so far, and the missed items with their indices. */
  ghost predicate FirstPassDone<Item, K, V>(c0: Lru<K, V>, items: seq<Item>, key: Item -> K, idx: nat,
                                               slots: seq<Option<V>>, uncachedItems: seq<Item>,
                                               uncachedIndices: seq<nat>)
    requires idx <= |items|
  {
    var ks := KeysOf(items, key);
    && uncachedIndices == MissIndices(c0.store, ks[..idx])
    && uncachedItems == Pick(items, uncachedIndices)
    && |slots| == |items|
    && forall i :: 0 <= i < |items| ==> slots[i] == if i < idx then HitSlots(c0.store, ks)[i] else None
  }

  /** One more item of the first pass: a hit fills its slot, a miss is recorded. */
  lemma FirstPassAdvance<Item, K, V>(c0: Lru<K, V>, items: seq<Item>, key: Item -> K, idx: nat,
                                     slots: seq<Option<V>>, uncachedItems: seq<Item>, uncachedIndices: seq<nat>)
    requires idx < |items|
    requires FirstPassDone(c0, items, key, idx, slots, uncachedItems, uncachedIndices)
    ensures var k := key(items[idx]);
            k in c0.store ==>
              FirstPassDone(c0, items, key, idx + 1, slots[idx := Some(c0.store[k])], uncachedItems, uncachedIndices)
    ensures var k := key(items[idx]);
            k !in c0.store ==>
              FirstPassDone(c0, items, key, idx + 1, slots, uncachedItems + [items[idx]], uncachedIndices + [idx])
  {
    var ks := KeysOf(items, key);
    FirstPassStep(c0, ks, idx);
    if ks[idx] !in c0.store {
      PickAppend(items, uncachedIndices, idx);
    }
  }

  /** The first pass (the first `for` loop): `cache_get` on each item's key in
      batch order, keeping hits in their slots and collecting the misses. */
  method LookUpAll<Item, K(==), V>(cache: LruCache<K, V>, items: seq<Item>, key: Item -> K)
    returns (slots: seq<Option<V>>, uncachedItems: seq<Item>, uncachedIndices: seq<nat>)
    requires cache.Valid()
    modifies cache
    ensures cache.Valid()
    ensures cache.Model() == Refresh(old(cache.Model()), KeysOf(items, key))
    ensures slots == HitSlots(old(cache.store), KeysOf(items, key))
    ensures uncachedIndices == MissIndices(old(cache.store), KeysOf(items, key))
    ensures uncachedItems == Pick(items, uncachedIndices)
  {
    ghost var c0 := cache.Model();
    ghost var ks := KeysOf(items, key);
    slots := seq(|items|, _ => None);
    uncachedItems, uncachedIndices := [], [];
    var idx := 0;
    while idx < |items|
      invariant 0 <= idx <= |items|
      invariant cache.Valid()
      invariant cache.Model() == Refresh(c0, ks[..idx])
      invariant FirstPassDone(c0, items, key, idx, slots, uncachedItems, uncachedIndices)
    {
      var cachedResult := cache.CacheGet(key(items[idx]));
      FirstPassStep(c0, ks, idx);
      FirstPassAdvance(c0, items, key, idx, slots, uncachedItems, uncachedIndices);
      if cachedResult.Some? {
        slots := slots[idx := cachedResult];
      } else {
        uncachedItems := uncachedItems + [items[idx]];
        uncachedIndices := uncachedIndices + [idx];
      }
      idx := idx + 1;
    }
    assert ks[..|items|] == ks;
  }

  /** The second pass (the loop over `uncached_indices`): `cache_set` of each
      miss's key to its embedding, in index order, and the embedding written
      into the miss's slot. `ok` is false where a `cache_set` raises. */
  method StoreComputed<Item, K(==), V>(cache: LruCache<K, V>, items: seq<Item>, key: Item -> K,
                                       slots: seq<Option<V>>, uncachedIndices: seq<nat>,
                                       embeddings: seq<V>)
    returns (ok: bool, filled: seq<Option<V>>)
    requires cache.Valid()
    requires |slots| == |items| && |embeddings| == |uncachedIndices|
    requires forall j :: 0 <= j < |uncachedIndices| ==> uncachedIndices[j] < |items|
    requires forall j, j' :: 0 <= j < j' < |uncachedIndices| ==> uncachedIndices[j] < uncachedIndices[j']
    modifies cache
    ensures cache.Valid()
    ensures ok <==> uncachedIndices == [] || cache.maxsize >= 1
    ensures ok ==> Some(cache.Model()) ==
                   SetMany(old(cache.Model()), Pick(KeysOf(items, key), uncachedIndices), embeddings)
    ensures !ok ==> cache.Model() == old(cache.Model())
    ensures |filled| == |slots|
    ensures ok ==> forall j :: 0 <= j < |uncachedIndices| ==> filled[uncachedIndices[j]] == Some(embeddings[j])
    ensures ok ==> forall p :: 0 <= p < |slots| && p !in uncachedIndices ==> filled[p] == slots[p]
  {
    ghost var c1 := cache.Model();
    ghost var missKeys := Pick(KeysOf(items, key), uncachedIndices);
    filled := slots;
    var i := 0;
    while i < |uncachedIndices|
      invariant 0 <= i <= |uncachedIndices|
      invariant cache.Valid() && cache.maxsize == c1.maxsize
      invariant i > 0 ==> cache.maxsize >= 1
      invariant Some(cache.Model()) == SetMany(c1, missKeys[..i], embeddings[..i])
      invariant |filled| == |slots|
      invariant forall j :: 0 <= j < i ==> filled[uncachedIndices[j]] == Some(embeddings[j])
      invariant forall p :: 0 <= p < |slots| && p !in uncachedIndices[..i] ==> filled[p] == slots[p]
    {
      var idx := uncachedIndices[i];
      var embedding := embeddings[i];
      SetManyStep(c1, missKeys, embeddings, i, cache.Model());
      ok := cache.CacheSet(key(items[idx]), embedding);
      if !ok {
        // the KeyError from popitem propagates out of the batch
        return;
      }
      FillStep(slots, filled, uncachedIndices, embeddings, i);
      filled := filled[idx := Some(embedding)];
      i := i + 1;
    }
    assert missKeys[..i] == missKeys && embeddings[..i] == embeddings;
    assert uncachedIndices[..i] == uncachedIndices;
    ok := true;
  }

  /** One more `cache_set` of the second pass. */
  lemma SetManyStep<K, V>(c: Lru<K, V>, ks: seq<K>, vs: seq<V>, i: nat, m: Lru<K, V>)
    requires i < |ks| == |vs|
    requires SetMany(c, ks[..i], vs[..i]) == Some(m)
    ensures SetMany(c, ks[..i + 1], vs[..i + 1]) == Set(m, ks[i], vs[i])
  {
    assert ks[..i + 1][..i] == ks[..i];
    assert vs[..i + 1][..i] == vs[..i];
  }

  /** Writing the i-th embedding into its slot keeps the earlier ones and
      touches no slot outside `idxs`. */
  lemma FillStep<V>(slots: seq<Option<V>>, filled: seq<Option<V>>, idxs: seq<nat>, es: seq<V>, i: nat)
    requires i < |idxs| == |es| && |filled| == |slots|
    requires forall j :: 0 <= j < |idxs| ==> idxs[j] < |slots|
    requires forall j, j' :: 0 <= j < j' < |idxs| ==> idxs[j] < idxs[j']
    requires forall j :: 0 <= j < i ==> filled[idxs[j]] == Some(es[j])
    requires forall p :: 0 <= p < |slots| && p !in idxs[..i] ==> filled[p] == slots[p]
    ensures var f := filled[idxs[i] := Some(es[i])];
            && (forall j :: 0 <= j < i + 1 ==> f[idxs[j]] == Some(es[j]))
            && (forall p :: 0 <= p < |slots| && p !in idxs[..i + 1] ==> f[p] == slots[p])
  {
    assert idxs[..i + 1] == idxs[..i] + [idxs[i]];
  }

  /**
   One call of `batched_text_embedding` / `batched_image_embedding`: `key` is
   the cache key of an item (the text itself, or `serialize_image`) and
   `compute` the model call on the missed items (tokenise or preprocess,
   encode, L2-normalise). `calls` lists the arguments `compute` was called
   with. The result is None where the source raises: a `cache_set` of a new
   key into a cache whose `maxsize` is below 1.
   */
  method BatchedEmbedding<Item, K(==), V>(cache: LruCache<K, V>, items: seq<Item>,
                                          key: Item -> K, compute: seq<Item> -> seq<V>)
    returns (results: Option<seq<V>>, calls: seq<seq<Item>>)
    requires cache.Valid()
    requires forall xs :: |compute(xs)| == |xs|
    modifies cache
    ensures cache.Valid()
    ensures var ks := KeysOf(items, key);
            var misses := MissIndices(old(cache.store), ks);
            var missed := Pick(items, misses);
            && calls == (if misses == [] then [] else [missed])
            && (results.Some? <==> misses == [] || cache.maxsize >= 1)
            && (results.Some? ==> results.value == Assemble(old(cache.store), ks, compute(missed)))
            && (results.Some? ==> Some(cache.Model()) ==
                                  SetMany(Refresh(old(cache.Model()), ks), Pick(ks, misses), compute(missed)))
            && (results.None? ==> cache.Model() == Refresh(old(cache.Model()), ks))
    ensures results.Some? ==> |results.value| == |items|
    ensures results.Some? ==> forall i :: 0 <= i < |items| && key(items[i]) in old(cache.store) ==>
                                results.value[i] == old(cache.store)[key(items[i])]
    ensures var misses := MissIndices(old(cache.store), KeysOf(items, key));
            results.Some? ==> forall j :: 0 <= j < |misses| ==>
                                results.value[misses[j]] == compute(Pick(items, misses))[j]
  {
    ghost var c0 := cache.Model();
    ghost var ks := KeysOf(items, key);
    var slots, uncachedItems, uncachedIndices := LookUpAll(cache, items, key);
    calls := [];
    var embeddings: seq<V> := [];
    if uncachedItems != [] {
      embeddings := compute(uncachedItems);
      calls := [uncachedItems];
    } else {
      assert embeddings == compute(uncachedItems);
    }
    var ok;
    ok, slots := StoreComputed(cache, items, key, slots, uncachedIndices, embeddings);
    if !ok {
      return None, calls;
    }
    SlotsFilled(c0.store, ks, embeddings, slots);
    AssembleAll(c0.store, ks, embeddings);
    results := Some(Unwrap(slots));
  }

  /** The values of slots that are all filled. */
  function Unwrap<V>(slots: seq<Option<V>>): (r: seq<V>)
    requires forall p :: 0 <= p < |slots| ==> slots[p].Some?
    ensures |r| == |slots| && forall p :: 0 <= p < |slots| ==> slots[p] == Some(r[p])
  {
    seq(|slots|, p requires 0 <= p < |slots| => slots[p].value)
  }

  /** After both passes every slot is filled, and the values are the result
      the single-pass reading `Assemble` describes. */
  lemma SlotsFilled<K, V>(store: map<K, V>, ks: seq<K>, computed: seq<V>, filled: seq<Option<V>>)
    requires |computed| == |MissIndices(store, ks)| && |filled| == |ks|
    requires var misses := MissIndices(store, ks);
             forall j :: 0 <= j < |misses| ==> filled[misses[j]] == Some(computed[j])
    requires var misses := MissIndices(store, ks);
             forall p :: 0 <= p < |ks| && p !in misses ==> filled[p] == HitSlots(store, ks)[p]
    ensures forall p :: 0 <= p < |filled| ==> filled[p].Some?
    ensures Unwrap(filled) == Assemble(store, ks, computed)
  {
    var misses := MissIndices(store, ks);
    forall p | 0 <= p < |ks| ensures filled[p].Some? {
      if ks[p] !in store {
        MissIndicesCover(store, ks, p);
      }
    }
    AssembleSlots(store, ks, computed, Unwrap(filled));
  }

  /** Every hit slot and every miss slot of the result, at once. */
  lemma AssembleAll<K, V>(store: map<K, V>, ks: seq<K>, computed: seq<V>)
    requires |computed| == |MissIndices(store, ks)|
    ensures var r := Assemble(store, ks, computed);
            forall i :: 0 <= i < |ks| && ks[i] in store ==> r[i] == store[ks[i]]
    ensures var r := Assemble(store, ks, computed);
            var misses := MissIndices(store, ks);
            forall j :: 0 <= j < |misses| ==> r[misses[j]] == computed[j]
  {
    forall i | 0 <= i < |ks| && ks[i] in store {
      AssembleHit(store, ks, computed, i);
    }
    forall j | 0 <= j < |MissIndices(store, ks)| {
      AssembleMiss(store, ks, computed, j);
    }
  }

  // ---------------------------------------------------------------------------
  // What a batch guarantees

  /** The cache after a successful batch: every `cache_get` of the first pass,
      then `cache_set(Key(item), embedding)` for each miss in index order. */
  function AfterBatch<K(==), V>(c: Lru<K, V>, ks: seq<K>, computed: seq<V>): (r: Option<Lru<K, V>>)
    requires |computed| == |MissIndices(c.store, ks)|
    ensures c.maxsize >= 1 ==> r.Some?
    ensures r.Some? ==> r.value.maxsize == c.maxsize
    ensures MissIndices(c.store, ks) == [] ==> r == Some(Refresh(c, ks))
  {
    SetMany(Refresh(c, ks), Pick(ks, MissIndices(c.store, ks)), computed)
  }

  /** An empty or all-hit batch computes nothing and only refreshes recency:
      every key keeps its value and the result is the cached values. */
  lemma AllHits<K, V>(c: Lru<K, V>, ks: seq<K>)
    requires forall i :: 0 <= i < |ks| ==> ks[i] in c.store
    ensures MissIndices(c.store, ks) == []
    ensures AfterBatch(c, ks, []) == Some(Refresh(c, ks))
    ensures Refresh(c, ks).store == c.store
    ensures Assemble(c.store, ks, []) == seq(|ks|, i requires 0 <= i < |ks| => c.store[ks[i]])
  {
    var r := Assemble(c.store, ks, []);
    forall i | 0 <= i < |ks| ensures r[i] == c.store[ks[i]] {
      AssembleHit(c.store, ks, [], i);
    }
  }

  /** Batching one item twice: the second call misses nothing (so it computes
      nothing) and returns what the first call returned. */
  lemma RepeatSingle<K, V>(c: Lru<K, V>, k: K, computed: seq<V>)
    requires Valid(c) && c.maxsize >= 1
    requires |computed| == |MissIndices(c.store, [k])|
    ensures AfterBatch(c, [k], computed).Some?
    ensures var c' := AfterBatch(c, [k], computed).value;
            && MissIndices(c'.store, [k]) == []
            && Assemble(c'.store, [k], []) == Assemble(c.store, [k], computed)
  {
    if k in c.store {
      SingleHit(c, k);
    } else {
      var v := computed[0];
      SingleMiss(c, k, v);
      assert computed == [v];
      SetStores(c, k, v);
      SingleHit(Set(c, k, v).value, k);
    }
  }

  /** A one-item batch that hits: nothing to compute, the cached value comes
      back, and the only effect is the `cache_get`. */
  lemma SingleHit<K, V>(c: Lru<K, V>, k: K)
    requires k in c.store
    ensures MissIndices(c.store, [k]) == []
    ensures Assemble(c.store, [k], []) == [c.store[k]]
    ensures AfterBatch(c, [k], []) == Some(Get(c, k).0)
  {
    var none: seq<K> := [];
    AppendGet(c, none, k);
    AppendHit(c.store, none, k, []);
    assert none + [k] == [k];
  }

  /** A one-item batch that misses: its computed value comes back and is
      stored with `cache_set`. */
  lemma SingleMiss<K, V>(c: Lru<K, V>, k: K, v: V)
    requires k !in c.store
    ensures MissIndices(c.store, [k]) == [0]
    ensures Assemble(c.store, [k], [v]) == [v]
    ensures AfterBatch(c, [k], [v]) == Set(c, k, v)
  {
    var none: seq<K> := [];
    AppendGet(c, none, k);
    AppendMiss(c.store, none, k, [], v);
    assert none + [k] == [k] && [] + [v] == [v];
    assert Refresh(c, none) == c && Refresh(c, [k]) == c;
    assert Pick([k], [0]) == [k] && [k][..0] == [] && [v][..0] == [];
    assert SetMany(c, [], []) == Some(c);
    assert SetMany(c, [k], [v]) == Set(c, k, v);
  }

  /** The partial-hit batch: capacity 2, only `a` cached, batch [a, b, a].
      Only `b` is computed; the output is the cached value, the computed one,
      then the cached one again; the cache ends with `a` then `b`. */
  lemma PartialHitBatch<K, V>(a: K, b: K, va: V, vb: V)
    requires a != b
    ensures var c := Lru([a], map[a := va], 2);
            var ks := [a, b, a];
            && MissIndices(c.store, ks) == [1]
            && Pick(ks, [1]) == [b]
            && Assemble(c.store, ks, [vb]) == [va, vb, va]
            && AfterBatch(c, ks, [vb]) == Some(Lru([a, b], map[a := va, b := vb], 2))
  {
    var c := Lru([a], map[a := va], 2);
    PartialHitRefresh(c, a, b);
    PartialHitAssemble(c.store, a, b, vb);
    assert Pick([a, b, a], [1]) == [b];
    PartialHitStore(a, b, va, vb);
  }

  lemma PartialHitRefresh<K, V>(c: Lru<K, V>, a: K, b: K)
    requires c.order == [a] && c.store.Keys == {a} && a != b
    ensures Refresh(c, [a, b, a]) == c
  {
    var k0: seq<K> := [];
    var k1, k2 := k0 + [a], k0 + [a] + [b];
    assert Without([a], a) == [];
    assert Get(c, a).0 == c;
    AppendGet(c, k0, a);
    AppendGet(c, k1, b);
    AppendGet(c, k2, a);
    assert k2 + [a] == [a, b, a];
  }

  lemma PartialHitAssemble<K, V>(store: map<K, V>, a: K, b: K, vb: V)
    requires a in store && b !in store
    ensures MissIndices(store, [a, b, a]) == [1]
    ensures Assemble(store, [a, b, a], [vb]) == [store[a], vb, store[a]]
  {
    var k0: seq<K> := [];
    var k1, k2, k3 := k0 + [a], k0 + [a] + [b], k0 + [a] + [b] + [a];
    var none: seq<V> := [];
    AppendHit(store, k0, a, none);
    AppendMiss(store, k1, b, none, vb);
    AppendHit(store, k2, a, none + [vb]);
    assert k3 == [a, b, a] && none + [vb] == [vb];
  }

  lemma PartialHitStore<K, V>(a: K, b: K, va: V, vb: V)
    requires a != b
    ensures SetMany(Lru([a], map[a := va], 2), [b], [vb])
            == Some(Lru([a, b], map[a := va, b := vb], 2))
  {
    var c := Lru([a], map[a := va], 2);
    assert [b][..0] == [] && [vb][..0] == [];
    assert SetMany(c, [], []) == Some(c);
    assert [a] + [b] == [a, b];
  }

  /** The duplicate-miss batch: capacity 10, nothing cached, batch [x, x].
      Both are misses and computed; each slot gets its own computed value and
      the cache ends with one entry for `x`, holding the last one. */
  lemma DuplicateMissBatch<K, V>(x: K, v0: V, v1: V)
    ensures var c: Lru<K, V> := Empty(10);
            var ks := [x, x];
            && MissIndices(c.store, ks) == [0, 1]
            && Pick(ks, [0, 1]) == [x, x]
            && Assemble(c.store, ks, [v0, v1]) == [v0, v1]
            && AfterBatch(c, ks, [v0, v1]) == Some(Lru([x], map[x := v1], 10))
  {
    var c: Lru<K, V> := Empty(10);
    DuplicateMissFirstPass(c, x);
    DuplicateMissAssemble(c.store, x, v0, v1);
    assert Pick([x, x], [0, 1]) == [x, x];
    DuplicateMissStore(x, v0, v1);
  }

  lemma DuplicateMissFirstPass<K, V>(c: Lru<K, V>, x: K)
    requires c.store == map[]
    ensures Refresh(c, [x, x]) == c
  {
    var k0: seq<K> := [];
    AppendGet(c, k0, x);
    AppendGet(c, k0 + [x], x);
    assert k0 + [x] + [x] == [x, x];
  }

  lemma DuplicateMissAssemble<K, V>(store: map<K, V>, x: K, v0: V, v1: V)
    requires store == map[]
    ensures MissIndices(store, [x, x]) == [0, 1]
    ensures Assemble(store, [x, x], [v0, v1]) == [v0, v1]
  {
    var k0: seq<K> := [];
    var none: seq<V> := [];
    AppendMiss(store, k0, x, none, v0);
    AppendMiss(store, k0 + [x], x, none + [v0], v1);
    assert k0 + [x] + [x] == [x, x] && none + [v0] + [v1] == [v0, v1];
  }

  lemma DuplicateMissStore<K, V>(x: K, v0: V, v1: V)
    ensures SetMany(Empty(10), [x, x], [v0, v1]) == Some(Lru([x], map[x := v1], 10))
  {
    var c: Lru<K, V> := Empty(10);
    var c1 := Lru([x], map[x := v0], 10);
    assert [x, x][..1] == [x] && [x][..0] == [];
    assert [v0, v1][..1] == [v0] && [v0][..0] == [];
    assert SetMany(c, [], []) == Some(c);
    assert [] + [x] == [x];
    assert map[][x := v0] == map[x := v0];
    assert SetMany(c, [x], [v0]) == Some(c1);
    assert Without([x], x) == [];
    assert map[x := v0][x := v1] == map[x := v1];
  }

  // ---------------------------------------------------------------------------
  // The model class

  /** An embedding vector; the cache never looks inside it. */
  type Embedding = seq<real>

  /** The text cache's key: the text itself, verbatim. */
  function Verbatim(t: string): string {
    t
  }

  lemma VerbatimKeys(text: seq<string>)
    ensures KeysOf(text, Verbatim) == text
  {
  }

  /**
   The cache-related state of `OpenClipVitB32`: one LRU cache per modality, and
   the collaborators the batch methods call. `encodeText` and `encodeImage`
   stand for tokenising or preprocessing, encoding and L2-normalising a list
   of items; `serializeImage` for the MD5 hex digest of an image's pixels.
   */
  class OpenClipVitB32<Image(!new)> {
    const textCache: LruCache<string, Embedding>
    const imageCache: LruCache<string, Embedding>
    const encodeText: seq<string> -> seq<Embedding>
    const encodeImage: seq<Image> -> seq<Embedding>
    const serializeImage: Image -> string

    ghost predicate Valid()
      reads this, textCache, imageCache
    {
      && textCache != imageCache
      && textCache.Valid() && imageCache.Valid()
      && textCache.maxsize == 100 && imageCache.maxsize == 100
      && (forall xs :: |encodeText(xs)| == |xs|)
      && (forall xs :: |encodeImage(xs)| == |xs|)
    }

    /** The cache part of `_load_model`: two empty caches of 100 entries each. */
    constructor (encodeText: seq<string> -> seq<Embedding>, encodeImage: seq<Image> -> seq<Embedding>,
                 serializeImage: Image -> string)
      requires forall xs :: |encodeText(xs)| == |xs|
      requires forall xs :: |encodeImage(xs)| == |xs|
      ensures Valid() && fresh(textCache) && fresh(imageCache)
      ensures textCache.Model() == Empty(100) && imageCache.Model() == Empty(100)
      ensures this.encodeText == encodeText && this.encodeImage == encodeImage
      ensures this.serializeImage == serializeImage
    {
      this.encodeText := encodeText;
      this.encodeImage := encodeImage;
      this.serializeImage := serializeImage;
      textCache := new LruCache(maxsize := 100);
      imageCache := new LruCache(maxsize := 100);
    }

    /** `batched_text_embedding`: each text is its own key. */
    method BatchedTextEmbedding(text: seq<string>)
      returns (embedding: Option<seq<Embedding>>, calls: seq<seq<string>>)
      requires Valid()
      modifies textCache
      ensures Valid() && unchanged(imageCache)
      ensures embedding.Some? && |embedding.value| == |text|
      ensures var misses := MissIndices(old(textCache.store), text);
              var missed := Pick(text, misses);
              && calls == (if misses == [] then [] else [missed])
              && (embedding.Some? <==> misses == [] || textCache.maxsize >= 1)
              && (embedding.Some? ==> embedding.value == Assemble(old(textCache.store), text, encodeText(missed)))
              && (embedding.Some? ==> Some(textCache.Model()) ==
                                      AfterBatch(old(textCache.Model()), text, encodeText(missed)))
    {
      VerbatimKeys(text);
      embedding, calls := BatchedEmbedding(textCache, text, Verbatim, encodeText);
    }

    /** `batched_image_embedding`: an image's key is `serialize_image` of it,
        computed again (to the same value) when its embedding is stored. */
    method BatchedImageEmbedding(image: seq<Image>)
      returns (embedding: Option<seq<Embedding>>, calls: seq<seq<Image>>)
      requires Valid()
      modifies imageCache
      ensures Valid() && unchanged(textCache)
      ensures embedding.Some? && |embedding.value| == |image|
      ensures var ks := KeysOf(image, serializeImage);
              var misses := MissIndices(old(imageCache.store), ks);
              var missed := Pick(image, misses);
              && calls == (if misses == [] then [] else [missed])
              && (embedding.Some? <==> misses == [] || imageCache.maxsize >= 1)
              && (embedding.Some? ==> embedding.value == Assemble(old(imageCache.store), ks, encodeImage(missed)))
              && (embedding.Some? ==> Some(imageCache.Model()) ==
                                      AfterBatch(old(imageCache.Model()), ks, encodeImage(missed)))
    {
      embedding, calls := BatchedEmbedding(imageCache, image, serializeImage, encodeImage);
    }
  }
}
