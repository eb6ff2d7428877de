/**
 `LRUCache` from open_clip_vit_b32.py as a class whose methods update its
 OrderedDict in place. The dictionary is held as its recency order plus its
 key-to-value map; `Model()` gives the pair as a value of LruModel.Lru, and
 each method is proved to perform the corresponding LruModel operation.
 */
module Cache {
  import opened Options
  import opened LruModel

  class LruCache<K(==), V> {
    /** Keys from least to most recently used (the OrderedDict's order). */
    var order: seq<K>
    /** The OrderedDict's key-to-value mapping. */
    var store: map<K, V>
    const maxsize: int

    function Model(): Lru<K, V>
      reads this
    {
      Lru(order, store, maxsize)
    }

    ghost predicate Valid()
      reads this
    {
      LruModel.Valid(Model())
    }

    /** `LRUCache(maxsize=100)`: an empty OrderedDict and a fixed capacity. */
    constructor (maxsize: int := 100)
      ensures Valid()
      ensures this.maxsize == maxsize
      ensures Model() == Empty(maxsize)
    {
      order := [];
      store := map[];
      this.maxsize := maxsize;
    }

    /** `cache_get`: pop the key and re-insert it, so that it becomes the most
        recently used; a missing key (KeyError) gives None and changes nothing. */
    method CacheGet(key: K) returns (value: Option<V>)
      requires Valid()
      modifies this
      ensures Valid()
      ensures (Model(), value) == Get(old(Model()), key)
      ensures value == if key in old(store) then Some(old(store)[key]) else None
      ensures store == old(store)
      ensures key !in old(store) ==> order == old(order)
      ensures key in old(store) ==> order == Without(old(order), key) + [key]
    {
      if key in store {
        var v := store[key];
        // pop the key
        order, store := Without(order, key), store - {key};
        // re-insert it last with the same value
        order, store := order + [key], store[key := v];
        assert store == old(store);
        value := Some(v);
      } else {
        value := None;
      }
    }

    /** `cache_set`: pop an existing key (it is re-inserted last), or, for a new
        key, evict the first entry when `len(self.cache) >= self.maxsize`; then
        insert. `ok` is false where the source raises KeyError: `popitem` on an
        empty OrderedDict, reached only when `maxsize` is below 1. */
    method CacheSet(key: K, value: V) returns (ok: bool)
      requires Valid()
      modifies this
      ensures Valid()
      ensures ok <==> maxsize >= 1
      ensures ok ==> Some(Model()) == Set(old(Model()), key, value)
      ensures !ok ==> Set(old(Model()), key, value).None? && Model() == old(Model())
      ensures ok ==> key in store && store[key] == value && order != [] && order[|order| - 1] == key
      ensures ok ==> forall k :: k in store && k != key ==> k in old(store) && store[k] == old(store)[k]
    {
      ghost var before := Model();
      SetValid(before, key, value);
      if maxsize >= 1 {
        SetStores(before, key, value);
      }
      if key in store {
        SetPopsThenInserts(before, key, value);
        // pop the key
        order, store := Without(order, key), store - {key};
        // re-insert it last with the new value
        order, store := order + [key], store[key := value];
      } else {
        if |order| >= maxsize {
          if order == [] {
            // evicting from an empty dictionary raises KeyError
            return false;
          }
          SetDropsThenInserts(before, key, value);
          // evict the oldest entry
          order, store := order[1..], store - {order[0]};
        } else {
          SetInserts(before, key, value);
        }
        // insert the new key last
        order, store := order + [key], store[key := value];
      }
      assert Model() == Set(before, key, value).value;
      ok := true;
    }
  }
}
