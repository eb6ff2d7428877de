# Batch-aware LRU embedding cache

A Dafny model of the caching core of the OpenCLIP ViT-B/32 feature-extraction
model and of the small helpers in `utils.py`:

- `LRUCache` is a key→value store of bounded capacity on an `OrderedDict` whose
  order is recency (least recently used first). `cache_get` pops and re-inserts
  a key, `cache_set` refreshes an existing key or evicts the oldest entry when
  the store is full.
- `batched_text_embedding` and `batched_image_embedding` ask the cache about
  every item of a batch in order, call the model once on the missed items
  only, and write each computed embedding into its original slot and into the
  cache.
- `batch` cuts a sequence into consecutive slices; `prepare_text`,
  `prepare_images` and `prepare_audio` accept a single string or a list and
  strip a `data:image` / `data:audio` URL header before decoding.

Files:

- `options.dfy` (module `Options`): the `Option` datatype, which stands for
  "returned None" or "raised".
- `lru_model.dfy` (module `LruModel`): the cache as a value
  `Lru(order, store, maxsize)`, where `order` lists the keys from least to
  most recently used. It holds the `Get` and `Set` operations, the invariant
  `Valid`, and lemmas about recency, eviction and capacity.
- `lru_cache.dfy` (module `Cache`): the class `LruCache`. Its fields `order`
  and `store` are updated in place by `CacheGet` and `CacheSet`, and each
  method is proved to perform `LruModel.Get` / `LruModel.Set`.
- `batched_embedding.dfy` (module `BatchedEmbedding`): the two-pass batch
  method, generic over the item type, the key function and the model call. It
  is proved against the specification functions `Refresh` (the first pass's
  effect on the cache), `MissIndices` (`uncached_indices`), `Assemble` (the
  result) and `SetMany` (the second pass's effect on the cache).
  `OpenClipVitB32` holds the two caches and instantiates the method for text
  (key = the text) and for images (key = `serialize_image`).
- `utils.dfy` (module `Utils`): `Batch`, `PrepareText`, `StripDataPrefix` and
  the `PrepareImages` / `PrepareAudio` loops around an abstract decoder.

Raising is modelled as a value:

- `cache_set` on a new key when `maxsize < 1` calls `popitem` on an empty
  dictionary and raises `KeyError`. `CacheSet` then returns `false` and leaves
  the cache unchanged; the batch methods return `None`.
- `batch` with `n == 0` raises, because `range` rejects a zero step. `Batch`
  returns `None` in that case.
- A decoder that raises is a decoder returning `None`.

## Model

| member | source | states |
|---|---|---|
| LruModel.Empty | src/open_clip_vit_b32/feature_extraction_server/models/open_clip_vit_b32.py:10-12 | a new cache has no entries and satisfies the cache invariant (distinct keys, order and store agree, within capacity) |
| LruModel.Without | src/open_clip_vit_b32/feature_extraction_server/models/open_clip_vit_b32.py:16 | popping a key from the recency order removes exactly that key, keeps keys distinct, shortens the order by one when the key was present and changes nothing when it was absent |
| LruModel.WithoutAt | src/open_clip_vit_b32/feature_extraction_server/models/open_clip_vit_b32.py:16 | popping the key at position p leaves all other keys in their relative order |
| LruModel.WithoutOnce | src/open_clip_vit_b32/feature_extraction_server/models/open_clip_vit_b32.py:16 | popping a key that occurs exactly once, at position p, leaves the keys before it and after it, in order |
| LruModel.Get | src/open_clip_vit_b32/feature_extraction_server/models/open_clip_vit_b32.py:14-21 | `cache_get` returns a value iff the key is stored, and that value is the stored one; values and capacity never change; a miss changes nothing; the invariant and the size are preserved |
| LruModel.GetHit | src/open_clip_vit_b32/feature_extraction_server/models/open_clip_vit_b32.py:16-19 | on a hit at position p the key moves to the most recently used end and every other key keeps its relative order |
| LruModel.GetMiss | src/open_clip_vit_b32/feature_extraction_server/models/open_clip_vit_b32.py:20-21 | on an absent key `cache_get` returns None and leaves contents and recency order unchanged |
| LruModel.Set | src/open_clip_vit_b32/feature_extraction_server/models/open_clip_vit_b32.py:23-29 | `cache_set` raises exactly when the key is new, the order is empty and maxsize <= 0; otherwise capacity is kept and the key holds the new value (its full behaviour per branch is stated by SetExisting, SetEvicts, SetInserts, SetValid and SetStores) |
| LruModel.SetExisting | src/open_clip_vit_b32/feature_extraction_server/models/open_clip_vit_b32.py:23-29 | setting a stored key overwrites its value, moves it to the end with the others in order, evicts nothing and keeps the size |
| LruModel.SetEvicts | src/open_clip_vit_b32/feature_extraction_server/models/open_clip_vit_b32.py:26-29 | a new key on a full cache removes exactly the least recently used entry, appends the new key last and leaves every other entry untouched; the size stays the same |
| LruModel.SetInserts | src/open_clip_vit_b32/feature_extraction_server/models/open_clip_vit_b32.py:26-29 | a new key on a cache below capacity is appended last and nothing is evicted |
| LruModel.SetPopsThenInserts | src/open_clip_vit_b32/feature_extraction_server/models/open_clip_vit_b32.py:24-29 | for a stored key, popping it and re-inserting it last with the new value is `cache_set` |
| LruModel.SetDropsThenInserts | src/open_clip_vit_b32/feature_extraction_server/models/open_clip_vit_b32.py:27-29 | for a new key on a full, non-empty order, dropping the first entry and inserting the key last is `cache_set` |
| LruModel.SetValid | src/open_clip_vit_b32/feature_extraction_server/models/open_clip_vit_b32.py:23-29 | `cache_set` raises iff maxsize < 1; otherwise it keeps keys distinct, order and store in agreement and the size within maxsize |
| LruModel.SetStores | src/open_clip_vit_b32/feature_extraction_server/models/open_clip_vit_b32.py:23-29 | after `cache_set(k, v)` with maxsize >= 1, k holds v and is the most recently used; no other key appears and no other value changes |
| LruModel.SetThenGet | src/open_clip_vit_b32/feature_extraction_server/models/open_clip_vit_b32.py:14-29 | right after `cache_set(k, v)`, `cache_get(k)` returns v and leaves the cache as it was |
| LruModel.SizeBounded | src/open_clip_vit_b32/feature_extraction_server/models/open_clip_vit_b32.py:27-28 | a valid cache holds as many entries as keys in its order, and at most maxsize of them |
| LruModel.SetMany | src/open_clip_vit_b32/feature_extraction_server/models/open_clip_vit_b32.py:105-107 | a run of `cache_set` calls never raises when maxsize >= 1 and keeps the capacity (SetManyValid adds the invariant, SetManyFresh the resulting order) |
| LruModel.SetManyValid | src/open_clip_vit_b32/feature_extraction_server/models/open_clip_vit_b32.py:105-108 | a run of `cache_set` calls with maxsize >= 1 never raises and keeps the invariant |
| LruModel.Recent | src/open_clip_vit_b32/feature_extraction_server/models/open_clip_vit_b32.py:27-29 | the last m keys of an insertion history: a suffix of it, all of it when shorter than m, exactly m otherwise |
| LruModel.SetFresh | src/open_clip_vit_b32/feature_extraction_server/models/open_clip_vit_b32.py:26-29 | a new key drops the first key of a full order and is appended last |
| LruModel.FreshStep | src/open_clip_vit_b32/feature_extraction_server/models/open_clip_vit_b32.py:26-29 | if the order is the last maxsize keys of a history, inserting a new key keeps it the last maxsize keys of the extended history |
| LruModel.SetManyFresh | src/open_clip_vit_b32/feature_extraction_server/models/open_clip_vit_b32.py:26-29 | inserting distinct new keys one after another leaves exactly the last maxsize keys of the old order followed by the new keys |
| LruModel.EvictsOldest | src/open_clip_vit_b32/feature_extraction_server/models/open_clip_vit_b32.py:27-28 | filling an empty cache of capacity C with C+1 distinct keys evicts exactly the first one |
| LruModel.FillEmpty | src/open_clip_vit_b32/feature_extraction_server/models/open_clip_vit_b32.py:26-29 | filling an empty cache with exactly maxsize distinct keys evicts nothing: the recency order is the insertion order |
| LruModel.ReadThenInsert | src/open_clip_vit_b32/feature_extraction_server/models/open_clip_vit_b32.py:16-28 | reading the oldest key of a full cache and then inserting a new key evicts the second-oldest instead |
| LruModel.ReadSparesOldest | src/open_clip_vit_b32/feature_extraction_server/models/open_clip_vit_b32.py:14-29 | fill an empty cache, read the first key and insert one more: the first key survives and the second is evicted |
| Cache.LruCache.constructor | src/open_clip_vit_b32/feature_extraction_server/models/open_clip_vit_b32.py:10-12 | an empty cache with the given maxsize (default 100) |
| Cache.LruCache.CacheGet | src/open_clip_vit_b32/feature_extraction_server/models/open_clip_vit_b32.py:14-21 | performs `LruModel.Get` in place: returns the stored value or None, never changes a value, moves a hit key to the end |
| Cache.LruCache.CacheSet | src/open_clip_vit_b32/feature_extraction_server/models/open_clip_vit_b32.py:23-29 | performs `LruModel.Set` in place; it succeeds iff maxsize >= 1, and otherwise the cache is unchanged; afterwards the key holds the value and is last, no other key has appeared, and every other value is unchanged |
| BatchedEmbedding.KeysOf | src/open_clip_vit_b32/feature_extraction_server/models/open_clip_vit_b32.py:119-121 | the cache key of every item, one per item, in batch order |
| BatchedEmbedding.Pick | src/open_clip_vit_b32/feature_extraction_server/models/open_clip_vit_b32.py:124-126 | the items at the recorded indices, in that order |
| BatchedEmbedding.Refresh | src/open_clip_vit_b32/feature_extraction_server/models/open_clip_vit_b32.py:89-90 | the first pass's `cache_get` calls change only recency: values and capacity stay, the invariant is kept |
| BatchedEmbedding.MissIndices | src/open_clip_vit_b32/feature_extraction_server/models/open_clip_vit_b32.py:89-95 | `uncached_indices` are in range, each names a missing key, and they are strictly increasing; that every missing position appears is MissIndicesCover |
| BatchedEmbedding.MissIndicesCover | src/open_clip_vit_b32/feature_extraction_server/models/open_clip_vit_b32.py:89-95 | every position whose key misses is recorded in `uncached_indices` |
| BatchedEmbedding.Assemble | src/open_clip_vit_b32/feature_extraction_server/models/open_clip_vit_b32.py:85-108 | the result has one slot per input item |
| BatchedEmbedding.AssembleHit | src/open_clip_vit_b32/feature_extraction_server/models/open_clip_vit_b32.py:91-92 | a slot whose key hits holds the value the cache had for it |
| BatchedEmbedding.AssembleMiss | src/open_clip_vit_b32/feature_extraction_server/models/open_clip_vit_b32.py:105-108 | the i-th miss, at `uncached_indices[i]`, holds the i-th computed embedding |
| BatchedEmbedding.AssembleSlots | src/open_clip_vit_b32/feature_extraction_server/models/open_clip_vit_b32.py:85-108 | any list that has a hit's cached value in each hit slot and the paired computed value in each miss slot is the result |
| BatchedEmbedding.HitSlots | src/open_clip_vit_b32/feature_extraction_server/models/open_clip_vit_b32.py:85-92 | after the first pass a slot is filled iff its key hit |
| BatchedEmbedding.FirstPassStep | src/open_clip_vit_b32/feature_extraction_server/models/open_clip_vit_b32.py:89-95 | one more item of the first pass is one more `cache_get`, plus one more recorded index when it missed |
| BatchedEmbedding.AppendGet | src/open_clip_vit_b32/feature_extraction_server/models/open_clip_vit_b32.py:89-90 | one more item in the first pass is one more `cache_get` on its key |
| BatchedEmbedding.AppendHit | src/open_clip_vit_b32/feature_extraction_server/models/open_clip_vit_b32.py:89-92 | one more item that hits adds no miss and appends the cached value to the result |
| BatchedEmbedding.AppendMiss | src/open_clip_vit_b32/feature_extraction_server/models/open_clip_vit_b32.py:89-108 | one more item that misses is recorded at its position and its slot takes the next computed embedding |
| BatchedEmbedding.FirstPassAdvance | src/open_clip_vit_b32/feature_extraction_server/models/open_clip_vit_b32.py:89-95 | one more item of the first pass fills its slot on a hit, or appends the item and its index to the miss lists |
| BatchedEmbedding.LookUpAll | src/open_clip_vit_b32/feature_extraction_server/models/open_clip_vit_b32.py:85-95 | the first pass leaves the cache refreshed by every key in order, fills exactly the hit slots, and records the missed items and their indices |
| BatchedEmbedding.StoreComputed | src/open_clip_vit_b32/feature_extraction_server/models/open_clip_vit_b32.py:105-108 | the second pass applies `cache_set(key, embedding)` for each miss in index order, writes each embedding at its index and leaves every other slot alone; it fails iff there is a miss and maxsize < 1 |
| BatchedEmbedding.SetManyStep | src/open_clip_vit_b32/feature_extraction_server/models/open_clip_vit_b32.py:105-107 | one more iteration of the second loop is one more `cache_set` |
| BatchedEmbedding.FillStep | src/open_clip_vit_b32/feature_extraction_server/models/open_clip_vit_b32.py:105-108 | writing the i-th embedding at `uncached_indices[i]` keeps the earlier ones and leaves every slot outside `uncached_indices` untouched |
| BatchedEmbedding.BatchedEmbedding | src/open_clip_vit_b32/feature_extraction_server/models/open_clip_vit_b32.py:84-112 | the model is called once on exactly the missed items in order, or not at all when nothing misses; the result has one slot per item, each hit slot holding the cached value and the i-th miss the i-th computed embedding; the cache ends as the first pass's refreshes followed by `cache_set` per miss |
| BatchedEmbedding.Unwrap | src/open_clip_vit_b32/feature_extraction_server/models/open_clip_vit_b32.py:108-112 | a list whose every slot is filled gives one value per slot |
| BatchedEmbedding.SlotsFilled | src/open_clip_vit_b32/feature_extraction_server/models/open_clip_vit_b32.py:85-108 | after both passes no slot is left None, and the values are exactly the result the single-pass reading gives |
| BatchedEmbedding.AssembleAll | src/open_clip_vit_b32/feature_extraction_server/models/open_clip_vit_b32.py:85-108 | every hit slot holds the cached value and the i-th miss slot the i-th computed embedding |
| BatchedEmbedding.AfterBatch | src/open_clip_vit_b32/feature_extraction_server/models/open_clip_vit_b32.py:89-108 | the cache after a batch: it exists whenever maxsize >= 1, keeps the capacity, and is only the first pass's refresh when nothing misses |
| BatchedEmbedding.AllHits | src/open_clip_vit_b32/feature_extraction_server/models/open_clip_vit_b32.py:97 | an empty or all-hit batch computes nothing, only refreshes recency and returns the cached values |
| BatchedEmbedding.SingleHit | src/open_clip_vit_b32/feature_extraction_server/models/open_clip_vit_b32.py:89-97 | a one-item batch that hits computes nothing, returns the cached value and only refreshes recency |
| BatchedEmbedding.SingleMiss | src/open_clip_vit_b32/feature_extraction_server/models/open_clip_vit_b32.py:89-108 | a one-item batch that misses returns its computed embedding and stores it with `cache_set` |
| BatchedEmbedding.RepeatSingle | src/open_clip_vit_b32/feature_extraction_server/models/open_clip_vit_b32.py:84-112 | embedding the same single item twice: the second call misses nothing and returns what the first returned |
| BatchedEmbedding.PartialHitBatch | src/open_clip_vit_b32/feature_extraction_server/models/open_clip_vit_b32.py:84-112 | for keys a != b, capacity 2 with only a cached, batch [a, b, a]: only b is computed, the result is [a's value, b's, a's], and the cache ends as a, b |
| BatchedEmbedding.DuplicateMissBatch | src/open_clip_vit_b32/feature_extraction_server/models/open_clip_vit_b32.py:84-112 | empty cache, batch [x, x]: both are computed, each slot gets its own embedding, and the cache keeps one entry for x holding the second |
| BatchedEmbedding.VerbatimKeys | src/open_clip_vit_b32/feature_extraction_server/models/open_clip_vit_b32.py:89-90 | the text cache is keyed by the text itself |
| BatchedEmbedding.OpenClipVitB32.constructor | src/open_clip_vit_b32/feature_extraction_server/models/open_clip_vit_b32.py:73-75 | two distinct empty caches of capacity 100, a capacity `Valid` keeps |
| BatchedEmbedding.OpenClipVitB32.BatchedTextEmbedding | src/open_clip_vit_b32/feature_extraction_server/models/open_clip_vit_b32.py:84-112 | the batch contract with key = the text, touching only the text cache; it always succeeds with one embedding per text, since the capacity is 100 |
| BatchedEmbedding.OpenClipVitB32.BatchedImageEmbedding | src/open_clip_vit_b32/feature_extraction_server/models/open_clip_vit_b32.py:114-148 | the batch contract with key = `serialize_image`, touching only the image cache; it always succeeds with one embedding per image, since the capacity is 100 |
| Utils.Batch | utils.py:32-35 | raises iff n == 0; a negative n yields nothing |
| Utils.Chunks | utils.py:34-35 | the generator yields nothing exactly when the start offset is past the end (sizes, count and contents in ChunksSizes, ChunksCount and ChunksFlatten) |
| Utils.ChunksFlatten | utils.py:34-35 | the slices from a start offset, laid end to end, are the rest of the input |
| Utils.BatchConcat | utils.py:32-35 | concatenating the chunks gives back the input exactly |
| Utils.ChunksSizes | utils.py:34-35 | every slice has length n except the last, whose length is between 1 and n |
| Utils.ChunksCount | utils.py:34 | the number of slices from a start offset is the ceiling of the remaining length over n |
| Utils.BatchChunks | utils.py:32-35 | ceil(len/n) chunks, none exactly when the input is empty, all of length n except the last of length 1..n |
| Utils.PrepareText | utils.py:24-30 | the flag is true iff the input was a list; a single string becomes a one-element list |
| Utils.PrepareTextRoundTrip | utils.py:24-30 | the list and the flag together give back the input: a list unchanged, a string as `[s]` with flag false |
| Utils.IndexOf | utils.py:16 | the position of the first occurrence of a character, or None iff it does not occur |
| Utils.AfterFirstComma | utils.py:16 | `split(',', 1)[1]` raises iff there is no comma |
| Utils.StripDataPrefix | utils.py:15-16 | strings without the prefix pass unchanged; with it, stripping raises iff there is no comma |
| Utils.StripShape | utils.py:15-16 | a stripped string was a comma-free header, a comma and the result |
| Utils.StripDataUrl | utils.py:15-16 | a header starting with the prefix and free of commas, a comma and a payload strip to exactly the payload, commas in the payload included |
| Utils.DecodeOne | utils.py:15-21 | a string without the prefix is decoded as it is; one with the prefix but no comma fails |
| Utils.DecodeAll | utils.py:14-21 | one decoded output per input string, in order; it fails iff some string fails to strip or decode |
| Utils.PrepareImages | utils.py:7-22 | decodes the `data:image`-stripped strings one per input in order; the flag is true iff the input was a list |
| Utils.PrepareAudio | utils.py:37-56 | decodes the `data:audio`-stripped strings one per input in order; the flag is true iff the input was a list |

## Left out

- Model loading, tokenisers, preprocessing transforms and CUDA/CPU selection
  (`_load_model` apart from the two caches, `is_cuda_available`). These are
  foreign library calls and hardware probing.
- Tokenising, preprocessing, the forward pass and L2 normalisation are one
  abstract function per modality (`encodeText`, `encodeImage`), because they
  are floating-point numerics in foreign code.
- The MD5 digest in `serialize_image` is the abstract function
  `serializeImage`. Re-deriving the key when storing gives the same key,
  because it is the same function of the same item.
- `batched_zero_shot_image_classification` is a matrix product and a softmax
  over floats.
- `gc.collect()` and logging have no effect on the values modelled.
- Base64 decoding, `Image.open` / `convert` and `soundfile.read` are the
  abstract `decode` parameter, which returns None where it would raise. The
  decoded values are opaque.
- `feature_extraction_server/models/blip2.py` is not part of this model. It
  loads a model at import time and runs generation; its only logic is a call
  to `batch`.
- Python's dynamic typing: `prepare_*` accept a string or a list of strings
  (`StrOrList`); other argument types are not modelled.
- BatchedEmbedding.BatchedEmbedding requires the model call to return one
  embedding per input. The source indexes `text_features_list[i]` for every
  miss, so a shorter output would raise `IndexError`; that failure is not
  modelled. The same holds for OpenClipVitB32.BatchedTextEmbedding and
  OpenClipVitB32.BatchedImageEmbedding through the `Valid` predicate.
- BatchedEmbedding.BatchedEmbedding does not model an exception from the
  model call itself: the cache is then left refreshed but without the new
  entries. A failure of `cache_set` is modelled.
- BatchedEmbedding.OpenClipVitB32.BatchedTextEmbedding and
  BatchedEmbedding.OpenClipVitB32.BatchedImageEmbedding return the list of
  embeddings, not the `{"embedding": ...}` dictionary around it.
- LruModel.Get treats "hit" as "key present". The source tests
  `cached_result is not None`, which would also treat a stored `None` as a
  miss; embeddings are never `None`, so the two agree.
- Utils.Batch returns the chunks as a whole sequence, not lazily. A Python
  generator raises the `ValueError` for n == 0 only when first iterated.
- Arbitrary-precision integers: Python's `len` and indices are unbounded too,
  so no wrap-around is involved.
